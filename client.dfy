/**
 * `Client::scrape`: fetch the page for a pair of path segments, treat a
 * missing page as an empty table, and turn every body row of the version
 * table into a record of its first two cells.
 */
module Client {
  import opened Wrappers
  import opened Strings
  import opened Names

  /** One entry of the version table: a distribution and its packaged version. */
  datatype Version = Version(distribution: string, version: string)

  /**
   * A row matched by `table#version-table > tbody > tr`, given as the
   * concatenated text of each of its child elements, in document order.
   */
  datatype Row = Row(children: seq<string>)

  /**
   * What the server answered for one request: no answer at all (connection
   * or body-read failure), or a status code together with the rows the
   * body's version table holds (none when the page has no such table).
   */
  datatype Reply = TransportFailure | Response(status: nat, rows: seq<Row>)

  /** The errors `scrape` propagates. */
  datatype Error = Transport | HttpStatus(status: nat)

  const NotFound: nat := 404

  /** Client errors (4xx) and server errors (5xx) are refused by `error_for_status`. */
  predicate IsErrorStatus(status: nat)
  {
    400 <= status < 600
  }

  /** The record a row yields: one exactly when it has two children or more. */
  function RowRecord(row: Row): (r: Option<Version>)
    ensures r.Some? <==> |row.children| >= 2
    ensures r.Some? ==> Trimmed(r.value.distribution) && Trimmed(r.value.version)
  {
    if |row.children| >= 2 then
      Some(Version(Trim(row.children[0]), Trim(row.children[1])))
    else
      None
  }

  /** Children after the second never affect the record. */
  lemma RowRecordIgnoresExtraChildren(a: Row, b: Row)
    requires |a.children| >= 2 && |b.children| >= 2
    requires a.children[..2] == b.children[..2]
    ensures RowRecord(a) == RowRecord(b)
  {
    assert a.children[0] == a.children[..2][0] && a.children[1] == a.children[..2][1];
    assert b.children[0] == b.children[..2][0] && b.children[1] == b.children[..2][1];
  }

  /** The fields of a record are its cells' texts, trimmed; trimming them again changes nothing. */
  lemma RowRecordFields(row: Row)
    requires |row.children| >= 2
    ensures RowRecord(row).value.distribution == Trim(row.children[0])
    ensures RowRecord(row).value.version == Trim(row.children[1])
    ensures Trim(RowRecord(row).value.distribution) == RowRecord(row).value.distribution
    ensures Trim(RowRecord(row).value.version) == RowRecord(row).value.version
  {
    TrimIdempotent(row.children[0]);
    TrimIdempotent(row.children[1]);
  }

  /** Number of items `f` yields a value for. */
  function CountSome<T, U>(items: seq<T>, f: T -> Option<U>): (n: nat)
    ensures n <= |items|
  {
    if items == [] then 0
    else (if f(items[0]).Some? then 1 else 0) + CountSome(items[1..], f)
  }

  /**
   * `items.flat_map(f).collect()` for an `f` that yields at most one value
   * per item: the values, in item order, one per item that yields one.
   */
  function FlatMap<T, U>(items: seq<T>, f: T -> Option<U>): (r: seq<U>)
    ensures |r| == CountSome(items, f)
  {
    if items == [] then []
    else
      var head := match f(items[0]) case Some(v) => [v] case None => [];
      head + FlatMap(items[1..], f)
  }

  /** The values for a concatenation are the concatenated values. */
  lemma {:induction false} FlatMapAppend<T, U>(a: seq<T>, b: seq<T>, f: T -> Option<U>)
    ensures FlatMap(a + b, f) == FlatMap(a, f) + FlatMap(b, f)
  {
    if a == [] {
      assert a + b == b;
    } else {
      assert (a + b)[0] == a[0];
      assert (a + b)[1..] == a[1..] + b;
      FlatMapAppend(a[1..], b, f);
    }
  }

  /** A value is collected exactly when some item yields it. */
  lemma {:induction false} FlatMapMembership<T, U>(items: seq<T>, f: T -> Option<U>, v: U)
    ensures v in FlatMap(items, f) <==> exists i :: 0 <= i < |items| && f(items[i]) == Some(v)
  {
    if items != [] {
      var tail := items[1..];
      FlatMapMembership(tail, f, v);
      if v in FlatMap(items, f) && f(items[0]) != Some(v) {
        assert v in FlatMap(tail, f);
        var i :| 0 <= i < |tail| && f(tail[i]) == Some(v);
        assert f(items[i + 1]) == Some(v);
      }
      if exists i :: 0 <= i < |items| && f(items[i]) == Some(v) {
        var i :| 0 <= i < |items| && f(items[i]) == Some(v);
        if i > 0 {
          assert f(tail[i - 1]) == Some(v);
        }
      }
    }
  }

  /** The value of item `i` sits at the position given by the number of items before it that yield one. */
  lemma {:induction false} FlatMapAt<T, U>(items: seq<T>, f: T -> Option<U>, i: nat)
    requires i < |items| && f(items[i]).Some?
    ensures CountSome(items[..i], f) < |FlatMap(items, f)|
    ensures FlatMap(items, f)[CountSome(items[..i], f)] == f(items[i]).value
  {
    var tail := items[1..];
    if i == 0 {
      assert items[..0] == [];
    } else {
      FlatMapAt(tail, f, i - 1);
      assert items[..i][0] == items[0] && items[..i][1..] == tail[..i - 1];
      assert tail[i - 1] == items[i];
    }
  }

  /** Before a later item there are strictly more value-yielding items than before an earlier one that yields. */
  lemma {:induction false} CountSomeGrows<T, U>(items: seq<T>, f: T -> Option<U>, i: nat, j: nat)
    requires i < j <= |items| && f(items[i]).Some?
    ensures CountSome(items[..i], f) < CountSome(items[..j], f)
  {
    var tail := items[1..];
    assert items[..j][0] == items[0] && items[..j][1..] == tail[..j - 1];
    if i == 0 {
      assert items[..0] == [];
    } else {
      assert items[..i][0] == items[0] && items[..i][1..] == tail[..i - 1];
      CountSomeGrows(tail, f, i - 1, j - 1);
    }
  }

  /** Number of rows with at least two children. */
  function CompleteRows(rows: seq<Row>): nat
  {
    if rows == [] then 0
    else (if |rows[0].children| >= 2 then 1 else 0) + CompleteRows(rows[1..])
  }

  /**
   * The iterator chain over the selected rows: one record per row with two
   * children or more, in row order.
   */
  function ExtractRecords(rows: seq<Row>): (r: seq<Version>)
    ensures |r| <= |rows|
  {
    FlatMap(rows, RowRecord)
  }

  /** Exactly one record per row with at least two children. */
  lemma {:induction false} ExtractCount(rows: seq<Row>)
    ensures |ExtractRecords(rows)| == CompleteRows(rows)
  {
    if rows != [] {
      ExtractCount(rows[1..]);
    }
  }

  /** A record is extracted exactly when some row yields it. */
  lemma ExtractMembership(rows: seq<Row>, v: Version)
    ensures v in ExtractRecords(rows) <==> exists i :: 0 <= i < |rows| && RowRecord(rows[i]) == Some(v)
  {
    FlatMapMembership(rows, RowRecord, v);
  }

  /** Every extracted field is trimmed. */
  lemma ExtractTrimmed(rows: seq<Row>)
    ensures forall v :: v in ExtractRecords(rows) ==> Trimmed(v.distribution) && Trimmed(v.version)
  {
    forall v | v in ExtractRecords(rows)
      ensures Trimmed(v.distribution) && Trimmed(v.version)
    {
      ExtractMembership(rows, v);
    }
  }

  /** Extraction goes row by row: the records of a concatenation are the concatenated records. */
  lemma ExtractAppend(a: seq<Row>, b: seq<Row>)
    ensures ExtractRecords(a + b) == ExtractRecords(a) + ExtractRecords(b)
  {
    FlatMapAppend(a, b, RowRecord);
  }

  /** Records keep the order of their rows. */
  lemma ExtractKeepsRowOrder(rows: seq<Row>, i: nat, j: nat)
    requires i < j < |rows|
    requires |rows[i].children| >= 2 && |rows[j].children| >= 2
    ensures exists k, l :: 0 <= k < l < |ExtractRecords(rows)|
              && ExtractRecords(rows)[k] == RowRecord(rows[i]).value
              && ExtractRecords(rows)[l] == RowRecord(rows[j]).value
  {
    FlatMapAt(rows, RowRecord, i);
    FlatMapAt(rows, RowRecord, j);
    CountSomeGrows(rows, RowRecord, i, j);
    var k, l := CountSome(rows[..i], RowRecord), CountSome(rows[..j], RowRecord);
    assert ExtractRecords(rows)[k] == RowRecord(rows[i]).value;
    assert ExtractRecords(rows)[l] == RowRecord(rows[j]).value;
  }

  /**
   * `Client::scrape(p, s)` once the request for the segments `p` and `s`
   * has been answered by `fetch`: a 404 is an empty list, a transport
   * failure or any other 4xx/5xx status is an error, every other answer
   * yields the records extracted from the page's rows.
   */
  function Scrape(fetch: Target -> Reply, p: string, s: string): (r: Result<seq<Version>, Error>)
    ensures fetch(Target(p, s)).TransportFailure? ==> r == Failure(Transport)
    ensures fetch(Target(p, s)).Response? ==>
              var status := fetch(Target(p, s)).status;
              && (status == NotFound ==> r == Success([]))
              && (status != NotFound && IsErrorStatus(status) ==> r == Failure(HttpStatus(status)))
              && (!IsErrorStatus(status) ==> r == Success(ExtractRecords(fetch(Target(p, s)).rows)))
  {
    match fetch(Target(p, s))
    case TransportFailure => Failure(Transport)
    case Response(status, rows) =>
      if status == NotFound then Success([])
      else if IsErrorStatus(status) then Failure(HttpStatus(status))
      else Success(ExtractRecords(rows))
  }

  /** A page that lacks the version table is an empty list, never an error. */
  lemma ScrapeWithoutTable(fetch: Target -> Reply, p: string, s: string)
    requires fetch(Target(p, s)).Response? && !IsErrorStatus(fetch(Target(p, s)).status)
    requires fetch(Target(p, s)).rows == []
    ensures Scrape(fetch, p, s) == Success([])
  {
  }
}
