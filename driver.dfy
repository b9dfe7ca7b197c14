/**
 * The line loop of `main`: split each input line, fetch the package's
 * page, keep the Fedora Rawhide entries and count the packages that have
 * none. A scrape error ends the whole run.
 */
module Driver {
  import opened Wrappers
  import opened Strings
  import opened Names
  import opened Client

  /** The distribution whose entry is looked for; compared exactly, case included. */
  const TargetDistribution: string := "Fedora Rawhide"

  /** The records `retain` keeps: those of the target distribution, in their order. */
  function Rawhide(records: seq<Version>): (r: seq<Version>)
    ensures |r| <= |records|
    ensures forall k :: 0 <= k < |r| ==> r[k].distribution == TargetDistribution
  {
    if records == [] then []
    else
      (if records[0].distribution == TargetDistribution then [records[0]] else [])
      + Rawhide(records[1..])
  }

  /** A record is kept exactly when it was there and names the target distribution. */
  lemma {:induction false} RawhideMembership(records: seq<Version>, v: Version)
    ensures v in Rawhide(records) <==> v in records && v.distribution == TargetDistribution
  {
    if records != [] {
      RawhideMembership(records[1..], v);
      assert records == [records[0]] + records[1..];
    }
  }

  /** Filtering goes record by record: it distributes over concatenation. */
  lemma {:induction false} RawhideAppend(a: seq<Version>, b: seq<Version>)
    ensures Rawhide(a + b) == Rawhide(a) + Rawhide(b)
  {
    if a == [] {
      assert a + b == b;
    } else {
      assert (a + b)[0] == a[0];
      assert (a + b)[1..] == a[1..] + b;
      RawhideAppend(a[1..], b);
    }
  }

  /** `a` is `b` with some elements removed, the rest kept in order. */
  ghost predicate IsSubsequence(a: seq<Version>, b: seq<Version>)
    decreases |b|
  {
    || a == []
    || (b != [] && a[0] == b[0] && IsSubsequence(a[1..], b[1..]))
    || (b != [] && IsSubsequence(a, b[1..]))
  }

  /** `retain` only removes records; it never reorders them. */
  lemma {:induction false} RawhideIsSubsequence(records: seq<Version>)
    ensures IsSubsequence(Rawhide(records), records)
  {
    if records != [] {
      RawhideIsSubsequence(records[1..]);
      if records[0].distribution == TargetDistribution {
        assert Rawhide(records)[1..] == Rawhide(records[1..]);
      } else {
        assert Rawhide(records) == Rawhide(records[1..]);
      }
    }
  }

  /**
   * `result.retain(|item| item.distribution == "Fedora Rawhide")`: the kept
   * records are moved to the front of the buffer, in order, and their number
   * is the new length of the vector.
   */
  method RetainRawhide(buf: array<Version>) returns (len: nat)
    modifies buf
    ensures len <= buf.Length
    ensures buf[..len] == Rawhide(old(buf[..]))
  {
    ghost var original := buf[..];
    var kept, i := 0, 0;
    while i < buf.Length
      invariant 0 <= kept <= i <= buf.Length
      invariant buf[..kept] == Rawhide(original[..i])
      invariant forall k :: i <= k < buf.Length ==> buf[k] == original[k]
    {
      var item := buf[i];
      assert original[..i + 1] == original[..i] + [item];
      RawhideAppend(original[..i], [item]);
      if item.distribution == TargetDistribution {
        assert Rawhide([item]) == [item];
        ghost var before := buf[..kept];
        buf[kept] := item;
        assert buf[..kept + 1] == before + [item];
        kept := kept + 1;
      } else {
        assert Rawhide([item]) == [];
      }
      i := i + 1;
    }
    assert original[..buf.Length] == original;
    len := kept;
  }

  /** What one input line amounts to. */
  datatype LineResult =
    | Skipped
    | Checked(package: string, kept: seq<Version>)
    | Failed(error: Error)

  /**
   * One iteration of the loop body: a line without a space is skipped;
   * otherwise the package is the text before the first space, its page is
   * scraped, and the target distribution's records are kept.
   */
  function Step(line: string, fetch: Target -> Reply): (r: LineResult)
    ensures r.Skipped? <==> ' ' !in line
    ensures r.Checked? ==>
              && ' ' !in r.package
              && |r.package| < |line| && line[..|r.package|] == r.package && line[|r.package|] == ' '
              && forall k :: 0 <= k < |r.kept| ==> r.kept[k].distribution == TargetDistribution
  {
    match SplitOnce(line)
    case None => Skipped
    case Some((c, _)) =>
      var t := Derive(c);
      match Scrape(fetch, t.primary, t.secondary)
      case Failure(e) => Failed(e)
      case Success(records) => Checked(c, Rawhide(records))
  }

  /**
   * The answer to one line depends on the fetcher only through the page of
   * the line's package: a line without a space consults it not at all.
   */
  lemma StepFetchesOnlyDerivedTarget(line: string, f: Target -> Reply, g: Target -> Reply)
    requires forall c, v :: SplitOnce(line) == Some((c, v)) ==> f(Derive(c)) == g(Derive(c))
    ensures Step(line, f) == Step(line, g)
  {
  }

  /** A package whose page is not found counts as checked with nothing kept. */
  lemma StepOnNotFound(c: string, v: string, fetch: Target -> Reply)
    requires ' ' !in c
    requires fetch(Derive(c)).Response? && fetch(Derive(c)).status == NotFound
    ensures Step(c + " " + v, fetch) == Checked(c, [])
  {
    SplitOnceJoin(c, v);
  }

  /** Any other client or server error status fails the line with that status. */
  lemma StepOnErrorStatus(c: string, v: string, fetch: Target -> Reply)
    requires ' ' !in c
    requires fetch(Derive(c)).Response?
    requires fetch(Derive(c)).status != NotFound && IsErrorStatus(fetch(Derive(c)).status)
    ensures Step(c + " " + v, fetch) == Failed(HttpStatus(fetch(Derive(c)).status))
  {
    SplitOnceJoin(c, v);
  }

  /** A failed request fails the line, so the run aborts. */
  lemma StepOnTransportFailure(c: string, v: string, fetch: Target -> Reply)
    requires ' ' !in c
    requires fetch(Derive(c)).TransportFailure?
    ensures Step(c + " " + v, fetch) == Failed(Transport)
  {
    SplitOnceJoin(c, v);
  }

  /** A page that loads keeps exactly the target rows of its table, in order. */
  lemma StepOnPage(c: string, v: string, fetch: Target -> Reply)
    requires ' ' !in c
    requires fetch(Derive(c)).Response? && !IsErrorStatus(fetch(Derive(c)).status)
    ensures Step(c + " " + v, fetch) == Checked(c, Rawhide(ExtractRecords(fetch(Derive(c)).rows)))
  {
    SplitOnceJoin(c, v);
  }

  /** The loop body with the fetcher fixed. */
  function Handler(fetch: Target -> Reply): string -> LineResult
  {
    line => Step(line, fetch)
  }

  /** A log entry of the loop: the warning for a missing package, or the records found. */
  datatype Report = Missing(package: string) | Found(package: string, records: seq<Version>)

  /** How `main` ends: with the final missing count, or with the propagated error. */
  datatype Outcome = Completed(missing: nat) | Aborted(error: Error)

  /** The reports logged, in order, and how the run ended. */
  datatype Run = Run(reports: seq<Report>, outcome: Outcome)

  function MissingCount(reports: seq<Report>): (n: nat)
    ensures n <= |reports|
  {
    if reports == [] then 0
    else (if reports[0].Missing? then 1 else 0) + MissingCount(reports[1..])
  }

  /**
   * The loop from a given point on, with `missing` counted so far and
   * `handle` as the loop body. The input is what `stdin().lines()` yields: a
   * line, or None for a read error, at which the loop stops as it does at
   * the end of input. The count goes up once per checked line that kept
   * nothing, and at most once per line.
   */
  function Process(input: seq<Option<string>>, handle: string -> LineResult, missing: nat): (r: Run)
    ensures |r.reports| <= |input|
    ensures r.outcome.Completed? ==> r.outcome.missing == missing + MissingCount(r.reports)
    decreases |input|
  {
    if input == [] || input[0].None? then Run([], Completed(missing))
    else
      match handle(input[0].value)
      case Skipped => Process(input[1..], handle, missing)
      case Failed(e) => Run([], Aborted(e))
      case Checked(c, kept) =>
        var report := if kept == [] then Missing(c) else Found(c, kept);
        var rest := Process(input[1..], handle, if kept == [] then missing + 1 else missing);
        assert ([report] + rest.reports)[1..] == rest.reports;
        Run([report] + rest.reports, rest.outcome)
  }

  /**
   * The whole run of `main` over the lines of standard input, with the
   * count starting at zero: a completed run counts exactly its missing
   * reports.
   */
  function MainLoop(input: seq<Option<string>>, fetch: Target -> Reply): (r: Run)
    ensures |r.reports| <= |input|
    ensures r.outcome.Completed? ==> r.outcome.missing == MissingCount(r.reports)
  {
    Process(input, Handler(fetch), 0)
  }

  /** The final count never exceeds the number of input lines. */
  lemma MissingAtMostLines(input: seq<Option<string>>, fetch: Target -> Reply)
    requires MainLoop(input, fetch).outcome.Completed?
    ensures MainLoop(input, fetch).outcome.missing <= |input|
  {
  }

  /** A found report lists only target records, and at least one. */
  predicate WellFormed(report: Report)
  {
    report.Found? ==>
      report.records != [] &&
      forall k :: 0 <= k < |report.records| ==> report.records[k].distribution == TargetDistribution
  }

  /** A line answer that keeps only target records, if it keeps any. */
  predicate KeepsOnlyTarget(r: LineResult)
  {
    r.Checked? ==>
      forall k :: 0 <= k < |r.kept| ==> r.kept[k].distribution == TargetDistribution
  }

  /** A loop body that keeps only target records yields only well-formed reports. */
  lemma {:induction false} ProcessReportsWellFormed(input: seq<Option<string>>, handle: string -> LineResult, missing: nat)
    requires forall line :: KeepsOnlyTarget(handle(line))
    ensures forall k :: 0 <= k < |Process(input, handle, missing).reports| ==>
              WellFormed(Process(input, handle, missing).reports[k])
    decreases |input|
  {
    if input != [] && input[0].Some? {
      assert KeepsOnlyTarget(handle(input[0].value));
      match handle(input[0].value)
      case Skipped =>
        ProcessReportsWellFormed(input[1..], handle, missing);
      case Failed(_) =>
      case Checked(c, kept) =>
        ProcessReportsWellFormed(input[1..], handle, if kept == [] then missing + 1 else missing);
    }
  }

  /** Every report of `main` names a missing package or lists target records, at least one. */
  lemma ReportsWellFormed(input: seq<Option<string>>, fetch: Target -> Reply)
    ensures forall k :: 0 <= k < |MainLoop(input, fetch).reports| ==>
              WellFormed(MainLoop(input, fetch).reports[k])
  {
    forall line ensures KeepsOnlyTarget(Handler(fetch)(line)) {
      assert Handler(fetch)(line) == Step(line, fetch);
    }
    ProcessReportsWellFormed(input, Handler(fetch), 0);
  }

  function Prepend(reports: seq<Report>, run: Run): Run
  {
    Run(reports + run.reports, run.outcome)
  }

  lemma PrependTwice(first: seq<Report>, second: seq<Report>, run: Run)
    ensures Prepend(first, Prepend(second, run)) == Prepend(first + second, run)
  {
    assert first + (second + run.reports) == (first + second) + run.reports;
  }

  /**
   * The loop seen from line `i`: what that line amounts to decides how the
   * rest goes on; the count goes up by one exactly when the line was checked
   * and nothing was kept.
   */
  lemma ProcessAt(input: seq<Option<string>>, i: nat, handle: string -> LineResult, missing: nat)
    requires i < |input| && input[i].Some?
    ensures Process(input[i..], handle, missing) ==
              match handle(input[i].value)
              case Skipped => Process(input[i + 1..], handle, missing)
              case Failed(e) => Run([], Aborted(e))
              case Checked(c, kept) =>
                if kept == [] then Prepend([Missing(c)], Process(input[i + 1..], handle, missing + 1))
                else Prepend([Found(c, kept)], Process(input[i + 1..], handle, missing))
  {
    assert input[i..][0] == input[i] && input[i..][1..] == input[i + 1..];
  }

  /** Every line of `input` was read successfully. */
  predicate AllRead(input: seq<Option<string>>)
  {
    forall k :: 0 <= k < |input| ==> input[k].Some?
  }

  /**
   * The loop over two stretches of input is the loop over the first, then,
   * unless it aborted, the loop over the second with the count reached so
   * far. After an abort no further line is looked at.
   */
  lemma {:induction false} ProcessAppend(a: seq<Option<string>>, b: seq<Option<string>>, handle: string -> LineResult, missing: nat)
    requires AllRead(a)
    ensures Process(a + b, handle, missing) ==
              match Process(a, handle, missing).outcome
              case Aborted(_) => Process(a, handle, missing)
              case Completed(count) => Prepend(Process(a, handle, missing).reports, Process(b, handle, count))
  {
    if a == [] {
      assert a + b == b;
    } else {
      assert (a + b)[0] == a[0];
      assert (a + b)[1..] == a[1..] + b;
      match handle(a[0].value)
      case Skipped =>
        ProcessAppend(a[1..], b, handle, missing);
        assert Process(a + b, handle, missing) == Process(a[1..] + b, handle, missing);
        assert Process(a, handle, missing) == Process(a[1..], handle, missing);
      case Failed(_) =>
      case Checked(c, kept) =>
        var report := if kept == [] then Missing(c) else Found(c, kept);
        var next := if kept == [] then missing + 1 else missing;
        var rest := Process(a[1..], handle, next);
        ProcessAppend(a[1..], b, handle, next);
        assert Process(a + b, handle, missing) == Prepend([report], Process(a[1..] + b, handle, next));
        assert Process(a, handle, missing) == Prepend([report], rest);
        if rest.outcome.Completed? {
          PrependTwice([report], rest.reports, Process(b, handle, rest.outcome.missing));
        }
    }
  }

  /** A read error ends the loop: nothing after it is read or fetched. */
  lemma {:induction false} ProcessStopsAtReadError(a: seq<Option<string>>, b: seq<Option<string>>, handle: string -> LineResult, missing: nat)
    requires AllRead(a)
    ensures Process(a + [None] + b, handle, missing) == Process(a, handle, missing)
  {
    if a == [] {
      assert a + [None] + b == [None] + b;
    } else {
      assert (a + [None] + b)[0] == a[0];
      assert (a + [None] + b)[1..] == a[1..] + [None] + b;
      match handle(a[0].value)
      case Skipped =>
        ProcessStopsAtReadError(a[1..], b, handle, missing);
      case Failed(_) =>
      case Checked(c, kept) =>
        ProcessStopsAtReadError(a[1..], b, handle, if kept == [] then missing + 1 else missing);
    }
  }

  /** Line `i` is the first line that fails, with error `e`, and all lines before it were read. */
  ghost predicate FirstFailure(input: seq<Option<string>>, handle: string -> LineResult, i: nat, e: Error)
  {
    && i < |input|
    && input[i].Some?
    && handle(input[i].value) == Failed(e)
    && forall k :: 0 <= k < i ==> input[k].Some? && !handle(input[k].value).Failed?
  }

  /** The run aborts with `e` exactly when some line is the first to fail with `e`. */
  lemma {:induction false} AbortsIffFirstFailure(input: seq<Option<string>>, handle: string -> LineResult, missing: nat, e: Error)
    ensures Process(input, handle, missing).outcome == Aborted(e) <==> exists i: nat :: FirstFailure(input, handle, i, e)
    decreases |input|
  {
    if input == [] || input[0].None? {
      forall i: nat
        ensures !FirstFailure(input, handle, i, e)
      {
      }
    } else {
      var tail := input[1..];
      var step := handle(input[0].value);
      if step.Failed? {
        if step.error == e {
          assert FirstFailure(input, handle, 0, e);
        } else {
          forall i: nat
            ensures !FirstFailure(input, handle, i, e)
          {
          }
        }
      } else {
        var next := if step.Checked? && step.kept == [] then missing + 1 else missing;
        assert Process(input, handle, missing).outcome == Process(tail, handle, next).outcome;
        AbortsIffFirstFailure(tail, handle, next, e);
        if exists j: nat :: FirstFailure(tail, handle, j, e) {
          var j: nat :| FirstFailure(tail, handle, j, e);
          forall k | 0 <= k < j + 1
            ensures input[k].Some? && !handle(input[k].value).Failed?
          {
            if k > 0 {
              assert input[k] == tail[k - 1];
            }
          }
          assert FirstFailure(input, handle, j + 1, e);
        }
        if exists i: nat :: FirstFailure(input, handle, i, e) {
          var i: nat :| FirstFailure(input, handle, i, e);
          assert i != 0;
          forall k | 0 <= k < i - 1
            ensures tail[k].Some? && !handle(tail[k].value).Failed?
          {
            assert tail[k] == input[k + 1];
          }
          assert FirstFailure(tail, handle, i - 1, e);
        }
      }
    }
  }

  /**
   * The body of `main`'s loop for one line read: split it, derive the
   * package's segments, scrape them and retain the target records.
   */
  method CheckLine(line: string, fetch: Target -> Reply) returns (r: LineResult)
    ensures r == Step(line, fetch)
  {
    var split := SplitOnce(line);
    if split.None? {
      return Skipped;
    }
    var c := split.value.0;
    var t := Derive(c);
    var scraped := Scrape(fetch, t.primary, t.secondary);
    if scraped.Failure? {
      return Failed(scraped.error);
    }
    var records := scraped.value;
    assert Step(line, fetch) == Checked(c, Rawhide(records));
    var buf := new Version[|records|](k requires 0 <= k < |records| => records[k]);
    assert buf[..] == records;
    var len := RetainRawhide(buf);
    r := Checked(c, buf[..len]);
  }

  /**
   * `main`'s loop. The count of missing packages starts at zero and goes up
   * by one for each checked line whose kept records are empty; the first
   * scrape error ends the run.
   */
  method CheckPackages(input: seq<Option<string>>, fetch: Target -> Reply) returns (run: Run)
    ensures run == MainLoop(input, fetch)
  {
    ghost var handle := Handler(fetch);
    var missing: nat := 0;
    var reports: seq<Report> := [];
    var i := 0;
    while i < |input| && input[i].Some?
      invariant 0 <= i <= |input|
      invariant MainLoop(input, fetch) == Prepend(reports, Process(input[i..], handle, missing))
    {
      var line := input[i].value;
      var result := CheckLine(line, fetch);
      assert handle(line) == result;
      ProcessAt(input, i, handle, missing);
      match result {
        case Skipped =>
        case Failed(e) =>
          assert reports + [] == reports;
          return Run(reports, Aborted(e));
        case Checked(c, kept) =>
          var report := if kept == [] then Missing(c) else Found(c, kept);
          var next := if kept == [] then missing + 1 else missing;
          assert Process(input[i..], handle, missing) == Prepend([report], Process(input[i + 1..], handle, next));
          PrependTwice(reports, [report], Process(input[i + 1..], handle, next));
          reports := reports + [report];
          missing := next;
      }
      i := i + 1;
    }
    if i < |input| {
      assert input[i..][0] == input[i];
    }
    run := Run(reports, Completed(missing));
  }
}
