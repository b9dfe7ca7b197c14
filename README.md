# scrape-packages, modelled in Dafny

`scrape-packages` reads lines of the form `<crate> <version>` from standard
input. For each crate it requests one page of packages.fedoraproject.org,
addressed by the two path segments `rust-<crate>` and `rust-<crate>-devel`
(the package and its `-devel` subpackage). It reads the rows of that
page's version table and keeps the entries for "Fedora Rawhide". It logs each
crate with no such entry as missing, and finally logs how many were missing.
A failed lookup ends the program with that error.

The model has five modules:

- `Wrappers` (`wrappers.dfy`): `Option` and `Result`.
- `Strings` (`strings.dfy`): `str::split_once(" ")` and `str::trim`, with
  Unicode White_Space as the whitespace set.
- `Names` (`names.dfy`): the two package names derived from a crate name.
- `Client` (`client.dfy`): `Client::scrape`.
  - The one HTTP request per line is a parameter `fetch: Target -> Reply`,
    keyed by the two path segments. A reply is
    a transport failure or a status with the table rows.
  - A row is the list of its child elements' texts.
- `Driver` (`driver.dfy`): the line loop of `main`.
  - `Process` is the loop as a function of the input lines and the loop
    body.
  - `CheckPackages` is the loop itself, as a `while` loop proved equal to
    that function.
  - `retain` is `RetainRawhide`, an in-place compaction of an array proved
    to equal the filter `Rawhide`.
  - Standard input is a sequence of `Option<string>`: `None` stands for a
    read error.

`main` logs the final missing count and returns `Ok(())`. The model returns
that count as the run's `Completed` outcome, next to the sequence of log
reports (`Missing` or `Found`).

## Model

| member | source | states |
|---|---|---|
| Strings.SplitOnce | src/main.rs:95 | Splits at the first space. None exactly when the line has no space. Otherwise the first part has no space and part + " " + rest rebuilds the line. |
| Strings.SplitOnceJoin | src/main.rs:95 | Joining a space-free head and any tail with a space, then splitting, gives back exactly that head and tail. |
| Strings.Trim | src/main.rs:60-61 | The trimmed text is no longer than the input and neither starts nor ends with whitespace. |
| Strings.TrimStartIsSuffix | src/main.rs:60-61 | Trimming the start removes only a whitespace prefix. |
| Strings.TrimEndIsPrefix | src/main.rs:60-61 | Trimming the end removes only a whitespace suffix. |
| Strings.TrimIsInfix | src/main.rs:60-61 | The input is whitespace + trimmed text + whitespace. |
| Strings.TrimStartSkips | src/main.rs:60-61 | Start-trimming whitespace followed by any text gives the same as start-trimming that text alone. |
| Strings.TrimEndSkips | src/main.rs:60-61 | End-trimming any text followed by whitespace gives the same as end-trimming that text alone. |
| Strings.TrimUnique | src/main.rs:60-61 | Trimming whitespace + t + whitespace, where t is already trimmed, gives t. The trimmed text is therefore the unique such middle. |
| Strings.TrimIdempotent | src/main.rs:60-61 | Trimming twice is trimming once. |
| Names.Derive | src/main.rs:99-100 | The primary name is "rust-" followed by the crate name. The secondary name is the primary followed by "-devel". |
| Names.DeriveInjective | src/main.rs:99-100 | Different crate names lead to different package names. |
| Client.RowRecord | src/main.rs:56-64 | A row gives a record exactly when it has at least two children. Both fields are trimmed. |
| Client.RowRecordIgnoresExtraChildren | src/main.rs:57-58 | Only the first two children matter. |
| Client.RowRecordFields | src/main.rs:59-62 | The distribution is the trimmed text of the first child and the version that of the second. Both are fixed points of trimming. |
| Client.FlatMap | src/main.rs:55-66 | The result has one element per item for which the mapping returns Some. |
| Client.FlatMapAppend | src/main.rs:55-66 | `flat_map` distributes over concatenation. |
| Client.FlatMapMembership | src/main.rs:55-66 | An element is in the result exactly when some item maps to Some of it. |
| Client.FlatMapAt | src/main.rs:55-66 | An item that maps to Some lands at the index given by the number of such items before it. |
| Client.CountSomeGrows | src/main.rs:55-66 | A later item that maps to Some has strictly more such items before it. |
| Client.ExtractRecords | src/main.rs:55-66 | Extraction yields no more records than there are rows (the exact count is `ExtractCount`, the position of each record `FlatMapAt`). |
| Client.ExtractCount | src/main.rs:55-66 | The number of records equals the number of rows with at least two children. |
| Client.ExtractMembership | src/main.rs:55-66 | A record is extracted exactly when some row yields it. |
| Client.ExtractTrimmed | src/main.rs:60-61 | Every extracted field is trimmed. |
| Client.ExtractAppend | src/main.rs:55-66 | Extraction goes row by row: the rows of a concatenation give the concatenated records. |
| Client.ExtractKeepsRowOrder | src/main.rs:55-66 | The records of two complete rows appear in the rows' order. |
| Client.Scrape | src/main.rs:37-67 | A transport failure is an error. Status 404 is an empty list. Any other status from 400 to 599 is an error carrying that status. Every other status yields the records extracted from the page. |
| Client.ScrapeWithoutTable | src/main.rs:50-55 | A page that loads but has no table rows is an empty list, not an error. |
| Driver.Rawhide | src/main.rs:102 | Every kept record names "Fedora Rawhide". No more records are kept than there were. |
| Driver.RawhideMembership | src/main.rs:102 | A record is kept exactly when it was present and its distribution is "Fedora Rawhide". |
| Driver.RawhideAppend | src/main.rs:102 | The filter distributes over concatenation. |
| Driver.RawhideIsSubsequence | src/main.rs:102 | The filter only removes records and never reorders them. |
| Driver.RetainRawhide | src/main.rs:102 | Compacting the buffer in place leaves exactly the filtered records at its front, and returns their number. |
| Driver.Step | src/main.rs:95-102 | A line is skipped exactly when it has no space. A checked line's package is the text before its first space, and only target records are kept. |
| Driver.StepFetchesOnlyDerivedTarget | src/main.rs:99-101 | A line's outcome depends on the fetcher only through the reply for its own package's page. |
| Driver.StepOnNotFound | src/main.rs:45-46 | "c v" whose page answers 404 is checked with nothing kept. |
| Driver.StepOnErrorStatus | src/main.rs:48 | "c v" whose page answers another 4xx/5xx status fails with that status. |
| Driver.StepOnTransportFailure | src/main.rs:44 | "c v" whose request fails before any status arrives fails with the transport error. |
| Driver.StepOnPage | src/main.rs:55-66 | "c v" whose page loads keeps exactly the Rawhide records of the page's rows. |
| Driver.Process | src/main.rs:92-113 | There are no more reports than input lines. A completed run's count is the starting count plus the number of missing reports. |
| Driver.MainLoop | src/main.rs:92-111 | The run of `main` with the count starting at zero: no more reports than lines, and a completed run's count is exactly the number of missing reports. |
| Driver.MissingAtMostLines | src/main.rs:103-104 | The final missing count never exceeds the number of input lines. |
| Driver.ProcessReportsWellFormed | src/main.rs:102-108 | If the loop body keeps only target records, then every Found report is non-empty and lists only target records. |
| Driver.ReportsWellFormed | src/main.rs:102-108 | Every report of the run is a missing package, or a non-empty list of Rawhide records. |
| Driver.ProcessAt | src/main.rs:94-111 | Proof step for `CheckPackages`: the definition of `Process` unrolled once at line i. The loop from line i on is decided by that line: skipped (continue), failed (abort with no more reports), or checked (one report, with the count going up exactly when nothing was kept). |
| Driver.ProcessAppend | src/main.rs:94 | The loop over two stretches of read lines is the loop over the first. Unless that aborts, it continues with the second from the count reached. |
| Driver.ProcessStopsAtReadError | src/main.rs:94 | A read error ends the loop normally. No later line is looked at. |
| Driver.AbortsIffFirstFailure | src/main.rs:101 | The run aborts with error e exactly when some line is the first to fail, with e, and every line before it was read. |
| Driver.CheckLine | src/main.rs:95-102 | The loop body, with `retain` done in place on an array, gives the same outcome as `Step`. |
| Driver.CheckPackages | src/main.rs:92-113 | The imperative loop with its mutable counter produces exactly the run `MainLoop` specifies. |

## Left out

- Driver.CheckPackages: the missing counter is an unbounded `nat`. In the
  source it is an `i32`. Input is read as a stream, so its size is not
  bounded by memory; overflow would need more than 2^31 - 1 missing
  packages, each costing one HTTP request. A debug build would then panic
  and a release build would wrap to a negative count; the model does not
  capture either.
- Client.Scrape: the `NotABase` and `Selector` errors (src/main.rs:40, 52,
  71) are not modelled. The base URL and the selector are constants that
  are always valid, so these errors cannot occur.
- Client.Scrape: a transport failure and a failure to read the response
  body are one error, `Transport`. The model does not tell them apart, and
  does not tell request-building errors apart either.
- The building of the URL (src/main.rs:38-42) is not modelled.
  Percent-encoding of the path segments and the URL parser belong to the
  `url` crate. The fetcher is instead keyed by the two package names.
- HTML parsing and CSS selection (`scraper`) are not modelled. A reply
  carries the rows of `table#version-table > tbody > tr`, each as the
  texts of its child elements.
- The HTTP client, TLS, `async`/`await` and the tokio runtime are left
  out. `fetch` is a pure function: the same names always get the same
  reply.
- Logger set-up and the text of the log lines are not modelled
  (src/main.rs:82-88, 105, 107, 110, 113). The model records one
  `Missing` or `Found` report per checked line. The repeated "result" line
  and the final summary line carry no further information.
- Whitespace is the Unicode White_Space set, written out
  as code point ranges. UTF-8 byte handling is not modelled, since strings
  are sequences of characters.
