/** What one run of `download_videos` writes to the status log, as a function
    of the input lines and of what each downloader call produced. Each line is
    first classified (blank, rejected, or handed to the downloader); the log
    is then built from the classifications alone. The class in downloader.dfy
    runs the loop and is proved to append exactly `BatchLog`; the lemmas here
    say what that log looks like. */
module Batch {
  import opened Seqs
  import opened Strings
  import opened UrlValidator

  /** What one call of the external downloader produced: the process ran and
      exited with `returncode`, its standard output and error merged into
      `output`; or the call raised an exception, rendered as `message`. */
  datatype Outcome =
    | Ran(returncode: int, output: string)
    | Raised(message: string)

  /** What the loop decides for one input line, from its stripped text `url`. */
  datatype Verdict =
    | Blank
    | Invalid(url: string)
    | Valid(url: string)

  const StartMessage: string := "Starting downloads..."
  const DoneMessage: string := "All done."
  const DownloadingPrefix: string := "Downloading: "

  function SkipMessage(url: string): string
  {
    "Skipping invalid URL: " + url
  }

  function DownloadingMessage(url: string): string
  {
    DownloadingPrefix + url
  }

  /** The downloader's merged output is logged stripped. */
  function OutputMessage(url: string, output: string): string
  {
    "System output for " + url + ":\n" + Strip(output)
  }

  function FinishedMessage(url: string): string
  {
    "Finished downloading: " + url
  }

  function ErrorMessage(url: string, returncode: int): string
  {
    "Error downloading " + url + ", return code " + IntToDecimal(returncode)
  }

  function UnexpectedMessage(message: string): string
  {
    "Unexpected error: " + message
  }

  /** `any(urls)`: some line is non-empty before it is stripped. */
  predicate AnyNonEmpty(lines: seq<string>)
  {
    exists j :: 0 <= j < |lines| && lines[j] != []
  }

  /** The body of the loop up to the downloader call: strip the line, skip it
      when nothing is left, reject it when the validator says no. */
  function Classify(line: string): Verdict
  {
    var url := Strip(line);
    if url == [] then Blank
    else if !IsYoutubeUrl(url) then Invalid(url)
    else Valid(url)
  }

  function Verdicts(lines: seq<string>): (vs: seq<Verdict>)
    ensures |vs| == |lines|
  {
    if lines == [] then [] else Verdicts(lines[..|lines| - 1]) + [Classify(lines[|lines| - 1])]
  }

  /** A URL the downloader may be handed: non-empty, accepted by the
      validator, and without whitespace at either end. */
  predicate Accepted(url: string)
  {
    url != [] && IsYoutubeUrl(url) && !IsSpace(url[0]) && !IsSpace(url[|url| - 1])
  }

  /** A line is skipped silently exactly when it is all whitespace (the empty
      line included). */
  lemma ClassifyBlank(line: string)
    ensures Classify(line).Blank? <==> AllSpace(line)
  {
    StripEmptyIff(line);
  }

  /** A line goes to the downloader exactly when it is not all whitespace and
      the validator accepts it (stripped or not); the URL handed over is the
      stripped line. */
  lemma ClassifyValid(line: string)
    ensures Classify(line).Valid? <==> !AllSpace(line) && IsYoutubeUrl(line)
    ensures Classify(line).Valid? ==> Classify(line).url == Strip(line) && Accepted(Strip(line))
  {
    StripEmptyIff(line);
    StripFacts(line);
    ValidityIgnoresStrip(line);
  }

  /** A line the validator accepts goes to the downloader, stripped. */
  lemma ClassifyAccepted(line: string)
    requires IsYoutubeUrl(line)
    ensures Classify(line) == Valid(Strip(line))
  {
    ValidityIgnoresStrip(line);
    RejectsPlainWords();
  }

  /** A line is logged as skipped exactly when it is not all whitespace and
      the validator rejects it. */
  lemma ClassifyInvalid(line: string)
    ensures Classify(line).Invalid? <==> !AllSpace(line) && !IsYoutubeUrl(line)
    ensures Classify(line).Invalid? ==> Classify(line).url == Strip(line)
  {
    StripEmptyIff(line);
    ValidityIgnoresStrip(line);
  }

  /** How many downloader results a line consumes. */
  function Uses(v: Verdict): nat
  {
    if v.Valid? then 1 else 0
  }

  function InvocationCount(vs: seq<Verdict>): nat
  {
    if vs == [] then 0 else InvocationCount(vs[..|vs| - 1]) + Uses(vs[|vs| - 1])
  }

  /** The URLs handed to the downloader, in input order. */
  function InvokedUrls(vs: seq<Verdict>): (urls: seq<string>)
    ensures |urls| == InvocationCount(vs)
  {
    if vs == [] then []
    else InvokedUrls(vs[..|vs| - 1]) + (if vs[|vs| - 1].Valid? then [vs[|vs| - 1].url] else [])
  }

  /** Number of lines logged as skipped. */
  function InvalidCount(vs: seq<Verdict>): nat
  {
    if vs == [] then 0 else InvalidCount(vs[..|vs| - 1]) + (if vs[|vs| - 1].Invalid? then 1 else 0)
  }

  function RanCount(results: seq<Outcome>): nat
  {
    if results == [] then 0
    else RanCount(results[..|results| - 1]) + (if results[|results| - 1].Ran? then 1 else 0)
  }

  function RaisedCount(results: seq<Outcome>): nat
  {
    if results == [] then 0
    else RaisedCount(results[..|results| - 1]) + (if results[|results| - 1].Raised? then 1 else 0)
  }

  /** Entries logged after announcing a download of `url`. */
  function OutcomeLog(url: string, outcome: Outcome): seq<string>
  {
    match outcome
    case Ran(returncode, output) =>
      [OutputMessage(url, output),
       if returncode == 0 then FinishedMessage(url) else ErrorMessage(url, returncode)]
    case Raised(message) => [UnexpectedMessage(message)]
  }

  /** Entries logged for one line; `rs` holds the downloader's result for it
      when the line is handed to the downloader, and is empty otherwise. */
  function LineLog(v: Verdict, rs: seq<Outcome>): seq<string>
    requires |rs| == Uses(v)
  {
    match v
    case Blank => []
    case Invalid(url) => [SkipMessage(url)]
    case Valid(url) => [DownloadingMessage(url)] + OutcomeLog(url, rs[0])
  }

  /** Entries logged for the lines so far, in order, consuming the results
      one per downloader call. */
  function LinesLog(vs: seq<Verdict>, results: seq<Outcome>): seq<string>
    requires |results| == InvocationCount(vs)
  {
    if vs == [] then []
    else
      var v := vs[|vs| - 1];
      var m := |results| - Uses(v);
      LinesLog(vs[..|vs| - 1], results[..m]) + LineLog(v, results[m..])
  }

  /** Everything one run appends to the status log. */
  function BatchLog(lines: seq<string>, results: seq<Outcome>): seq<string>
    requires |results| == InvocationCount(Verdicts(lines))
  {
    if !AnyNonEmpty(lines) then []
    else [StartMessage] + LinesLog(Verdicts(lines), results) + [DoneMessage]
  }

  /** A run that starts appends its first entry, the lines' entries and
      its last entry to what the status box already held. */
  lemma BatchLogOfRun(before: seq<string>, lines: seq<string>, results: seq<Outcome>)
    requires |results| == InvocationCount(Verdicts(lines)) && AnyNonEmpty(lines)
    ensures before + [StartMessage] + LinesLog(Verdicts(lines), results) + [DoneMessage]
      == before + BatchLog(lines, results)
  {
    var body := LinesLog(Verdicts(lines), results);
    Associative(before, [StartMessage], body);
    Associative(before, [StartMessage] + body, [DoneMessage]);
  }

  // ---------------------------------------------------------------------
  // Order: one more line adds exactly its own entries at the end.

  lemma InvocationCountSnoc(vs: seq<Verdict>, v: Verdict)
    ensures InvocationCount(vs + [v]) == InvocationCount(vs) + Uses(v)
  {
    assert (vs + [v])[..|vs|] == vs;
  }

  lemma InvokedUrlsSnoc(vs: seq<Verdict>, v: Verdict)
    ensures InvokedUrls(vs + [v]) == InvokedUrls(vs) + (if v.Valid? then [v.url] else [])
  {
    assert (vs + [v])[..|vs|] == vs;
  }

  /** Processing one more line appends that line's entries and nothing else. */
  lemma LinesLogSnoc(vs: seq<Verdict>, rs: seq<Outcome>, v: Verdict, r: seq<Outcome>)
    requires |rs| == InvocationCount(vs) && |r| == Uses(v)
    ensures InvocationCount(vs + [v]) == |rs + r|
    ensures LinesLog(vs + [v], rs + r) == LinesLog(vs, rs) + LineLog(v, r)
  {
    InvocationCountSnoc(vs, v);
    assert (vs + [v])[..|vs|] == vs;
    if v.Valid? {
      assert (rs + r)[..|rs|] == rs;
    } else {
      assert r == [] && rs + r == rs;
    }
  }

  /** Classifying one more line adds its verdict at the end. */
  lemma VerdictsSnoc(lines: seq<string>, i: nat)
    requires i < |lines|
    ensures Verdicts(lines[..i + 1]) == Verdicts(lines[..i]) + [Classify(lines[i])]
  {
    assert lines[..i + 1][..i] == lines[..i];
  }

  /** Two lines get one verdict each, in order. */
  lemma VerdictsOfTwo(a: string, b: string)
    ensures Verdicts([a, b]) == [Classify(a), Classify(b)]
  {
    assert [a, b][..1] == [a];
    assert [a][..0] == [];
  }

  lemma VerdictsOfThree(a: string, b: string, c: string)
    ensures Verdicts([a, b, c]) == [Classify(a), Classify(b), Classify(c)]
  {
    assert [a, b, c][..2] == [a, b];
    VerdictsOfTwo(a, b);
  }

  /** The verdict of line `j` is the classification of that line. */
  lemma {:induction false} VerdictAt(lines: seq<string>, j: nat)
    requires j < |lines|
    ensures Verdicts(lines)[j] == Classify(lines[j])
    decreases |lines|
  {
    var n := |lines| - 1;
    if j < n {
      VerdictAt(lines[..n], j);
    }
  }

  /** The last line adds its own calls to the count of the lines before it. */
  lemma CountLast(lines: seq<string>)
    requires lines != []
    ensures InvocationCount(Verdicts(lines))
      == InvocationCount(Verdicts(lines[..|lines| - 1])) + Uses(Classify(lines[|lines| - 1]))
  {
    InvocationCountSnoc(Verdicts(lines[..|lines| - 1]), Classify(lines[|lines| - 1]));
  }

  /** The lines before `n` call the downloader no more often than all lines. */
  lemma {:induction false} PrefixCount(lines: seq<string>, n: nat)
    requires n <= |lines|
    ensures InvocationCount(Verdicts(lines[..n])) <= InvocationCount(Verdicts(lines))
    decreases |lines|
  {
    if n < |lines| {
      var m := |lines| - 1;
      PrefixPrefix(lines, m, n);
      PrefixCount(lines[..m], n);
      CountLast(lines);
    } else {
      TakeAll(lines);
    }
  }

  /** Reference count of the lines the downloader runs for, read off the
      unstripped lines: not all whitespace, and accepted by the validator. */
  function ValidLineCount(lines: seq<string>): nat
  {
    if lines == [] then 0
    else
      var last := lines[|lines| - 1];
      ValidLineCount(lines[..|lines| - 1]) + (if !AllSpace(last) && IsYoutubeUrl(last) then 1 else 0)
  }

  /** The downloader runs once per line that is not blank and passes the
      validator, and for no other line. */
  lemma {:induction false} InvocationCountIsValidLines(lines: seq<string>)
    ensures InvocationCount(Verdicts(lines)) == ValidLineCount(lines)
    decreases |lines|
  {
    if lines != [] {
      var n := |lines| - 1;
      InvocationCountIsValidLines(lines[..n]);
      InvocationCountSnoc(Verdicts(lines[..n]), Classify(lines[n]));
      ClassifyValid(lines[n]);
    }
  }

  /** Where the loop stands after the first `i` lines: `k` downloader
      results used, `urls` handed to the downloader, and the entries of those
      lines logged after `start`. */
  ghost predicate Progress(lines: seq<string>, results: seq<Outcome>, i: nat, k: nat,
                           urls: seq<string>, start: seq<string>, logged: seq<string>)
  {
    && i <= |lines|
    && k == InvocationCount(Verdicts(lines[..i])) && k <= |results|
    && urls == InvokedUrls(Verdicts(lines[..i]))
    && logged == start + LinesLog(Verdicts(lines[..i]), results[..k])
  }

  /** Line `i` adds its own calls to the count of the lines before it. */
  lemma CountStep(lines: seq<string>, i: nat)
    requires i < |lines|
    ensures InvocationCount(Verdicts(lines[..i + 1]))
      == InvocationCount(Verdicts(lines[..i])) + Uses(Classify(lines[i]))
  {
    VerdictsSnoc(lines, i);
    InvocationCountSnoc(Verdicts(lines[..i]), Classify(lines[i]));
  }

  /** One turn of the loop over line `i` hands over that line's URL, if any. */
  lemma UrlsStep(lines: seq<string>, i: nat)
    requires i < |lines|
    ensures InvokedUrls(Verdicts(lines[..i + 1]))
      == InvokedUrls(Verdicts(lines[..i])) + (if Classify(lines[i]).Valid? then [Classify(lines[i]).url] else [])
  {
    VerdictsSnoc(lines, i);
    InvokedUrlsSnoc(Verdicts(lines[..i]), Classify(lines[i]));
  }

  /** The log after one more turn of the loop: if the log held the entries
      of the first `i` lines before the turn and the turn appends line `i`'s
      entries, it holds the entries of the first `i + 1` lines. */
  lemma LogStep(start: seq<string>, before: seq<string>,
                lines: seq<string>, results: seq<Outcome>, i: nat, k: nat, used: nat, next: nat)
    requires i < |lines| && k == InvocationCount(Verdicts(lines[..i]))
    requires used == Uses(Classify(lines[i])) && next == k + used && next <= |results|
    requires before == start + LinesLog(Verdicts(lines[..i]), results[..k])
    ensures InvocationCount(Verdicts(lines[..i + 1])) == next
    ensures before + LineLog(Classify(lines[i]), results[k..][..used])
      == start + LinesLog(Verdicts(lines[..i + 1]), results[..next])
  {
    var vs, v := Verdicts(lines[..i]), Classify(lines[i]);
    VerdictsSnoc(lines, i);
    PrefixSplit(results, k, next);
    SuffixPrefix(results, k, used);
    LinesLogSnoc(vs, results[..k], v, results[k..next]);
    Associative(start, LinesLog(vs, results[..k]), LineLog(v, results[k..next]));
  }

  lemma {:induction false} InvocationCountAppend(a: seq<Verdict>, b: seq<Verdict>)
    ensures InvocationCount(a + b) == InvocationCount(a) + InvocationCount(b)
    decreases |b|
  {
    if b == [] {
      assert a + b == a;
    } else {
      var init, v := b[..|b| - 1], b[|b| - 1];
      assert b == init + [v] && a + b == (a + init) + [v];
      InvocationCountAppend(a, init);
      InvocationCountSnoc(a + init, v);
      InvocationCountSnoc(init, v);
    }
  }

  /** Lines are logged strictly in input order, and what is logged for the
      later lines `b` does not depend on how the downloads for `a` went: a
      failure or an exception never stops the batch. */
  lemma {:induction false} LinesLogAppend(a: seq<Verdict>, b: seq<Verdict>, ra: seq<Outcome>, rb: seq<Outcome>)
    requires |ra| == InvocationCount(a) && |rb| == InvocationCount(b)
    ensures InvocationCount(a + b) == |ra + rb|
    ensures LinesLog(a + b, ra + rb) == LinesLog(a, ra) + LinesLog(b, rb)
    decreases |b|
  {
    InvocationCountAppend(a, b);
    if b == [] {
      assert a + b == a && ra + rb == ra;
    } else {
      var init, v := b[..|b| - 1], b[|b| - 1];
      var m := |rb| - Uses(v);
      InvocationCountSnoc(init, v);
      assert b == init + [v];
      var rb1, r := rb[..m], rb[m..];
      assert rb == rb1 + r;
      LinesLogAppend(a, init, ra, rb1);
      AppendStep(a, init, v, ra, rb1, r);
    }
  }

  lemma AppendStep(a: seq<Verdict>, init: seq<Verdict>, v: Verdict, ra: seq<Outcome>, rb1: seq<Outcome>, r: seq<Outcome>)
    requires |ra| == InvocationCount(a) && |rb1| == InvocationCount(init) && |r| == Uses(v)
    requires InvocationCount(a + init) == |ra + rb1|
    requires LinesLog(a + init, ra + rb1) == LinesLog(a, ra) + LinesLog(init, rb1)
    ensures InvocationCount(init + [v]) == |rb1 + r|
    ensures InvocationCount(a + (init + [v])) == |ra + (rb1 + r)|
    ensures LinesLog(a + (init + [v]), ra + (rb1 + r)) == LinesLog(a, ra) + LinesLog(init + [v], rb1 + r)
  {
    LinesLogSnoc(a + init, ra + rb1, v, r);
    LinesLogSnoc(init, rb1, v, r);
    Associative(a, init, [v]);
    Associative(ra, rb1, r);
    Associative(LinesLog(a, ra), LinesLog(init, rb1), LineLog(v, r));
  }

  lemma LinesLogSingle(v: Verdict, rs: seq<Outcome>)
    requires |rs| == Uses(v)
    ensures InvocationCount([v]) == |rs|
    ensures LinesLog([v], rs) == LineLog(v, rs)
  {
    LinesLogSnoc([], [], v, rs);
    assert [] + [v] == [v] && [] + rs == rs;
  }

  /** Line `j` contributes its own entries, between those of the lines before
      and after it, with the downloader result that follows the ones the
      earlier lines consumed. */
  lemma LinesLogAt(vs: seq<Verdict>, results: seq<Outcome>, j: nat)
    requires |results| == InvocationCount(vs) && j < |vs|
    ensures var k := InvocationCount(vs[..j]);
      var n := Uses(vs[j]);
      k + n <= |results| &&
      InvocationCount(vs[j + 1..]) == |results| - k - n &&
      LinesLog(vs, results) ==
        LinesLog(vs[..j], results[..k]) + LineLog(vs[j], results[k..k + n])
        + LinesLog(vs[j + 1..], results[k + n..])
  {
    var before, after := vs[..j], vs[j + 1..];
    var k, n := InvocationCount(before), Uses(vs[j]);
    SplitAround(vs, j);
    InvocationCountAppend(before + [vs[j]], after);
    InvocationCountSnoc(before, vs[j]);
    var r1, r2, r3 := results[..k], results[k..k + n], results[k + n..];
    SplitThree(results, k, k + n);
    LinesLogSnoc(before, r1, vs[j], r2);
    LinesLogAppend(before + [vs[j]], after, r1 + r2, r3);
  }

  /** The log of a download, a skipped line and another download, in that
      order, with one downloader result for each download. */
  lemma DownloadSkipDownload(u1: string, bad: string, u2: string, o1: Outcome, o2: Outcome)
    ensures InvocationCount([Valid(u1), Invalid(bad), Valid(u2)]) == 2
    ensures LinesLog([Valid(u1), Invalid(bad), Valid(u2)], [o1, o2])
      == [DownloadingMessage(u1)] + OutcomeLog(u1, o1)
         + [SkipMessage(bad)]
         + ([DownloadingMessage(u2)] + OutcomeLog(u2, o2))
  {
    var v1, v2, v3 := Valid(u1), Invalid(bad), Valid(u2);
    Displays(v1, v2, v3);
    Displays(o1, o2, o2);
    LinesLogSingle(v1, [o1]);
    LinesLogSnoc([v1], [o1], v2, []);
    LinesLogSnoc([v1, v2], [o1], v3, [o2]);
  }

  // ---------------------------------------------------------------------
  // Shape of the log of a whole run.

  /** Lines that are all whitespace log nothing and call the downloader
      zero times. */
  lemma {:induction false} BlankLines(lines: seq<string>)
    requires forall j :: 0 <= j < |lines| ==> AllSpace(lines[j])
    ensures InvocationCount(Verdicts(lines)) == 0 && LinesLog(Verdicts(lines), []) == []
    decreases |lines|
  {
    if lines != [] {
      var n := |lines| - 1;
      var init := lines[..n];
      assert forall j :: 0 <= j < |init| ==> init[j] == lines[j];
      BlankLines(init);
      ClassifyBlank(lines[n]);
      LinesLogSnoc(Verdicts(init), [], Blank, []);
    }
  }

  /** With no non-empty line the run logs nothing and never calls the
      downloader. */
  lemma NothingToDo(lines: seq<string>)
    requires !AnyNonEmpty(lines)
    ensures InvocationCount(Verdicts(lines)) == 0 && BatchLog(lines, []) == []
  {
    forall j | 0 <= j < |lines| ensures AllSpace(lines[j]) {
      assert lines[j] == [];
    }
    BlankLines(lines);
  }

  /** A run that starts opens with "Starting downloads..." and closes with
      "All done.", whatever the validator and the downloader said. */
  lemma BatchFrame(lines: seq<string>, results: seq<Outcome>)
    requires |results| == InvocationCount(Verdicts(lines)) && AnyNonEmpty(lines)
    ensures var log := BatchLog(lines, results);
      |log| >= 2 && log[0] == StartMessage && log[|log| - 1] == DoneMessage
  {
  }

  /** Lines that hold only whitespace, at least one of them non-empty, are
      truthy for `any`, so they start a run, yet each strips to nothing: the run logs only its first and last
      entry and calls the downloader zero times. */
  lemma WhitespaceOnlyInput(lines: seq<string>)
    requires forall j :: 0 <= j < |lines| ==> AllSpace(lines[j])
    requires AnyNonEmpty(lines)
    ensures InvocationCount(Verdicts(lines)) == 0
    ensures BatchLog(lines, []) == [StartMessage, DoneMessage]
  {
    BlankLines(lines);
    EmptyBetween(StartMessage, LinesLog(Verdicts(lines), []), DoneMessage);
  }

  lemma RanRaisedSnoc(rs: seq<Outcome>, r: Outcome)
    ensures RanCount(rs + [r]) == RanCount(rs) + (if r.Ran? then 1 else 0)
    ensures RaisedCount(rs + [r]) == RaisedCount(rs) + (if r.Raised? then 1 else 0)
  {
    assert (rs + [r])[..|rs|] == rs;
  }

  /** Entries per line: none for a blank line, one for a rejected line, then
      three for each finished process and two for each raised exception. */
  lemma {:induction false} LinesLogLength(vs: seq<Verdict>, results: seq<Outcome>)
    requires |results| == InvocationCount(vs)
    ensures |LinesLog(vs, results)| == InvalidCount(vs) + 3 * RanCount(results) + 2 * RaisedCount(results)
    decreases |vs|
  {
    if vs != [] {
      var init, v := vs[..|vs| - 1], vs[|vs| - 1];
      var m := |results| - Uses(v);
      var rs, r := results[..m], results[m..];
      LinesLogLength(init, rs);
      LineLogLength(v, rs, r);
      assert results == rs + r;
    }
  }

  /** One line's entries, counted the same way; `rs` are the results of the
      earlier lines. */
  lemma LineLogLength(v: Verdict, rs: seq<Outcome>, r: seq<Outcome>)
    requires |r| == Uses(v)
    ensures |LineLog(v, r)| + 3 * RanCount(rs) + 2 * RaisedCount(rs)
      == (if v.Invalid? then 1 else 0) + 3 * RanCount(rs + r) + 2 * RaisedCount(rs + r)
  {
    if v.Valid? {
      assert r == [r[0]];
      RanRaisedSnoc(rs, r[0]);
    } else {
      assert rs + r == rs;
    }
  }

  lemma BatchLogLength(lines: seq<string>, results: seq<Outcome>)
    requires |results| == InvocationCount(Verdicts(lines)) && AnyNonEmpty(lines)
    ensures |BatchLog(lines, results)|
      == 2 + InvalidCount(Verdicts(lines)) + 3 * RanCount(results) + 2 * RaisedCount(results)
  {
    LinesLogLength(Verdicts(lines), results);
  }

  /** Every URL handed to the downloader is an accepted, stripped line. */
  lemma {:induction false} InvokedUrlsOfLines(lines: seq<string>)
    ensures forall m :: 0 <= m < |InvokedUrls(Verdicts(lines))| ==> Accepted(InvokedUrls(Verdicts(lines))[m])
    decreases |lines|
  {
    if lines != [] {
      var n := |lines| - 1;
      InvokedUrlsOfLines(lines[..n]);
      ClassifyValid(lines[n]);
      InvokedUrlsSnoc(Verdicts(lines[..n]), Classify(lines[n]));
    }
  }

  // ---------------------------------------------------------------------
  // Reading the invocations back from the log.

  /** An entry that announces a download. */
  predicate IsAnnouncement(entry: string)
  {
    |DownloadingPrefix| <= |entry| && entry[..|DownloadingPrefix|] == DownloadingPrefix
  }

  /** The URLs named by the log's announcements, in log order. */
  function AnnouncedUrls(log: seq<string>): seq<string>
  {
    if log == [] then []
    else (if IsAnnouncement(log[0]) then [log[0][|DownloadingPrefix|..]] else []) + AnnouncedUrls(log[1..])
  }

  lemma {:induction false} AnnouncedUrlsAppend(x: seq<string>, y: seq<string>)
    ensures AnnouncedUrls(x + y) == AnnouncedUrls(x) + AnnouncedUrls(y)
    decreases |x|
  {
    if x == [] {
      assert x + y == y;
    } else {
      assert (x + y)[0] == x[0] && (x + y)[1..] == x[1..] + y;
      AnnouncedUrlsAppend(x[1..], y);
    }
  }

  /** An entry whose first character is not the 'D' of "Downloading: "
      announces nothing. */
  lemma Silent(entry: string)
    requires entry != [] && entry[0] != 'D'
    ensures AnnouncedUrls([entry]) == []
  {
    if |DownloadingPrefix| <= |entry| {
      assert entry[..|DownloadingPrefix|][0] == entry[0];
    }
    var single: seq<string> := [entry];
    assert single[1..] == [];
  }

  lemma AnnouncementOf(url: string)
    ensures AnnouncedUrls([DownloadingMessage(url)]) == [url]
  {
    var entry := DownloadingMessage(url);
    assert entry[..|DownloadingPrefix|] == DownloadingPrefix;
    assert entry[|DownloadingPrefix|..] == url;
    var single: seq<string> := [entry];
    assert single[1..] == [];
  }

  /** The entries that follow an announcement announce nothing themselves. */
  lemma OutcomeLogSilent(url: string, outcome: Outcome)
    ensures AnnouncedUrls(OutcomeLog(url, outcome)) == []
  {
    match outcome {
      case Ran(returncode, output) =>
        var first := OutputMessage(url, output);
        var second := if returncode == 0 then FinishedMessage(url) else ErrorMessage(url, returncode);
        assert first[0] == 'S';
        assert second[0] != 'D';
        Silent(first);
        Silent(second);
        assert OutcomeLog(url, outcome) == [first] + [second];
        AnnouncedUrlsAppend([first], [second]);
      case Raised(message) =>
        assert UnexpectedMessage(message)[0] == 'U';
        Silent(UnexpectedMessage(message));
    }
  }

  lemma LineLogAnnounces(v: Verdict, rs: seq<Outcome>)
    requires |rs| == Uses(v)
    ensures AnnouncedUrls(LineLog(v, rs)) == if v.Valid? then [v.url] else []
  {
    match v {
      case Blank =>
      case Invalid(url) =>
        assert SkipMessage(url)[0] == 'S';
        Silent(SkipMessage(url));
      case Valid(url) =>
        AnnouncementOf(url);
        OutcomeLogSilent(url, rs[0]);
        AnnouncedUrlsAppend([DownloadingMessage(url)], OutcomeLog(url, rs[0]));
    }
  }

  lemma {:induction false} LinesLogAnnounces(vs: seq<Verdict>, results: seq<Outcome>)
    requires |results| == InvocationCount(vs)
    ensures AnnouncedUrls(LinesLog(vs, results)) == InvokedUrls(vs)
    decreases |vs|
  {
    if vs != [] {
      var init, v := vs[..|vs| - 1], vs[|vs| - 1];
      var m := |results| - Uses(v);
      InvocationCountSnoc(init, v);
      assert vs == init + [v] && results == results[..m] + results[m..];
      LinesLogSnoc(init, results[..m], v, results[m..]);
      LinesLogAnnounces(init, results[..m]);
      LineLogAnnounces(v, results[m..]);
      AnnouncedUrlsAppend(LinesLog(init, results[..m]), LineLog(v, results[m..]));
      InvokedUrlsSnoc(init, v);
    }
  }

  /** The run announces exactly the URLs it hands to the downloader, once
      each and in input order; nothing else in the log reads as an
      announcement. */
  lemma BatchLogAnnounces(lines: seq<string>, results: seq<Outcome>)
    requires |results| == InvocationCount(Verdicts(lines))
    ensures AnnouncedUrls(BatchLog(lines, results)) == InvokedUrls(Verdicts(lines))
  {
    if AnyNonEmpty(lines) {
      LinesLogAnnounces(Verdicts(lines), results);
      FrameAnnouncesNothing(LinesLog(Verdicts(lines), results));
    } else {
      NothingToDo(lines);
    }
  }

  /** The first and last entries of a run announce nothing. */
  lemma FrameAnnouncesNothing(body: seq<string>)
    ensures AnnouncedUrls([StartMessage] + body + [DoneMessage]) == AnnouncedUrls(body)
  {
    Silent(StartMessage);
    Silent(DoneMessage);
    AnnouncedUrlsAppend([StartMessage], body);
    AnnouncedUrlsAppend([StartMessage] + body, [DoneMessage]);
  }
}
