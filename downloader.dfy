/** The downloader window: the URL text box, the status box and the Download
    button, with the handlers that change them. The external downloader is
    not run here: what each call produced is handed to a batch as a sequence
    of `Outcome`s, one per call, in call order. */
module Downloader {
  import opened Seqs
  import opened Strings
  import opened UrlValidator
  import opened Batch

  datatype Option<T> = None | Some(value: T)

  /** The lines `download_videos` reads: Tk's `get("1.0", END)` returns the
      box's text followed by the newline Tk keeps at its end, and the result
      is split with `splitlines`. */
  function InputLines(input: string): seq<string>
  {
    SplitLines(input + ['\n'])
  }

  /** The URL box at start-up: the clipboard's text and a newline are added
      when the validator accepts it; an empty or unreadable clipboard
      (`None`) leaves the box as it is. */
  function Prefill(text: string, clipboard: Option<string>): (r: string)
    ensures |text| <= |r| && r[..|text|] == text
  {
    match clipboard
    case Some(clip) =>
      if IsYoutubeUrl(clip) then text + clip + ['\n'] else text
    case None => text
  }

  /** The prefill changes the box exactly when the clipboard holds text the
      validator accepts, and then adds that text and a newline at its end. */
  lemma PrefillIff(text: string, clipboard: Option<string>)
    ensures Prefill(text, clipboard) != text <==> clipboard.Some? && IsYoutubeUrl(clipboard.value)
    ensures Prefill(text, clipboard) != text ==>
      Prefill(text, clipboard) == text + clipboard.value + ['\n']
  {
    if clipboard.Some? && IsYoutubeUrl(clipboard.value) {
      assert |Prefill(text, clipboard)| == |text| + |clipboard.value| + 1;
    }
  }

  class DownloaderApp {
    /** Text of the URL box, without the newline Tk keeps at its end. */
    var input: string
    /** Messages of the status box, oldest first. */
    var log: seq<string>
    /** Whether the Download button accepts clicks. */
    var enabled: bool

    /** The window at start-up: an empty status box, the button enabled and
        the URL box prefilled from the clipboard. */
    constructor(clipboard: Option<string>)
      ensures input == Prefill([], clipboard) && log == [] && enabled
    {
      input := Prefill([], clipboard);
      log := [];
      enabled := true;
    }

    /** What the status box shows: each message followed by a newline. */
    function StatusText(): string
      reads this
    {
      JoinLines(log)
    }

    /** `append_status`: the message and a newline go at the end of the box. */
    method AppendStatus(msg: string)
      modifies this`log
      ensures log == old(log) + [msg]
      ensures StatusText() == old(StatusText()) + msg + ['\n']
    {
      JoinLinesSnoc(log, msg);
      log := log + [msg];
    }

    /** `clear_status`: the box is emptied. */
    method ClearStatus()
      modifies this`log
      ensures log == [] && StatusText() == []
    {
      log := [];
    }

    /** `download_videos`. With no non-empty line it only reports that there
        is nothing to do. Otherwise it logs the start, handles the lines in
        order, handing the valid ones to the downloader and consuming one
        of `results` per call, and logs the end. Returns whether it stopped
        at the nothing-to-do notice, and the URLs handed to the downloader. */
    method DownloadVideos(results: seq<Outcome>) returns (nothingToDo: bool, urls: seq<string>)
      requires |results| == InvocationCount(Verdicts(InputLines(input)))
      modifies this`log
      ensures nothingToDo <==> !AnyNonEmpty(InputLines(input))
      ensures urls == InvokedUrls(Verdicts(InputLines(input)))
      ensures log == old(log) + BatchLog(InputLines(input), results)
    {
      var lines := InputLines(input);
      if !AnyNonEmpty(lines) {
        NothingToDo(lines);
        assert results == [];
        return true, [];
      }
      urls := RunBatch(lines, results);
      assert input == old(input);
      nothingToDo := false;
    }

    /** `download_videos` past the nothing-to-do check: the first entry, the
        loop, the last entry. */
    method RunBatch(lines: seq<string>, results: seq<Outcome>) returns (urls: seq<string>)
      requires |results| == InvocationCount(Verdicts(lines)) && AnyNonEmpty(lines)
      modifies this`log
      ensures urls == InvokedUrls(Verdicts(lines))
      ensures log == old(log) + BatchLog(lines, results)
    {
      AppendStatus(StartMessage);
      urls := ProcessLines(lines, results);
      AppendStatus(DoneMessage);
      BatchLogOfRun(old(log), lines, results);
    }

    /** The `for` loop of `download_videos`: the lines in order, each result
        of the downloader consumed by the line it belongs to. */
    method ProcessLines(lines: seq<string>, results: seq<Outcome>) returns (urls: seq<string>)
      requires |results| == InvocationCount(Verdicts(lines))
      modifies this`log
      ensures urls == InvokedUrls(Verdicts(lines))
      ensures log == old(log) + LinesLog(Verdicts(lines), results)
    {
      var k := 0;
      urls := [];
      for i := 0 to |lines|
        invariant Progress(lines, results, i, k, urls, old(log), log)
      {
        k, urls := Step(lines, results, i, k, urls, old(log));
      }
      TakeAll(lines);
      TakeAll(results);
    }

    /** One turn of the loop, over line `i`: the loop moves on from the first
        `i` lines to the first `i + 1`. */
    method Step(lines: seq<string>, results: seq<Outcome>, i: nat, k: nat, urls: seq<string>,
                ghost start: seq<string>)
      returns (next: nat, nextUrls: seq<string>)
      requires i < |lines| && |results| == InvocationCount(Verdicts(lines))
      requires Progress(lines, results, i, k, urls, start, log)
      modifies this`log
      ensures Progress(lines, results, i + 1, next, nextUrls, start, log)
    {
      CountStep(lines, i);
      PrefixCount(lines, i + 1);
      UrlsStep(lines, i);
      var verdict := Classify(lines[i]);
      var used := Uses(verdict);
      next := k + used;
      LogStep(start, log, lines, results, i, k, used, next);
      var handed := HandleLine(verdict, results[k..]);
      nextUrls := urls + handed;
    }

    /** The rest of the loop body for a line classified as `v`: log nothing
        for a blank line and a skip notice for a rejected one; otherwise
        announce the download, take the next downloader result from `rest`
        and log what it says. Returns the URL it handed over, if any. */
    method HandleLine(v: Verdict, rest: seq<Outcome>) returns (handed: seq<string>)
      requires Uses(v) <= |rest|
      modifies this`log
      ensures handed == if v.Valid? then [v.url] else []
      ensures log == old(log) + LineLog(v, rest[..Uses(v)])
    {
      match v {
        case Blank =>
          return [];
        case Invalid(url) =>
          AppendStatus(SkipMessage(url));
          return [];
        case Valid(url) =>
          AppendStatus(DownloadingMessage(url));
          ReportOutcome(url, rest[0]);
          Associative(old(log), [DownloadingMessage(url)], OutcomeLog(url, rest[0]));
          assert rest[..1] == [rest[0]];
          return [url];
      }
    }

    /** What the loop logs once the downloader call for `url` came back. */
    method ReportOutcome(url: string, outcome: Outcome)
      modifies this`log
      ensures log == old(log) + OutcomeLog(url, outcome)
    {
      match outcome {
        case Ran(returncode, output) =>
          AppendStatus(OutputMessage(url, output));
          if returncode == 0 {
            AppendStatus(FinishedMessage(url));
            Associative(old(log), [OutputMessage(url, output)], [FinishedMessage(url)]);
          } else {
            AppendStatus(ErrorMessage(url, returncode));
            Associative(old(log), [OutputMessage(url, output)], [ErrorMessage(url, returncode)]);
          }
        case Raised(message) =>
          AppendStatus(UnexpectedMessage(message));
      }
    }

    /** `on_download_click`: clear the status box, disable the button, run
        the batch, enable the button again. The batch leaves the button
        alone, so it stays disabled for the whole run. */
    method OnDownloadClick(results: seq<Outcome>) returns (nothingToDo: bool, urls: seq<string>)
      requires |results| == InvocationCount(Verdicts(InputLines(input)))
      modifies this`log, this`enabled
      ensures nothingToDo <==> !AnyNonEmpty(InputLines(input))
      ensures urls == InvokedUrls(Verdicts(InputLines(input)))
      ensures log == BatchLog(InputLines(input), results) && enabled
    {
      ClearStatus();
      enabled := false;
      nothingToDo, urls := DownloadVideos(results);
      assert !enabled;
      enabled := true;
    }
  }

  /** The run stops at the nothing-to-do notice exactly when the box holds
      nothing but newlines (the empty box included): a single space is
      enough to start a run. */
  lemma NothingToDoIff(input: string)
    ensures !AnyNonEmpty(InputLines(input)) <==> AllNewlines(input)
  {
    var text := input + ['\n'];
    AllLinesEmptyIff(text);
    assert AllNewlines(text) <==> AllNewlines(input) by {
      assert forall k :: 0 <= k < |input| ==> text[k] == input[k];
    }
  }

  /** A box holding one line and its newline reads back as that line and an
      empty line. */
  lemma InputLinesOfLine(line: string)
    requires NoNewline(line)
    ensures InputLines(line + ['\n']) == [line, []]
  {
    var lines := [line, []];
    assert NoNewline([]);
    SplitJoin(lines);
    JoinLinesCons(line, [[]]);
    JoinLinesCons([], []);
    assert JoinLines(lines) == line + ['\n'] + ['\n'];
  }

  lemma PrefillAccepted(clip: string)
    requires IsYoutubeUrl(clip)
    ensures Prefill([], Some(clip)) == clip + ['\n']
  {
  }

  /** Started with a one-line YouTube URL on the clipboard, the window's
      first click hands exactly that URL, stripped, to the downloader. */
  lemma PrefillThenBatch(clip: string)
    requires NoNewline(clip) && IsYoutubeUrl(clip)
    ensures var lines := InputLines(Prefill([], Some(clip)));
      InvocationCount(Verdicts(lines)) == 1 && InvokedUrls(Verdicts(lines)) == [Strip(clip)]
  {
    PrefillAccepted(clip);
    InputLinesOfLine(clip);
    ClassifyAccepted(clip);
    ClassifyBlank([]);
    VerdictsOfTwo(clip, []);
    OneValidThenBlank(Strip(clip), Verdicts([clip, []]));
  }

  lemma OneValidThenBlank(url: string, vs: seq<Verdict>)
    requires vs == [Valid(url), Blank]
    ensures InvocationCount(vs) == 1 && InvokedUrls(vs) == [url]
  {
    assert vs == [Valid(url)] + [Blank];
    assert [Valid(url)] == [] + [Valid(url)];
    InvocationCountSnoc([Valid(url)], Blank);
    InvokedUrlsSnoc([Valid(url)], Blank);
    InvocationCountSnoc([], Valid(url));
    InvokedUrlsSnoc([], Valid(url));
  }

  /** A box holding a watch link, a line the validator rejects and a short
      link, one per line: the run hands the two links to the downloader in
      that order and logs, between its first and last entry, the first
      download, the skip notice and the second download. */
  lemma MixedBatch(u1: string, bad: string, u2: string, o1: Outcome, o2: Outcome)
    requires NoNewline(u1) && NoNewline(bad) && NoNewline(u2)
    requires Accepted(u1) && Accepted(u2)
    requires bad != [] && !IsSpace(bad[0]) && !IsSpace(bad[|bad| - 1]) && !IsYoutubeUrl(bad)
    ensures var lines := InputLines(u1 + ['\n'] + bad + ['\n'] + u2);
      && InvocationCount(Verdicts(lines)) == 2
      && InvokedUrls(Verdicts(lines)) == [u1, u2]
      && BatchLog(lines, [o1, o2])
        == [StartMessage]
           + ([DownloadingMessage(u1)] + OutcomeLog(u1, o1)
              + [SkipMessage(bad)]
              + ([DownloadingMessage(u2)] + OutcomeLog(u2, o2)))
           + [DoneMessage]
  {
    var lines := [u1, bad, u2];
    InputLinesOfThree(u1, bad, u2);
    VerdictsOfMixed(u1, bad, u2);
    DownloadSkipDownload(u1, bad, u2, o1, o2);
    ThreeInvoked(u1, bad, u2);
    assert lines[0] != [];
  }

  lemma InputLinesOfThree(a: string, b: string, c: string)
    requires NoNewline(a) && NoNewline(b) && NoNewline(c)
    ensures InputLines(a + ['\n'] + b + ['\n'] + c) == [a, b, c]
  {
    JoinThree(a, b, c);
    SplitJoin([a, b, c]);
  }

  lemma VerdictsOfMixed(u1: string, bad: string, u2: string)
    requires Accepted(u1) && Accepted(u2)
    requires bad != [] && !IsSpace(bad[0]) && !IsSpace(bad[|bad| - 1]) && !IsYoutubeUrl(bad)
    ensures Verdicts([u1, bad, u2]) == [Valid(u1), Invalid(bad), Valid(u2)]
  {
    StripKeeps(u1);
    StripKeeps(bad);
    StripKeeps(u2);
    VerdictsOfThree(u1, bad, u2);
  }

  lemma ThreeInvoked(u1: string, bad: string, u2: string)
    ensures InvokedUrls([Valid(u1), Invalid(bad), Valid(u2)]) == [u1, u2]
  {
    var v1, v2, v3 := Valid(u1), Invalid(bad), Valid(u2);
    InvokedUrlsSnoc([], v1);
    assert [] + [v1] == [v1];
    InvokedUrlsSnoc([v1], v2);
    assert [v1] + [v2] == [v1, v2];
    InvokedUrlsSnoc([v1, v2], v3);
    assert [v1, v2] + [v3] == [v1, v2, v3];
  }
}
