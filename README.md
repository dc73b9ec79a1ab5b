# YouTube downloader window, modelled in Dafny

The program is one tkinter window. It has a text box of URLs, a Download
button and a read-only status box. A click clears the status box and disables
the button. It then runs `download_videos` and enables the button again.
`download_videos` reads the URL box, splits it into lines and strips each line.
A line that strips to nothing is skipped silently. A line the YouTube URL
pattern rejects gets a skip notice. Every other line is handed to the external
downloader, and what the downloader reports is logged. At start-up the window
puts the clipboard's text into the URL box when the pattern accepts it.

The model has five modules:

- `Strings` (strings.dfy) covers Python's `str.strip`, `splitlines` on `'\n'`
  and `str(int)` for return codes. Each comes with the facts the rest of the
  model needs: where `strip` cuts, the split/join round trips, and the decimal
  round trip.
- `Seqs` (seqs.dfy) holds facts about sequences of any element type that the
  other proofs cite by name.
- `UrlValidator` (validator.dfy) states `YOUTUBE_REGEX.search` as a substring
  test for `youtube.com/watch?v=` or `youtu.be/`. It also spells out the
  pattern group by group and proves the two agree.
- `Batch` (batch.dfy) covers one run of `download_videos` as pure functions.
  - Each line gets a verdict (`Blank`, `Invalid`, `Valid`).
  - The downloader's results are a sequence of `Outcome`s
    (`Ran(returncode, output)` or `Raised(message)`), one per call, in call
    order.
  - `BatchLog` is everything the run appends to the status box.
  - The lemmas state the shape of that log: its frame, its length, the
    per-line blocks and their order, and the URLs it announces.
- `Downloader` (downloader.py's window) has the class `DownloaderApp`. Its
  fields are the URL box text, the status log (`seq<string>`) and the button
  state. Its methods are the handlers.
  - The `for` loop of `download_videos` is a loop (`ProcessLines`, whose body
    is `Step`).
  - Its invariant `Progress` ties the log to what it held before the loop
    followed by `LinesLog` of the lines processed so far.
  - The clipboard prefill is a function of an `Option<string>`.

The model follows these details of the code:

- A line that holds only whitespace other than newlines (a space, a tab) is
  truthy for `any(urls)`, so the run starts. When every line is like that or
  empty, the run logs "Starting downloads..." and "All done." and nothing
  between them (`WhitespaceOnlyInput`). A box holding only newlines, the empty
  box included, stops at the notice (`NothingToDoIff`).
- A line that is empty after stripping logs nothing at all. Only a non-empty
  line that the pattern rejects gets "Skipping invalid URL: …".
- The downloader's output is logged stripped.
- When the call raises, only "Unexpected error: …" is logged. No output entry
  is logged.
- The click handler clears the status box first and then disables the button.

## Model

| member | source | states |
|---|---|---|
| UrlValidator.IsYoutubeUrl | downloader.py:11 | The validator: one of the two markers `youtube.com/watch?v=` or `youtu.be/` occurs in the string (the definition the lemmas below are about) |
| Strings.Strip | downloader.py:36 | `str.strip`: the string with leading and trailing whitespace (Python's `isspace` set) removed; never longer than the string |
| Strings.SplitLines | downloader.py:30 | `splitlines` on `'\n'`: the pieces between newlines, a final newline not starting another line; no piece holds a newline |
| Strings.NatToDecimal | downloader.py:55 | The decimal digits of a natural number, most significant first: only digits, and a leading `0` only for zero itself |
| Strings.IntToDecimal | downloader.py:55 | `str` of an integer: non-empty, and it starts with `-` iff the integer is negative |
| Batch.Classify | downloader.py:36-41 | One line's verdict: blank when it strips to nothing, rejected (naming the stripped text) when the validator says no, otherwise handed over as the stripped text |
| Batch.OutcomeLog | downloader.py:50-57 | The entries after an announcement: for a run, the stripped output, then "Finished downloading" on return code 0 or "Error downloading …, return code" otherwise; for an exception, only "Unexpected error: " and its message |
| Batch.LineLog | downloader.py:36-57 | One line's entries: none when blank, the skip notice when rejected, the announcement and its outcome's entries when handed over |
| Batch.AnyNonEmpty | downloader.py:31 | `any(urls)`: some line is non-empty before stripping; a line of spaces counts, an empty line does not |
| Batch.InvokedUrls | downloader.py:39-45 | The URLs handed to the downloader, one per valid verdict, in input order; there are exactly as many as downloader calls |
| Batch.LinesLog | downloader.py:35-57 | The loop's entries: each line's entries in input order, each handed-over line consuming the next downloader result |
| Batch.BatchLog | downloader.py:31-58 | A run's entries: nothing when no line is non-empty, otherwise the start entry, the loop's entries and the done entry |
| Batch.LineLogLength | downloader.py:36-57 | One line adds one entry when rejected, three when its download ran and two when it raised |
| Downloader.InputLines | downloader.py:30 | The lines read from the URL box: the box's text plus Tk's trailing newline, split into lines |
| Downloader.Prefill | downloader.py:82-85 | The URL box after the clipboard check: the clipboard text and a newline are added when the validator accepts it; the old text is always kept as a prefix |
| UrlValidator.SearchIsSubstringTest | downloader.py:11 | The pattern `(https?://)?(www\.)?(youtube\.com/watch\?v=\|youtu\.be/)`, searched anywhere in the string, matches iff `youtube.com/watch?v=` or `youtu.be/` occurs as a substring: the optional groups never decide a search |
| UrlValidator.ContainsIff | downloader.py:11 | The substring test `Contains(s, p)` holds iff `p` occurs at some index of `s` |
| UrlValidator.AcceptsAnyMarkerOccurrence | downloader.py:11 | Any text before and after a watch or short-link marker is accepted, since the search is unanchored |
| UrlValidator.RejectedWithoutY | downloader.py:11 | A string without the letter `y` is rejected |
| UrlValidator.RejectsExampleDomain | downloader.py:11 | `http://example.com` is rejected |
| UrlValidator.RejectsPlainWords | downloader.py:11 | The empty string, `not a url` and `invalid-line` are rejected |
| UrlValidator.ValidityIgnoresStrip | downloader.py:36-39 | Stripping a line never changes the validator's verdict, because neither marker starts or ends with whitespace |
| UrlValidator.ContainsUnderStrip | downloader.py:36-39 | A pattern with non-space ends occurs in the stripped line iff it occurs in the line |
| Strings.StripFacts | downloader.py:36 | `strip` keeps a contiguous middle slice whose ends are not whitespace, and everything cut from either end is whitespace |
| Strings.StripEmptyIff | downloader.py:36-38 | A line strips to the empty string iff it is all whitespace |
| Strings.StripKeeps | downloader.py:36 | A non-empty line with non-space ends is unchanged by `strip` |
| Strings.SplitJoin | downloader.py:30 | Splitting newline-terminated lines that hold no newline gives back those lines |
| Strings.JoinSplit | downloader.py:30 | Re-joining the lines of newline-terminated text gives back the text |
| Strings.AllLinesEmptyIff | downloader.py:30-31 | Every line of a text is empty iff the text holds only newlines |
| Strings.NatDecimalRoundTrip | downloader.py:55 | Reading back the decimal digits written for a natural number gives that number |
| Strings.IntDecimalRoundTrip | downloader.py:55 | The return code written with `str` reads back as the same integer, negative codes included |
| Strings.IntToDecimalInjective | downloader.py:55 | Distinct return codes give distinct texts in the error entry |
| Batch.ClassifyBlank | downloader.py:36-38 | A line is skipped silently iff it is all whitespace |
| Batch.ClassifyValid | downloader.py:36-42 | A line is handed to the downloader iff it is not all whitespace and the validator accepts it, and the URL handed over is the stripped line |
| Batch.ClassifyAccepted | downloader.py:39-42 | A line the validator accepts is handed to the downloader as its stripped text |
| Batch.ClassifyInvalid | downloader.py:36-41 | A line gets a skip notice iff it is not all whitespace and the validator rejects it, and the notice names the stripped line |
| Batch.VerdictAt | downloader.py:35-41 | The verdict of the `j`-th line depends on that line alone |
| Batch.InvocationCountIsValidLines | downloader.py:35-44 | The downloader is called once per line that the validator accepts and that is not all whitespace |
| Batch.InvokedUrlsOfLines | downloader.py:36-45 | Every URL handed to the downloader is non-empty, accepted by the validator and has no whitespace at either end |
| Batch.NothingToDo | downloader.py:31-33 | With no non-empty line, the run appends nothing and calls the downloader zero times |
| Batch.WhitespaceOnlyInput | downloader.py:30-38 | Lines that hold only whitespace, at least one of them non-empty, start a run that logs exactly the first and last entry and never calls the downloader |
| Batch.BatchFrame | downloader.py:34-58 | A run that starts logs "Starting downloads..." first and "All done." last, whatever the validator and the downloader said |
| Batch.LinesLogAppend | downloader.py:35-57 | The log of two runs of lines one after the other is the log of the first followed by the log of the second, each consuming its own downloader results |
| Batch.LinesLogAt | downloader.py:35-57 | The entries of line `j` sit between those of the earlier and of the later lines, and they consume exactly the downloader results left after the earlier lines' calls |
| Batch.LinesLogSnoc | downloader.py:35-57 | One more line appends exactly that line's entries |
| Batch.LinesLogLength | downloader.py:35-57 | The lines log one entry per rejected line, three per download that ran and two per download that raised |
| Batch.BatchLogLength | downloader.py:34-58 | A run logs 2 + rejected lines + 3·(ran) + 2·(raised) entries |
| Batch.LinesLogAnnounces | downloader.py:42 | Read back from the lines' log, the "Downloading: " entries name exactly the URLs handed to the downloader, in order |
| Batch.BatchLogAnnounces | downloader.py:34-58 | Read back from a run's log, the "Downloading: " entries name exactly the URLs handed to the downloader, in order |
| Batch.DownloadSkipDownload | downloader.py:35-57 | A download, a rejected line and a download log their blocks in input order, each download with its own result, and a failure of the first does not stop the second |
| Downloader.PrefillIff | downloader.py:82-87 | The URL box changes iff the clipboard holds text the validator accepts, and then gains that text and a newline at its end |
| Downloader.PrefillThenBatch | downloader.py:82-85 | A one-line clipboard URL the validator accepts is, on the first click, the one URL handed to the downloader, stripped |
| Downloader.NothingToDoIff | downloader.py:30-31 | The run stops at the nothing-to-do notice iff the URL box holds nothing but newlines |
| Downloader.InputLinesOfLine | downloader.py:30 | A box holding one line reads back as that line and the empty line Tk's trailing newline adds |
| Downloader.MixedBatch | downloader.py:28-58 | A box with two accepted links around a rejected line hands the two links over in order and logs start, download, skip notice, download, done |
| Downloader.DownloaderApp.constructor | downloader.py:80-97 | The window starts with an empty status box, the button enabled and the URL box prefilled from the clipboard |
| Downloader.DownloaderApp.AppendStatus | downloader.py:13-18 | The message goes at the end of the log, and the box's text gains the message and a newline; earlier entries are unchanged |
| Downloader.DownloaderApp.ClearStatus | downloader.py:21-25 | The log and the box's text become empty |
| Downloader.DownloaderApp.DownloadVideos | downloader.py:28-58 | Stops at the notice iff no line is non-empty; otherwise appends exactly `BatchLog` of the box's lines and hands the downloader exactly the accepted stripped lines, in order |
| Downloader.DownloaderApp.RunBatch | downloader.py:34-58 | Appends the first entry, the lines' entries and the last entry, and hands over the accepted lines' URLs |
| Downloader.DownloaderApp.ProcessLines | downloader.py:35-57 | The loop appends exactly the lines' log and hands over exactly the accepted URLs, consuming one result per call |
| Downloader.DownloaderApp.Step | downloader.py:35-57 | One turn keeps the loop invariant: the log and the URLs so far are those of the lines processed, and the results consumed are the calls made |
| Downloader.DownloaderApp.HandleLine | downloader.py:36-57 | A blank line logs nothing, a rejected one its skip notice, a valid one its announcement and outcome; only a valid line is handed over |
| Downloader.DownloaderApp.ReportOutcome | downloader.py:43-57 | A run that ran logs its stripped output, then a finished or an error entry by return code; one that raised logs only the error message |
| Downloader.DownloaderApp.OnDownloadClick | downloader.py:61-65 | After a click the log is exactly the run's log, with nothing from before kept, and the button is enabled again; it stays disabled while the batch runs |

## Left out

- The widgets, their layout, `root.update`, `mainloop`, `status.see` and the switching of the status box between normal and disabled: they are display only. The status box is modelled by its list of entries.
- The `messagebox` dialog: it is the `nothingToDo` result of `DownloadVideos` and `OnDownloadClick`.
- The worker thread: the batch runs sequentially between disabling and enabling the button, and the model does not cover clicks that arrive while it runs.
- The `subprocess.run` call and its argument list, including its misspelled `--embed-thubmnail` option: the downloader is an oracle, and each call's result is the next element of the `results` sequence. The methods require one result per call.
- Reading the clipboard and `TclError`: the clipboard's content is an `Option<string>` parameter, where `None` stands for an unreadable clipboard.
- A general regex engine: only the one fixed pattern is modelled.
- Line terminators other than `'\n'` in `splitlines` (`\r`, `\r\n`, form feed, the Unicode line and paragraph separators and others): the model splits on `'\n'` only. A line holding one of those is one line here, where Python splits it. `strip` uses Python's full `isspace` set.
- How an exception renders as text: the message is an opaque string.
