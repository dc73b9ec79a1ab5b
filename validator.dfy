/** The URL check of the downloader: `YOUTUBE_REGEX.search(s)` for the fixed
    pattern `(https?://)?(www\.)?(youtube\.com/watch\?v=|youtu\.be/)`.
    `IsYoutubeUrl` is the substring test the search amounts to; `PatternSearch`
    reads the pattern group by group, and `SearchIsSubstringTest` proves the
    two agree. */
module UrlValidator {
  import opened Strings

  /** `p` occurs in `s` starting at index `i`. */
  predicate OccursAt(s: string, i: nat, p: string)
  {
    i + |p| <= |s| && s[i..i + |p|] == p
  }

  /** Substring test, scanning start positions from left to right. */
  function Contains(s: string, p: string): bool
    decreases |s|
  {
    if |p| > |s| then false
    else if s[..|p|] == p then true
    else Contains(s[1..], p)
  }

  /** The scan finds `p` exactly when `p` occurs somewhere in `s`. */
  lemma {:induction false} ContainsIff(s: string, p: string)
    ensures Contains(s, p) <==> exists i :: 0 <= i <= |s| && OccursAt(s, i, p)
    decreases |s|
  {
    if |p| > |s| {
    } else if s[..|p|] == p {
      assert OccursAt(s, 0, p);
    } else {
      ContainsIff(s[1..], p);
      ShiftOccurrences(s, p);
    }
  }

  /** Occurrences in `s[1..]` are the occurrences in `s` past index 0. */
  lemma ShiftOccurrences(s: string, p: string)
    requires s != []
    ensures forall i: nat :: OccursAt(s[1..], i, p) ==> OccursAt(s, i + 1, p)
    ensures forall i: nat :: 0 < i && OccursAt(s, i, p) ==> OccursAt(s[1..], i - 1, p)
  {
    forall i: nat
      ensures OccursAt(s[1..], i, p) <==> OccursAt(s, i + 1, p)
    {
      if i + |p| <= |s| - 1 {
        assert s[1..][i..i + |p|] == s[i + 1..i + 1 + |p|];
      }
    }
  }

  const WatchPath: string := "youtube.com/watch?v="
  const ShortPath: string := "youtu.be/"

  /** The validator: `YOUTUBE_REGEX.search(s)` succeeds exactly when one of the
      two path markers occurs somewhere in `s` (the optional groups in front
      of it never decide a search). */
  predicate IsYoutubeUrl(s: string)
  {
    Contains(s, WatchPath) || Contains(s, ShortPath)
  }

  /** The alternatives of each group of the pattern, in pattern order. An
      optional group `( … )?` also matches the empty string. */
  const SchemeOptions: seq<string> := ["", "http://", "https://"]
  const WwwOptions: seq<string> := ["", "www."]
  const PathOptions: seq<string> := [WatchPath, ShortPath]

  /** The pattern matches at index `i`: some choice for each group, read in
      sequence, spells out the text starting at `i`. */
  ghost predicate PatternMatchesAt(s: string, i: nat)
  {
    exists a, b, c :: 0 <= a < |SchemeOptions| && 0 <= b < |WwwOptions| && 0 <= c < |PathOptions|
      && OccursAt(s, i, SchemeOptions[a] + WwwOptions[b] + PathOptions[c])
  }

  /** `re.search`: the pattern matches at some index of `s`. */
  ghost predicate PatternSearch(s: string)
  {
    exists i :: 0 <= i <= |s| && PatternMatchesAt(s, i)
  }

  /** An occurrence of `q + p` contains an occurrence of `p` after `q`. */
  lemma OccursAfterPrefix(s: string, i: nat, q: string, p: string)
    requires OccursAt(s, i, q + p)
    ensures OccursAt(s, i + |q|, p)
  {
    assert s[i + |q|..i + |q| + |p|] == s[i..i + |q + p|][|q|..];
  }

  /** The search with the optional scheme and `www.` groups succeeds on exactly
      the strings that contain one of the path markers. */
  lemma SearchIsSubstringTest(s: string)
    ensures PatternSearch(s) <==> IsYoutubeUrl(s)
  {
    ContainsIff(s, WatchPath);
    ContainsIff(s, ShortPath);
    if PatternSearch(s) {
      var i :| 0 <= i <= |s| && PatternMatchesAt(s, i);
      var a, b, c :| 0 <= a < |SchemeOptions| && 0 <= b < |WwwOptions| && 0 <= c < |PathOptions|
        && OccursAt(s, i, SchemeOptions[a] + WwwOptions[b] + PathOptions[c]);
      OccursAfterPrefix(s, i, SchemeOptions[a] + WwwOptions[b], PathOptions[c]);
    }
    if IsYoutubeUrl(s) {
      var c := if Contains(s, WatchPath) then 0 else 1;
      var i :| 0 <= i <= |s| && OccursAt(s, i, PathOptions[c]);
      assert SchemeOptions[0] + WwwOptions[0] + PathOptions[c] == PathOptions[c];
      assert PatternMatchesAt(s, i);
    }
  }

  /** A string that lacks the first character of `p` does not contain `p`. */
  lemma MissingFirstChar(s: string, p: string)
    requires p != [] && p[0] !in s
    ensures !Contains(s, p)
  {
    ContainsIff(s, p);
    forall i: nat | i + |p| <= |s|
      ensures !OccursAt(s, i, p)
    {
      assert s[i..i + |p|][0] == s[i];
    }
  }

  lemma OccursBetween(a: string, p: string, b: string)
    ensures OccursAt(a + p + b, |a|, p)
  {
    assert (a + p + b)[|a|..|a| + |p|] == p;
  }

  /** Whatever surrounds a marker, the validator accepts the string. */
  lemma AcceptsAnyMarkerOccurrence(before: string, after: string)
    ensures IsYoutubeUrl(before + WatchPath + after)
    ensures IsYoutubeUrl(before + ShortPath + after)
  {
    OccursBetween(before, WatchPath, after);
    OccursBetween(before, ShortPath, after);
    ContainsIff(before + WatchPath + after, WatchPath);
    ContainsIff(before + ShortPath + after, ShortPath);
  }

  /** Strings without a 'y' are rejected: both markers start with one. */
  lemma RejectedWithoutY(s: string)
    requires 'y' !in s
    ensures !IsYoutubeUrl(s)
  {
    MissingFirstChar(s, WatchPath);
    MissingFirstChar(s, ShortPath);
  }

  /** Strings the validator rejects: the empty string, another domain and
      plain words. */
  lemma RejectsExampleDomain()
    ensures !IsYoutubeUrl("http://example.com")
  {
    RejectedWithoutY("http://example.com");
  }

  lemma RejectsPlainWords()
    ensures !IsYoutubeUrl("") && !IsYoutubeUrl("not a url") && !IsYoutubeUrl("invalid-line")
  {
    RejectedWithoutY("");
    RejectedWithoutY("not a url");
    RejectedWithoutY("invalid-line");
  }

  /** `strip` keeps every character that is not whitespace, so a stretch
      that starts and ends with such characters lies inside the result. */
  lemma InsideStripped(s: string, i: nat, j: nat)
    requires i < j <= |s| && !IsSpace(s[i]) && !IsSpace(s[j - 1])
    ensures LeadingSpaces(s) <= i && j <= LeadingSpaces(s) + |Strip(s)|
  {
    StripFacts(s);
  }

  lemma SliceOfSlice(s: string, lo: nat, hi: nat, i: nat, j: nat)
    requires lo <= hi <= |s| && i <= j <= hi - lo
    ensures s[lo..hi][i..j] == s[lo + i..lo + j]
  {
    forall k | 0 <= k < j - i
      ensures s[lo..hi][i..j][k] == s[lo + i..lo + j][k]
    {
    }
  }

  /** An occurrence of a word that neither starts nor ends with whitespace
      survives `strip`, at the same place in the stripped text. */
  lemma OccursInStripped(s: string, i: nat, p: string)
    requires p != [] && !IsSpace(p[0]) && !IsSpace(p[|p| - 1])
    requires OccursAt(s, i, p)
    ensures LeadingSpaces(s) <= i && OccursAt(Strip(s), i - LeadingSpaces(s), p)
  {
    EndsOfOccurrence(s, i, p);
    InsideStripped(s, i, i + |p|);
    OccursInWindow(s, i, p);
  }

  lemma EndsOfOccurrence(s: string, i: nat, p: string)
    requires p != [] && OccursAt(s, i, p)
    ensures s[i] == p[0] && s[i + |p| - 1] == p[|p| - 1]
  {
    assert s[i..i + |p|] == p;
  }

  /** An occurrence inside the window that `strip` keeps is one in the
      stripped text. */
  lemma OccursInWindow(s: string, i: nat, p: string)
    requires OccursAt(s, i, p)
    requires LeadingSpaces(s) <= i && i + |p| <= LeadingSpaces(s) + |Strip(s)|
    ensures OccursAt(Strip(s), i - LeadingSpaces(s), p)
  {
    var n, r := LeadingSpaces(s), Strip(s);
    StripFacts(s);
    SliceOfSlice(s, n, n + |r|, i - n, i - n + |p|);
  }

  /** An occurrence in the stripped text is one in the original. */
  lemma OccursFromStripped(s: string, i: nat, p: string)
    requires OccursAt(Strip(s), i, p)
    ensures OccursAt(s, i + LeadingSpaces(s), p)
  {
    var n, r := LeadingSpaces(s), Strip(s);
    StripFacts(s);
    SliceOfSlice(s, n, n + |r|, i, i + |p|);
  }

  lemma ContainsUnderStrip(s: string, p: string)
    requires p != [] && !IsSpace(p[0]) && !IsSpace(p[|p| - 1])
    ensures Contains(Strip(s), p) <==> Contains(s, p)
  {
    ContainsIff(s, p);
    ContainsIff(Strip(s), p);
    if Contains(s, p) {
      var i :| 0 <= i <= |s| && OccursAt(s, i, p);
      OccursInStripped(s, i, p);
    }
    if Contains(Strip(s), p) {
      var i :| 0 <= i <= |Strip(s)| && OccursAt(Strip(s), i, p);
      OccursFromStripped(s, i, p);
    }
  }

  /** Stripping a line never changes the validator's verdict, because neither
      marker starts or ends with whitespace. */
  lemma ValidityIgnoresStrip(s: string)
    ensures IsYoutubeUrl(Strip(s)) <==> IsYoutubeUrl(s)
  {
    ContainsUnderStrip(s, WatchPath);
    ContainsUnderStrip(s, ShortPath);
  }
}
