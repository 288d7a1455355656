/**
 * The regular expression /ch(\d+)\.pdf/ that the resolver applies to a
 * document's source name, without anchors and without flags. JavaScript
 * tries the start positions from left to right and reports the first one
 * at which the whole pattern matches; `\d` is an ASCII decimal digit.
 */
module ChapterPattern {
  import opened Wrappers
  import opened JsText

  /** A successful match: `index` is where "ch" starts, `groupLength` the length of group 1. */
  datatype Match = Match(index: nat, groupLength: nat)

  /**
   * What the pattern means: at position `i` the text reads "ch", then `k`
   * digits with `k` at least one, then ".pdf".
   */
  ghost predicate MatchesAt(s: string, i: nat, k: nat) {
    && k >= 1
    && i + k + 6 <= |s|
    && s[i..i + 2] == "ch"
    && AllDigits(s[i + 2..i + 2 + k])
    && s[i + 2 + k..i + 6 + k] == ".pdf"
  }

  ghost predicate MatchesSomewhere(s: string) {
    exists i: nat, k: nat :: MatchesAt(s, i, k)
  }

  /** The length of the run of digits that starts at `j`. */
  function DigitRun(s: string, j: nat): (n: nat)
    requires j <= |s|
    ensures j + n <= |s|
    ensures AllDigits(s[j..j + n])
    ensures j + n < |s| ==> !IsDigit(s[j + n])
    decreases |s| - j
  {
    if j < |s| && IsDigit(s[j]) then
      var rest := DigitRun(s, j + 1);
      assert s[j..j + 1 + rest] == [s[j]] + s[j + 1..j + 1 + rest];
      1 + rest
    else 0
  }

  /** Where the pattern matches, its group is the whole run of digits after "ch". */
  lemma {:induction false} GroupIsRun(s: string, i: nat, k: nat)
    requires MatchesAt(s, i, k)
    ensures DigitRun(s, i + 2) == k
  {
    var n := DigitRun(s, i + 2);
    assert forall m :: i + 2 <= m < i + 2 + k ==> IsDigit(s[m]) by {
      forall m | i + 2 <= m < i + 2 + k ensures IsDigit(s[m]) {
        assert s[m] == s[i + 2..i + 2 + k][m - i - 2];
      }
    }
    assert forall m :: i + 2 <= m < i + 2 + n ==> IsDigit(s[m]) by {
      forall m | i + 2 <= m < i + 2 + n ensures IsDigit(s[m]) {
        assert s[m] == s[i + 2..i + 2 + n][m - i - 2];
      }
    }
    assert s[i + 2 + k] == s[i + 2 + k..i + 6 + k][0] == '.';
  }

  lemma GroupIsRunEverywhere(s: string, i: nat)
    ensures forall k: nat :: MatchesAt(s, i, k) ==> i + 2 <= |s| && DigitRun(s, i + 2) == k
  {
    forall k: nat | MatchesAt(s, i, k)
      ensures i + 2 <= |s| && DigitRun(s, i + 2) == k
    {
      GroupIsRun(s, i, k);
    }
  }

  /** One attempt of the matcher at position `i`: the length of group 1 if the pattern matches there. */
  function TryAt(s: string, i: nat): (r: Option<nat>)
    requires i <= |s|
    ensures forall k: nat :: MatchesAt(s, i, k) <==> r == Some(k)
  {
    GroupIsRunEverywhere(s, i);
    if i + 2 <= |s| && s[i..i + 2] == "ch" then
      var k := DigitRun(s, i + 2);
      if k >= 1 && i + k + 6 <= |s| && s[i + 2 + k..i + 6 + k] == ".pdf" then Some(k) else None
    else None
  }

  /** The matcher run from position `i` onwards: the first position where the pattern matches. */
  function FindFrom(s: string, i: nat): (m: Option<Match>)
    requires i <= |s|
    ensures m.Some? ==> i <= m.value.index && MatchesAt(s, m.value.index, m.value.groupLength)
    ensures m.Some? ==> forall j: nat, k: nat :: i <= j < m.value.index ==> !MatchesAt(s, j, k)
    ensures m.None? ==> forall j: nat, k: nat :: i <= j ==> !MatchesAt(s, j, k)
    decreases |s| - i
  {
    match TryAt(s, i)
    case Some(k) => Some(Match(i, k))
    case None => if i == |s| then None else FindFrom(s, i + 1)
  }

  /** `s.match(/ch(\d+)\.pdf/)`: null exactly when the pattern matches nowhere, else the leftmost match. */
  function Exec(s: string): (m: Option<Match>)
    ensures m.None? <==> !MatchesSomewhere(s)
    ensures m.Some? ==> MatchesAt(s, m.value.index, m.value.groupLength)
    ensures m.Some? ==> forall j: nat, k: nat :: j < m.value.index ==> !MatchesAt(s, j, k)
  {
    FindFrom(s, 0)
  }

  /** Group 1 of a match, read by `parseInt(match[1], 10)`: the chapter number, if the source names one. */
  function ChapterOf(source: string): (c: Option<nat>)
    ensures c.None? <==> !MatchesSomewhere(source)
  {
    match Exec(source)
    case None => None
    case Some(m) => Some(ParseDecimal(source[m.index + 2..m.index + 2 + m.groupLength]))
  }

  /** The group of digits is fixed by where the match starts. */
  lemma GroupDetermined(s: string, i: nat, k1: nat, k2: nat)
    requires MatchesAt(s, i, k1) && MatchesAt(s, i, k2)
    ensures k1 == k2
  {
    var r := TryAt(s, i);
  }

  /** The chapter is the value of the digits of the leftmost match. */
  lemma ChapterOfLeftmost(source: string, i: nat, k: nat)
    requires MatchesAt(source, i, k)
    requires forall j: nat, k': nat :: j < i ==> !MatchesAt(source, j, k')
    ensures ChapterOf(source) == Some(ParseDecimal(source[i + 2..i + 2 + k]))
  {
    var m := Exec(source);
    assert m.Some?;
    assert m.value.index == i;
    GroupDetermined(source, i, k, m.value.groupLength);
  }

  /** The file name "ch<n>.pdf" that names chapter n. */
  function ChapterFile(n: nat): string
  {
    "ch" + NatToString(n) + ".pdf"
  }

  /** Reading the chapter back from the file name of chapter n gives n. */
  lemma ChapterFileRoundTrip(n: nat)
    ensures ChapterOf(ChapterFile(n)) == Some(n)
  {
    var s := ChapterFile(n);
    var k := |NatToString(n)|;
    assert s[..2] == "ch" && s[2..2 + k] == NatToString(n) && s[2 + k..] == ".pdf";
    assert MatchesAt(s, 0, k);
    ParseRendered(n);
    ChapterOfLeftmost(s, 0, k);
  }

  /** A text without the letter c contains no match. */
  lemma NoMatchWithoutC(s: string)
    requires forall i :: 0 <= i < |s| ==> s[i] != 'c'
    ensures !MatchesSomewhere(s)
  {
    forall i: nat, k: nat ensures !MatchesAt(s, i, k) {
      if i + 2 <= |s| {
        assert s[i..i + 2][0] == s[i];
      }
    }
  }

  /** Leading zeros in the group are read away: "ch03.pdf" names chapter 3. */
  lemma LeadingZerosIgnored()
    ensures ChapterOf("ch03.pdf") == Some(3)
  {
    var s := "ch03.pdf";
    assert MatchesAt(s, 0, 2);
    ChapterOfLeftmost(s, 0, 2);
    assert s[2..4] == "03";
    assert ParseDecimal("03") == 3;
  }

  /** A "ch" that the rest of the pattern does not follow is passed over for a later complete match. */
  lemma IncompleteMatchSkipped()
    ensures ChapterOf("chch5.pdf") == Some(5)
  {
    var s := "chch5.pdf";
    assert MatchesAt(s, 2, 1);
    forall j: nat, k: nat | j < 2 ensures !MatchesAt(s, j, k) {
      if j == 0 && 1 <= k && 2 + k <= |s| {
        assert s[2..2 + k][0] == s[2] == 'c';
      } else if j == 1 {
        assert s[1..3][0] == s[1] == 'h';
      }
    }
    ChapterOfLeftmost(s, 2, 1);
    assert s[4..5] == "5";
    assert ParseDecimal("5") == 5;
  }
}
