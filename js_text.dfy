/**
 * The few JavaScript string facilities the citation resolver relies on:
 * `parseInt(digits, 10)`, the decimal rendering of an integer inside a
 * template literal, and `Array.prototype.join` with a one-character
 * separator (together with the split that undoes it).
 */
module JsText {
  import opened Wrappers

  predicate IsDigit(c: char) {
    '0' <= c <= '9'
  }

  predicate AllDigits(s: string) {
    forall k :: 0 <= k < |s| ==> IsDigit(s[k])
  }

  function DigitValue(c: char): (d: nat)
    requires IsDigit(c)
    ensures d < 10
  {
    (c as int) - ('0' as int)
  }

  function DigitChar(d: nat): (c: char)
    requires d < 10
    ensures IsDigit(c) && DigitValue(c) == d
  {
    (('0' as int) + d) as char
  }

  function Pow10(k: nat): (p: nat)
    ensures p >= 1
  {
    if k == 0 then 1 else 10 * Pow10(k - 1)
  }

  /** `parseInt(s, 10)` for a string made only of decimal digits: the value read in base ten. */
  function ParseDecimal(s: string): (n: nat)
    requires AllDigits(s)
    ensures n < Pow10(|s|)
  {
    if s == [] then 0 else ParseDecimal(s[..|s| - 1]) * 10 + DigitValue(s[|s| - 1])
  }

  /** The decimal text of a non-negative integer, as a template literal renders it: no leading zeros. */
  function NatToString(n: nat): (s: string)
    ensures |s| >= 1 && AllDigits(s)
    ensures (s[0] == '0') == (n == 0)
    ensures (|s| == 1) == (n < 10)
  {
    if n < 10 then [DigitChar(n)] else NatToString(n / 10) + [DigitChar(n % 10)]
  }

  /** A character that can appear in the decimal text of an integer. */
  predicate IsNumeral(c: char) {
    IsDigit(c) || c == '-'
  }

  /** The decimal text of any integer, with a leading minus sign when it is negative. */
  function IntToString(i: int): (s: string)
    ensures |s| >= 1 && (s[0] == '-' <==> i < 0)
    ensures forall k :: 0 <= k < |s| ==> IsNumeral(s[k])
  {
    if i < 0 then "-" + NatToString(-i) else NatToString(i)
  }

  /** Reading back the rendered text of an integer gives the integer. */
  lemma ReadRendered(i: int)
    ensures ReadInt(IntToString(i)) == Some(i)
  {
    var s := IntToString(i);
    if i < 0 {
      var digits := NatToString(-i);
      assert s == "-" + digits;
      ReadNegative(digits);
      ParseRendered(-i);
    } else {
      assert s == NatToString(i);
      ReadDigits(s);
      ParseRendered(i);
    }
  }

  /**
   * The value that the decimal text of an integer stands for: an optional
   * minus sign followed by at least one digit. Any other text stands for none.
   */
  function ReadInt(s: string): (r: Option<int>)
  {
    if |s| >= 2 && s[0] == '-' && AllDigits(s[1..]) then Some(-(ParseDecimal(s[1..]) as int))
    else if |s| >= 1 && AllDigits(s) then Some(ParseDecimal(s))
    else None
  }

  /** Reading back the rendered text of a natural number gives the number. */
  lemma {:induction false} ParseRendered(n: nat)
    ensures ParseDecimal(NatToString(n)) == n
  {
    if n >= 10 {
      var s := NatToString(n);
      var front := NatToString(n / 10);
      assert s[..|s| - 1] == front;
      ParseRendered(n / 10);
    }
  }

  /** Digits that read as zero are all zeros. */
  lemma {:induction false} ParseZero(s: string)
    requires AllDigits(s)
    requires ParseDecimal(s) == 0
    ensures forall k :: 0 <= k < |s| ==> s[k] == '0'
  {
    if s != [] {
      var front := s[..|s| - 1];
      assert AllDigits(front);
      ParseZero(front);
      assert forall k :: 0 <= k < |front| ==> s[k] == front[k];
    }
  }

  /**
   * Rendering the value of a digit string without leading zeros gives the
   * string back: with ParseRendered, decimal text without leading zeros and
   * natural numbers are in one-to-one correspondence.
   */
  lemma {:induction false} RenderParsed(s: string)
    requires |s| >= 1 && AllDigits(s)
    requires |s| > 1 ==> s[0] != '0'
    ensures NatToString(ParseDecimal(s)) == s
  {
    var front := s[..|s| - 1];
    assert AllDigits(front);
    var v := ParseDecimal(front);
    var d := DigitValue(s[|s| - 1]);
    var n := ParseDecimal(s);
    if |s| > 1 {
      if v == 0 {
        ParseZero(front);
        assert false;
      }
      assert n / 10 == v && n % 10 == d;
      RenderParsed(front);
      assert DigitChar(d) == s[|s| - 1];
      assert s == front + [s[|s| - 1]];
    } else {
      assert DigitChar(d) == s[0];
    }
  }

  /** The middle of a three-part concatenation is recovered by cutting off the two ends. */
  lemma Enclosed(front: string, middle: string, back: string)
    ensures var s := front + middle + back;
      && |s| == |front| + |middle| + |back|
      && s[..|front|] == front
      && s[|s| - |back|..] == back
      && s[|front|..|s| - |back|] == middle
  {
  }

  /**
   * A number's text followed by text that starts with something other than a
   * digit or a minus sign can be cut apart in only one way.
   */
  lemma LeadingNumeral(x1: string, y1: string, x2: string, y2: string)
    requires forall k :: 0 <= k < |x1| ==> IsNumeral(x1[k])
    requires forall k :: 0 <= k < |x2| ==> IsNumeral(x2[k])
    requires |y1| >= 1 && !IsNumeral(y1[0]) && |y2| >= 1 && !IsNumeral(y2[0])
    requires x1 + y1 == x2 + y2
    ensures x1 == x2 && y1 == y2
  {
    var s := x1 + y1;
    assert forall j :: 0 <= j < |x1| ==> IsNumeral(s[j]);
    assert forall j :: 0 <= j < |x2| ==> IsNumeral(s[j]);
    assert !IsNumeral(s[|x1|]) && !IsNumeral(s[|x2|]);
    assert |x1| == |x2|;
    assert x1 == (x1 + y1)[..|x1|] && x2 == (x2 + y2)[..|x2|];
    assert y1 == (x1 + y1)[|x1|..] && y2 == (x2 + y2)[|x2|..];
  }

  lemma ReadDigits(s: string)
    requires |s| >= 1 && AllDigits(s)
    ensures ReadInt(s) == Some(ParseDecimal(s) as int)
  {
    assert IsDigit(s[0]);
  }

  lemma ReadNegative(digits: string)
    requires |digits| >= 1 && AllDigits(digits)
    ensures ReadInt("-" + digits) == Some(-(ParseDecimal(digits) as int))
  {
    assert ("-" + digits)[1..] == digits;
  }

  /** What follows a prefix is the rest of the text. */
  lemma AfterPrefix(a: string, b: string)
    ensures (a + b)[|a|..] == b
  {
  }

  /** `parts.join(sep)` */
  function Join(parts: seq<string>, sep: char): (s: string)
  {
    if |parts| == 0 then ""
    else if |parts| == 1 then parts[0]
    else parts[0] + [sep] + Join(parts[1..], sep)
  }

  /** Cutting a string at every occurrence of `sep`; the partner that undoes Join. */
  function Split(s: string, sep: char): (parts: seq<string>)
    ensures |parts| >= 1
    ensures forall k :: 0 <= k < |parts| ==> sep !in parts[k]
  {
    if |s| == 0 then [""]
    else
      var rest := Split(s[1..], sep);
      if s[0] == sep then [""] + rest else [[s[0]] + rest[0]] + rest[1..]
  }

  lemma {:induction false} SplitAfterPiece(x: string, t: string, sep: char)
    requires sep !in x
    ensures Split(x + t, sep) == [x + Split(t, sep)[0]] + Split(t, sep)[1..]
  {
    if |x| == 0 {
      assert x + t == t;
      var parts := Split(t, sep);
      assert x + parts[0] == parts[0];
      assert parts == [parts[0]] + parts[1..];
    } else {
      assert (x + t)[1..] == x[1..] + t;
      SplitAfterPiece(x[1..], t, sep);
      assert [x[0]] + (x[1..] + Split(t, sep)[0]) == x + Split(t, sep)[0];
    }
  }

  /** Splitting a join of separator-free pieces gives the pieces back. */
  lemma {:induction false} SplitJoin(parts: seq<string>, sep: char)
    requires |parts| >= 1
    requires forall k :: 0 <= k < |parts| ==> sep !in parts[k]
    ensures Split(Join(parts, sep), sep) == parts
  {
    if |parts| == 1 {
      SplitAfterPiece(parts[0], "", sep);
      assert parts[0] + "" == parts[0];
    } else {
      var rest := Join(parts[1..], sep);
      SplitJoin(parts[1..], sep);
      assert Split([sep] + rest, sep) == [""] + parts[1..] by {
        assert ([sep] + rest)[1..] == rest;
      }
      assert Join(parts, sep) == parts[0] + ([sep] + rest);
      SplitAfterPiece(parts[0], [sep] + rest, sep);
      assert parts[0] + "" == parts[0];
      assert parts == [parts[0]] + parts[1..];
    }
  }

  /** Joining the pieces of a split gives the original string back. */
  lemma {:induction false} JoinSplit(s: string, sep: char)
    ensures Join(Split(s, sep), sep) == s
  {
    if |s| > 0 {
      var rest := Split(s[1..], sep);
      JoinSplit(s[1..], sep);
      if s[0] == sep {
        assert ([""] + rest)[1..] == rest;
        assert s == [sep] + s[1..];
      } else {
        var parts := [[s[0]] + rest[0]] + rest[1..];
        if |rest| == 1 {
          assert s == [s[0]] + s[1..];
        } else {
          assert parts[1..] == rest[1..];
          assert s == [s[0]] + s[1..];
        }
      }
    }
  }
}
