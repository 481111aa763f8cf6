/** The pieces of Python's text handling the save files and can_be_placed rely on:
    `str(n)` for an integer, `int(s)` for a string (base 10), and `s.split(",")`. */
module Strings {
  import opened Constants

  predicate IsDigit(ch: char)
  {
    '0' <= ch <= '9'
  }

  function DigitValue(ch: char): nat
    requires IsDigit(ch)
  {
    ch as int - '0' as int
  }

  function DigitChar(d: nat): (ch: char)
    requires d < 10
    ensures IsDigit(ch) && DigitValue(ch) == d
  {
    ('0' as int + d) as char
  }

  /** The ASCII characters Python's str.strip() and int() treat as whitespace. */
  predicate IsSpace(ch: char)
  {
    ch == ' ' || ('\t' <= ch <= '\r') || ('\U{1C}' <= ch <= '\U{1F}')
  }

  function StripLeft(s: string): string
  {
    if s != [] && IsSpace(s[0]) then StripLeft(s[1..]) else s
  }

  function StripRight(s: string): string
  {
    if s != [] && IsSpace(s[|s| - 1]) then StripRight(s[..|s| - 1]) else s
  }

  /** The digit part int() accepts: digits, with single underscores between two digits. */
  predicate WellFormedDigits(s: string)
  {
    && |s| > 0 && IsDigit(s[0]) && IsDigit(s[|s| - 1])
    && (forall i :: 0 <= i < |s| ==> IsDigit(s[i]) || s[i] == '_')
    && (forall i :: 0 <= i < |s| - 1 ==> IsDigit(s[i]) || IsDigit(s[i + 1]))
  }

  /** The value of a digit string, underscores skipped. */
  function DigitsValue(s: string): nat
    requires forall i :: 0 <= i < |s| ==> IsDigit(s[i]) || s[i] == '_'
  {
    if s == [] then 0
    else if s[|s| - 1] == '_' then DigitsValue(s[..|s| - 1])
    else DigitsValue(s[..|s| - 1]) * 10 + DigitValue(s[|s| - 1])
  }

  /** `int(s)` for a string: None where Python raises ValueError. */
  function ParseInt(s: string): Option<int>
  {
    var t := StripRight(StripLeft(s));
    var negative := t != [] && t[0] == '-';
    var digits := if t != [] && (t[0] == '-' || t[0] == '+') then t[1..] else t;
    if !WellFormedDigits(digits) then None
    else
      var v: int := DigitsValue(digits);
      Some(if negative then -v else v)
  }

  /** int() refuses a string with no digit in it, the empty string among them. */
  lemma {:induction false} ParseIntNeedsADigit(s: string)
    requires forall i :: 0 <= i < |s| ==> !IsDigit(s[i])
    ensures ParseInt(s) == None
  {
    var t := StripRight(StripLeft(s));
    StripKeepsCharacters(s);
    var digits := if t != [] && (t[0] == '-' || t[0] == '+') then t[1..] else t;
    assert !WellFormedDigits(digits) by {
      if |digits| > 0 {
        assert digits[0] in t;
      }
    }
  }

  lemma StripKeepsCharacters(s: string)
    ensures forall ch :: ch in StripRight(StripLeft(s)) ==> ch in s
  {
    StripLeftIsSuffix(s);
    StripRightIsPrefix(StripLeft(s));
  }

  lemma {:induction false} StripLeftIsSuffix(s: string)
    ensures forall ch :: ch in StripLeft(s) ==> ch in s
    decreases |s|
  {
    if s != [] && IsSpace(s[0]) {
      StripLeftIsSuffix(s[1..]);
    }
  }

  lemma {:induction false} StripRightIsPrefix(s: string)
    ensures StripRight(s) <= s
    decreases |s|
  {
    if s != [] && IsSpace(s[|s| - 1]) {
      StripRightIsPrefix(s[..|s| - 1]);
    }
  }

  /** `str(n)` for a non-negative integer: its decimal digits, no leading zero. */
  function NatToString(n: nat): (r: string)
    ensures |r| > 0 && forall i :: 0 <= i < |r| ==> IsDigit(r[i])
  {
    if n < 10 then [DigitChar(n)] else NatToString(n / 10) + [DigitChar(n % 10)]
  }

  /** `str(n)` for an integer. */
  function IntToString(n: int): (r: string)
    ensures |r| > 0 && forall i :: 0 <= i < |r| ==> IsDigit(r[i]) || (i == 0 && r[i] == '-')
  {
    if n < 0 then "-" + NatToString(-n) else NatToString(n)
  }

  lemma {:induction false} NatToStringValue(n: nat)
    ensures WellFormedDigits(NatToString(n)) && DigitsValue(NatToString(n)) == n
  {
    if n >= 10 {
      var s := NatToString(n / 10);
      NatToStringValue(n / 10);
      assert (s + [DigitChar(n % 10)])[..|s|] == s;
    }
  }

  lemma {:induction false} StripLeftNoSpace(s: string)
    requires s != [] && !IsSpace(s[0])
    ensures StripLeft(s) == s
  {
  }

  /** str and int are inverse: `int(str(n)) == n`, also with the newline a line of a
      save file ends with. */
  lemma ParseIntToString(n: int, trailer: string)
    requires forall i :: 0 <= i < |trailer| ==> IsSpace(trailer[i])
    ensures ParseInt(IntToString(n) + trailer) == Some(n)
  {
    var s := IntToString(n);
    var digits := if n < 0 then NatToString(-n) else NatToString(n);
    NatToStringValue(if n < 0 then -n else n);
    StripLeftNoSpace(s + trailer);
    StripRightTrailer(s, trailer);
    if n < 0 {
      assert s[1..] == digits;
    }
  }

  lemma {:induction false} StripRightTrailer(s: string, trailer: string)
    requires s != [] && !IsSpace(s[|s| - 1])
    requires forall i :: 0 <= i < |trailer| ==> IsSpace(trailer[i])
    ensures StripRight(s + trailer) == s
    decreases |trailer|
  {
    if trailer == [] {
      assert s + trailer == s;
    } else {
      var shorter := trailer[..|trailer| - 1];
      assert (s + trailer)[..|s + trailer| - 1] == s + shorter;
      StripRightTrailer(s, shorter);
    }
  }

  /** `s.split(sep)`: the pieces between occurrences of sep, at least one. */
  function Split(s: string, sep: char): (r: seq<string>)
    ensures |r| >= 1
    decreases |s|
  {
    if s == [] then [""]
    else if s[0] == sep then [""] + Split(s[1..], sep)
    else
      var rest := Split(s[1..], sep);
      [[s[0]] + rest[0]] + rest[1..]
  }

  /** Splitting a string that holds no separator gives the string back, and a
      separator ends the first piece. */
  lemma {:induction false} SplitAtSeparator(a: string, sep: char, rest: string)
    requires sep !in a
    ensures Split(a, sep) == [a]
    ensures Split(a + [sep] + rest, sep) == [a] + Split(rest, sep)
    decreases |a|
  {
    if a != [] {
      SplitAtSeparator(a[1..], sep, rest);
      assert (a + [sep] + rest)[1..] == a[1..] + [sep] + rest;
      assert [a[0]] + a[1..] == a;
    } else {
      assert a + [sep] + rest == [sep] + rest;
      assert ([sep] + rest)[1..] == rest;
    }
  }
}
