/** The parts of Python's str and int built-ins that the task list's row text relies on:
    str(n), the format specification "02d", str.split, str.strip and int(s). */
module PyText {
  import opened Wrappers

  /** The whitespace int() ignores around a literal: the characters for which str.isspace()
      holds, except the separators U+001C to U+001F, which int() rejects. */
  predicate IsSpace(c: char) {
    || c == ' '
    || '\t' <= c <= '\r'
    || c == '\U{85}' || c == '\U{A0}' || c == '\U{1680}'
    || '\U{2000}' <= c <= '\U{200A}'
    || c == '\U{2028}' || c == '\U{2029}' || c == '\U{202F}' || c == '\U{205F}' || c == '\U{3000}'
  }

  predicate IsDigit(c: char) {
    '0' <= c <= '9'
  }

  predicate AllDigits(s: string) {
    forall i :: 0 <= i < |s| ==> IsDigit(s[i])
  }

  function DigitValue(c: char): nat
    requires IsDigit(c)
  {
    (c as int) - ('0' as int)
  }

  function DigitChar(d: nat): (c: char)
    requires d < 10
    ensures IsDigit(c) && DigitValue(c) == d
  {
    ((('0' as int) + d) as char)
  }

  /** The decimal digits of n, most significant first, without leading zeros. */
  function NatStr(n: nat): (s: string)
    ensures |s| > 0 && AllDigits(s)
    ensures (|s| == 1) == (n < 10)
  {
    if n < 10 then [DigitChar(n)] else NatStr(n / 10) + [DigitChar(n % 10)]
  }

  /** str(n) for an int: a minus sign for negative n, then the digits of |n|. */
  function Str(n: int): (s: string)
    ensures |s| > 0 && IsDigit(s[|s| - 1])
    ensures IsDigit(s[0]) || (s[0] == '-' && n < 0)
    ensures forall i :: 0 < i < |s| ==> IsDigit(s[i])
  {
    if n < 0 then "-" + NatStr(-n) else NatStr(n)
  }

  /** format(n, "02d"): the sign and digits of n, zero-filled after the sign to width two. */
  function ZeroPad2(n: int): (s: string)
    ensures |s| >= 2
    ensures 0 <= n < 100 ==> |s| == 2 && AllDigits(s)
  {
    if 0 <= n < 10 then "0" + Str(n) else Str(n)
  }

  /** s.split(sep) for a one-character separator: the pieces between the separators,
      empty pieces included, so k separators give k + 1 pieces. */
  function Split(s: string, sep: char): (parts: seq<string>)
    ensures |parts| >= 1
    ensures forall i :: 0 <= i < |parts| ==> sep !in parts[i]
    ensures |parts| == 1 <==> sep !in s
  {
    if s == [] then [""]
    else if s[0] == sep then [""] + Split(s[1..], sep)
    else
      var rest := Split(s[1..], sep);
      [[s[0]] + rest[0]] + rest[1..]
  }

  /** sep.join(parts): the inverse of Split. */
  function Join(parts: seq<string>, sep: char): string
    requires |parts| >= 1
  {
    if |parts| == 1 then parts[0] else parts[0] + [sep] + Join(parts[1..], sep)
  }

  /** s.lstrip(chars), where strip tells the characters of chars. */
  function StripLeft(s: string, strip: char -> bool): string {
    if |s| > 0 && strip(s[0]) then StripLeft(s[1..], strip) else s
  }

  /** s.rstrip(chars), where strip tells the characters of chars. */
  function StripRight(s: string, strip: char -> bool): string {
    if |s| > 0 && strip(s[|s| - 1]) then StripRight(s[..|s| - 1], strip) else s
  }

  /** s.strip(chars): what is left after removing every leading and trailing character of chars.
      It is no longer than s, and neither starts nor ends with a character of chars. */
  function Strip(s: string, strip: char -> bool): (r: string)
    ensures |r| <= |s|
    ensures r == [] || (!strip(r[0]) && !strip(r[|r| - 1]))
  {
    StripLeftSpec(s, strip);
    StripRightSpec(StripLeft(s, strip), strip);
    StripRight(StripLeft(s, strip), strip)
  }

  /** The digit part of an int() literal: digits, where single underscores may separate two digits. */
  predicate IsDigitGroup(b: string) {
    && |b| > 0
    && IsDigit(b[0])
    && forall i :: 0 <= i < |b| ==> GroupCharAt(b, i)
  }

  /** b[i] is a digit, or an underscore with a digit right after it. */
  predicate GroupCharAt(b: string, i: nat)
    requires i < |b|
  {
    IsDigit(b[i]) || (b[i] == '_' && i + 1 < |b| && IsDigit(b[i + 1]))
  }

  function DropUnderscores(b: string): (d: string)
    ensures |d| <= |b|
  {
    if b == [] then []
    else (if b[0] == '_' then [] else [b[0]]) + DropUnderscores(b[1..])
  }

  /** The value of a run of decimal digits, most significant first. */
  function DigitsValue(d: string): nat
    requires AllDigits(d)
  {
    if d == [] then 0 else DigitsValue(d[..|d| - 1]) * 10 + DigitValue(d[|d| - 1])
  }

  function ParseDigits(b: string): Option<nat> {
    if IsDigitGroup(b) then
      DropUnderscoresOfGroup(b);
      Some(DigitsValue(DropUnderscores(b)))
    else None
  }

  /** int(s) in base 10; None where Python raises ValueError. */
  function ParseInt(s: string): Option<int> {
    ParseLiteral(Strip(s, IsSpace))
  }

  /** An integer literal without surrounding whitespace: an optional sign, then a digit group. */
  function ParseLiteral(t: string): Option<int> {
    if |t| > 0 && (t[0] == '-' || t[0] == '+') then
      match ParseDigits(t[1..])
      case Some(v) => Some(if t[0] == '-' then -(v as int) else v as int)
      case None => None
    else
      match ParseDigits(t)
      case Some(v) => Some(v)
      case None => None
  }

  // ---------------------------------------------------------------------------
  // Lemmas
  // ---------------------------------------------------------------------------

  /** int() rejects text without a decimal digit, the empty entry among it. */
  lemma ParseIntNeedsDigit(s: string)
    requires ParseInt(s).Some?
    ensures exists i :: 0 <= i < |s| && IsDigit(s[i])
  {
    var l := StripLeft(s, IsSpace);
    StripLeftSpec(s, IsSpace);
    StripRightSpec(l, IsSpace);
    var t := Strip(s, IsSpace);
    var k := if t[0] == '-' || t[0] == '+' then 1 else 0;
    assert IsDigit(t[k]);
    assert t[k] == s[|s| - |l| + k];
  }

  lemma DropUnderscoresOfGroup(b: string)
    requires IsDigitGroup(b)
    ensures AllDigits(DropUnderscores(b))
  {
    forall i | 0 <= i < |b|
      ensures IsDigit(b[i]) || b[i] == '_'
    {
      assert GroupCharAt(b, i);
    }
    DropUnderscoresKeepsDigits(b);
  }

  lemma {:induction false} DropUnderscoresKeepsDigits(b: string)
    requires forall i :: 0 <= i < |b| ==> IsDigit(b[i]) || b[i] == '_'
    ensures AllDigits(DropUnderscores(b))
  {
    if b != [] {
      DropUnderscoresKeepsDigits(b[1..]);
    }
  }

  lemma {:induction false} DropUnderscoresOfDigits(d: string)
    requires AllDigits(d)
    ensures DropUnderscores(d) == d
  {
    if d != [] {
      DropUnderscoresOfDigits(d[1..]);
    }
  }

  /** Reading back the digits that str() writes gives the number. */
  lemma {:induction false} DigitsValueOfNatStr(n: nat)
    ensures DigitsValue(NatStr(n)) == n
  {
    if n >= 10 {
      var s := NatStr(n);
      assert s[..|s| - 1] == NatStr(n / 10);
      DigitsValueOfNatStr(n / 10);
    }
  }

  lemma ParseDigitsOfNatStr(n: nat)
    ensures ParseDigits(NatStr(n)) == Some(n)
  {
    var s := NatStr(n);
    assert IsDigitGroup(s);
    DropUnderscoresOfDigits(s);
    DigitsValueOfNatStr(n);
  }

  /** lstrip removes the longest prefix made of characters of chars: what it keeps is a suffix of
      s that is empty or starts with a character outside chars, and all it drops is in chars. */
  lemma {:induction false} StripLeftSpec(s: string, strip: char -> bool)
    ensures var r := StripLeft(s, strip);
      && |r| <= |s| && r == s[|s| - |r|..]
      && (r == [] || !strip(r[0]))
      && forall i :: 0 <= i < |s| - |r| ==> strip(s[i])
  {
    if |s| > 0 && strip(s[0]) {
      StripLeftSpec(s[1..], strip);
      var r := StripLeft(s, strip);
      forall i | 0 <= i < |s| - |r|
        ensures strip(s[i])
      {
        if i > 0 {
          assert s[i] == s[1..][i - 1];
        }
      }
    }
  }

  /** rstrip removes the longest suffix made of characters of chars. */
  lemma {:induction false} StripRightSpec(s: string, strip: char -> bool)
    ensures var r := StripRight(s, strip);
      && |r| <= |s| && r == s[..|r|]
      && (r == [] || !strip(r[|r| - 1]))
      && forall i :: |r| <= i < |s| ==> strip(s[i])
  {
    if |s| > 0 && strip(s[|s| - 1]) {
      var s' := s[..|s| - 1];
      StripRightSpec(s', strip);
      var r := StripRight(s, strip);
      forall i | |r| <= i < |s|
        ensures strip(s[i])
      {
        if i < |s| - 1 {
          assert s[i] == s'[i];
        }
      }
    }
  }

  /** lstrip and rstrip remove exactly the padding when the text in between starts and ends
      with characters they keep. */
  lemma {:induction false} StripPadded(pre: string, t: string, post: string, strip: char -> bool)
    requires forall i :: 0 <= i < |pre| ==> strip(pre[i])
    requires forall i :: 0 <= i < |post| ==> strip(post[i])
    requires |t| > 0 && !strip(t[0]) && !strip(t[|t| - 1])
    ensures Strip(pre + t + post, strip) == t
  {
    StripLeftPadded(pre, t + post, strip);
    assert pre + t + post == pre + (t + post);
    StripRightPadded(t, post, strip);
  }

  lemma {:induction false} StripLeftPadded(pre: string, t: string, strip: char -> bool)
    requires forall i :: 0 <= i < |pre| ==> strip(pre[i])
    requires |t| > 0 && !strip(t[0])
    ensures StripLeft(pre + t, strip) == t
  {
    if pre == [] {
      assert pre + t == t;
    } else {
      assert (pre + t)[1..] == pre[1..] + t;
      StripLeftPadded(pre[1..], t, strip);
    }
  }

  lemma {:induction false} StripRightPadded(t: string, post: string, strip: char -> bool)
    requires forall i :: 0 <= i < |post| ==> strip(post[i])
    requires |t| > 0 && !strip(t[|t| - 1])
    ensures StripRight(t + post, strip) == t
  {
    if post == [] {
      assert t + post == t;
    } else {
      var last := |post| - 1;
      assert (t + post)[..|t + post| - 1] == t + post[..last];
      StripRightPadded(t, post[..last], strip);
    }
  }

  /** int() reads back what str() writes, also after any leading whitespace (the ", " between
      the two coordinates leaves one). */
  lemma ParseIntOfStr(pad: string, n: int)
    requires forall i :: 0 <= i < |pad| ==> IsSpace(pad[i])
    ensures ParseInt(pad + Str(n)) == Some(n)
  {
    StripStr(pad, n);
    ParseLiteralOfStr(n);
  }

  lemma StripStr(pad: string, n: int)
    requires forall i :: 0 <= i < |pad| ==> IsSpace(pad[i])
    ensures Strip(pad + Str(n), IsSpace) == Str(n)
  {
    var s := Str(n);
    var d := NatStr(if n < 0 then -n else n);
    assert !IsSpace(d[0]) && !IsSpace(d[|d| - 1]);
    assert !IsSpace(s[0]) && !IsSpace(s[|s| - 1]);
    StripPadded(pad, s, [], IsSpace);
    assert pad + s + [] == pad + s;
  }

  lemma ParseIntOfBareStr(n: int)
    ensures ParseInt(Str(n)) == Some(n)
  {
    StripStr([], n);
    assert [] + Str(n) == Str(n);
    ParseLiteralOfStr(n);
  }

  lemma ParseLiteralOfStr(n: int)
    ensures ParseLiteral(Str(n)) == Some(n)
  {
    var s := Str(n);
    if n < 0 {
      assert s[1..] == NatStr(-n);
      ParseDigitsOfNatStr(-n);
    } else {
      ParseDigitsOfNatStr(n);
    }
  }

  /** int() reads back what "02d" formatting writes, leading zero and all. */
  lemma ParseIntOfZeroPad2(n: int)
    ensures ParseInt(ZeroPad2(n)) == Some(n)
  {
    if 0 <= n < 10 {
      var s := ZeroPad2(n);
      assert s == ['0', DigitChar(n)];
      StripPadded([], s, [], IsSpace);
      assert [] + s == s;
      ParseLiteralOfPadded(n);
    } else {
      ParseIntOfBareStr(n);
    }
  }

  lemma ParseLiteralOfPadded(n: nat)
    requires n < 10
    ensures ParseLiteral(['0', DigitChar(n)]) == Some(n)
  {
    var s := ['0', DigitChar(n)];
    assert IsDigitGroup(s);
    DropUnderscoresOfDigits(s);
    assert s[..1] == ['0'];
    assert DigitsValue(s[..1]) == 0;
  }

  /** Splitting at the first separator: a piece free of sep, then the split of the rest. */
  lemma {:induction false} SplitAt(a: string, sep: char, b: string)
    requires sep !in a
    ensures Split(a + [sep] + b, sep) == [a] + Split(b, sep)
  {
    if a == [] {
      assert a + [sep] + b == [sep] + b;
      assert ([sep] + b)[1..] == b;
    } else {
      assert (a + [sep] + b)[1..] == a[1..] + [sep] + b;
      SplitAt(a[1..], sep, b);
      assert [a[0]] + a[1..] == a;
    }
  }

  /** Text without the separator splits into itself alone. */
  lemma {:induction false} SplitNone(s: string, sep: char)
    requires sep !in s
    ensures Split(s, sep) == [s]
  {
    if s != [] {
      SplitNone(s[1..], sep);
      assert [s[0]] + s[1..] == s;
    }
  }

  /** k separators split the text into k + 1 pieces. */
  lemma {:induction false} SplitCount(s: string, sep: char)
    ensures |Split(s, sep)| == multiset(s)[sep] + 1
  {
    if s != [] {
      SplitCount(s[1..], sep);
      assert s == [s[0]] + s[1..];
    }
  }

  /** Joining the pieces of a split restores the text. */
  lemma {:induction false} JoinSplit(s: string, sep: char)
    ensures Join(Split(s, sep), sep) == s
  {
    if s != [] {
      JoinSplit(s[1..], sep);
      var rest := Split(s[1..], sep);
      if s[0] == sep {
        assert Split(s, sep)[1..] == rest;
      } else if |rest| > 1 {
        assert Split(s, sep)[1..] == rest[1..];
        assert s == [s[0]] + s[1..];
      }
    }
  }

  /** Splitting joined pieces that do not contain the separator gives the pieces back. */
  lemma {:induction false} SplitJoin(parts: seq<string>, sep: char)
    requires |parts| >= 1
    requires forall i :: 0 <= i < |parts| ==> sep !in parts[i]
    ensures Split(Join(parts, sep), sep) == parts
  {
    if |parts| == 1 {
      SplitNone(parts[0], sep);
    } else {
      SplitJoin(parts[1..], sep);
      SplitAt(parts[0], sep, Join(parts[1..], sep));
      assert [parts[0]] + parts[1..] == parts;
    }
  }
}
