/**
  The parts of Python's text builtins the scripts rely on, over ASCII:
  str(n) and "%0Nd" formatting of integers, int(s) parsing, and str.split
  on a single separator character.
*/
module Text {
  import opened Wrappers

  predicate IsDigit(c: char) {
    '0' <= c <= '9'
  }

  predicate AllDigits(s: string) {
    forall i | 0 <= i < |s| :: IsDigit(s[i])
  }

  function DigitValue(c: char): (d: nat)
    requires IsDigit(c)
    ensures d < 10
  {
    c as int - '0' as int
  }

  function DigitChar(d: nat): (c: char)
    requires d < 10
    ensures IsDigit(c) && DigitValue(c) == d
  {
    ('0' as int + d) as char
  }

  /** The decimal value of a string of ASCII digits; leading zeros are allowed. */
  function DigitsValue(s: string): nat
    requires AllDigits(s)
  {
    if s == [] then 0 else DigitsValue(s[..|s| - 1]) * 10 + DigitValue(s[|s| - 1])
  }

  /** The shortest decimal rendering of n, as Python's str(n) gives it for n >= 0. */
  function NatString(n: nat): (s: string)
    ensures 1 <= |s| && AllDigits(s)
  {
    if n < 10 then [DigitChar(n)] else NatString(n / 10) + [DigitChar(n % 10)]
  }

  /** The rendering reads back as n and has no leading zero. */
  lemma {:induction false} NatStringValue(n: nat)
    ensures DigitsValue(NatString(n)) == n
    ensures NatString(n)[0] == '0' ==> n == 0
  {
    if n >= 10 {
      NatStringValue(n / 10);
      var prefix := NatString(n / 10);
      assert (prefix + [DigitChar(n % 10)])[..|prefix|] == prefix;
    }
  }

  function Pow10(k: nat): (p: nat)
    ensures p >= 1
  {
    if k == 0 then 1 else 10 * Pow10(k - 1)
  }

  /** A number below 10^k takes at most k digits. */
  lemma {:induction false} NatStringLength(n: nat, k: nat)
    requires 1 <= k && n < Pow10(k)
    ensures |NatString(n)| <= k
  {
    if n >= 10 {
      assert Pow10(1) == 10;
      assert n / 10 < Pow10(k - 1);
      NatStringLength(n / 10, k - 1);
    }
  }

  function Zeros(k: nat): (s: string)
    ensures |s| == k && AllDigits(s)
    ensures forall i | 0 <= i < k :: s[i] == '0'
  {
    seq(k, _ => '0')
  }

  lemma {:induction false} ZerosValue(k: nat)
    ensures DigitsValue(Zeros(k)) == 0
  {
    if k > 0 {
      assert Zeros(k)[..k - 1] == Zeros(k - 1);
      ZerosValue(k - 1);
    }
  }

  /** Leading zeros do not change the value of a digit string. */
  lemma {:induction false} LeadingZerosValue(k: nat, s: string)
    requires AllDigits(s)
    ensures AllDigits(Zeros(k) + s)
    ensures DigitsValue(Zeros(k) + s) == DigitsValue(s)
  {
    var t := Zeros(k) + s;
    if s == [] {
      assert t == Zeros(k);
      ZerosValue(k);
    } else {
      assert t[..|t| - 1] == Zeros(k) + s[..|s| - 1];
      LeadingZerosValue(k, s[..|s| - 1]);
    }
  }

  lemma {:induction false} ZerosValueZero(s: string)
    requires AllDigits(s) && DigitsValue(s) == 0
    ensures s == Zeros(|s|)
  {
    if s != [] {
      var p := s[..|s| - 1];
      ZerosValueZero(p);
      assert DigitValue(s[|s| - 1]) == 0;
      assert forall i | 0 <= i < |s| :: s[i] == '0' by {
        assert forall i | 0 <= i < |p| :: s[i] == p[i];
      }
    }
  }

  /** Appending a digit to a positive number's rendering renders the number ten times larger. */
  lemma NatStringAppend(v: nat, c: char)
    requires v >= 1 && IsDigit(c)
    ensures NatString(v * 10 + DigitValue(c)) == NatString(v) + [c]
  {
    var n := v * 10 + DigitValue(c);
    assert n / 10 == v && n % 10 == DigitValue(c);
    assert DigitChar(DigitValue(c)) == c;
  }

  lemma AllDigitsConcat(a: string, b: string)
    requires AllDigits(a) && AllDigits(b)
    ensures AllDigits(a + b)
  {
    forall i | 0 <= i < |a + b|
      ensures IsDigit((a + b)[i])
    {
      if i >= |a| { assert (a + b)[i] == b[i - |a|]; }
    }
  }

  /** The value of a digit string with one more digit appended. */
  lemma DigitsValueSnoc(p: string, c: char)
    requires AllDigits(p) && IsDigit(c)
    ensures AllDigits(p + [c]) && DigitsValue(p + [c]) == DigitsValue(p) * 10 + DigitValue(c)
  {
    AllDigitsConcat(p, [c]);
    assert (p + [c])[..|p|] == p;
  }

  lemma SingleDigit(c: char)
    requires IsDigit(c)
    ensures NatString(DigitValue(c)) == [c]
  {
    assert DigitChar(DigitValue(c)) == c;
  }

  lemma LastSplit(s: string)
    requires |s| >= 1
    ensures s == s[..|s| - 1] + [s[|s| - 1]]
  {
  }

  lemma SnocAssoc(a: string, b: string, c: char)
    ensures (a + b) + [c] == a + (b + [c])
  {
  }

  /** The canonical form of a digit string: zeros, then the shortest rendering of its value. */
  predicate Canonical(s: string)
    requires AllDigits(s)
  {
    |NatString(DigitsValue(s))| <= |s|
    && s == Zeros(|s| - |NatString(DigitsValue(s))|) + NatString(DigitsValue(s))
  }

  /** Appending a digit keeps a digit string with a positive value in canonical form. */
  lemma CanonicalSnoc(p: string, c: char, s: string)
    requires s == p + [c] && AllDigits(p) && IsDigit(c) && DigitsValue(p) >= 1 && Canonical(p)
    ensures AllDigits(s) && Canonical(s)
  {
    DigitsValueSnoc(p, c);
    var v := DigitsValue(p);
    NatStringAppend(v, c);
    SnocAssoc(Zeros(|p| - |NatString(v)|), NatString(v), c);
  }

  /** A digit appended to a zero-valued digit string is in canonical form. */
  lemma CanonicalAfterZeros(p: string, c: char, s: string)
    requires s == p + [c] && AllDigits(p) && IsDigit(c) && DigitsValue(p) == 0
    ensures AllDigits(s) && Canonical(s)
  {
    DigitsValueSnoc(p, c);
    ZerosValueZero(p);
    SingleDigit(c);
    assert DigitsValue(s) == DigitValue(c);
    assert s == Zeros(|p|) + [c];
  }

  /**
    Every non-empty digit string is zeros followed by the shortest rendering
    of its value; the number of zeros is whatever length is left over.
  */
  lemma {:induction false} DigitsCanonical(s: string)
    requires AllDigits(s) && |s| >= 1
    ensures Canonical(s)
  {
    var p, c := s[..|s| - 1], s[|s| - 1];
    LastSplit(s);
    if DigitsValue(p) == 0 {
      CanonicalAfterZeros(p, c, s);
    } else {
      DigitsCanonical(p);
      CanonicalSnoc(p, c, s);
    }
  }

  /** The digits of m, zero-filled on the left to at least width characters. */
  function PadDigits(m: nat, width: int): (s: string)
    ensures |s| >= width && |s| >= 1
  {
    var digits := NatString(m);
    Zeros(if width > |digits| then width - |digits| else 0) + digits
  }

  /**
    Python's "%0<width>d" % n: an optional minus sign, then zeros, then the
    digits of |n|, padded to at least width characters.
  */
  function PadInt(n: int, width: nat): (s: string)
    ensures |s| >= width && |s| >= 1
  {
    if n < 0 then "-" + PadDigits(-n, width - 1) else PadDigits(n, width)
  }

  /**
    Python's int(s) on ASCII text: an optional sign followed by one or more
    digits; anything else raises ValueError, modelled as None.
  */
  function ParseInt(s: string): Option<int> {
    if |s| > 0 && (s[0] == '-' || s[0] == '+') then
      if |s| > 1 && AllDigits(s[1..]) then
        var v: int := DigitsValue(s[1..]);
        Some(if s[0] == '-' then -v else v)
      else None
    else if |s| > 0 && AllDigits(s) then Some(DigitsValue(s))
    else None
  }

  /** A zero-filled rendering holds only digits and reads back as m. */
  lemma PadDigitsValue(m: nat, width: int)
    ensures AllDigits(PadDigits(m, width)) && DigitsValue(PadDigits(m, width)) == m
  {
    var digits := NatString(m);
    NatStringValue(m);
    LeadingZerosValue(if width > |digits| then width - |digits| else 0, digits);
  }

  /** A digit string parses as its value. */
  lemma UnsignedParse(body: string)
    requires |body| >= 1 && AllDigits(body)
    ensures ParseInt(body) == Some(DigitsValue(body))
  {
    assert IsDigit(body[0]);
  }

  /** Where the first character and the rest of [c] + body sit. */
  lemma HeadTail(c: char, body: string, s: string)
    requires s == [c] + body
    ensures |s| == |body| + 1 && s[0] == c && s[1..] == body
  {
    assert s[1..] == body;
  }

  /** A minus sign followed by a digit string parses as the negated value. */
  lemma NegativeParse(body: string, s: string)
    requires s == "-" + body && |body| >= 1 && AllDigits(body)
    ensures ParseInt(s) == Some(-(DigitsValue(body) as int))
    ensures s[0] == '-' && s[1..] == body
  {
    HeadTail('-', body, s);
  }

  /** "%0Nd" % n is a sign, when n is negative, followed by the zero-filled digits of |n|. */
  lemma PadIntShape(n: int, width: nat, body: string)
    requires body == PadDigits(if n < 0 then -n else n, if n < 0 then width - 1 else width)
    ensures PadInt(n, width) == (if n < 0 then "-" + body else body)
    ensures |body| >= 1 && AllDigits(body) && DigitsValue(body) == (if n < 0 then -n else n)
  {
    PadDigitsValue(if n < 0 then -n else n, if n < 0 then width - 1 else width);
  }

  /** "%0Nd" % n is exactly N characters wide, or as wide as str(n) when that is wider. */
  lemma PadIntLength(n: int, width: nat)
    ensures |PadInt(n, width)| == if width > |IntString(n)| then width else |IntString(n)|
  {
    var m := if n < 0 then -n else n;
    var digits := NatString(m);
    assert |PadDigits(m, width)| == if width > |digits| then width else |digits|;
    assert |PadDigits(m, width - 1)| == if width - 1 > |digits| then width - 1 else |digits|;
    assert |PadDigits(m, -1)| == |digits|;
  }

  /** int("%0Nd" % n) == n for every n and every width N. */
  lemma PadIntRoundTrip(n: int, width: nat)
    ensures ParseInt(PadInt(n, width)) == Some(n)
    ensures n >= 0 ==> AllDigits(PadInt(n, width))
    ensures n < 0 ==> PadInt(n, width)[0] == '-' && AllDigits(PadInt(n, width)[1..])
  {
    var body := PadDigits(if n < 0 then -n else n, if n < 0 then width - 1 else width);
    PadIntShape(n, width, body);
    if n < 0 {
      NegativeParse(body, PadInt(n, width));
    } else {
      UnsignedParse(body);
    }
  }

  /** A successfully parsed integer literal holds only digits and a sign. */
  lemma ParseIntChars(s: string, c: char)
    requires ParseInt(s).Some?
    requires !IsDigit(c) && c != '-' && c != '+'
    ensures c !in s
  {
    forall i | 0 <= i < |s|
      ensures s[i] != c
    {
      if i > 0 { assert s[i] == s[1..][i - 1]; }
    }
  }

  /** Python's str(n) and "%d" % n. */
  function IntString(n: int): string {
    PadInt(n, 0)
  }

  /** int(str(n)) == n, and str(n) of a non-negative n is its shortest rendering. */
  lemma IntStringRoundTrip(n: int)
    ensures ParseInt(IntString(n)) == Some(n)
    ensures n >= 0 ==> IntString(n) == NatString(n)
  {
    PadIntRoundTrip(n, 0);
  }

  /** Where the three parts of a + (b + c) sit. */
  lemma ThreeSlices(a: string, b: string, c: string, s: string)
    requires s == a + (b + c)
    ensures |s| == |a| + |b| + |c|
    ensures s[..|a|] == a && s[|a|..|a| + |b|] == b && s[|a| + |b|..] == c
  {
    assert s[..|a|] == a;
    assert s[|a|..|a| + |b|] == b;
    assert s[|a| + |b|..] == c;
  }

  /** The length of the longest prefix of s made of digits. */
  function LeadingDigits(s: string): (k: nat)
    ensures k <= |s| && AllDigits(s[..k])
    ensures k < |s| ==> !IsDigit(s[k])
  {
    if s == [] || !IsDigit(s[0]) then 0
    else
      var k := 1 + LeadingDigits(s[1..]);
      assert s[..k] == [s[0]] + s[1..][..k - 1];
      k
  }

  /** The digit prefix ends exactly where the digits of a rendered number end. */
  lemma LeadingDigitsOf(digits: string, rest: string)
    requires AllDigits(digits)
    requires rest == [] || !IsDigit(rest[0])
    ensures LeadingDigits(digits + rest) == |digits|
  {
    var s := digits + rest;
    var k := LeadingDigits(s);
    assert forall i | 0 <= i < |digits| :: s[i] == digits[i];
    assert forall i | 0 <= i < k :: s[..k][i] == s[i];
    assert |digits| < |s| ==> s[|digits|] == rest[0];
  }

  function Count(s: string, c: char): nat {
    if s == [] then 0 else (if s[0] == c then 1 else 0) + Count(s[1..], c)
  }

  /**
    Python's s.split(sep) for a one-character separator: the pieces between
    separators, with empty pieces kept; "" splits into [""].
  */
  function Split(s: string, sep: char): (parts: seq<string>)
    ensures |parts| == Count(s, sep) + 1
    ensures forall k | 0 <= k < |parts| :: sep !in parts[k]
  {
    if s == [] then [[]]
    else
      var rest := Split(s[1..], sep);
      if s[0] == sep then [[]] + rest
      else
        var parts := [[s[0]] + rest[0]] + rest[1..];
        assert forall k | 1 <= k < |parts| :: parts[k] == rest[k];
        parts
  }

  /** sep.join(parts), the inverse of Split. */
  function Join(parts: seq<string>, sep: char): string
    requires |parts| >= 1
  {
    if |parts| == 1 then parts[0] else parts[0] + [sep] + Join(parts[1..], sep)
  }

  lemma {:induction false} SplitJoin(s: string, sep: char)
    ensures Join(Split(s, sep), sep) == s
  {
    if s != [] {
      SplitJoin(s[1..], sep);
      var rest := Split(s[1..], sep);
      if s[0] == sep {
        assert ([[]] + rest)[1..] == rest;
      } else {
        var parts := [[s[0]] + rest[0]] + rest[1..];
        if |rest| > 1 {
          assert parts[1..] == rest[1..];
          assert Join(rest, sep) == rest[0] + [sep] + Join(rest[1..], sep);
        }
      }
    }
  }

  lemma {:induction false} SplitNoSeparator(s: string, sep: char)
    requires sep !in s
    ensures Split(s, sep) == [s]
  {
    if s != [] {
      SplitNoSeparator(s[1..], sep);
      assert s[0] != sep;
      assert [s[0]] + s[1..] == s;
    }
  }

  /** Splitting "a<sep>b" gives back exactly [a, b] when neither holds sep. */
  lemma {:induction false} SplitTwo(a: string, b: string, sep: char)
    requires sep !in a && sep !in b
    ensures Split(a + [sep] + b, sep) == [a, b]
  {
    var s := a + [sep] + b;
    if a == [] {
      assert s[1..] == b;
      SplitNoSeparator(b, sep);
    } else {
      assert s[1..] == a[1..] + [sep] + b;
      SplitTwo(a[1..], b, sep);
      assert [a[0]] + a[1..] == a;
    }
  }
}
