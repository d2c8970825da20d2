/** Character and string operations that the generator's parsers and
    renderers share: Python's `strip`, `upper`, `isdigit`, `int`, `str`,
    `split` and `join`, over `seq<char>`. */
module Text {

  /** Whitespace as Python's `str.isspace()` classifies it (the characters
      `str.strip()` removes). */
  predicate IsSpace(c: char) {
    || c == ' '
    || ('\t' <= c <= '\r')
    || ('\U{1c}' <= c <= '\U{1f}')
    || c == '\U{85}' || c == '\U{a0}' || c == '\U{1680}'
    || ('\U{2000}' <= c <= '\U{200a}')
    || c == '\U{2028}' || c == '\U{2029}' || c == '\U{202f}'
    || c == '\U{205f}' || c == '\U{3000}'
  }

  predicate AllSpace(s: string) {
    forall i :: 0 <= i < |s| ==> IsSpace(s[i])
  }

  /** Neither end of `s` is whitespace. */
  predicate IsStripped(s: string) {
    |s| == 0 || (!IsSpace(s[0]) && !IsSpace(s[|s| - 1]))
  }

  /** Python's `s.lstrip()`: `s` without its leading whitespace. */
  function TrimLeft(s: string): string {
    if |s| > 0 && IsSpace(s[0]) then TrimLeft(s[1..]) else s
  }

  /** Python's `s.rstrip()`: `s` without its trailing whitespace. */
  function TrimRight(s: string): string {
    if |s| > 0 && IsSpace(s[|s| - 1]) then TrimRight(s[..|s| - 1]) else s
  }

  /** `TrimLeft` keeps a suffix, drops only whitespace, and stops at the
      first character that is not whitespace. */
  lemma {:induction false} TrimLeftSpec(s: string)
    ensures var r := TrimLeft(s);
      && |r| <= |s| && r == s[|s| - |r|..]
      && AllSpace(s[..|s| - |r|])
      && (|r| == 0 || !IsSpace(r[0]))
    decreases |s|
  {
    if |s| > 0 && IsSpace(s[0]) {
      TrimLeftSpec(s[1..]);
      var r := TrimLeft(s[1..]);
      assert s[..|s| - |r|] == [s[0]] + s[1..][..|s| - 1 - |r|];
    }
  }

  /** `TrimRight` keeps a prefix, drops only whitespace, and stops at the
      last character that is not whitespace. */
  lemma {:induction false} TrimRightSpec(s: string)
    ensures var r := TrimRight(s);
      && |r| <= |s| && r == s[..|r|]
      && AllSpace(s[|r|..])
      && (|r| == 0 || !IsSpace(r[|r| - 1]))
    decreases |s|
  {
    if |s| > 0 && IsSpace(s[|s| - 1]) {
      TrimRightSpec(s[..|s| - 1]);
      var r := TrimRight(s[..|s| - 1]);
      assert s[|r|..] == s[..|s| - 1][|r|..] + [s[|s| - 1]];
    }
  }

  /** Python's `s.strip()`: `s` with leading and trailing whitespace
      removed. `StripOfPadded` below says what it keeps. */
  function Strip(s: string): string {
    TrimRight(TrimLeft(s))
  }

  /** What `Strip` leaves starts and ends with a non-space character. */
  lemma StripIsStripped(s: string)
    ensures IsStripped(Strip(s))
  {
    var l := TrimLeft(s);
    TrimLeftSpec(s);
    TrimRightSpec(l);
    var r := TrimRight(l);
    assert |r| > 0 ==> r[0] == l[0];
  }

  lemma {:induction false} TrimLeftOfPadded(a: string, t: string)
    requires AllSpace(a)
    requires |t| == 0 || !IsSpace(t[0])
    ensures TrimLeft(a + t) == t
    decreases |a|
  {
    if |a| > 0 {
      assert (a + t)[1..] == a[1..] + t;
      TrimLeftOfPadded(a[1..], t);
    } else {
      assert a + t == t;
    }
  }

  lemma {:induction false} TrimRightOfPadded(t: string, b: string)
    requires AllSpace(b)
    requires |t| == 0 || !IsSpace(t[|t| - 1])
    ensures TrimRight(t + b) == t
    decreases |b|
  {
    if |b| > 0 {
      assert (t + b)[..|t + b| - 1] == t + b[..|b| - 1];
      TrimRightOfPadded(t, b[..|b| - 1]);
    } else {
      assert t + b == t;
    }
  }

  /** Strip is characterised by what it leaves: whitespace around a stripped
      core is removed and the core is kept verbatim. */
  lemma StripOfPadded(a: string, t: string, b: string)
    requires AllSpace(a) && AllSpace(b) && IsStripped(t)
    ensures Strip(a + t + b) == t
  {
    if |t| > 0 {
      assert a + t + b == a + (t + b);
      assert (t + b)[0] == t[0];
      TrimLeftOfPadded(a, t + b);
      TrimRightOfPadded(t, b);
    } else {
      assert a + t + b == (a + b) + [];
      assert AllSpace(a + b);
      TrimLeftOfPadded(a + b, []);
    }
  }

  /** Stripping an already stripped string changes nothing. */
  lemma StripStripped(t: string)
    requires IsStripped(t)
    ensures Strip(t) == t
  {
    StripOfPadded([], t, []);
    assert [] + t + [] == t;
  }

  lemma StripOfSpaceThenSuffixed(a: string, l: string, y: string)
    requires AllSpace(a) && (|l| == 0 || !IsSpace(l[0]))
    requires |y| > 0 && !IsSpace(y[0]) && !IsSpace(y[|y| - 1])
    ensures Strip(a + l + y) == l + y
  {
    assert a + l + y == a + (l + y) + [];
    assert |l| > 0 ==> (l + y)[0] == l[0];
    assert (l + y)[|l + y| - 1] == y[|y| - 1];
    StripOfPadded(a, l + y, []);
  }

  /** Removing whitespace in front of a string that ends in a non-space
      character is all `Strip` does. */
  lemma StripOfSuffixed(x: string, y: string)
    requires |y| > 0 && !IsSpace(y[0]) && !IsSpace(y[|y| - 1])
    ensures Strip(x + y) == TrimLeft(x) + y
  {
    var l := TrimLeft(x);
    TrimLeftSpec(x);
    var k := |x| - |l|;
    var a := x[..k];
    assert x[k..] == l;
    assert x == a + x[k..];
    StripOfSpaceThenSuffixed(a, l, y);
  }

  // ---------------------------------------------------------------- case

  /** Python's `str.upper()` on one character, for the ASCII letters. */
  function UpperChar(c: char): char {
    if 'a' <= c <= 'z' then (c as int - 32) as char else c
  }

  /** Python's `s.upper()`, restricted to ASCII case mapping. */
  function Upper(s: string): (r: string)
    ensures |r| == |s|
  {
    if |s| == 0 then [] else [UpperChar(s[0])] + Upper(s[1..])
  }

  /** `Upper` maps each character on its own. */
  lemma {:induction false} UpperSpec(s: string)
    ensures forall i :: 0 <= i < |s| ==> Upper(s)[i] == UpperChar(s[i])
    decreases |s|
  {
    if |s| > 0 {
      UpperSpec(s[1..]);
    }
  }

  lemma {:induction false} UpperAppend(a: string, b: string)
    ensures Upper(a + b) == Upper(a) + Upper(b)
    decreases |a|
  {
    if |a| > 0 {
      assert (a + b)[1..] == a[1..] + b;
      UpperAppend(a[1..], b);
    } else {
      assert a + b == b;
    }
  }

  /** Upper-casing twice is upper-casing once. */
  lemma UpperIdempotent(s: string)
    ensures Upper(Upper(s)) == Upper(s)
  {
  }

  /** Upper-casing neither creates nor removes whitespace, so it commutes
      with `Strip`. */
  lemma UpperCharSpace(c: char)
    ensures IsSpace(UpperChar(c)) == IsSpace(c)
  {
  }

  lemma {:induction false} UpperTrimLeft(s: string)
    ensures TrimLeft(Upper(s)) == Upper(TrimLeft(s))
    decreases |s|
  {
    if |s| > 0 {
      UpperCharSpace(s[0]);
      assert Upper(s)[1..] == Upper(s[1..]);
      UpperTrimLeft(s[1..]);
    }
  }

  lemma {:induction false} UpperTrimRight(s: string)
    ensures TrimRight(Upper(s)) == Upper(TrimRight(s))
    decreases |s|
  {
    if |s| > 0 {
      var p, c := s[..|s| - 1], s[|s| - 1];
      UpperCharSpace(c);
      assert s == p + [c];
      UpperAppend(p, [c]);
      UpperTrimRight(s[..|s| - 1]);
    }
  }

  lemma UpperStrip(s: string)
    ensures Strip(Upper(s)) == Upper(Strip(s))
  {
    UpperTrimLeft(s);
    UpperTrimRight(TrimLeft(s));
  }

  // -------------------------------------------------------------- digits

  predicate IsDigit(c: char) {
    '0' <= c <= '9'
  }

  predicate AllDigits(s: string) {
    forall i :: 0 <= i < |s| ==> IsDigit(s[i])
  }

  /** Python's `s.isdigit()` on ASCII text: non-empty and only digits. */
  predicate IsDigits(s: string) {
    |s| > 0 && AllDigits(s)
  }

  /** The decimal digit strings Python's `str(n)` produces: no leading
      zero unless the number is zero itself. */
  predicate IsCanonical(s: string) {
    IsDigits(s) && (s[0] != '0' || |s| == 1)
  }

  function DigitValue(c: char): nat
    requires IsDigit(c)
  {
    c as int - '0' as int
  }

  function DigitChar(d: nat): (c: char)
    requires d < 10
    ensures IsDigit(c) && DigitValue(c) == d
  {
    ('0' as int + d) as char
  }

  /** Python's `int(s)` on a string of ASCII digits; the empty string has
      value 0. */
  function DigitsValue(s: string): nat
    requires AllDigits(s)
  {
    if |s| == 0 then 0
    else DigitsValue(s[..|s| - 1]) * 10 + DigitValue(s[|s| - 1])
  }

  /** Python's `str(n)` for a natural number. */
  function NatText(n: nat): (r: string)
    ensures IsCanonical(r)
    ensures DigitsValue(r) == n
  {
    if n < 10 then [DigitChar(n)]
    else
      var r := NatText(n / 10) + [DigitChar(n % 10)];
      assert r[..|r| - 1] == NatText(n / 10);
      r
  }

  lemma {:induction false} DigitsValueZero(s: string)
    requires AllDigits(s) && DigitsValue(s) == 0
    ensures forall i :: 0 <= i < |s| ==> s[i] == '0'
    decreases |s|
  {
    if |s| > 0 {
      DigitsValueZero(s[..|s| - 1]);
      assert forall i :: 0 <= i < |s| - 1 ==> s[i] == s[..|s| - 1][i];
    }
  }

  /** `str(int(s)) == s` on canonical digit strings: the other half of the
      round trip that `NatText`'s contract states. */
  lemma {:induction false} NatTextOfDigits(s: string)
    requires IsCanonical(s)
    ensures NatText(DigitsValue(s)) == s
    decreases |s|
  {
    if |s| > 1 {
      var p := s[..|s| - 1];
      assert p[0] == s[0];
      assert IsCanonical(p);
      NatTextOfDigits(p);
      if DigitsValue(p) == 0 {
        DigitsValueZero(p);
        assert false;
      }
      var n := DigitsValue(s);
      assert n / 10 == DigitsValue(p) && n % 10 == DigitValue(s[|s| - 1]);
      assert s == p + [s[|s| - 1]];
    }
  }

  /** `str` on natural numbers is injective. */
  lemma NatTextInjective(m: nat, n: nat)
    requires NatText(m) == NatText(n)
    ensures m == n
  {
  }

  /** The decimal texts of the octets of `192.168.1.100` and its
      neighbours. */
  lemma NatTextOctetExamples()
    ensures NatText(1) == "1" && NatText(98) == "98" && NatText(102) == "102"
    ensures NatText(168) == "168" && NatText(192) == "192"
  {
    assert NatText(9) == "9";
    assert NatText(98) == "98";
    assert NatText(10) == "10";
    assert NatText(102) == "102";
    assert NatText(16) == "16";
    assert NatText(168) == "168";
    assert NatText(19) == "19";
  }

  /** The decimal texts of the sizes in the parsers' examples. */
  lemma NatTextSizeExamples()
    ensures NatText(0) == "0" && NatText(2) == "2" && NatText(10) == "10"
    ensures NatText(512) == "512" && NatText(2048) == "2048" && NatText(10240) == "10240"
  {
    assert NatText(1) == "1" && NatText(5) == "5" && NatText(51) == "51";
    assert NatText(20) == "20" && NatText(204) == "204";
    assert NatText(102) == "102" && NatText(1024) == "1024";
  }

  /** Numbers below 1000 print in at most three digits. */
  lemma NatTextShort(n: nat)
    requires n < 1000
    ensures |NatText(n)| <= 3
  {
    if n >= 10 {
      if n / 10 >= 10 {
        assert |NatText(n / 10 / 10)| == 1;
      }
    }
  }

  /** Python's `str(i)` for any integer: a minus sign exactly for the
      negative numbers, then the digits of the magnitude. */
  function IntText(i: int): (r: string)
    ensures |r| > 0
    ensures r[0] == '-' <==> i < 0
  {
    if i < 0 then "-" + NatText(-i) else NatText(i)
  }

  /** `str` on integers is injective. */
  lemma IntTextInjective(i: int, j: int)
    requires IntText(i) == IntText(j)
    ensures i == j
  {
    if i < 0 {
      assert IntText(i)[1..] == NatText(-i);
      assert IntText(j)[1..] == NatText(-j);
    }
  }

  lemma NatTextNoChar(n: nat, c: char)
    requires !IsDigit(c)
    ensures c !in NatText(n)
  {
  }

  lemma IntTextNoChar(i: int, c: char)
    requires c != '-' && !IsDigit(c)
    ensures c !in IntText(i)
  {
  }

  // ------------------------------------------------------ substrings

  /** `t` occurs in `s` (Python's `t in s`). */
  predicate Contains(s: string, t: string) {
    exists k :: 0 <= k <= |s| && t <= s[k..]
  }

  lemma ContainsWitness(s: string, t: string, k: nat)
    requires k <= |s| && t <= s[k..]
    ensures Contains(s, t)
  {
  }

  /** Each part of a concatenation occurs in it. */
  lemma ContainsParts(a: string, t: string, b: string)
    ensures Contains(a + t + b, t)
  {
    assert t <= (a + t + b)[|a|..];
  }

  /** Containment is transitive. */
  lemma ContainsTrans(s: string, t: string, u: string)
    requires Contains(s, t) && Contains(t, u)
    ensures Contains(s, u)
  {
    var k :| 0 <= k <= |s| && t <= s[k..];
    var j :| 0 <= j <= |t| && u <= t[j..];
    assert u <= s[k + j..];
  }

  predicate EndsWith(s: string, t: string) {
    |t| <= |s| && s[|s| - |t|..] == t
  }

  // ------------------------------------------------------ split and join

  /** The first position of `c` in `s`. */
  function IndexOf(s: string, c: char): (i: nat)
    requires c in s
    ensures i < |s| && s[i] == c && c !in s[..i]
  {
    if s[0] == c then 0
    else
      var j := IndexOf(s[1..], c);
      assert s[..j + 1] == [s[0]] + s[1..][..j];
      j + 1
  }

  /** Python's `s.split(c)` for a one-character separator: the maximal
      pieces between separators, always at least one. */
  function Split(s: string, c: char): (r: seq<string>)
    ensures |r| > 0
    ensures forall k :: 0 <= k < |r| ==> c !in r[k]
    decreases |s|
  {
    if c !in s then [s]
    else
      var i := IndexOf(s, c);
      [s[..i]] + Split(s[i + 1..], c)
  }

  /** Python's `sep.join(es)`. */
  function Join(es: seq<string>, sep: string): string {
    if |es| == 0 then ""
    else if |es| == 1 then es[0]
    else es[0] + sep + Join(es[1..], sep)
  }

  /** A join holds a character only if a piece or the separator does. */
  lemma {:induction false} JoinNoChar(es: seq<string>, sep: string, c: char)
    requires c !in sep
    requires forall k :: 0 <= k < |es| ==> c !in es[k]
    ensures c !in Join(es, sep)
    decreases |es|
  {
    if |es| > 1 {
      JoinNoChar(es[1..], sep, c);
    }
  }

  /** Joining the pieces of a split restores the string. */
  lemma {:induction false} JoinSplit(s: string, c: char)
    ensures Join(Split(s, c), [c]) == s
    decreases |s|
  {
    if c in s {
      var i := IndexOf(s, c);
      JoinSplit(s[i + 1..], c);
      var rest := Split(s[i + 1..], c);
      assert Split(s, c)[1..] == rest;
      assert s == s[..i] + [c] + s[i + 1..];
    }
  }

  /** Splitting a join restores the pieces, when no piece holds the
      separator. */
  lemma {:induction false} SplitJoin(es: seq<string>, c: char)
    requires |es| > 0
    requires forall k :: 0 <= k < |es| ==> c !in es[k]
    ensures Split(Join(es, [c]), c) == es
    decreases |es|
  {
    if |es| > 1 {
      var tail := Join(es[1..], [c]);
      var s := es[0] + [c] + tail;
      assert s[|es[0]|] == c;
      assert s[..|es[0]|] == es[0];
      assert c !in s[..|es[0]|];
      IndexOfFirst(s, c, |es[0]|);
      assert s[|es[0]| + 1..] == tail;
      SplitJoin(es[1..], c);
    }
  }

  lemma IndexOfFirst(s: string, c: char, i: nat)
    requires i < |s| && s[i] == c && c !in s[..i]
    ensures IndexOf(s, c) == i
  {
  }
}
