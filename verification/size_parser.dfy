/** Parsing of human-friendly size strings: `parse_memory` (to megabytes)
    and `parse_disk_size` (to gigabytes) of bin/mk-node-defs.py.

    Python's `float()` is modelled as an exact decimal: a number such as
    `1.5` is read as the pair (15, 1) meaning 15 / 10^1, and the conversions
    truncate the exact quotient toward zero as Python's `int()` does. */
module SizeParser {
  import opened Text
  import opened Results

  /** The exact value `mantissa / 10^scale`. */
  datatype Decimal = Decimal(mantissa: int, scale: nat)

  /** The units the parsers accept, in the order the source tests them. */
  datatype Unit = GB | G | MB | M

  /** What is being parsed: memory (result in MB) or a disk (result in GB). */
  datatype Target = Memory | Disk

  /** The two ways the source raises `ArgumentTypeError`: a recognised
      suffix after something that is not a number (the message names the
      stripped, upper-cased input), or no recognised suffix at all. */
  datatype SizeError = InvalidNumber(spec: string) | UnknownUnit

  function UnitText(u: Unit): string {
    match u
    case GB => "GB"
    case G => "G"
    case MB => "MB"
    case M => "M"
  }

  function Pow10(k: nat): (p: nat)
    ensures p >= 1
  {
    if k == 0 then 1 else 10 * Pow10(k - 1)
  }

  /** Python's `int(a / b)` for exact operands: the quotient truncated
      toward zero. */
  function TruncDiv(a: int, b: nat): int
    requires b > 0
  {
    if a >= 0 then a / b else -((-a) / b)
  }

  // ----------------------------------------------------- the exact reading

  /** The real number a decimal stands for. */
  ghost function Magnitude(d: Decimal): real {
    d.mantissa as real / Pow10(d.scale) as real
  }

  /** Truncation of a real toward zero, as Python's `int()` on a float. */
  ghost function TruncReal(x: real): int {
    if x >= 0.0 then x.Floor else -((-x).Floor)
  }

  /** The whole quotient is at most the exact one. */
  lemma QuotientBelow(a: nat, b: nat)
    requires b > 0
    ensures (a / b) as real <= a as real / b as real
  {
    var q := a / b;
    var c := b as real;
    assert q * b <= a;
    assert q as real * c <= a as real;
    ScaleDown(q as real, a as real / c, c);
  }

  /** The exact quotient is below the next whole number. */
  lemma QuotientAbove(a: nat, b: nat)
    requires b > 0
    ensures a as real / b as real < (a / b) as real + 1.0
  {
    var q := a / b;
    var c := b as real;
    assert a < (q + 1) * b;
    assert a as real < (q as real + 1.0) * c;
    ScaleDown(a as real / c, q as real + 1.0, c);
  }

  /** Dividing both sides of an inequality by a positive number. */
  lemma ScaleDown(x: real, y: real, c: real)
    requires c > 0.0
    ensures x * c <= y * c ==> x <= y
    ensures x * c < y * c ==> x < y
  {
  }

  /** The floor of a real lying in `[q, q + 1)` is `q`. */
  lemma FloorBetween(x: real, q: int)
    requires q as real <= x < q as real + 1.0
    ensures x.Floor == q
  {
  }

  lemma FloorOfQuotient(a: nat, b: nat)
    requires b > 0
    ensures a as real / b as real >= 0.0
    ensures (a as real / b as real).Floor == a / b
  {
    QuotientBelow(a, b);
    QuotientAbove(a, b);
    FloorBetween(a as real / b as real, a / b);
  }

  lemma NegatedQuotient(a: int, b: nat)
    requires b > 0
    ensures -(a as real / b as real) == (-a) as real / b as real
  {
  }

  /** `TruncDiv` is truncation toward zero of the exact quotient. */
  lemma TruncDivIsTrunc(a: int, b: nat)
    requires b > 0
    ensures TruncDiv(a, b) == TruncReal(a as real / b as real)
  {
    if a >= 0 {
      FloorOfQuotient(a, b);
    } else {
      FloorOfQuotient(-a, b);
      NegatedQuotient(a, b);
    }
  }

  /** The unit conversion the parsers promise, stated on real numbers: a
      memory size is the value in MB (G and GB scaled by 1024), a disk size
      the value in GB (M and MB divided by 1024 and never below 1), each
      truncated toward zero. */
  ghost function Meaning(target: Target, unit: Unit, d: Decimal): int {
    var v := Magnitude(d);
    match target
    case Memory => if unit == G || unit == GB then TruncReal(v * 1024.0) else TruncReal(v)
    case Disk => if unit == G || unit == GB then TruncReal(v) else Max(1, TruncReal(v / 1024.0))
  }

  function Max(a: int, b: int): int {
    if a >= b then a else b
  }

  /** The conversion the source performs for a parsed number `d` followed by
      `unit`: `int(val * 1024)`, `int(val)` or `max(1, int(val / 1024))`. */
  function Convert(target: Target, unit: Unit, d: Decimal): int {
    var p := Pow10(d.scale);
    match target
    case Memory =>
      if unit == G || unit == GB then TruncDiv(d.mantissa * 1024, p) else TruncDiv(d.mantissa, p)
    case Disk =>
      if unit == G || unit == GB then TruncDiv(d.mantissa, p) else Max(1, TruncDiv(d.mantissa, 1024 * p))
  }

  /** The integer conversion is the exact real-number conversion. */
  lemma ConvertIsMeaning(target: Target, unit: Unit, d: Decimal)
    ensures Convert(target, unit, d) == Meaning(target, unit, d)
  {
    var p := Pow10(d.scale);
    if target == Memory && (unit == G || unit == GB) {
      MemoryGigabytesMeaning(d);
    } else if target == Disk && (unit == M || unit == MB) {
      DiskMegabytesMeaning(d);
    } else {
      TruncDivIsTrunc(d.mantissa, p);
    }
  }

  lemma MemoryGigabytesMeaning(d: Decimal)
    ensures TruncDiv(d.mantissa * 1024, Pow10(d.scale)) == TruncReal(Magnitude(d) * 1024.0)
  {
    var p := Pow10(d.scale);
    assert Magnitude(d) * 1024.0 == (d.mantissa * 1024) as real / p as real;
    TruncDivIsTrunc(d.mantissa * 1024, p);
  }

  lemma DiskMegabytesMeaning(d: Decimal)
    ensures TruncDiv(d.mantissa, 1024 * Pow10(d.scale)) == TruncReal(Magnitude(d) / 1024.0)
  {
    var p := Pow10(d.scale);
    assert Magnitude(d) / 1024.0 == d.mantissa as real / (1024 * p) as real;
    TruncDivIsTrunc(d.mantissa, 1024 * p);
  }

  // ------------------------------------------------------- decimal literals

  /** An unsigned decimal literal: digits with an optional fraction, or a
      fraction alone (`12`, `12.`, `12.5`, `.5`). */
  function ParseUnsigned(b: string): Option<Decimal> {
    if '.' in b then
      var i := IndexOf(b, '.');
      var whole := b[..i];
      var frac := b[i + 1..];
      if AllDigits(whole) && AllDigits(frac) && |whole| + |frac| > 0 then
        Some(Decimal(DigitsValue(whole + frac), |frac|))
      else
        None
    else if IsDigits(b) then
      Some(Decimal(DigitsValue(b), 0))
    else
      None
  }

  /** A decimal literal with one optional sign in front. */
  function ParseSigned(u: string): Option<Decimal> {
    if |u| > 0 && (u[0] == '+' || u[0] == '-') then
      match ParseUnsigned(u[1..])
      case None => None
      case Some(d) => Some(if u[0] == '-' then Decimal(-d.mantissa, d.scale) else d)
    else
      ParseUnsigned(u)
  }

  /** The ASCII information separators U+001C..U+001F. `str.isspace`
      counts them as whitespace, but `float()` strips only the ASCII blanks
      (and any non-ASCII whitespace), so it leaves them in place. */
  predicate IsSeparator(c: char) {
    '\U{1c}' <= c <= '\U{1f}'
  }

  predicate HasSeparator(t: string) {
    |t| > 0 && (IsSeparator(t[0]) || HasSeparator(t[1..]))
  }

  /** `HasSeparator` holds exactly when some character is a separator. */
  lemma {:induction false} HasSeparatorAt(t: string)
    ensures HasSeparator(t) <==> exists i :: 0 <= i < |t| && IsSeparator(t[i])
  {
    if |t| > 0 {
      HasSeparatorAt(t[1..]);
      if exists i :: 0 <= i < |t| && IsSeparator(t[i]) {
        var i :| 0 <= i < |t| && IsSeparator(t[i]);
        if i > 0 {
          assert t[1..][i - 1] == t[i];
        }
      }
      if HasSeparator(t[1..]) {
        var i :| 0 <= i < |t| - 1 && IsSeparator(t[1..][i]);
        assert t[i + 1] == t[1..][i];
      }
    }
  }

  /** Python's `float(t)` on decimal literals: surrounding whitespace is
      ignored. A separator anywhere is never part of a literal and is not
      stripped, so it makes the text unreadable. */
  function ParseDecimal(t: string): Option<Decimal> {
    if HasSeparator(t) then None else ParseSigned(Strip(t))
  }

  /** The number written with the digits `whole`, a point, and the digits
      `frac`, with an optional minus sign. */
  function LiteralText(negative: bool, whole: string, frac: string): string {
    (if negative then "-" else "") + whole + "." + frac
  }

  lemma ParseUnsignedLiteral(whole: string, frac: string)
    requires AllDigits(whole) && AllDigits(frac) && |whole| + |frac| > 0
    ensures ParseUnsigned(whole + "." + frac) == Some(Decimal(DigitsValue(whole + frac), |frac|))
  {
    var body := whole + "." + frac;
    assert body[|whole|] == '.';
    assert body[..|whole|] == whole;
    IndexOfFirst(body, '.', |whole|);
    assert body[|whole| + 1..] == frac;
  }

  lemma LiteralStripped(negative: bool, whole: string, frac: string)
    requires AllDigits(whole) && AllDigits(frac)
    ensures IsStripped(LiteralText(negative, whole, frac))
  {
    var t := LiteralText(negative, whole, frac);
    assert t[|t| - 1] == (if |frac| > 0 then frac[|frac| - 1] else '.');
    assert t[0] == (if negative then '-' else if |whole| > 0 then whole[0] else '.');
  }

  lemma ParseSignedNegative(body: string, d: Decimal)
    requires ParseUnsigned(body) == Some(d)
    ensures ParseSigned("-" + body) == Some(Decimal(-d.mantissa, d.scale))
  {
    assert ("-" + body)[1..] == body;
  }

  lemma ParseSignedUnsigned(body: string)
    requires |body| > 0 && body[0] != '+' && body[0] != '-'
    ensures ParseSigned(body) == ParseUnsigned(body)
  {
  }

  /** The exact number a literal spells: its digits read as one integer,
      scaled down by the length of the fraction. */
  function LiteralValue(negative: bool, whole: string, frac: string): Decimal
    requires AllDigits(whole) && AllDigits(frac)
  {
    AllDigitsAppend(whole, frac);
    var m: int := DigitsValue(whole + frac);
    Decimal(if negative then -m else m, |frac|)
  }

  lemma AllDigitsAppend(whole: string, frac: string)
    requires AllDigits(whole) && AllDigits(frac)
    ensures AllDigits(whole + frac)
  {
    assert forall i :: 0 <= i < |whole + frac| ==> (whole + frac)[i] == if i < |whole| then whole[i] else frac[i - |whole|];
  }

  /** Reading back a written decimal literal yields the exact number it
      spells: the digits as one integer, scaled by the fraction length. */
  lemma ParseLiteral(negative: bool, whole: string, frac: string)
    requires AllDigits(whole) && AllDigits(frac) && |whole| + |frac| > 0
    ensures ParseDecimal(LiteralText(negative, whole, frac)) == Some(LiteralValue(negative, whole, frac))
  {
    var t := LiteralText(negative, whole, frac);
    LiteralStripped(negative, whole, frac);
    ParseDecimalStripped(t);
    ParseSignedLiteral(negative, whole, frac);
  }

  lemma ParseSignedLiteral(negative: bool, whole: string, frac: string)
    requires AllDigits(whole) && AllDigits(frac) && |whole| + |frac| > 0
    ensures ParseSigned(LiteralText(negative, whole, frac)) == Some(LiteralValue(negative, whole, frac))
  {
    if negative {
      ParseNegativeLiteral(whole, frac);
    } else {
      ParsePositiveLiteral(whole, frac);
    }
  }

  lemma ParseNegativeLiteral(whole: string, frac: string)
    requires AllDigits(whole) && AllDigits(frac) && |whole| + |frac| > 0
    ensures ParseSigned(LiteralText(true, whole, frac)) == Some(LiteralValue(true, whole, frac))
  {
    var body := whole + "." + frac;
    var d := LiteralValue(false, whole, frac);
    ParseUnsignedLiteral(whole, frac);
    assert ParseUnsigned(body) == Some(d);
    assert LiteralText(true, whole, frac) == "-" + body;
    ParseSignedNegative(body, d);
    assert LiteralValue(true, whole, frac) == Decimal(-d.mantissa, d.scale);
  }

  lemma ParsePositiveLiteral(whole: string, frac: string)
    requires AllDigits(whole) && AllDigits(frac) && |whole| + |frac| > 0
    ensures ParseSigned(LiteralText(false, whole, frac)) == Some(LiteralValue(false, whole, frac))
  {
    var body := whole + "." + frac;
    ParseUnsignedLiteral(whole, frac);
    assert LiteralText(false, whole, frac) == body;
    assert body[0] == (if |whole| > 0 then whole[0] else '.');
    ParseSignedUnsigned(body);
  }

  lemma ParseDecimalStripped(t: string)
    requires IsStripped(t)
    ensures ParseDecimal(t) == ParseSigned(t)
  {
    StripStripped(t);
    if ParseSigned(t).Some? {
      ParseSignedSpelled(t, ParseSigned(t).value);
      SpellingNoSpace(LiteralOf(t));
      NoSpaceNoSeparator(t);
    }
  }

  lemma {:induction false} NoSpaceNoSeparator(t: string)
    requires forall k :: 0 <= k < |t| ==> !IsSpace(t[k])
    ensures !HasSeparator(t)
  {
    if |t| > 0 {
      assert forall k :: 0 <= k < |t| - 1 ==> t[1..][k] == t[k + 1];
      NoSpaceNoSeparator(t[1..]);
    }
  }

  // ----------------------------------------------- what `float()` reads

  /** A decimal literal in parts: an optional sign (`""`, `"+"` or `"-"`),
      the digits before the point, whether a point is written, and the
      digits after it. */
  datatype Literal = Literal(sign: string, whole: string, point: bool, frac: string)

  /** At least one digit, and a fraction only behind a point. */
  predicate WellFormed(l: Literal) {
    && (l.sign == "" || l.sign == "+" || l.sign == "-")
    && AllDigits(l.whole) && AllDigits(l.frac)
    && |l.whole| + |l.frac| > 0
    && (l.point || l.frac == "")
  }

  function Spelling(l: Literal): string {
    l.sign + Body(l)
  }

  /** The spelling behind the sign. */
  function Body(l: Literal): string {
    l.whole + (if l.point then "." + l.frac else "")
  }

  function Denotes(l: Literal): Decimal
    requires WellFormed(l)
  {
    LiteralValue(l.sign == "-", l.whole, l.frac)
  }

  /** The whitespace `float()` ignores around a number. */
  predicate IsFloatSpace(c: char) {
    IsSpace(c) && !IsSeparator(c)
  }

  predicate AllFloatSpace(s: string) {
    forall i :: 0 <= i < |s| ==> IsFloatSpace(s[i])
  }

  /** `t` is `s` with only `float()`'s whitespace around it. */
  ghost predicate Padded(t: string, s: string) {
    exists i, j :: 0 <= i <= j <= |t| && t[i..j] == s && AllFloatSpace(t[..i]) && AllFloatSpace(t[j..])
  }

  /** `float(t)` succeeds with the exact value `d`: `t` is a well-formed
      literal denoting `d`, padded with whitespace. */
  ghost predicate FloatReads(t: string, d: Decimal) {
    exists l: Literal :: WellFormed(l) && Denotes(l) == d && Padded(t, Spelling(l))
  }

  /** A literal spells no whitespace, so nothing of it is stripped. */
  lemma SpellingNoSpace(l: Literal)
    requires WellFormed(l)
    ensures |Spelling(l)| > 0
    ensures forall k :: 0 <= k < |Spelling(l)| ==> !IsSpace(Spelling(l)[k])
  {
    var tail := if l.point then "." + l.frac else "";
    assert forall k :: 0 <= k < |tail| ==> !IsSpace(tail[k]);
    assert Spelling(l) == l.sign + (l.whole + tail);
  }

  /** Every well-formed literal reads as what it denotes. */
  lemma ParseSpelling(l: Literal)
    requires WellFormed(l)
    ensures ParseSigned(Spelling(l)) == Some(Denotes(l))
  {
    var m := l.(sign := "");
    var body := Body(l);
    ParseUnsignedBody(l);
    assert body[0] == (if |l.whole| > 0 then l.whole[0] else '.');
    var e := Denotes(m);
    assert m.(sign := l.sign) == l;
    WithSign(m, l.sign);
    assert Denotes(l) == if l.sign == "-" then Decimal(-e.mantissa, e.scale) else e;
    SignedValue(l.sign, body, e);
  }

  /** A sign in front of an unsigned literal negates it or keeps it. */
  lemma SignedValue(sign: string, body: string, e: Decimal)
    requires sign == "" || sign == "+" || sign == "-"
    requires |body| > 0 && body[0] != '+' && body[0] != '-'
    requires ParseUnsigned(body) == Some(e)
    ensures ParseSigned(sign + body) == Some(if sign == "-" then Decimal(-e.mantissa, e.scale) else e)
  {
    if sign == "" {
      assert sign + body == body;
      ParseSignedUnsigned(body);
    } else if sign == "-" {
      ParseSignedNegative(body, e);
    } else {
      ParseSignedPlus(body);
    }
  }

  /** Putting a sign on an unsigned literal puts it in front of the
      spelling and negates the value exactly for `-`. */
  lemma WithSign(m: Literal, sign: string)
    requires WellFormed(m) && m.sign == ""
    requires sign == "" || sign == "+" || sign == "-"
    ensures WellFormed(m.(sign := sign))
    ensures Spelling(m.(sign := sign)) == sign + Body(m)
    ensures Denotes(m.(sign := sign))
      == if sign == "-" then Decimal(-Denotes(m).mantissa, Denotes(m).scale) else Denotes(m)
  {
  }

  lemma ParseSignedPlus(body: string)
    ensures ParseSigned("+" + body) == ParseUnsigned(body)
  {
    assert ("+" + body)[1..] == body;
  }

  lemma ParseUnsignedBody(l: Literal)
    requires WellFormed(l)
    ensures ParseUnsigned(Body(l)) == Some(Denotes(l.(sign := "")))
  {
    if l.point {
      ParseUnsignedLiteral(l.whole, l.frac);
      assert l.whole + "." + l.frac == l.whole + ("." + l.frac);
    } else {
      assert l.whole + "" == l.whole && l.whole + l.frac == l.whole;
      assert '.' !in l.whole;
    }
  }

  /** The sign in front of `u`, if any. */
  function SignOf(u: string): (r: string)
    ensures r == "" || r == "+" || r == "-"
    ensures |r| <= |u| && r == u[..|r|]
  {
    if |u| > 0 && (u[0] == '+' || u[0] == '-') then [u[0]] else ""
  }

  /** The digits of an unsigned `b` around its first point, if any. */
  function UnsignedOf(b: string): Literal {
    if '.' in b then
      var i := IndexOf(b, '.');
      Literal("", b[..i], true, b[i + 1..])
    else
      Literal("", b, false, "")
  }

  /** The parts of `u` read as a literal. */
  function LiteralOf(u: string): Literal {
    var sign := SignOf(u);
    UnsignedOf(u[|sign|..]).(sign := sign)
  }

  lemma ParseUnsignedSpelled(b: string)
    requires ParseUnsigned(b).Some?
    ensures WellFormed(UnsignedOf(b)) && Body(UnsignedOf(b)) == b
    ensures ParseUnsigned(b) == Some(Denotes(UnsignedOf(b)))
  {
    var l := UnsignedOf(b);
    if '.' in b {
      var i := IndexOf(b, '.');
      assert b == b[..i] + ("." + b[i + 1..]);
    } else {
      assert b + "" == b;
    }
  }

  /** Nothing but a literal is read: what `ParseSigned` accepts is the
      spelling of a well-formed literal denoting the result. */
  lemma ParseSignedSpelled(u: string, d: Decimal)
    requires ParseSigned(u) == Some(d)
    ensures WellFormed(LiteralOf(u)) && Spelling(LiteralOf(u)) == u && Denotes(LiteralOf(u)) == d
  {
    var b := u[|SignOf(u)|..];
    SignedParts(u);
    ParseUnsignedSpelled(b);
    SpelledWithSign(u, d);
  }

  /** A signed text whose unsigned part spells a literal spells the signed
      literal. */
  lemma SpelledWithSign(u: string, d: Decimal)
    requires var m := UnsignedOf(u[|SignOf(u)|..]);
      && WellFormed(m) && Body(m) == u[|SignOf(u)|..]
      && d == if SignOf(u) == "-" then Decimal(-Denotes(m).mantissa, Denotes(m).scale) else Denotes(m)
    ensures WellFormed(LiteralOf(u)) && Spelling(LiteralOf(u)) == u && Denotes(LiteralOf(u)) == d
  {
    var sign := SignOf(u);
    var m := UnsignedOf(u[|sign|..]);
    assert LiteralOf(u) == m.(sign := sign);
    WithSign(m, sign);
    SignSplit(u);
  }

  lemma SignSplit(u: string)
    ensures u == SignOf(u) + u[|SignOf(u)|..]
  {
  }

  /** `ParseSigned` reads the text behind the sign and negates it exactly
      for `-`. */
  lemma SignedParts(u: string)
    requires ParseSigned(u).Some?
    ensures ParseUnsigned(u[|SignOf(u)|..]).Some?
    ensures var e := ParseUnsigned(u[|SignOf(u)|..]).value;
      ParseSigned(u) == Some(if SignOf(u) == "-" then Decimal(-e.mantissa, e.scale) else e)
  {
  }

  /** What `Strip` keeps is a slice of the text between two runs of
      whitespace. */
  lemma StripSlice(t: string) returns (i: nat, j: nat)
    ensures i <= j <= |t| && t[i..j] == Strip(t)
    ensures AllSpace(t[..i]) && AllSpace(t[j..])
  {
    var left := TrimLeft(t);
    TrimLeftSpec(t);
    TrimRightSpec(left);
    var r := Strip(t);
    i, j := |t| - |left|, |t| - |left| + |r|;
    assert left == t[i..];
    assert t[i..j] == left[..|r|];
    assert t[j..] == left[|r|..];
  }

  lemma EdgesFloatSpace(t: string, i: nat, j: nat)
    requires i <= j <= |t| && !HasSeparator(t)
    requires AllSpace(t[..i]) && AllSpace(t[j..])
    ensures AllFloatSpace(t[..i]) && AllFloatSpace(t[j..])
  {
    HasSeparatorAt(t);
    forall k | 0 <= k < i
      ensures IsFloatSpace(t[..i][k])
    {
      assert t[..i][k] == t[k];
    }
    forall k | 0 <= k < |t| - j
      ensures IsFloatSpace(t[j..][k])
    {
      assert t[j..][k] == t[j + k];
    }
  }

  /** `float()`'s reading, stated without the parser: a text reads as `d`
      exactly when it is a well-formed literal denoting `d` with only
      `float()`'s whitespace around it. */
  lemma ParseDecimalIff(t: string, d: Decimal)
    ensures ParseDecimal(t) == Some(d) <==> FloatReads(t, d)
  {
    if ParseDecimal(t) == Some(d) {
      ParseDecimalReads(t, d);
    }
    if FloatReads(t, d) {
      var l: Literal :| WellFormed(l) && Denotes(l) == d && Padded(t, Spelling(l));
      ReadsParseDecimal(t, l);
    }
  }

  lemma ParseDecimalReads(t: string, d: Decimal)
    requires ParseDecimal(t) == Some(d)
    ensures FloatReads(t, d)
  {
    var s := Strip(t);
    var l := LiteralOf(s);
    ParseSignedSpelled(s, d);
    var i, j := StripSlice(t);
    EdgesFloatSpace(t, i, j);
    assert t[i..j] == Spelling(l);
    assert Padded(t, Spelling(l));
  }

  lemma ReadsParseDecimal(t: string, l: Literal)
    requires WellFormed(l) && Padded(t, Spelling(l))
    ensures ParseDecimal(t) == Some(Denotes(l))
  {
    var s := Spelling(l);
    var i, j :| 0 <= i <= j <= |t| && t[i..j] == s && AllFloatSpace(t[..i]) && AllFloatSpace(t[j..]);
    SpellingNoSpace(l);
    PaddedParts(t, i, j, s);
    ParseSpelling(l);
  }

  /** A text padded with `float()`'s whitespace around a text free of
      whitespace holds no separator and strips to that text. */
  lemma PaddedParts(t: string, i: nat, j: nat, s: string)
    requires i <= j <= |t| && t[i..j] == s && AllFloatSpace(t[..i]) && AllFloatSpace(t[j..])
    requires |s| > 0 && forall k :: 0 <= k < |s| ==> !IsSpace(s[k])
    ensures !HasSeparator(t) && Strip(t) == s
  {
    assert t == t[..i] + s + t[j..];
    StripOfPadded(t[..i], s, t[j..]);
    forall k | 0 <= k < |t|
      ensures !IsSeparator(t[k])
    {
      if k < i {
        assert t[k] == t[..i][k];
      } else if k < j {
        assert t[k] == s[k - i];
      } else {
        assert t[k] == t[j..][k - j];
      }
    }
    HasSeparatorAt(t);
  }

  /** A plain number reads as itself. */
  lemma ParseNatText(n: nat)
    ensures ParseDecimal(NatText(n)) == Some(Decimal(n, 0))
  {
    var t := NatText(n);
    assert IsStripped(t);
    ParseDecimalStripped(t);
    assert '.' !in t;
  }

  // --------------------------------------------------------------- parsers

  /** The number in front of a recognised unit, converted. */
  function WithUnit(target: Target, u: string, unit: Unit): Result<int, SizeError>
    requires EndsWith(u, UnitText(unit))
  {
    match ParseDecimal(u[..|u| - |UnitText(unit)|])
    case None => Err(InvalidNumber(u))
    case Some(d) => Ok(Convert(target, unit, d))
  }

  /** The source's suffix tests, in order: `GB`, then `G`, then `MB`, then
      `M`. */
  function SuffixUnit(u: string): (r: Option<Unit>)
    ensures r.Some? ==> EndsWith(u, UnitText(r.value))
    ensures r.None? ==> forall unit: Unit :: !EndsWith(u, UnitText(unit))
  {
    if EndsWith(u, "GB") then Some(GB)
    else if EndsWith(u, "G") then Some(G)
    else if EndsWith(u, "MB") then Some(MB)
    else if EndsWith(u, "M") then Some(M)
    else None
  }

  /** What both parsers do with a stripped, upper-cased input `u` that is
      not a bare number. */
  function ParseSuffixed(target: Target, u: string): Result<int, SizeError> {
    match SuffixUnit(u)
    case None => Err(UnknownUnit)
    case Some(unit) => WithUnit(target, u, unit)
  }

  /** `parse_memory`: a size in megabytes. A bare number is already in MB. */
  function ParseMemory(s: string): Result<int, SizeError> {
    var t := Strip(s);
    if IsDigits(t) then Ok(DigitsValue(t))
    else ParseSuffixed(Memory, Upper(t))
  }

  /** `parse_disk_size`: a size in gigabytes. A bare number is already in GB. */
  function ParseDiskSize(s: string): Result<int, SizeError> {
    var t := Upper(Strip(s));
    if IsDigits(t) then Ok(DigitsValue(t))
    else ParseSuffixed(Disk, t)
  }

  function Parse(target: Target, s: string): Result<int, SizeError> {
    match target
    case Memory => ParseMemory(s)
    case Disk => ParseDiskSize(s)
  }

  // ------------------------------------------------------ the reference

  /** `r` is what the size string `s` denotes, read declaratively: after
      trimming and ignoring case it is either a bare number (already in the
      target unit) or a decimal followed by one of the four units, converted
      as `Meaning` says. No order among the units is implied. */
  ghost predicate IsReading(target: Target, s: string, r: int) {
    var u := Upper(Strip(s));
    || (IsDigits(u) && r == DigitsValue(u))
    || exists unit: Unit :: UnitReading(target, u, unit, r)
  }

  ghost predicate UnitReading(target: Target, u: string, unit: Unit, r: int) {
    && EndsWith(u, UnitText(unit))
    && ParseDecimal(u[..|u| - |UnitText(unit)|]).Some?
    && r == Meaning(target, unit, ParseDecimal(u[..|u| - |UnitText(unit)|]).value)
  }

  lemma UpperOfDigits(t: string)
    requires AllDigits(t)
    ensures Upper(t) == t
  {
  }

  lemma DigitsOfUpper(t: string)
    requires IsDigits(Upper(t))
    ensures IsDigits(t)
  {
    UpperSpec(t);
    forall i | 0 <= i < |t|
      ensures IsDigit(t[i])
    {
      assert Upper(t)[i] == UpperChar(t[i]);
    }
  }

  /** A string that ends in a unit letter is not a bare number. */
  lemma UnitNotDigits(u: string, unit: Unit)
    requires EndsWith(u, UnitText(unit))
    ensures !IsDigits(u)
  {
    assert u[|u| - 1] == UnitText(unit)[|UnitText(unit)| - 1];
  }

  /** At most one unit ends any string, so the order of the source's
      suffix tests does not matter. */
  lemma UnitsExclusive(u: string, a: Unit, b: Unit)
    requires EndsWith(u, UnitText(a)) && EndsWith(u, UnitText(b))
    ensures a == b
  {
    var ta, tb := UnitText(a), UnitText(b);
    assert u[|u| - 1] == ta[|ta| - 1] == tb[|tb| - 1];
    if |ta| == 2 && |tb| == 2 {
      assert u[|u| - 2] == ta[0] == tb[0];
    }
  }

  /** For one unit ending `u`, the source's conversion is the reading. */
  lemma WithUnitIsReading(target: Target, u: string, unit: Unit, r: int)
    requires EndsWith(u, UnitText(unit))
    ensures WithUnit(target, u, unit) == Ok(r) <==> UnitReading(target, u, unit, r)
  {
    var o := ParseDecimal(u[..|u| - |UnitText(unit)|]);
    assert WithUnit(target, u, unit) == if o.None? then Err(InvalidNumber(u)) else Ok(Convert(target, unit, o.value));
    assert UnitReading(target, u, unit, r) <==> o.Some? && r == Meaning(target, unit, o.value);
    if o.Some? {
      ConvertIsMeaning(target, unit, o.value);
    }
  }

  /** The ordered suffix chain finds a reading exactly when some unit gives
      one, and then the same one. */
  lemma SuffixedIsReading(target: Target, u: string, r: int)
    ensures ParseSuffixed(target, u) == Ok(r) <==> exists unit: Unit :: UnitReading(target, u, unit, r)
  {
    var found := SuffixUnit(u);
    if found.Some? {
      WithUnitIsReading(target, u, found.value, r);
    }
    if exists unit: Unit :: UnitReading(target, u, unit, r) {
      var unit: Unit :| UnitReading(target, u, unit, r);
      UnitsExclusive(u, found.value, unit);
    }
  }

  /** Both parsers return exactly the declarative reading: `Ok(r)` if and
      only if `r` is what the string denotes. */
  lemma ParseIsReading(target: Target, s: string, r: int)
    ensures Parse(target, s) == Ok(r) <==> IsReading(target, s, r)
  {
    var t := Strip(s);
    var u := Upper(t);
    if AllDigits(t) {
      UpperOfDigits(t);
    }
    if IsDigits(u) {
      DigitsOfUpper(t);
      UpperOfDigits(t);
      if exists unit: Unit :: UnitReading(target, u, unit, r) {
        var unit: Unit :| UnitReading(target, u, unit, r);
        UnitNotDigits(u, unit);
      }
    } else {
      if IsDigits(t) {
        UpperOfDigits(t);
      }
      SuffixedIsReading(target, u, r);
    }
  }

  /** A parser succeeds exactly when the text has a reading, and its
      result is one. */
  lemma ParseOkIffReading(target: Target, s: string)
    ensures Parse(target, s).Ok? <==> exists r :: IsReading(target, s, r)
    ensures Parse(target, s).Ok? ==> IsReading(target, s, Parse(target, s).value)
  {
    ParseFailsIffNoReading(target, s);
    if Parse(target, s).Ok? {
      ParseIsReading(target, s, Parse(target, s).value);
    }
  }

  /** Both parsers fail exactly on the strings that denote no size. */
  lemma ParseFailsIffNoReading(target: Target, s: string)
    ensures Parse(target, s).Err? <==> forall r :: !IsReading(target, s, r)
  {
    if Parse(target, s).Ok? {
      ParseIsReading(target, s, Parse(target, s).value);
    }
    forall r | IsReading(target, s, r)
      ensures Parse(target, s).Ok?
    {
      ParseIsReading(target, s, r);
    }
  }

  // -------------------------------------------------- derived properties

  /** Case does not matter: upper-casing the input first changes nothing. */
  lemma ParseIgnoresCase(target: Target, s: string)
    ensures Parse(target, s) == Parse(target, Upper(s))
  {
    UpperStrip(s);
    UpperIdempotent(Strip(s));
    var t := Strip(s);
    if IsDigits(t) {
      UpperOfDigits(t);
    } else if IsDigits(Upper(t)) {
      DigitsOfUpper(t);
    }
  }

  lemma UnitTextShape(unit: Unit)
    ensures var t := UnitText(unit);
      |t| > 0 && !IsSpace(t[0]) && !IsSpace(t[|t| - 1]) && Upper(t) == t
  {
    match unit
    case GB => assert Upper("GB") == "GB";
    case G => assert Upper("G") == "G";
    case MB => assert Upper("MB") == "MB";
    case M => assert Upper("M") == "M";
  }

  /** The trimmed, upper-cased form of `x + sfx` when `sfx` is a unit: only
      the front of `x` loses its whitespace. */
  lemma NormalizeSuffixed(x: string, unit: Unit)
    ensures Strip(x + UnitText(unit)) == TrimLeft(x) + UnitText(unit)
    ensures Upper(Strip(x + UnitText(unit))) == Upper(TrimLeft(x)) + UnitText(unit)
  {
    var sfx := UnitText(unit);
    UnitTextShape(unit);
    StripOfSuffixed(x, sfx);
    UpperAppend(TrimLeft(x), sfx);
  }

  /** What a parser does with an input whose trimmed, upper-cased form is a
      number text `n` followed by a unit. */
  lemma ParseWithUnit(target: Target, s: string, n: string, unit: Unit)
    requires Upper(Strip(s)) == n + UnitText(unit)
    ensures Parse(target, s) == WithUnit(target, n + UnitText(unit), unit)
    ensures Parse(target, s).Ok? <==> ParseDecimal(n).Some?
    ensures Parse(target, s).Ok? ==> Parse(target, s).value == Convert(target, unit, ParseDecimal(n).value)
  {
    var t := Strip(s);
    var u := n + UnitText(unit);
    UnitNotDigits(u, unit);
    if IsDigits(t) {
      UpperOfDigits(t);
    }
    var found := SuffixUnit(u);
    UnitsExclusive(u, found.value, unit);
    assert u[..|u| - |UnitText(unit)|] == n;
  }

  /** A unit after something that is not a number is rejected, and the
      message names the trimmed, upper-cased input. */
  lemma InvalidNumberBeforeUnit(target: Target, s: string, n: string, unit: Unit)
    requires Upper(Strip(s)) == n + UnitText(unit)
    requires ParseDecimal(n) == None
    ensures Parse(target, s) == Err(InvalidNumber(Upper(Strip(s))))
  {
    ParseWithUnit(target, s, n, unit);
    var u := n + UnitText(unit);
    assert u[..|u| - |UnitText(unit)|] == n;
  }

  /** Two parse results that succeed together and then agree. */
  predicate SameValue(a: Result<int, SizeError>, b: Result<int, SizeError>) {
    a.Ok? == b.Ok? && (a.Ok? ==> a.value == b.value)
  }

  /** The long and the short spelling of a unit convert alike. */
  lemma LongUnitSame(target: Target, x: string, long: Unit, short: Unit)
    requires (long, short) == (GB, G) || (long, short) == (MB, M)
    ensures SameValue(Parse(target, x + UnitText(long)), Parse(target, x + UnitText(short)))
  {
    var n := Upper(TrimLeft(x));
    NormalizeSuffixed(x, long);
    NormalizeSuffixed(x, short);
    ParseWithUnit(target, x + UnitText(long), n, long);
    ParseWithUnit(target, x + UnitText(short), n, short);
  }

  /** A bare number is taken in the target unit, unchanged. */
  lemma ParseBareNumber(target: Target, n: nat)
    ensures Parse(target, NatText(n)) == Ok(n)
  {
    StripStripped(NatText(n));
    UpperOfDigits(NatText(n));
  }

  /** A unit written in any case has no whitespace at either end. */
  lemma WrittenUnitShape(unit: Unit, written: string)
    requires Upper(written) == UnitText(unit)
    ensures |written| > 0 && !IsSpace(written[0]) && !IsSpace(written[|written| - 1])
  {
    UnitTextShape(unit);
    UpperSpec(written);
    UpperCharSpace(written[0]);
    UpperCharSpace(written[|written| - 1]);
  }

  /** A whole number followed by a unit in either case reads as that number
      converted. */
  lemma ParseNatWithUnit(target: Target, n: nat, unit: Unit, written: string)
    requires Upper(written) == UnitText(unit)
    ensures Parse(target, NatText(n) + written) == Ok(Convert(target, unit, Decimal(n, 0)))
  {
    var t := NatText(n);
    WrittenUnitShape(unit, written);
    StripOfSuffixed(t, written);
    TrimLeftOfPadded([], t);
    assert [] + t == t;
    UpperAppend(t, written);
    UpperOfDigits(t);
    ParseWithUnit(target, t + written, t, unit);
    ParseNatText(n);
  }

  /** The conversions on a whole number. */
  lemma ConvertWhole(n: nat)
    ensures Convert(Memory, G, Decimal(n, 0)) == n * 1024 == Convert(Memory, GB, Decimal(n, 0))
    ensures Convert(Memory, M, Decimal(n, 0)) == n == Convert(Memory, MB, Decimal(n, 0))
    ensures Convert(Disk, G, Decimal(n, 0)) == n == Convert(Disk, GB, Decimal(n, 0))
    ensures Convert(Disk, M, Decimal(n, 0)) == (if n < 1024 then 1 else n / 1024) == Convert(Disk, MB, Decimal(n, 0))
  {
    assert Pow10(0) == 1;
  }

  /** A whole number of gigabytes: `n * 1024` MB of memory, `n` GB of disk. */
  lemma ParseGigabytes(n: nat)
    ensures ParseMemory(NatText(n) + "G") == Ok(n * 1024)
    ensures ParseMemory(NatText(n) + "gb") == Ok(n * 1024)
    ensures ParseDiskSize(NatText(n) + "G") == Ok(n)
  {
    ConvertWhole(n);
    ParseNatWithUnit(Memory, n, G, "G");
    assert Upper("gb") == "GB";
    ParseNatWithUnit(Memory, n, GB, "gb");
    ParseNatWithUnit(Disk, n, G, "G");
  }

  /** A whole number of megabytes: `n` MB of memory, and `n / 1024` GB of
      disk but never less than 1. */
  lemma ParseMegabytes(n: nat)
    ensures ParseMemory(NatText(n) + "MB") == Ok(n)
    ensures ParseMemory(NatText(n) + "mb") == Ok(n)
    ensures ParseDiskSize(NatText(n) + "M") == Ok(if n < 1024 then 1 else n / 1024)
  {
    ConvertWhole(n);
    ParseNatWithUnit(Memory, n, MB, "MB");
    assert Upper("mb") == "MB";
    ParseNatWithUnit(Memory, n, MB, "mb");
    ParseNatWithUnit(Disk, n, M, "M");
  }

  /** Megabytes of disk convert to at least 1 GB. */
  lemma DiskMegabytesConvert(unit: Unit, d: Decimal)
    requires unit == M || unit == MB
    ensures Convert(Disk, unit, d) >= 1
  {
  }

  /** A disk size given in megabytes is never reported below 1 GB. */
  lemma DiskMegabytesAtLeastOne(s: string, r: int)
    requires ParseDiskSize(s) == Ok(r)
    requires EndsWith(Upper(Strip(s)), UnitText(M)) || EndsWith(Upper(Strip(s)), UnitText(MB))
    ensures r >= 1
  {
    if EndsWith(Upper(Strip(s)), UnitText(M)) {
      DiskMegabytesWith(s, M);
    } else {
      DiskMegabytesWith(s, MB);
    }
  }

  lemma DiskMegabytesWith(s: string, unit: Unit)
    requires unit == M || unit == MB
    requires EndsWith(Upper(Strip(s)), UnitText(unit))
    ensures ParseDiskSize(s).Ok? ==> ParseDiskSize(s).value >= 1
  {
    var u := Upper(Strip(s));
    var n := u[..|u| - |UnitText(unit)|];
    assert u == n + UnitText(unit);
    ParseWithUnit(Disk, s, n, unit);
    if ParseDecimal(n).Some? {
      DiskMegabytesConvert(unit, ParseDecimal(n).value);
    }
  }

  /** A minus sign in front of a whole number is read as a negative
      decimal. */
  lemma ParseNegativeNatText(n: nat)
    ensures ParseDecimal("-" + NatText(n)) == Some(Decimal(-(n as int), 0))
  {
    var t := "-" + NatText(n);
    assert t[0] == '-' && t[|t| - 1] == NatText(n)[|NatText(n)| - 1];
    ParseDecimalStripped(t);
    assert '.' !in NatText(n);
    ParseSignedNegative(NatText(n), Decimal(n, 0));
  }

  /** The source accepts a sign in front of a suffixed size: a negative
      number with a unit parses to a negative size. */
  lemma NegativeWithUnit(target: Target, n: nat, unit: Unit)
    ensures Parse(target, "-" + NatText(n) + UnitText(unit)) == Ok(Convert(target, unit, Decimal(-(n as int), 0)))
  {
    var t := "-" + NatText(n);
    NormalizeSuffixed(t, unit);
    TrimLeftOfPadded([], t);
    assert [] + t == t;
    UpperAppend("-", NatText(n));
    UpperOfDigits(NatText(n));
    assert Upper("-") == "-";
    ParseWithUnit(target, t + UnitText(unit), t, unit);
    ParseNegativeNatText(n);
  }

  /** The same negative number without a unit is rejected: the bare-number
      path admits digits only. */
  lemma NegativeBareRejected(target: Target, n: nat)
    ensures Parse(target, "-" + NatText(n)) == Err(UnknownUnit)
  {
    var t := "-" + NatText(n);
    assert t[0] == '-' && t[|t| - 1] == NatText(n)[|NatText(n)| - 1];
    StripStripped(t);
    UpperAppend("-", NatText(n));
    UpperOfDigits(NatText(n));
    assert Upper("-") == "-";
    assert !IsDigits(t);
    assert IsDigit(t[|t| - 1]);
    NoUnitAfter(t);
  }

  /** No unit ends in a character other than `B`, `G` or `M`. */
  lemma NoUnitAfter(u: string)
    requires |u| > 0 && u[|u| - 1] != 'B' && u[|u| - 1] != 'G' && u[|u| - 1] != 'M'
    ensures SuffixUnit(u) == None
  {
    EndsWithLast(u, "GB");
    EndsWithLast(u, "G");
    EndsWithLast(u, "MB");
    EndsWithLast(u, "M");
  }

  /** A text ending in `t` ends in the last character of `t`. */
  lemma EndsWithLast(u: string, t: string)
    requires |t| > 0
    ensures EndsWith(u, t) ==> |u| > 0 && u[|u| - 1] == t[|t| - 1]
  {
    if EndsWith(u, t) {
      assert u[|u| - |t|..][|t| - 1] == u[|u| - 1];
    }
  }

  // ------------------------------------------------------------- examples

  lemma MemoryBareExample()
    ensures ParseMemory("2048") == Ok(2048)
  {
    NatTextSizeExamples();
    ParseBareNumber(Memory, 2048);
  }

  lemma MemoryGigabyteExample()
    ensures ParseMemory("2G") == Ok(2048)
  {
    NatTextSizeExamples();
    ParseGigabytes(2);
    assert NatText(2) + "G" == "2G";
  }

  lemma MemoryLowerCaseExample()
    ensures ParseMemory("512mb") == Ok(512)
  {
    NatTextSizeExamples();
    ParseMegabytes(512);
    assert NatText(512) + "mb" == "512mb";
  }

  lemma DiskGigabyteExample()
    ensures ParseDiskSize("10G") == Ok(10)
  {
    NatTextSizeExamples();
    ParseGigabytes(10);
    assert NatText(10) + "G" == "10G";
  }

  lemma DiskMegabyteExample()
    ensures ParseDiskSize("10240M") == Ok(10)
  {
    NatTextSizeExamples();
    ParseMegabytes(10240);
    assert NatText(10240) + "M" == "10240M";
  }

  /** Less than a gigabyte of disk is rounded up to 1. */
  lemma DiskSmallExample()
    ensures ParseDiskSize("512M") == Ok(1)
  {
    NatTextSizeExamples();
    ParseMegabytes(512);
    assert NatText(512) + "M" == "512M";
  }

  /** `-1G` is accepted as -1024 MB of memory, while `-1` is rejected. */
  lemma NegativeMemoryExample()
    ensures ParseMemory("-1G") == Ok(-1024)
    ensures ParseMemory("-1") == Err(UnknownUnit)
  {
    assert NatText(1) == "1";
    NegativeWithUnit(Memory, 1, G);
    assert "-" + NatText(1) + UnitText(G) == "-1G";
    assert Pow10(0) == 1;
    NegativeBareRejected(Memory, 1);
    assert "-" + NatText(1) == "-1";
  }

  /** Text with no unit at the end is rejected as an unknown unit. */
  lemma UnknownUnitExample()
    ensures ParseMemory("bogus") == Err(UnknownUnit)
  {
    var t := "bogus";
    assert IsStripped(t);
    StripStripped(t);
    UpperSpec(t);
    assert Upper(t)[4] == 'S';
    NoUnitAfter(Upper(t));
  }

  /** A separator between the number and the unit survives `strip()`, and
      `float()` refuses it. */
  lemma SeparatorExample()
    ensures ParseMemory("1\U{1c}G") == Err(InvalidNumber("1\U{1c}G"))
  {
    var n := "1\U{1c}";
    NormalizeSuffixed(n, G);
    assert TrimLeft(n) == n;
    assert Upper(n) == n;
    assert n + UnitText(G) == "1\U{1c}G";
    assert HasSeparator(n[1..]);
    InvalidNumberBeforeUnit(Memory, n + UnitText(G), n, G);
  }


}
