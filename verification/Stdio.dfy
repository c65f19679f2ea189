/**
 Formatting integers (lib/stdio.c).  Characters are bytes; the digits are made in
 a 64-byte buffer, last digit first, and then output in reverse.
 */
module Stdio {
  import opened Arithmetic
  import opened InodeIo

  const SPACE: byte := 32
  const PLUS: byte := 43
  const COMMA: byte := 44
  const MINUS: byte := 45
  const ZERO: byte := 48

  type Text = seq<byte>

  /** A base: its digits, the `x` of its prefix or 0, and the size of a group. */
  datatype IntBase = IntBase(base: int, digits: Text, x: byte, group: int)

  const BASE_D := IntBase(10, [48, 49, 50, 51, 52, 53, 54, 55, 56, 57], 0, 3)
  const BASE_O := IntBase(8, [48, 49, 50, 51, 52, 53, 54, 55], 0, 3)
  const BASE_X := IntBase(16, [48, 49, 50, 51, 52, 53, 54, 55, 56, 57, 97, 98, 99, 100, 101, 102], 120, 4)
  const BASE_UPPER_X := IntBase(16, [48, 49, 50, 51, 52, 53, 54, 55, 56, 57, 65, 66, 67, 68, 69, 70], 88, 4)

  ghost predicate GoodBase(b: IntBase) {
    && 8 <= b.base == |b.digits| && b.group >= 3 && b.digits[0] == ZERO && COMMA !in b.digits
    && forall i, j | 0 <= i < j < |b.digits| :: b.digits[i] != b.digits[j]
  }

  // Digits that ascend are all different.
  lemma {:induction false} Ascending(s: Text, i: int, j: int)
    requires 0 <= i < j < |s| && forall k | 0 < k < |s| :: s[k - 1] < s[k]
    ensures s[i] < s[j]
  {
    if i + 1 < j { Ascending(s, i, j - 1); }
  }

  lemma AscendingGood(b: IntBase)
    requires 8 <= b.base == |b.digits| && b.group >= 3 && b.digits[0] == ZERO && COMMA !in b.digits
    requires forall k | 0 < k < |b.digits| :: b.digits[k - 1] < b.digits[k]
    ensures GoodBase(b)
  {
    forall i, j | 0 <= i < j < |b.digits| ensures b.digits[i] != b.digits[j] { Ascending(b.digits, i, j); }
  }

  /** All the bases that conversions use are in order. */
  lemma Bases()
    ensures GoodBase(BASE_D) && GoodBase(BASE_O) && GoodBase(BASE_X) && GoodBase(BASE_UPPER_X)
  {
    AscendingGood(BASE_D);
    AscendingGood(BASE_O);
    AscendingGood(BASE_X);
    AscendingGood(BASE_UPPER_X);
  }

  datatype Flags = Flags(minus: bool, plus: bool, space: bool, pound: bool, zero: bool, group: bool)

  datatype Conversion = Conversion(flags: Flags, width: nat, precision: int)

  // ---------- Numerals ----------

  /** s is a numeral for v, perhaps with zeros in front. */
  ghost predicate Renders(b: IntBase, s: Text, v: int)
    requires 0 < b.base == |b.digits|
  {
    if s == [] then v == 0
    else v >= 0 && s[|s| - 1] == b.digits[v % b.base] && Renders(b, s[..|s| - 1], v / b.base)
  }

  lemma DigitsDiffer(b: IntBase, i: int, j: int)
    requires GoodBase(b) && 0 <= i < b.base && 0 <= j < b.base
    ensures b.digits[i] == b.digits[j] <==> i == j
  {
    assert i < j ==> b.digits[i] != b.digits[j];
    assert j < i ==> b.digits[j] != b.digits[i];
  }

  /** A numeral is for one number only. */
  lemma {:induction false} RendersOnce(b: IntBase, s: Text, v: int, w: int)
    requires GoodBase(b) && Renders(b, s, v) && Renders(b, s, w)
    ensures v == w
  {
    if s != [] {
      RendersOnce(b, s[..|s| - 1], v / b.base, w / b.base);
      DigitsDiffer(b, v % b.base, w % b.base);
      assert v == b.base * (v / b.base) + v % b.base && w == b.base * (w / b.base) + w % b.base;
    }
  }

  function Fill(ch: byte, n: nat): (s: Text)
    ensures |s| == n && forall i | 0 <= i < n :: s[i] == ch
  {
    seq(n, _ => ch)
  }

  /** Zeros in front change nothing. */
  lemma {:induction false} LeadingZeros(b: IntBase, s: Text, v: int, n: nat)
    requires GoodBase(b) && Renders(b, s, v)
    ensures Renders(b, Fill(ZERO, n) + s, v)
  {
    var t := Fill(ZERO, n) + s;
    if s != [] {
      LeadingZeros(b, s[..|s| - 1], v / b.base, n);
      assert t[..|t| - 1] == Fill(ZERO, n) + s[..|s| - 1];
    } else if n > 0 {
      LeadingZeros(b, s, v, n - 1);
      assert t[..|t| - 1] == Fill(ZERO, n - 1) + s;
    }
  }

  /** The number of digits of v. */
  function Length(b: IntBase, v: nat): (n: nat)
    requires b.base >= 2
  {
    if v == 0 then 0 else 1 + Length(b, v / b.base)
  }

  function Power(base: nat, n: nat): nat {
    if n == 0 then 1 else base * Power(base, n - 1)
  }

  /** A number below 8 to the n has at most n octal digits. */
  lemma {:induction false} LengthFits(v: nat, n: nat)
    requires v < Power(8, n)
    ensures Length(BASE_O, v) <= n
  {
    if v > 0 { LengthFits(v / 8, n - 1); }
  }

  lemma QuotientLess(v: int, d: int, p: int)
    requires d > 0 && v < d * p
    ensures v / d < p
  {
    var q := v / d;
    assert q * d <= v;
    if q >= p { MulMono(p, q, d); }
  }

  // ---------- Digits in reverse, with commas ----------

  function NoCommas(s: Text): Text {
    if s == [] then [] else if s[0] == COMMA then NoCommas(s[1..]) else [s[0]] + NoCommas(s[1..])
  }

  lemma {:induction false} NoCommasThere(s: Text)
    requires COMMA !in s
    ensures NoCommas(s) == s
  {
    if s != [] { NoCommasThere(s[1..]); }
  }

  function Reverse(s: Text): (r: Text)
    ensures |r| == |s| && forall i | 0 <= i < |s| :: r[i] == s[|s| - 1 - i]
  {
    seq(|s|, i requires 0 <= i < |s| => s[|s| - 1 - i])
  }

  lemma Pushed(buf: Text, ch: byte)
    ensures Reverse(buf + [ch]) == [ch] + Reverse(buf)
    ensures NoCommas(Reverse(buf + [ch])) == (if ch == COMMA then [] else [ch]) + NoCommas(Reverse(buf))
  {
    assert Reverse(buf + [ch]) == [ch] + Reverse(buf);
    assert ([ch] + Reverse(buf))[1..] == Reverse(buf);
  }

  /** `low` are the last digits of `whole`, and the number v is still to come. */
  ghost predicate Continues(b: IntBase, v: nat, low: Text, whole: nat)
    requires 0 < b.base == |b.digits|
  {
    forall s | Renders(b, s, v) :: Renders(b, s + low, whole)
  }

  lemma ContinuesMore(b: IntBase, v: nat, low: Text, whole: nat)
    requires GoodBase(b) && Continues(b, v, low, whole)
    ensures Continues(b, v / b.base, [b.digits[v % b.base]] + low, whole)
  {
    var d := b.digits[v % b.base];
    forall s | Renders(b, s, v / b.base) ensures Renders(b, s + ([d] + low), whole) {
      assert (s + [d])[..|s|] == s && (s + [d])[|s|] == d;
      assert Renders(b, s + [d], v);
      assert s + ([d] + low) == (s + [d]) + low;
    }
  }

  // ---------- The conversion ----------

  function SignText(c: Conversion, isSigned: bool, negative: bool): Text {
    if !isSigned then []
    else if c.flags.plus then [if negative then MINUS else PLUS]
    else if c.flags.space then [if negative then MINUS else SPACE]
    else if negative then [MINUS] else []
  }

  function PrefixText(b: IntBase, c: Conversion, value: nat): Text {
    if c.flags.pound && value != 0 && b.x != 0 then [ZERO, b.x] else []
  }

  function PadCount(c: Conversion, used: nat): nat {
    if c.width < used then 0 else c.width - used
  }

  /** How many characters the digits take: enough for the precision, and a zero in
      front with the # flag in base 8. */
  function MinDigits(c: Conversion): nat {
    if c.precision < 0 then 1 else c.precision
  }

  // Digits so far, in reverse; the number v is still to come.
  ghost predicate DigitsSoFar(b: IntBase, grouped: bool, buf: Text, v: nat, value: nat)
    requires 2 <= b.base == |b.digits|
  {
    && Continues(b, v, NoCommas(Reverse(buf)), value)
    && (!grouped ==> COMMA !in buf && |buf| + Length(b, v) == Length(b, value))
  }

  lemma NextDigit(b: IntBase, grouped: bool, buf: Text, v: nat, value: nat, comma: bool)
    requires GoodBase(b) && v > 0 && DigitsSoFar(b, grouped, buf, v, value) && (comma ==> grouped)
    ensures DigitsSoFar(b, grouped, buf + (if comma then [COMMA] else []) + [b.digits[v % b.base]], v / b.base, value)
  {
    var d, low := b.digits[v % b.base], NoCommas(Reverse(buf));
    ContinuesMore(b, v, low, value);
    if comma {
      Pushed(buf, COMMA);
      Pushed(buf + [COMMA], d);
    } else {
      assert buf + [] == buf;
      Pushed(buf, d);
    }
  }

  lemma NoDigitsYet(b: IntBase, grouped: bool, value: nat)
    requires GoodBase(b)
    ensures DigitsSoFar(b, grouped, [], value, value)
  {
    assert forall s: Text :: s + [] == s;
  }

  lemma AllDigits(b: IntBase, grouped: bool, buf: Text, value: nat)
    requires GoodBase(b) && DigitsSoFar(b, grouped, buf, 0, value)
    ensures Renders(b, NoCommas(Reverse(buf)), value)
  {
    assert Renders(b, [], 0) && [] + NoCommas(Reverse(buf)) == NoCommas(Reverse(buf));
  }

  // ---------- Where the commas go ----------

  /** Counted from the last digit, every (g+1)-th character is a comma and no other. */
  ghost predicate CommasRight(buf: Text, g: int)
    requires g > 0
  {
    forall p | 0 <= p < |buf| :: buf[p] == COMMA <==> p % (g + 1) == g
  }

  /** The number of digits with the commas between groups of them. */
  function GroupedLength(b: IntBase, v: nat): nat
    requires b.base >= 2 && b.group > 0
  {
    var n := Length(b, v);
    if n == 0 then 0 else n + (n - 1) / b.group
  }

  // m full groups and r more digits are in the buffer.
  ghost predicate Grouping(buf: Text, g: int, m: int, r: int)
    requires g > 0
  {
    0 <= m && 0 <= r <= g && |buf| == m * (g + 1) + r && CommasRight(buf, g)
  }

  lemma GroupFull(m: int, g: int, r: int)
    requires g > 0 && 0 < r <= g
    ensures (m * g + r) % g == 0 <==> r == g
    ensures (m * g + r - 1) / g == m
  {
    DivUnique(m * g + r - 1, g, m);
    if r == g { ModUnique(m * g + r, g, m + 1, 0); } else { ModUnique(m * g + r, g, m, r); }
  }

  lemma NextInGroup(buf: Text, g: int, m: int, r: int, d: byte)
    requires g > 0 && Grouping(buf, g, m, r) && r < g && d != COMMA
    ensures Grouping(buf + [d], g, m, r + 1)
  {
    ModUnique(m * (g + 1) + r, g + 1, m, r);
    assert forall p | 0 <= p < |buf| :: (buf + [d])[p] == buf[p];
  }

  lemma NextGroup(buf: Text, g: int, m: int, d: byte)
    requires g > 0 && Grouping(buf, g, m, g) && d != COMMA
    ensures Grouping(buf + [COMMA] + [d], g, m + 1, 1)
  {
    ModUnique(m * (g + 1) + g, g + 1, m, g);
    var t := buf + [COMMA];
    assert forall p | 0 <= p < |buf| :: t[p] == buf[p];
    assert |t| == (m + 1) * (g + 1);
    NextInGroup(t, g, m + 1, 0, d);
  }

  // digitCnt digits are m full groups and r more, and the buffer is laid out so if there are commas.
  ghost predicate Counted(b: IntBase, group: bool, buf: Text, digitCnt: int, m: int, r: int)
    requires b.group > 0
  {
    0 <= m && 0 <= r <= b.group && (r == 0 ==> m == 0) && digitCnt == m * b.group + r &&
    (group ==> Grouping(buf, b.group, m, r))
  }

  lemma NextCounted(b: IntBase, group: bool, buf: Text, digitCnt: int, m0: int, r0: int, comma: bool, d: byte)
    returns (m: int, r: int)
    requires b.group > 0 && Counted(b, group, buf, digitCnt, m0, r0) && d != COMMA
    requires comma <==> group && digitCnt > 0 && digitCnt % b.group == 0
    ensures Counted(b, group, buf + (if comma then [COMMA] else []) + [d], digitCnt + 1, m, r)
  {
    if r0 > 0 { GroupFull(m0, b.group, r0); }
    if r0 == b.group {
      m, r := m0 + 1, 1;
      CountedOver(b, group, buf, digitCnt, m0, d);
      if !group { assert buf + [] == buf; }
    } else {
      m, r := m0, r0 + 1;
      CountedOn(b, group, buf, digitCnt, m0, r0, d);
      assert buf + [] == buf;
    }
  }

  lemma CountedOver(b: IntBase, group: bool, buf: Text, digitCnt: int, m: int, d: byte)
    requires b.group > 0 && Counted(b, group, buf, digitCnt, m, b.group) && d != COMMA
    ensures Counted(b, group, if group then buf + [COMMA] + [d] else buf + [d], digitCnt + 1, m + 1, 1)
  {
    assert (m + 1) * b.group == m * b.group + b.group;
    if group { NextGroup(buf, b.group, m, d); }
  }

  lemma CountedOn(b: IntBase, group: bool, buf: Text, digitCnt: int, m: int, r: int, d: byte)
    requires b.group > 0 && Counted(b, group, buf, digitCnt, m, r) && r < b.group && d != COMMA
    ensures Counted(b, group, buf + [d], digitCnt + 1, m, r + 1)
  {
    if group { NextInGroup(buf, b.group, m, r, d); }
  }

  lemma CountedLength(b: IntBase, buf: Text, digitCnt: int, m: int, r: int, value: nat)
    requires GoodBase(b) && Counted(b, true, buf, digitCnt, m, r) && digitCnt == Length(b, value)
    ensures |buf| == GroupedLength(b, value)
  {
    if r > 0 { GroupFull(m, b.group, r); }
  }

  // The digits of the value, in reverse, with commas if asked for.
  method Digits(value: nat, b: IntBase, c: Conversion) returns (buf: Text)
    requires GoodBase(b) && value < Power(8, 22)
    ensures |buf| <= 44 && Renders(b, NoCommas(Reverse(buf)), value)
    ensures !c.flags.group ==> COMMA !in buf && |buf| == Length(b, value)
    ensures c.flags.group ==> CommasRight(buf, b.group) && |buf| == GroupedLength(b, value)
  {
    buf := [];
    var v: nat, digitCnt := value, 0;
    ghost var m, r := 0, 0;
    NoDigitsYet(b, c.flags.group, value);
    while v > 0
      invariant 0 <= digitCnt <= 22 && v < Power(8, 22 - digitCnt) && |buf| <= 2 * digitCnt
      invariant DigitsSoFar(b, c.flags.group, buf, v, value)
      invariant Counted(b, c.flags.group, buf, digitCnt, m, r) && digitCnt + Length(b, v) == Length(b, value)
      decreases v
    {
      Smaller(v, b.base, 22 - digitCnt);
      buf, v, m, r := PushDigit(buf, v, digitCnt, b, c, value, m, r);
      digitCnt := digitCnt + 1;
    }
    AllDigits(b, c.flags.group, buf, value);
    if c.flags.group { CountedLength(b, buf, digitCnt, m, r, value); }
  }

  // One turn of the loop.
  method PushDigit(buf0: Text, v0: nat, digitCnt: nat, b: IntBase, c: Conversion, ghost value: nat,
                   ghost m0: int, ghost r0: int)
    returns (buf: Text, v: nat, ghost m: int, ghost r: int)
    requires GoodBase(b) && v0 > 0 && DigitsSoFar(b, c.flags.group, buf0, v0, value)
    requires Counted(b, c.flags.group, buf0, digitCnt, m0, r0)
    ensures v == v0 / b.base && |buf| <= |buf0| + 2 && DigitsSoFar(b, c.flags.group, buf, v, value)
    ensures Counted(b, c.flags.group, buf, digitCnt + 1, m, r)
  {
    var comma := c.flags.group && digitCnt > 0 && digitCnt % b.group == 0;
    NextDigit(b, c.flags.group, buf0, v0, value, comma);
    var d := b.digits[v0 % b.base];
    assert d in b.digits;
    m, r := NextCounted(b, c.flags.group, buf0, digitCnt, m0, r0, comma, d);
    buf := buf0;
    if comma { buf := buf + [COMMA]; } else { assert buf == buf + []; }
    buf := buf + [d];
    v := v0 / b.base;
  }

  lemma Smaller(v: nat, d: int, n: nat)
    requires 0 < v < Power(8, n) && d >= 8
    ensures n > 0 && v / d < Power(8, n - 1) && v / d < v
  {
    var p := Power(8, n - 1);
    MulMono(8, d, p);
    assert v < d * p;
    QuotientLess(v, d, p);
    MulMono(2, d, v);
    QuotientLess(v, d, v);
  }

  // A 64-bit number has at most 22 octal digits.
  lemma SixtyFourBits()
    ensures 0x1_0000_0000_0000_0000 < Power(8, 22)
  {
    assert Power(8, 2) == 64;
    assert Power(8, 4) == 4096;
    assert Power(8, 6) == 262144;
    assert Power(8, 8) == 16777216;
    assert Power(8, 10) == 1073741824;
    assert Power(8, 12) == 68719476736;
    assert Power(8, 14) == 4398046511104;
    assert Power(8, 16) == 281474976710656;
    assert Power(8, 18) == 18014398509481984;
    assert Power(8, 20) == 1152921504606846976;
  }

  // One more zero in front of the digits.
  lemma ZeroInFront(b: IntBase, buf: Text, value: nat)
    requires GoodBase(b) && Renders(b, NoCommas(Reverse(buf)), value)
    ensures Renders(b, NoCommas(Reverse(buf + [ZERO])), value)
  {
    Pushed(buf, ZERO);
    LeadingZeros(b, NoCommas(Reverse(buf)), value, 1);
    assert Fill(ZERO, 1) == [ZERO];
  }

  /** Among the last k characters, every (g+1)-th from the right is a comma; there is no other. */
  ghost predicate CommasFromRight(num: Text, g: int, k: int)
    requires g > 0
  {
    forall q | 0 <= q < |num| :: num[q] == COMMA <==> |num| - 1 - q < k && (|num| - 1 - q) % (g + 1) == g
  }

  lemma ReverseCommas(digits: Text, buf: Text, g: int)
    requires g > 0 && CommasRight(digits, g) && OnlyZeros(digits, buf)
    ensures |Reverse(buf)| == |buf| && CommasFromRight(Reverse(buf), g, |digits|)
  {
    var num := Reverse(buf);
    assert forall q | 0 <= q < |num| :: num[q] == buf[|num| - 1 - q];
  }

  lemma ReverseNoComma(digits: Text, buf: Text)
    requires COMMA !in digits && OnlyZeros(digits, buf)
    ensures COMMA !in Reverse(buf)
  {
    assert COMMA !in buf;
  }

  // s goes on from t with nothing but zeros.
  ghost predicate OnlyZeros(t: Text, s: Text) {
    |t| <= |s| && (forall p | 0 <= p < |t| :: s[p] == t[p]) && forall p | |t| <= p < |s| :: s[p] == ZERO
  }

  // Zeros up to the precision, as far as the buffer goes.
  method FillPrecision(buf0: Text, precision: nat, b: IntBase, ghost value: nat) returns (buf: Text)
    requires GoodBase(b) && |buf0| <= 63 && Renders(b, NoCommas(Reverse(buf0)), value)
    ensures |buf| <= 63 && Renders(b, NoCommas(Reverse(buf)), value)
    ensures |buf| == Max(|buf0|, Min(precision, 63)) && OnlyZeros(buf0, buf)
  {
    buf := buf0;
    while |buf| < precision && |buf| < 63
      invariant |buf0| <= |buf| <= Max(|buf0|, Min(precision, 63)) && Renders(b, NoCommas(Reverse(buf)), value)
      invariant OnlyZeros(buf0, buf)
    {
      ZeroInFront(b, buf, value);
      buf := buf + [ZERO];
    }
  }

  function Max(a: int, b: int): int {
    if a < b then b else a
  }

  method OutputDup(out0: Text, ch: byte, cnt: nat) returns (out: Text)
    ensures out == out0 + Fill(ch, cnt)
  {
    out := out0;
    for i := 0 to cnt
      invariant out == out0 + Fill(ch, i)
    {
      out := out + [ch];
    }
  }

  // The buffer from its end to its beginning.
  method OutputBuffer(out0: Text, buf: Text) returns (out: Text)
    ensures out == out0 + Reverse(buf)
  {
    out := out0;
    var cp := |buf|;
    while cp > 0
      invariant 0 <= cp <= |buf| && out == out0 + Reverse(buf)[..|buf| - cp]
    {
      cp := cp - 1;
      out := out + [buf[cp]];
    }
  }

  /** Where padding, sign, prefix and digits go. */
  function Layout(c: Conversion, sign: Text, prefix: Text, num: Text): (out: Text)
    requires !(c.flags.minus && c.flags.zero)
    ensures |out| == Max(c.width, |sign| + |prefix| + |num|)
  {
    var pad := PadCount(c, |num| + |prefix| + |sign|);
    if c.flags.minus then sign + prefix + num + Fill(SPACE, pad)
    else if c.flags.zero then sign + prefix + Fill(ZERO, pad) + num
    else Fill(SPACE, pad) + sign + prefix + num
  }

  /** Formats an integer: the digits are a numeral for its value, within the
      buffer, and padding makes up the field width. */
  method FormatInteger(value: nat, isSigned: bool, negative: bool, b: IntBase, c: Conversion)
    returns (out: Text, ghost num: Text)
    requires GoodBase(b) && value < 0x1_0000_0000_0000_0000 && !(c.flags.minus && c.flags.zero)
    ensures |num| <= 64 && Renders(b, NoCommas(num), value)
    ensures out == Layout(c, SignText(c, isSigned, negative), PrefixText(b, c, value), num)
    ensures |out| >= c.width
    ensures !c.flags.group && !c.flags.pound ==>
              NoCommas(num) == num && |num| == Max(Length(b, value), Min(MinDigits(c), 63))
    ensures !c.flags.group ==> COMMA !in num
    ensures c.flags.group ==>
              |num| >= GroupedLength(b, value) && CommasFromRight(num, b.group, GroupedLength(b, value))
  {
    SixtyFourBits();
    var digits := Digits(value, b, c);
    var buf := FillPrecision(digits, MinDigits(c), b, value);
    if c.flags.pound && b.base == 8 && (buf == [] || buf[|buf| - 1] != ZERO) {
      ZeroInFront(b, buf, value);
      buf := buf + [ZERO];
    }
    num := Reverse(buf);
    if c.flags.group { ReverseCommas(digits, buf, b.group); } else { ReverseNoComma(digits, buf); }
    if !c.flags.group && !c.flags.pound { NoCommasThere(num); }
    out := Arrange(buf, SignText(c, isSigned, negative), PrefixText(b, c, value), c);
  }

  // Outputs padding, sign, prefix and digits.
  method Arrange(buf: Text, sign: Text, x: Text, c: Conversion) returns (out: Text)
    requires !(c.flags.minus && c.flags.zero)
    ensures out == Layout(c, sign, x, Reverse(buf))
  {
    var padCnt := PadCount(c, |buf| + |x| + |sign|);
    out := [];
    if !c.flags.minus && !c.flags.zero { out := OutputDup(out, SPACE, padCnt); }
    out := out + sign;
    out := out + x;
    if c.flags.zero { out := OutputDup(out, ZERO, padCnt); }
    out := OutputBuffer(out, buf);
    if c.flags.minus { out := OutputDup(out, SPACE, padCnt); }
  }

  // ---------- Zero-padded octal ----------

  /** %0Wo for a number that fits: exactly W characters, which are a numeral. */
  method FormatOctal(value: nat, width: nat) returns (out: Text)
    requires value < 0x1_0000_0000 && value < Power(8, width) && 0 < width < 63
    ensures |out| == width && Renders(BASE_O, out, value)
  {
    out := FormatZeroPadded(value, BASE_O, width);
    LengthFits(value, width);
  }

  // Unsigned, with leading zeros up to the width.
  method FormatZeroPadded(value: nat, b: IntBase, width: nat) returns (out: Text)
    requires GoodBase(b) && value < 0x1_0000_0000 && width < 63
    ensures |out| == Max(width, Max(Length(b, value), 1)) && Renders(b, out, value)
  {
    var c := Conversion(Flags(false, false, false, false, true, false), width, -1);
    ghost var num;
    out, num := FormatInteger(value, false, false, b, c);
    ghost var pad := PadCount(c, |num|);
    LeadingZeros(b, num, value, pad);
    assert out == Fill(ZERO, pad) + num;
  }

  // ---------- Output into a buffer ----------

  /** Stores formatted text in the `size` bytes of a buffer from `at` on: as much
      as fits, and a null; the rest of the buffer stays.  The length returned is
      that of the whole text. */
  method Snprintf(buffer: array<byte>, at: nat, size: nat, text: Text) returns (length: nat)
    requires at + size <= buffer.Length
    modifies buffer
    ensures length == |text|
    ensures size > 0 ==> buffer[..] == Overwrite(old(buffer[..]), at, text[..Min(|text|, size - 1)] + [0])
    ensures size == 0 ==> buffer[..] == old(buffer[..])
  {
    var p, maxLength := at, if size > 0 then size - 1 else 0;
    length := 0;
    while length < |text|
      invariant 0 <= length <= |text| && p == at + Min(length, maxLength)
      invariant forall i | 0 <= i < buffer.Length ::
                  buffer[i] == if at <= i < p then text[i - at] else old(buffer[i])
    {
      if length < maxLength {
        buffer[p] := text[length];
        p := p + 1;
      }
      length := length + 1;
    }
    if size > 0 { buffer[p] := 0; }
  }
}
