/**
 ustar archive headers (lib/ustar.c): a 512-byte block of text fields, numbers in
 octal, with a checksum over the block.
 */
module Ustar {
  import opened Options
  import opened InodeIo
  import opened DirEntries
  import opened Stdio

  const HEADER_SIZE: int := 512
  const CHKSUM: int := 148
  const CHKSUM_END: int := 156
  const ULONG_MAX: int := 0xffff_ffff
  const INT_MAX: int := 0x7fff_ffff
  const REGULAR: byte := 48
  const DIRECTORY: byte := 53

  const SLASH: byte := 47
  const DOT: byte := 46

  // ---------- Names ----------

  /** The name starts with "/", "./" or "../". */
  predicate Dangerous(s: Name)
    ensures Dangerous(s) ==> SLASH in s
  {
    || (|s| >= 1 && s[0] == SLASH)
    || (|s| >= 2 && s[0] == DOT && s[1] == SLASH)
    || (|s| >= 3 && s[0] == DOT && s[1] == DOT && s[2] == SLASH)
  }

  /** The name after its first slash. */
  function AfterSlash(s: Name): (r: Name)
    requires SLASH in s
    ensures |r| < |s| && r == s[|s| - |r|..]
  {
    if s[0] == SLASH then s[1..] else AfterSlash(s[1..])
  }

  function Stripped(s: Name): Name
    decreases |s|
  {
    if Dangerous(s) then Stripped(AfterSlash(s))
    else if s == [] || s == [DOT, DOT] then [DOT] else s
  }

  method StripAntisocialPrefixes(fileName: Name) returns (r: Name)
    ensures r == Stripped(fileName)
  {
    r := fileName;
    while Dangerous(r)
      invariant Stripped(r) == Stripped(fileName)
      decreases |r|
    {
      r := AfterSlash(r);
    }
    if r == [] || r == [DOT, DOT] { r := [DOT]; }
  }

  /** A stripped name is a suffix of the name or ".", it is not empty, cannot
      climb out of the directory at its start, and stripping it again changes
      nothing. */
  lemma {:induction false} StrippedIsSafe(s: Name)
    ensures !Dangerous(Stripped(s)) && Stripped(s) != [] && Stripped(s) != [DOT, DOT]
    ensures Stripped(Stripped(s)) == Stripped(s)
    ensures Stripped(s) == [DOT] || (|Stripped(s)| <= |s| && Stripped(s) == s[|s| - |Stripped(s)|..])
    decreases |s|
  {
    if Dangerous(s) {
      StrippedIsSafe(AfterSlash(s));
    }
  }

  lemma StrippedNoNull(s: Name)
    requires 0 !in s
    ensures 0 !in Stripped(s)
  {
    StrippedIsSafe(s);
  }

  // ---------- Checksum ----------

  /** The sum of the first n bytes, the checksum field read as spaces. */
  ghost function Sum(h: seq<byte>, n: nat): (r: nat)
    requires n <= |h|
    ensures r <= 255 * n
  {
    if n == 0 then 0
    else Sum(h, n - 1) + if CHKSUM <= n - 1 < CHKSUM_END then SPACE else h[n - 1]
  }

  method CalculateChksum(h: seq<byte>) returns (chksum: nat)
    requires |h| == HEADER_SIZE
    ensures chksum == Sum(h, HEADER_SIZE)
  {
    chksum := 0;
    for i := 0 to HEADER_SIZE
      invariant chksum == Sum(h, i)
    {
      var inChksumField := i >= CHKSUM && i < CHKSUM_END;
      chksum := chksum + if inChksumField then SPACE else h[i];
    }
  }

  /** The checksum does not depend on its own field. */
  lemma {:induction false} SumIgnoresField(h: seq<byte>, g: seq<byte>, n: nat)
    requires n <= |h| && n <= |g| && forall i | 0 <= i < n && !(CHKSUM <= i < CHKSUM_END) :: h[i] == g[i]
    ensures Sum(h, n) == Sum(g, n)
  {
    if n > 0 { SumIgnoresField(h, g, n - 1); }
  }

  /** One changed byte outside the field changes the checksum by the difference. */
  lemma {:induction false} SumShift(h: seq<byte>, i: nat, v: byte, n: nat)
    requires i < |h| && n <= |h| && !(CHKSUM <= i < CHKSUM_END)
    ensures Sum(h[i := v], n) == Sum(h, n) + if i < n then v - h[i] else 0
  {
    if n > 0 { SumShift(h, i, v, n - 1); }
  }

  // ---------- Octal fields ----------

  function ParseFrom(s: seq<byte>, value: nat, ofs: nat): Option<nat>
    requires ofs <= |s|
    decreases |s| - ofs
  {
    if ofs == |s| then None
    else if 48 <= s[ofs] <= 55 then
      if value > ULONG_MAX / 8 then None else ParseFrom(s, s[ofs] - 48 + value * 8, ofs + 1)
    else if (s[ofs] == SPACE || s[ofs] == 0) && ofs > 0 then Some(value) else None
  }

  method ParseOctalField(s: seq<byte>) returns (r: Option<nat>)
    ensures r == ParseFrom(s, 0, 0)
  {
    var value, ofs := 0, 0;
    while ofs < |s|
      invariant 0 <= ofs <= |s| && 0 <= value && ParseFrom(s, value, ofs) == ParseFrom(s, 0, 0)
    {
      var c := s[ofs];
      if c >= 48 && c <= 55 {
        if value > ULONG_MAX / 8 { return None; }
        value := c - 48 + value * 8;
      } else if c == SPACE || c == 0 {
        return if ofs > 0 then Some(value) else None;
      } else {
        return None;
      }
      ofs := ofs + 1;
    }
    return None;
  }

  /** s starts with a numeral for v of k digits, ended by a space or null. */
  ghost predicate FieldAt(s: seq<byte>, k: int, v: int) {
    0 < k < |s| && (s[k] == SPACE || s[k] == 0) && Renders(BASE_O, s[..k], v)
  }

  // The numeral goes on by one digit.
  lemma OneMoreDigit(s: seq<byte>, ofs: nat, value: nat)
    requires ofs < |s| && 48 <= s[ofs] <= 55 && Renders(BASE_O, s[..ofs], value)
    ensures Renders(BASE_O, s[..ofs + 1], s[ofs] - 48 + value * 8)
  {
    var v := s[ofs] - 48 + value * 8;
    assert v / 8 == value && v % 8 == s[ofs] - 48;
    assert s[..ofs + 1][..ofs] == s[..ofs];
  }

  /** What is parsed is the value of a well-formed field. */
  lemma {:induction false} ParseSound(s: seq<byte>, value: nat, ofs: nat)
    requires ofs <= |s| && Renders(BASE_O, s[..ofs], value) && value <= ULONG_MAX && ParseFrom(s, value, ofs).Some?
    ensures ParseFrom(s, value, ofs).value <= ULONG_MAX
    ensures exists k :: FieldAt(s, k, ParseFrom(s, value, ofs).value)
    decreases |s| - ofs
  {
    if 48 <= s[ofs] <= 55 {
      OneMoreDigit(s, ofs, value);
      ParseSound(s, s[ofs] - 48 + value * 8, ofs + 1);
    } else {
      assert FieldAt(s, ofs, value);
    }
  }

  // The value of a shorter prefix of a numeral.
  lemma {:induction false} PrefixValue(s: seq<byte>, k: nat, v: nat, ofs: nat) returns (w: nat)
    requires ofs <= k <= |s| && Renders(BASE_O, s[..k], v)
    ensures w <= v && Renders(BASE_O, s[..ofs], w) && (ofs < k ==> 48 <= s[ofs] <= 55 && w <= v / 8)
    decreases k
  {
    if ofs == k { return v; }
    assert s[..k][..k - 1] == s[..k - 1];
    w := PrefixValue(s, k - 1, v / 8, ofs);
  }

  // Within a numeral that fits there is no overflow.
  lemma NoOverflow(s: seq<byte>, k: nat, v: nat, value: nat, ofs: nat)
    requires ofs < k <= |s| && Renders(BASE_O, s[..k], v) && Renders(BASE_O, s[..ofs], value)
    ensures 48 <= s[ofs] <= 55 && value <= v / 8
  {
    var w := PrefixValue(s, k, v, ofs);
    RendersOnce(BASE_O, s[..ofs], value, w);
  }

  /** Every well-formed field whose value fits is parsed. */
  lemma {:induction false} ParseComplete(s: seq<byte>, k: nat, v: nat, value: nat, ofs: nat)
    requires FieldAt(s, k, v) && v <= ULONG_MAX && ofs <= k && Renders(BASE_O, s[..ofs], value)
    ensures ParseFrom(s, value, ofs) == Some(v)
    decreases k - ofs
  {
    if ofs < k {
      NoOverflow(s, k, v, value, ofs);
      OneMoreDigit(s, ofs, value);
      var next := s[ofs] - 48 + value * 8;
      ParseComplete(s, k, v, next, ofs + 1);
      ParseDigit(s, value, ofs, next);
    } else {
      RendersOnce(BASE_O, s[..ofs], value, v);
    }
  }

  lemma ParseDigit(s: seq<byte>, value: nat, ofs: nat, next: nat)
    requires ofs < |s| && 48 <= s[ofs] <= 55 && value <= ULONG_MAX / 8 && next == s[ofs] - 48 + value * 8
    ensures ParseFrom(s, value, ofs) == ParseFrom(s, next, ofs + 1)
  {
  }

  /** The parser inverts the formatter. */
  lemma ParseFormatted(d: seq<byte>, v: nat)
    requires |d| > 0 && Renders(BASE_O, d, v) && v <= ULONG_MAX
    ensures ParseFrom(d + [0], 0, 0) == Some(v)
  {
    var s := d + [0];
    assert s[..|d|] == d && s[..0] == [];
    assert FieldAt(s, |d|, v);
    ParseComplete(s, |d|, v, 0, 0);
  }

  // ---------- The fields of a header ----------

  /** name, mode, uid, gid, size, mtime, chksum, typeflag, linkname, magic,
      version, uname, gname, devmajor, devminor, prefix, padding */
  const SIZES: seq<int> := [100, 8, 8, 8, 12, 12, 8, 1, 100, 6, 2, 32, 32, 8, 8, 155, 12]

  type Fields = seq<Text>

  ghost predicate Shaped(f: Fields) {
    |f| == 17 && forall k | 0 <= k < 17 :: |f[k]| == SIZES[k]
  }

  /** Fields i up to n as bytes. */
  ghost function Part(f: Fields, i: nat, n: nat): Text
    requires i <= n <= |f|
  {
    if i == n then [] else Part(f, i, n - 1) + f[n - 1]
  }

  ghost function Flatten(f: Fields): Text {
    Part(f, 0, |f|)
  }

  lemma {:induction false} PartSplit(f: Fields, i: nat, j: nat, n: nat)
    requires i <= j <= n <= |f|
    ensures Part(f, i, n) == Part(f, i, j) + Part(f, j, n)
  {
    if j < n { PartSplit(f, i, j, n - 1); }
  }

  lemma {:induction false} PartSame(f: Fields, g: Fields, i: nat, n: nat)
    requires i <= n <= |f| == |g| && forall k | i <= k < n :: f[k] == g[k]
    ensures Part(f, i, n) == Part(g, i, n)
  {
    if i < n { PartSame(f, g, i, n - 1); }
  }

  // What comes before and after field k.
  lemma AroundField(f: Fields, k: nat)
    requires k < |f|
    ensures Flatten(f) == Part(f, 0, k) + f[k] + Part(f, k + 1, |f|)
  {
    PartSplit(f, 0, k, |f|);
    PartSplit(f, k, k + 1, |f|);
    assert Part(f, k, k + 1) == f[k];
  }

  function Start(k: nat): int
    requires k <= 17
  {
    if k == 0 then 0 else Start(k - 1) + SIZES[k - 1]
  }

  lemma Starts()
    ensures Start(1) == 100 && Start(2) == 108 && Start(3) == 116 && Start(4) == 124 && Start(5) == 136
    ensures Start(6) == 148 && Start(7) == 156 && Start(8) == 157 && Start(9) == 257 && Start(10) == 263
    ensures Start(11) == 265 && Start(12) == 297 && Start(15) == 345 && Start(17) == 512
  {
    assert Start(2) == 108;
    assert Start(4) == 124;
    assert Start(6) == 148;
    assert Start(8) == 157;
    assert Start(10) == 263;
    assert Start(12) == 297;
    assert Start(14) == 337;
    assert Start(16) == 500;
  }

  lemma {:induction false} StartIs(f: Fields, k: nat)
    requires Shaped(f) && k <= 17
    ensures |Part(f, 0, k)| == Start(k)
  {
    if k > 0 { StartIs(f, k - 1); }
  }

  /** Each field is found at its place. */
  lemma FieldOf(f: Fields, k: nat)
    requires Shaped(f) && k < 17
    ensures |Flatten(f)| == HEADER_SIZE && 0 <= Start(k) && Start(k) + |f[k]| <= HEADER_SIZE
    ensures Flatten(f)[Start(k)..Start(k) + |f[k]|] == f[k]
  {
    Starts();
    StartIs(f, k);
    StartIs(f, 17);
    AroundField(f, k);
  }

  function Updated(f: Fields, k: nat, data: Text): (g: Fields)
    requires k < |f| && |data| <= |f[k]|
    ensures |g| == |f| && |g[k]| == |f[k]| && forall i | 0 <= i < |f| && i != k :: g[i] == f[i]
  {
    f[k := data + f[k][|data|..]]
  }

  /** Writing into one field changes only that field. */
  lemma FieldWrite(f: Fields, k: nat, data: Text)
    requires Shaped(f) && k < 17 && |data| <= |f[k]|
    ensures |Flatten(f)| == HEADER_SIZE && 0 <= Start(k) && Start(k) + |data| <= HEADER_SIZE
    ensures Overwrite(Flatten(f), Start(k), data) == Flatten(Updated(f, k, data))
  {
    FieldOf(f, k);
    StartIs(f, k);
    var g := Updated(f, k, data);
    AroundField(f, k);
    AroundField(g, k);
    PartSame(f, g, 0, k);
    PartSame(f, g, k + 1, 17);
    Patch(Part(f, 0, k), f[k], Part(f, k + 1, 17), data);
  }

  lemma Patch(a: Text, b: Text, c: Text, data: Text)
    requires |data| <= |b|
    ensures Overwrite(a + b + c, |a|, data) == a + (data + b[|data|..]) + c
  {
  }

  /** A number in octal, filling its field, with a null at the end. */
  ghost predicate OctalIn(t: Text, v: int) {
    |t| > 1 && t[|t| - 1] == 0 && Renders(BASE_O, t[..|t| - 1], v)
  }

  const MAGIC: Text := [117, 115, 116, 97, 114, 0]
  const ROOT: Text := [114, 111, 111, 116]

  function ModeOf(kind: byte): nat {
    if kind == REGULAR then 420 else 493
  }

  /** The header of a file, complete but for the checksum. */
  ghost predicate FieldsFor(f: Fields, name: Name, kind: byte, size: int)
    requires |name| <= 99
  {
    && Shaped(f) && f[0] == name + Fill(0, 100 - |name|) && OctalIn(f[1], ModeOf(kind))
    && f[2] == f[3] == Fill(ZERO, 7) + [0] && OctalIn(f[4], size) && OctalIn(f[5], 1136102400)
    && f[7] == [kind] && f[8] == Fill(0, 100) && f[9] == MAGIC && f[10] == Fill(ZERO, 2)
    && f[11] == f[12] == ROOT + Fill(0, 28)
    && f[13] == f[14] == Fill(0, 8) && f[15] == Fill(0, 155) && f[16] == Fill(0, 12)
  }

  /** h is the header for this file. */
  ghost predicate HeaderFor(h: seq<byte>, name: Name, kind: byte, size: int)
    requires |name| <= 99
  {
    && |h| == HEADER_SIZE
    && exists f :: FieldsFor(f, name, kind, size) && h == Flatten(f) && OctalIn(f[6], Sum(h, HEADER_SIZE))
  }
}
