/**
 Making and parsing ustar headers (lib/ustar.c), and that the two undo each other.
 */
module UstarHeader {
  import opened Options
  import opened InodeIo
  import opened DirEntries
  import opened Stdio
  import opened Ustar

  // ---------- Making ----------

  ghost predicate ZeroText(t: Text) {
    forall i | 0 <= i < |t| :: t[i] == 0
  }

  ghost function Blank(): (f: Fields)
    ensures Shaped(f) && forall k | 0 <= k < 17 :: ZeroText(f[k])
  {
    seq(17, k requires 0 <= k < 17 => Fill(0, SIZES[k]))
  }

  lemma {:induction false} PartZeros(f: Fields, i: nat, n: nat)
    requires i <= n <= |f| && forall k | i <= k < n :: ZeroText(f[k])
    ensures ZeroText(Part(f, i, n))
  {
    if i < n { PartZeros(f, i, n - 1); }
  }

  // memset of the whole header.
  method Clear(header: array<byte>)
    requires header.Length == HEADER_SIZE
    modifies header
    ensures header[..] == Flatten(Blank())
  {
    for i := 0 to HEADER_SIZE
      invariant forall j | 0 <= j < i :: header[j] == 0
    {
      header[i] := 0;
    }
    PartZeros(Blank(), 0, 17);
    FieldOf(Blank(), 0);
  }

  /** The header holds these fields. */
  ghost predicate Holding(header: array<byte>, f: Fields)
    reads header
  {
    header.Length == HEADER_SIZE && Shaped(f) && header[..] == Flatten(f)
  }

  // Stores bytes at the start of field k.
  method PutBytes(header: array<byte>, at: nat, data: Text, ghost k: nat, ghost f: Fields) returns (ghost g: Fields)
    requires Holding(header, f) && k < 17 && at == Start(k) && |data| <= SIZES[k]
    modifies header
    ensures g == Updated(f, k, data) && Holding(header, g)
  {
    FieldWrite(f, k, data);
    g := Updated(f, k, data);
    CopyIn(header, at, data);
    assert header[..] == Overwrite(Flatten(f), at, data);
  }

  // Stores a number in octal in field k.
  method PutOctal(header: array<byte>, at: nat, size: nat, value: nat, ghost k: nat, ghost f: Fields)
    returns (ghost g: Fields)
    requires Holding(header, f) && k < 17 && at == Start(k) && size == SIZES[k] && 1 < size < 64
    requires value < 0x1_0000_0000 && value < Power(8, size - 1)
    modifies header
    ensures Holding(header, g) && OctalIn(g[k], value) && forall i | 0 <= i < 17 && i != k :: g[i] == f[i]
  {
    var text := FormatOctal(value, size - 1);
    FieldWrite(f, k, text + [0]);
    g := Updated(f, k, text + [0]);
    assert text[..size - 1] == text && g[k] == text + [0];
    var _ := Snprintf(header, at, size, text);
  }

  lemma Widths()
    ensures Power(8, 7) == 2097152 && Power(8, 11) == 8589934592
  {
    assert Power(8, 3) == 512;
    assert Power(8, 5) == 32768;
    assert Power(8, 9) == 64 * Power(8, 7);
  }

  // The fields up to the modification time.
  ghost predicate FrontFor(f: Fields, name: Name, kind: byte, size: int)
    requires |name| <= 99
  {
    && Shaped(f) && f[0] == name + Fill(0, 100 - |name|) && OctalIn(f[1], ModeOf(kind))
    && f[2] == f[3] == Fill(ZERO, 7) + [0] && OctalIn(f[4], size) && OctalIn(f[5], 1136102400)
    && forall k | 6 <= k < 17 :: ZeroText(f[k])
  }

  method FillFront(header: array<byte>, name: Name, kind: byte, size: nat) returns (ghost f: Fields)
    requires header.Length == HEADER_SIZE && |name| <= 99 && size < 0x1_0000_0000
    modifies header
    ensures Holding(header, f) && FrontFor(f, name, kind, size)
  {
    Starts();
    Widths();
    Clear(header);
    FieldOf(Blank(), 0);
    f := PutBytes(header, 0, name + [0], 0, Blank());
    assert f[0] == name + Fill(0, 100 - |name|);
    f := PutOctal(header, 100, 8, ModeOf(kind), 1, f);
    f := PutBytes(header, 108, Fill(ZERO, 7) + [0], 2, f);
    f := PutBytes(header, 116, Fill(ZERO, 7) + [0], 3, f);
    f := PutOctal(header, 124, 12, size, 4, f);
    f := PutOctal(header, 136, 12, 1136102400, 5, f);
  }

  // The fields after the checksum.
  method FillBack(header: array<byte>, kind: byte, ghost f0: Fields) returns (ghost f: Fields)
    requires Holding(header, f0) && forall k | 6 <= k < 17 :: ZeroText(f0[k])
    modifies header
    ensures Holding(header, f) && forall k | 0 <= k < 7 :: f[k] == f0[k]
    ensures f[7] == [kind] && f[8] == Fill(0, 100) && f[9] == MAGIC && f[10] == Fill(ZERO, 2)
    ensures f[11] == f[12] == ROOT + Fill(0, 28)
    ensures f[13] == f[14] == Fill(0, 8) && f[15] == Fill(0, 155) && f[16] == Fill(0, 12)
  {
    Starts();
    f := PutBytes(header, 156, [kind], 7, f0);
    f := PutBytes(header, 257, MAGIC, 9, f);
    f := PutBytes(header, 263, Fill(ZERO, 2), 10, f);
    f := PutBytes(header, 297, ROOT + [0], 12, f);
    f := PutBytes(header, 265, ROOT + [0], 11, f);
    assert f[8] == Fill(0, 100) && f[13] == Fill(0, 8) && f[14] == Fill(0, 8);
    assert f[15] == Fill(0, 155) && f[16] == Fill(0, 12);
    assert f[11] == ROOT + Fill(0, 28) && f[12] == ROOT + Fill(0, 28);
  }

  // Filling in the checksum does not change it.
  lemma OnlyChksum(f: Fields, g: Fields)
    requires Shaped(f) && Shaped(g) && forall k | 0 <= k < 17 && k != 6 :: f[k] == g[k]
    ensures |Flatten(f)| == |Flatten(g)| == HEADER_SIZE && Sum(Flatten(f), HEADER_SIZE) == Sum(Flatten(g), HEADER_SIZE)
  {
    Starts();
    StartIs(f, 6);
    FieldOf(f, 6);
    FieldOf(g, 6);
    AroundField(f, 6);
    AroundField(g, 6);
    PartSame(f, g, 0, 6);
    PartSame(f, g, 7, 17);
    SumIgnoresField(Flatten(f), Flatten(g), HEADER_SIZE);
  }

  /** How %o prints an int: as the unsigned number with the same 32 bits. */
  function Unsigned(size: int): nat
    requires -0x8000_0000 <= size <= INT_MAX
  {
    if size < 0 then size + 0x1_0000_0000 else size
  }

  /** Composes the header of a file; fails, and writes nothing, exactly if the
      name is too long. */
  method MakeHeader(fileName: Name, kind: byte, size: int, header: array<byte>) returns (ok: bool)
    requires header.Length == HEADER_SIZE && 0 !in fileName && (kind == REGULAR || kind == DIRECTORY)
    requires -0x8000_0000 <= size <= INT_MAX
    modifies header
    ensures ok <==> |Stripped(fileName)| <= 99
    ensures ok ==> HeaderFor(header[..], Stripped(fileName), kind, Unsigned(size))
    ensures !ok ==> header[..] == old(header[..])
  {
    var name := StripAntisocialPrefixes(fileName);
    if |name| > 99 { return false; }
    ghost var f := FillFront(header, name, kind, Unsigned(size));
    f := FillBack(header, kind, f);
    Starts();
    Widths();
    ghost var f0 := f;
    var chksum := CalculateChksum(header[..]);
    f := PutOctal(header, 148, 8, chksum, 6, f);
    OnlyChksum(f0, f);
    assert FieldsFor(f, name, kind, Unsigned(size));
    return true;
  }

  // ---------- Parsing ----------

  datatype Fault =
    NotUstar | BadVersion | CorruptChksum | ChksumMismatch | NameTooLong | BadType | CorruptSize | TooLarge

  datatype Parsed = EndOfArchive | Bad(fault: Fault) | Entry(name: Name, kind: byte, size: nat)

  /** What a header means. */
  ghost function Parse(h: seq<byte>): Parsed
    requires |h| == HEADER_SIZE
  {
    var chksum := ParseFrom(h[148..156], 0, 0);
    if ZeroText(h) then EndOfArchive
    else if h[257..263] != MAGIC then Bad(NotUstar)
    else if h[263] != ZERO || h[264] != ZERO then Bad(BadVersion)
    else if chksum.None? then Bad(CorruptChksum)
    else if chksum.value != Sum(h, HEADER_SIZE) then Bad(ChksumMismatch)
    else if h[99] != 0 || h[345] != 0 then Bad(NameTooLong)
    else if h[156] != REGULAR && h[156] != DIRECTORY then Bad(BadType)
    else
      var size := ParseFrom(h[124..136], 0, 0);
      if h[156] == REGULAR && size.None? then Bad(CorruptSize)
      else if h[156] == REGULAR && size.value > INT_MAX then Bad(TooLarge)
      else Entry(Stripped(CString(h[..100])), h[156], if h[156] == REGULAR then size.value else 0)
  }

  method IsAllZeros(block: seq<byte>) returns (r: bool)
    ensures r <==> ZeroText(block)
  {
    for i := 0 to |block|
      invariant forall j | 0 <= j < i :: block[j] == 0
    {
      if block[i] != 0 { return false; }
    }
    return true;
  }

  method ParseHeader(h: seq<byte>) returns (r: Parsed)
    requires |h| == HEADER_SIZE
    ensures r == Parse(h)
  {
    var eof := IsAllZeros(h);
    if eof { return EndOfArchive; }
    if h[257..263] != MAGIC { return Bad(NotUstar); }
    if h[263] != ZERO || h[264] != ZERO { return Bad(BadVersion); }
    var chksum := ParseOctalField(h[148..156]);
    if chksum.None? { return Bad(CorruptChksum); }
    var sum := CalculateChksum(h);
    if chksum.value != sum { return Bad(ChksumMismatch); }
    if h[99] != 0 || h[345] != 0 { return Bad(NameTooLong); }
    if h[156] != REGULAR && h[156] != DIRECTORY { return Bad(BadType); }
    var size := 0;
    if h[156] == REGULAR {
      var s := ParseOctalField(h[124..136]);
      if s.None? { return Bad(CorruptSize); }
      if s.value > INT_MAX { return Bad(TooLarge); }
      size := s.value;
    }
    var name := StripAntisocialPrefixes(CString(h[..100]));
    return Entry(name, h[156], size);
  }

  // ---------- The two together ----------

  lemma OctalParses(t: Text, v: nat)
    requires OctalIn(t, v) && v <= ULONG_MAX
    ensures ParseFrom(t, 0, 0) == Some(v)
  {
    ParseFormatted(t[..|t| - 1], v);
    assert t == t[..|t| - 1] + [0];
  }

  // Where the fields that the parser looks at are.
  lemma FieldsAt(f: Fields)
    requires Shaped(f)
    ensures var h := Flatten(f);
      && |h| == HEADER_SIZE && h[..100] == f[0] && h[124..136] == f[4] && h[148..156] == f[6] && h[156..157] == f[7]
      && h[257..263] == f[9] && h[263..265] == f[10] && h[345..500] == f[15]
  {
    Starts();
    FieldOf(f, 0);
    FieldOf(f, 4);
    FieldOf(f, 6);
    FieldOf(f, 7);
    FieldOf(f, 9);
    FieldOf(f, 10);
    FieldOf(f, 15);
  }

  /** Parsing a header that was made gives back name, type and size, unless a regular
      file was given a negative size: that header is rejected. */
  lemma RoundTrip(h: seq<byte>, fileName: Name, kind: byte, size: int)
    requires 0 !in fileName && |Stripped(fileName)| <= 99 && (kind == REGULAR || kind == DIRECTORY)
    requires -0x8000_0000 <= size <= INT_MAX && HeaderFor(h, Stripped(fileName), kind, Unsigned(size))
    ensures Parse(h) == if kind == DIRECTORY then Entry(Stripped(fileName), kind, 0)
                        else if size < 0 then Bad(TooLarge)
                        else Entry(Stripped(fileName), kind, size)
  {
    var name := Stripped(fileName);
    var f :| FieldsFor(f, name, kind, Unsigned(size)) && h == Flatten(f) && OctalIn(f[6], Sum(h, HEADER_SIZE));
    FieldsAt(f);
    OctalParses(f[6], Sum(h, HEADER_SIZE));
    OctalParses(f[4], Unsigned(size));
    StrippedNoNull(fileName);
    StrippedIsSafe(fileName);
    assert f[0][..|name|] == name && f[0][|name|] == 0;
    CStringIs(f[0], name);
    HeaderBytes(h, f, kind);
  }

  // Single bytes of the header.
  lemma HeaderBytes(h: seq<byte>, f: Fields, kind: byte)
    requires Shaped(f) && |h| == HEADER_SIZE && h[..100] == f[0] && h[156..157] == f[7] && h[257..263] == f[9]
    requires h[263..265] == f[10] && h[345..500] == f[15]
    requires f[0][99] == 0 && f[7] == [kind] && f[9] == MAGIC && f[10] == Fill(ZERO, 2) && f[15] == Fill(0, 155)
    ensures h[99] == 0 && h[345] == 0 && h[156] == kind && h[263] == ZERO == h[264] && !ZeroText(h)
  {
    assert h[99] == h[..100][99] && h[345] == h[345..500][0] && h[156] == h[156..157][0];
    assert h[263] == h[263..265][0] && h[264] == h[263..265][1];
    assert h[257] == h[257..263][0] == 117;
  }

  /** Changing any one byte outside the checksum field of an accepted header makes
      it rejected. */
  lemma OneByteChanged(h: seq<byte>, i: nat, v: byte)
    requires |h| == HEADER_SIZE && i < HEADER_SIZE && !(CHKSUM <= i < CHKSUM_END) && v != h[i] && !Parse(h).Bad?
    ensures Parse(h[i := v]).Bad?
  {
    var g := h[i := v];
    SumShift(h, i, v, HEADER_SIZE);
    assert g[148..156] == h[148..156];
    assert g[i] == v;
    if Parse(h).EndOfArchive? {
      assert h[257] == 0 && h[258] == 0;
      assert g[257..263][0] == g[257] && g[257..263][1] == g[258];
      assert !ZeroText(g);
    } else {
      assert h[257] == h[257..263][0] == 117 && h[258] == h[257..263][1] == 115;
      assert g[257] != 0 || g[258] != 0;
    }
  }
}
