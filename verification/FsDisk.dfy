/**
 The file system on its device: headers are sectors that inode_create writes and
 inode_open reads back, the root directory is the table of slots in inode 1, the
 free map is saved in inode 0, and data is written through one inode at a time
 (filesys/inode.c, filesys/directory.c, filesys/free-map.c).  Because live inodes
 share no sector, no write disturbs another inode's header or bytes.
 */
module FsDisk {
  import opened Bitmap
  import opened BitmapFile
  import opened InodeIo
  import opened DirEntries
  import opened Directory
  import opened FsState
  import opened FsSteps
  import opened FsCalls

  const INODE_MAGIC: int := 0x494e4f44

  /** A header that fits the fields of the disk structure. */
  predicate Storable(h: Header) {
    0 <= h.start < 0x1_0000_0000 && 0 <= h.length < 0x8000_0000
  }

  function HeaderSector(h: Header): Sector
    requires Storable(h)
  {
    Encode32(h.start) + Encode32(h.length) + Encode32(INODE_MAGIC) + seq(500, _ => 0)
  }

  function ReadHeader(s: Sector): Header {
    Header(Decode32(s[..4]), Decode32(s[4..8]))
  }

  lemma HeaderRoundTrip(h: Header)
    requires Storable(h)
    ensures ReadHeader(HeaderSector(h)) == h
  {
    var s := HeaderSector(h);
    assert s[..4] == Encode32(h.start) && s[4..8] == Encode32(h.length);
    DecodeEncode(h.start);
    DecodeEncode(h.length);
  }

  /** The headers of the live inodes are on the device. */
  ghost predicate OnDisk(d: seq<Sector>, hs: Headers, live: set<int>) {
    forall s | s in live :: s in hs && 0 <= s < |d| && ReadHeader(d[s]) == hs[s]
  }

  ghost predicate InData(h: Header, x: int) {
    h.start <= x < h.start + DataSectors(h)
  }

  /** inode_create: the header, then zeroed data; nothing else is written. */
  method WriteInode(dev: Device, sector: nat, h: Header)
    requires sector < |dev.sectors| && Storable(h) && Fits(dev.sectors, h.start, h.length) && !InData(h, sector)
    modifies dev
    ensures |dev.sectors| == |old(dev.sectors)| && ReadHeader(dev.sectors[sector]) == h
    ensures Contents(dev.sectors, h.start, h.length) == seq(h.length, _ => 0)
    ensures forall x | 0 <= x < |dev.sectors| && x != sector && !InData(h, x) :: dev.sectors[x] == old(dev.sectors[x])
  {
    HeaderRoundTrip(h);
    dev.sectors := dev.sectors[sector := HeaderSector(h)];
    ghost var d := dev.sectors;
    for i := 0 to BytesToSectors(h.length)
      invariant |dev.sectors| == |d|
      invariant forall x | 0 <= x < |d| :: dev.sectors[x] == if h.start <= x < h.start + i then ZEROS else d[x]
    {
      dev.sectors := dev.sectors[h.start + i := ZEROS];
    }
    ExtentInside(dev.sectors, h.start, h.length);
    AllZeros(dev.sectors, h.start, h.length);
  }

  lemma AllZeros(d: seq<Sector>, start: int, length: int)
    requires Fits(d, start, length) && forall x | start <= x < start + BytesToSectors(length) :: d[x] == ZEROS
    ensures Contents(d, start, length) == seq(length, _ => 0)
  {
    ExtentInside(d, start, length);
    forall k | 0 <= k < length ensures Contents(d, start, length)[k] == 0 {
      var pos := start * SECTOR + k;
      assert Contents(d, start, length)[k] == ByteAt(d, pos) && pos / SECTOR == start + k / SECTOR;
    }
  }

  /** Extents whose sectors are all unchanged read the same. */
  lemma SameContents(d: seq<Sector>, e: seq<Sector>, start: int, length: int)
    requires Fits(d, start, length) && |e| == |d|
    requires forall x | start <= x < start + BytesToSectors(length) :: e[x] == d[x]
    ensures Contents(e, start, length) == Contents(d, start, length)
  {
    ExtentInside(d, start, length);
    forall k | 0 <= k < length ensures Contents(e, start, length)[k] == Contents(d, start, length)[k] {
      var pos := start * SECTOR + k;
      assert Contents(e, start, length)[k] == ByteAt(e, pos) && pos / SECTOR == start + k / SECTOR;
    }
  }

  // ---------- Reading and writing extents ----------

  lemma SameFlat(d: seq<Sector>, e: seq<Sector>)
    requires |d| == |e| && Flat(d) == Flat(e)
    ensures d == e
  {
    forall x | 0 <= x < |d| ensures d[x] == e[x] {
      forall j | 0 <= j < SECTOR ensures d[x][j] == e[x][j] {
        var pos := x * SECTOR + j;
        assert pos / SECTOR == x && pos % SECTOR == j;
        assert Flat(d)[pos] == d[x][j] && Flat(e)[pos] == e[x][j];
      }
    }
  }

  /** Writing n bytes of the data at the offset changed the device from d to e. */
  ghost predicate ExtentWritten(d: seq<Sector>, e: seq<Sector>, h: Header, offset: int, data: seq<byte>, n: int)
    requires Fits(d, h.start, h.length) && 0 <= offset && 0 <= n <= |data|
  {
    && OnlyExtent(d, e, h.start, h.length) && (n == 0 ==> e == d)
    && (n > 0 ==> offset + n <= h.length && Contents(e, h.start, h.length) ==
                    Overwrite(Contents(d, h.start, h.length), offset, data[..n]))
  }

  lemma WrittenToExtent(d: seq<Sector>, e: seq<Sector>, h: Header, offset: int, data: seq<byte>, n: int)
    requires Fits(d, h.start, h.length) && |e| == |d| && 0 <= offset && 0 <= n <= |data|
    requires n > 0 ==> offset + n <= h.length
    requires Flat(e) == Written(Flat(d), h.start * SECTOR + offset, data[..n])
    ensures ExtentWritten(d, e, h, offset, data, n)
  {
    if n == 0 {
      SameFlat(d, e);
    } else {
      WriteIsOverwrite(d, e, h.start, h.length, offset, data[..n]);
      WriteInExtent(d, e, h.start, h.length, offset, data[..n]);
    }
  }

  // inode_read_at and inode_write_at on an extent.
  method ReadExtent(dev: Device, h: Header, buffer: array<byte>, size: int, offset: nat, memory: bool) returns (n: int)
    requires Fits(dev.sectors, h.start, h.length) && size <= buffer.Length
    modifies buffer
    ensures n == Transferred(h.length, size, offset, memory)
    ensures buffer[..] == Filled(old(buffer[..]), Contents(dev.sectors, h.start, h.length), offset, n)
  {
    var inode := new Inode(h.start, h.length);
    n := inode.ReadAt(dev, buffer, size, offset, memory);
  }

  method WriteExtent(dev: Device, h: Header, denyCnt: int, data: seq<byte>, offset: nat, memory: bool) returns (n: int)
    requires Fits(dev.sectors, h.start, h.length)
    modifies dev
    ensures n == (if denyCnt != 0 then 0 else Transferred(h.length, |data|, offset, memory))
    ensures 0 <= n <= |data| && ExtentWritten(old(dev.sectors), dev.sectors, h, offset, data, n)
  {
    var inode := new Inode(h.start, h.length);
    inode.denyWriteCnt := denyCnt;
    ghost var d := dev.sectors;
    n := inode.WriteAt(dev, data, offset, memory);
    WrittenToExtent(d, dev.sectors, h, offset, data, n);
  }

  /** Whether a bitmap of this many bits can be written to its file. */
  predicate CanSave(bits: nat, memory: bool) {
    memory || ByteCnt(bits) % SECTOR == 0
  }

  /** bitmap_write, to an extent of the right size: if it succeeds the extent holds
      the map. */
  method SaveBits(dev: Device, h: Header, denyCnt: int, b: Bits, memory: bool) returns (ok: bool)
    requires b.Valid() && Fits(dev.sectors, h.start, h.length) && h.length == ByteCnt(b.bitCnt)
    modifies dev
    ensures denyCnt == 0 ==> (ok <==> CanSave(b.bitCnt, memory))
    ensures OnlyExtent(old(dev.sectors), dev.sectors, h.start, h.length)
    ensures ok ==> SavedIn(Contents(dev.sectors, h.start, h.length), b.View())
  {
    var data := ToBytes(b);
    ghost var d := dev.sectors;
    var n := WriteExtent(dev, h, denyCnt, data, 0, memory);
    ok := n == |data|;
    WholeExtent(d, dev.sectors, h, data, n);
    AllMoves(h.length, memory);
  }

  lemma WholeExtent(d: seq<Sector>, e: seq<Sector>, h: Header, data: seq<byte>, n: int)
    requires Fits(d, h.start, h.length) && 0 <= n <= |data| == h.length && ExtentWritten(d, e, h, 0, data, n)
    ensures n == |data| ==> Contents(e, h.start, h.length) == data
  {
    if n == |data| && n > 0 { assert data[..n] == data; }
    if n == |data| == 0 { assert Contents(e, h.start, h.length) == []; }
  }

  // A transfer of a whole extent needs a bounce buffer for a last partial sector.
  lemma AllMoves(length: nat, memory: bool)
    ensures Transferred(length, length, 0, memory) == length <==> memory || length % SECTOR == 0
  {
  }

  /** bitmap_read: the file's bytes go where the words are, as far as they can be
      read. */
  method LoadBits(dev: Device, h: Header, b: Bits, memory: bool) returns (ok: bool)
    requires b.Valid() && Fits(dev.sectors, h.start, h.length) && h.length == ByteCnt(b.bitCnt)
    modifies b.words
    ensures ok <==> CanSave(b.bitCnt, memory)
    ensures ok ==> SavedIn(Contents(dev.sectors, h.start, h.length), b.View())
  {
    var bytes := ToBytes(b);
    var buffer := new byte[|bytes|](i requires 0 <= i < |bytes| => bytes[i]);
    var n := ReadExtent(dev, h, buffer, buffer.Length, 0, memory);
    ok := n == buffer.Length;
    AllMoves(h.length, memory);
    if ok { assert buffer[..] == Contents(dev.sectors, h.start, h.length); }
    FromBytes(b, buffer[..]);
  }

  // ---------- What is on the device ----------

  /** The bytes of the inode in sector x. */
  ghost function FileBytes(d: seq<Sector>, hs: Headers, x: int): seq<byte>
    requires x in hs && Fits(d, hs[x].start, hs[x].length)
  {
    Contents(d, hs[x].start, hs[x].length)
  }

  ghost predicate InodeFits(d: seq<Sector>, hs: Headers, x: int) {
    x in hs && Fits(d, hs[x].start, hs[x].length)
  }

  /** The slots of the root directory. */
  ghost function RootTable(d: seq<Sector>, hs: Headers): seq<Slot>
    requires InodeFits(d, hs, ROOT_DIR_SECTOR)
  {
    Table(FileBytes(d, hs, ROOT_DIR_SECTOR))
  }

  /** The root directory on the device stands for this map. */
  ghost predicate RootOnDisk(d: seq<Sector>, hs: Headers, root: Root) {
    && InodeFits(d, hs, ROOT_DIR_SECTOR) && hs[ROOT_DIR_SECTOR].length == ROOT_SLOTS * ENTRY
    && Good(RootTable(d, hs)) && DirMap(RootTable(d, hs)) == root
  }

  /** The device holds the headers of all live inodes, the root directory, and room
      for the free map. */
  ghost predicate Mounted(d: seq<Sector>, s: Fs) {
    && |d| == |s.bits| < 0x1_0000_0000 && OnDisk(d, s.headers, LiveSet(s.root, s.mem))
    && RootOnDisk(d, s.headers, s.root)
    && FREE_MAP_SECTOR in s.headers && s.headers[FREE_MAP_SECTOR].length == ByteCnt(|s.bits|)
  }

  /** The free map on the device is the one in memory. */
  ghost predicate MapSaved(d: seq<Sector>, s: Fs) {
    InodeFits(d, s.headers, FREE_MAP_SECTOR) && SavedIn(FileBytes(d, s.headers, FREE_MAP_SECTOR), s.bits)
  }

  /** m is the only file that has the free map open. */
  ghost predicate MapHeld(s: Fs, m: int) {
    && m in s.files && !s.files[m].denyWrite && OnlyFile(s.files, m)
    && s.files[m].inode in s.mem && s.mem[s.files[m].inode].sector == FREE_MAP_SECTOR
  }

  /** State and device between any two steps. */
  ghost predicate Sound(d: seq<Sector>, s: Fs, m: int) {
    Ok(s) && Mounted(d, s) && MapHeld(s, m)
  }

  /** The inodes ys have the same headers and bytes on both devices. */
  ghost predicate BytesKept(d: seq<Sector>, e: seq<Sector>, hs: Headers, hs': Headers, ys: set<int>) {
    forall y | y in ys ::
      |e| == |d| && InodeFits(d, hs, y) && y in hs' && hs'[y] == hs[y] && FileBytes(e, hs', y) == FileBytes(d, hs, y)
  }

  lemma KeptTwice(d: seq<Sector>, e: seq<Sector>, f: seq<Sector>, hs: Headers, hs': Headers, hs'': Headers,
                  ys: set<int>)
    requires BytesKept(d, e, hs, hs', ys) && BytesKept(e, f, hs', hs'', ys)
    ensures BytesKept(d, f, hs, hs'', ys)
  {
  }

  lemma KeptFewer(d: seq<Sector>, e: seq<Sector>, hs: Headers, hs': Headers, ys: set<int>, zs: set<int>)
    requires BytesKept(d, e, hs, hs', ys) && zs <= ys
    ensures BytesKept(d, e, hs, hs', zs)
  {
    forall y | y in zs ensures y in ys {}
  }

  lemma LiveFits(d: seq<Sector>, s: Fs, y: int)
    requires Ok(s) && |d| == |s.bits| && y in LiveSet(s.root, s.mem)
    ensures InodeFits(d, s.headers, y)
  {
    assert Placed(s.bits, s.headers, y);
  }

  lemma AllKept(d: seq<Sector>, s: Fs, ys: set<int>)
    requires Ok(s) && |d| == |s.bits| && ys <= LiveSet(s.root, s.mem)
    ensures BytesKept(d, d, s.headers, s.headers, ys)
  {
    forall y | y in ys ensures InodeFits(d, s.headers, y) { LiveFits(d, s, y); }
  }

  // ---------- Writing to one inode ----------

  /** A change within inode t leaves alone every inode it shares no sector with. */
  lemma OthersUntouched(bits: seq<bool>, hs: Headers, d: seq<Sector>, e: seq<Sector>, t: int, s: int)
    requires Placed(bits, hs, s) && NoOverlap(hs, s, t) && |bits| == |d| == |e|
    requires forall x | 0 <= x < |d| && !Owns(hs, t, x) :: e[x] == d[x]
    ensures InodeFits(d, hs, s) && 0 <= s < |d| && e[s] == d[s] && FileBytes(e, hs, s) == FileBytes(d, hs, s)
  {
    assert Owns(hs, s, s);
    forall x | hs[s].start <= x < hs[s].start + DataSectors(hs[s]) ensures e[x] == d[x] {
      assert Owns(hs, s, x);
    }
    SameContents(d, e, hs[s].start, hs[s].length);
  }

  /** Writing data of one live inode changes no header and no byte of any other. */
  lemma DataWritten(d: seq<Sector>, e: seq<Sector>, s: Fs, t: int)
    requires Ok(s) && |d| == |s.bits| && OnDisk(d, s.headers, LiveSet(s.root, s.mem)) && t in LiveSet(s.root, s.mem)
    requires t in s.headers && OnlyExtent(d, e, s.headers[t].start, s.headers[t].length)
    ensures OnDisk(e, s.headers, LiveSet(s.root, s.mem))
    ensures BytesKept(d, e, s.headers, s.headers, LiveSet(s.root, s.mem) - {t})
  {
    assert Placed(s.bits, s.headers, t);
    forall y | y in LiveSet(s.root, s.mem) && y != t
      ensures InodeFits(d, s.headers, y) && 0 <= y < |d| && e[y] == d[y]
      ensures FileBytes(e, s.headers, y) == FileBytes(d, s.headers, y)
    {
      assert Placed(s.bits, s.headers, y) && NoOverlap(s.headers, y, t);
      OthersUntouched(s.bits, s.headers, d, e, t, y);
    }
  }

  /** A state that differs only in the table of open inodes and the free map is on
      the device too. */
  lemma SameDisk(d: seq<Sector>, s: Fs, t: Fs)
    requires Mounted(d, s) && |t.bits| == |s.bits| && t.headers == s.headers && t.root == s.root
    requires LiveSet(t.root, t.mem) <= LiveSet(s.root, s.mem)
    ensures Mounted(d, t)
  {
  }

  /** Saving the free map. */
  lemma MapWritten(d: seq<Sector>, e: seq<Sector>, s: Fs)
    requires Ok(s) && Mounted(d, s)
    requires OnlyExtent(d, e, s.headers[FREE_MAP_SECTOR].start, s.headers[FREE_MAP_SECTOR].length)
    ensures Mounted(e, s) && BytesKept(d, e, s.headers, s.headers, LiveSet(s.root, s.mem) - {FREE_MAP_SECTOR})
  {
    DataWritten(d, e, s, FREE_MAP_SECTOR);
    assert ROOT_DIR_SECTOR in LiveSet(s.root, s.mem) - {FREE_MAP_SECTOR};
  }

  /** Writing a slot of the root directory. */
  lemma RootWritten(d: seq<Sector>, e: seq<Sector>, s: Fs)
    requires Ok(s) && |d| == |s.bits| < 0x1_0000_0000 && OnDisk(d, s.headers, LiveSet(s.root, s.mem))
    requires ROOT_DIR_SECTOR in s.headers && RootOnDisk(e, s.headers, s.root)
    requires OnlyExtent(d, e, s.headers[ROOT_DIR_SECTOR].start, s.headers[ROOT_DIR_SECTOR].length)
    requires FREE_MAP_SECTOR in s.headers && s.headers[FREE_MAP_SECTOR].length == ByteCnt(|s.bits|)
    ensures Mounted(e, s) && BytesKept(d, e, s.headers, s.headers, LiveSet(s.root, s.mem) - {ROOT_DIR_SECTOR})
  {
    DataWritten(d, e, s, ROOT_DIR_SECTOR);
  }

  /** Writing a new inode x that is not live yet. */
  lemma InodeWritten(d: seq<Sector>, e: seq<Sector>, s: Fs, x: int, h: Header)
    requires Ok(s) && Mounted(d, s) && x !in LiveSet(s.root, s.mem) && |e| == |d|
    requires var hs := s.headers[x := h];
      && (forall y | y in LiveSet(s.root, s.mem) :: NoOverlap(hs, x, y))
      && forall y | 0 <= y < |d| && !Owns(hs, x, y) :: e[y] == d[y]
    ensures Mounted(e, s.(headers := s.headers[x := h]))
    ensures BytesKept(d, e, s.headers, s.headers[x := h], LiveSet(s.root, s.mem))
  {
    var hs := s.headers[x := h];
    forall y | y in LiveSet(s.root, s.mem)
      ensures InodeFits(d, s.headers, y) && y in hs && hs[y] == s.headers[y] && 0 <= y < |d| && e[y] == d[y]
      ensures FileBytes(e, hs, y) == FileBytes(d, s.headers, y)
    {
      assert Placed(s.bits, s.headers, y);
      StillPlaced(s.bits, s.headers, x, h, y);
      OthersUntouched(s.bits, hs, d, e, x, y);
    }
    assert ROOT_DIR_SECTOR in LiveSet(s.root, s.mem);
  }

  lemma StillPlaced(bits: seq<bool>, hs: Headers, x: int, h: Header, y: int)
    requires Placed(bits, hs, y) && y != x
    ensures Placed(bits, hs[x := h], y)
  {
    forall k ensures Owns(hs[x := h], y, k) <==> Owns(hs, y, k) {}
  }

  // ---------- The free map's file ----------

  /** The inode of the free map's file can be written and is inode 0. */
  lemma MapReady(d: seq<Sector>, s: Fs, m: int)
    requires Sound(d, s, m)
    ensures var n := s.mem[s.files[m].inode];
      n.denyCnt == 0 && n.data == s.headers[FREE_MAP_SECTOR] && InodeFits(d, s.headers, FREE_MAP_SECTOR)
  {
    var a := s.files[m].inode;
    assert NodeOk(s, a);
    NobodyDenies(s.files, a);
    LiveFits(d, s, FREE_MAP_SECTOR);
  }

  lemma NobodyDenies(fs: Files, a: int)
    ensures |DenyingOn(fs, a)| == 0 <==> forall g | g in fs && fs[g].inode == a :: !fs[g].denyWrite
  {
    if g :| g in fs && fs[g].inode == a && fs[g].denyWrite {
      SubsetSize({g}, DenyingOn(fs, a));
    } else {
      assert forall g :: g !in DenyingOn(fs, a);
    }
  }

  /** The free map's file stays what it is as long as no other file comes to be on
      its inode. */
  lemma MapStaysHeld(s: Fs, t: Fs, m: int)
    requires MapHeld(s, m) && Ok(t) && m in t.files && t.files[m] == s.files[m] && KeepsSectors(s.mem, t.mem)
    requires forall f | f in t.files && f != m :: t.files[f].inode != s.files[m].inode
    ensures MapHeld(t, m)
  {
    assert FileOk(t, m);
  }

  /** A step that changes only structures in memory. */
  lemma InMemory(d: seq<Sector>, s: Fs, t: Fs, m: int)
    requires Sound(d, s, m) && Ok(t) && t.bits == s.bits && t.headers == s.headers && t.root == s.root
    requires LiveSet(t.root, t.mem) <= LiveSet(s.root, s.mem) && KeepsSectors(s.mem, t.mem)
    requires m in t.files && t.files[m] == s.files[m]
    requires forall f | f in t.files && f != m :: t.files[f].inode != s.files[m].inode
    ensures Sound(d, t, m)
  {
    SameDisk(d, s, t);
    MapStaysHeld(s, t, m);
  }

  lemma OpenedSound(d: seq<Sector>, s: Fs, x: int, memory: Ptr, r: Ptr, m: int)
    requires Sound(d, s, m) && x in Listed(s.root) && (memory.Ptr? ==> memory.addr !in s.mem)
    requires OpenedTo(s, x, memory, r)
    ensures x in s.headers && Sound(d, Opened(s, x, r), m)
  {
    OpenedOk(s, x, memory, r);
    var t := Opened(s, x, r);
    forall y | y in OpenSectors(t.mem) ensures y in LiveSet(s.root, s.mem) {
      var a :| a in t.mem && t.mem[a].sector == y;
      if a in s.mem { assert s.mem[a].sector in OpenSectors(s.mem); }
    }
    if r.Ptr? { InMemory(d, s, t, m); }
  }

  lemma SharedSound(d: seq<Sector>, s: Fs, a: int, m: int)
    requires Sound(d, s, m) && a in s.hand && s.mem[a].openCnt > 1
    ensures Sound(d, CloseShared(s, a), m)
  {
    CloseSharedOk(s, a);
    SameSectors(s.mem, CloseShared(s, a).mem);
    InMemory(d, s, CloseShared(s, a), m);
  }

  lemma DroppedSound(d: seq<Sector>, s: Fs, a: int, m: int)
    requires Sound(d, s, m) && a in s.hand && s.mem[a].openCnt == 1
    ensures Sound(d, Dropped(s, a), m)
  {
    DroppedOk(s, a);
    DroppedLive(s, a);
    InMemory(d, s, Dropped(s, a), m);
  }

  // No file but m is on the inode of the free map.
  lemma NotTheMap(d: seq<Sector>, s: Fs, f: int, m: int)
    requires Sound(d, s, m) && f in s.files && f != m
    ensures s.files[f].inode in s.mem && s.files[f].inode != s.files[m].inode
    ensures s.mem[s.files[f].inode].sector != FREE_MAP_SECTOR && s.mem[s.files[f].inode].sector != ROOT_DIR_SECTOR
  {
    assert FileOk(s, f) && OneNode(s.mem, s.files[f].inode, s.files[m].inode);
  }

  lemma ToFileSound(d: seq<Sector>, s: Fs, f: int, a: int, m: int)
    requires Sound(d, s, m) && f !in s.files && a in s.hand && a in s.mem
    requires s.mem[a].sector != ROOT_DIR_SECTOR && s.mem[a].sector != FREE_MAP_SECTOR
    ensures Sound(d, ToFile(s, f, a), m)
  {
    ToFileOk(s, f, a);
    InMemory(d, s, ToFile(s, f, a), m);
  }

  lemma ReopenSound(d: seq<Sector>, s: Fs, a: int, m: int)
    requires Sound(d, s, m) && a in s.mem
    ensures Sound(d, Reopen(s, a), m)
  {
    ReopenOk(s, a);
    SameSectors(s.mem, Reopen(s, a).mem);
    InMemory(d, s, Reopen(s, a), m);
  }

  lemma SetDenySound(d: seq<Sector>, s: Fs, f: int, v: bool, m: int)
    requires Sound(d, s, m) && f in s.files && f != m
    ensures s.files[f].inode in s.mem && Sound(d, SetDeny(s, f, v), m)
  {
    SetDenyOk(s, f, v);
    SameSectors(s.mem, SetDeny(s, f, v).mem);
    InMemory(d, s, SetDeny(s, f, v), m);
  }

  lemma FromFileSound(d: seq<Sector>, s: Fs, f: int, m: int)
    requires Sound(d, s, m) && f in s.files && f != m && !s.files[f].denyWrite
    ensures Sound(d, FromFile(s, f), m)
  {
    FromFileOk(s, f);
    InMemory(d, s, FromFile(s, f), m);
  }

  /** Taking sectors that are free, or giving back sectors that nobody owns, and
      saving the map. */
  lemma MapChanged(d: seq<Sector>, e: seq<Sector>, s: Fs, bits: seq<bool>, m: int)
    requires Sound(d, s, m) && |bits| == |s.bits|
    requires forall t, k | t in LiveSet(s.root, s.mem) && Owns(s.headers, t, k) && 0 <= k < |bits| ::
               bits[k] == s.bits[k]
    requires OnlyExtent(d, e, s.headers[FREE_MAP_SECTOR].start, s.headers[FREE_MAP_SECTOR].length)
    ensures Sound(e, s.(bits := bits), m)
    ensures BytesKept(d, e, s.headers, s.headers, LiveSet(s.root, s.mem) - {FREE_MAP_SECTOR})
  {
    ReleasedOk(s, bits);
    MapWritten(d, e, s);
    SameDisk(e, s, s.(bits := bits));
    MapStaysHeld(s, s.(bits := bits), m);
  }

  // Free sectors belong to no live inode.
  lemma FreeUnowned(s: Fs, x: int, cnt: int)
    requires Ok(s) && Group(s.bits, x, cnt, false)
    ensures Unowned(s, x, cnt)
  {
    forall t, k | t in LiveSet(s.root, s.mem) && x <= k < x + cnt ensures !Owns(s.headers, t, k) {
      assert Placed(s.bits, s.headers, t) && s.bits[k] == false;
    }
  }

  lemma RangeChanged(d: seq<Sector>, e: seq<Sector>, s: Fs, x: int, cnt: int, v: bool, m: int)
    requires Sound(d, s, m) && Unowned(s, x, cnt)
    requires OnlyExtent(d, e, s.headers[FREE_MAP_SECTOR].start, s.headers[FREE_MAP_SECTOR].length)
    ensures Sound(e, s.(bits := SetRange(s.bits, x, cnt, v)), m)
    ensures BytesKept(d, e, s.headers, s.headers, LiveSet(s.root, s.mem) - {FREE_MAP_SECTOR})
  {
    MapChanged(d, e, s, SetRange(s.bits, x, cnt, v), m);
  }

  // ---------- New inodes and the root directory ----------

  /** The new inode x is on the device. */
  ghost predicate NewOnDisk(d: seq<Sector>, s: Fs, x: int) {
    Detached(s, x) && |d| == |s.bits| && 0 <= x < |d| && ReadHeader(d[x]) == s.headers[x]
  }

  lemma DetachedFits(d: seq<Sector>, s: Fs, x: int)
    requires Detached(s, x) && |d| == |s.bits|
    ensures 0 <= x < |d| && InodeFits(d, s.headers, x) && !InData(s.headers[x], x)
  {
    assert Owns(s.headers, x, x);
  }

  // inode_create, once the data has been allocated.
  lemma CreatedSound(d: seq<Sector>, e: seq<Sector>, s: Fs, t: Fs, x: int, h: Header, m: int)
    requires Sound(d, s, m) && |e| == |d| && t == s.(headers := s.headers[x := h]) && Ok(t) && Detached(t, x)
    requires 0 <= x < |d| && ReadHeader(e[x]) == h && forall y | 0 <= y < |d| && y != x && !InData(h, y) :: e[y] == d[y]
    ensures Sound(e, t, m) && NewOnDisk(e, t, x)
    ensures BytesKept(d, e, s.headers, t.headers, LiveSet(s.root, s.mem))
    ensures MapSaved(d, s) ==> MapSaved(e, t)
  {
    forall y | 0 <= y < |d| && !Owns(t.headers, x, y) ensures e[y] == d[y] {}
    InodeWritten(d, e, s, x, h);
    MapStaysHeld(s, t, m);
    assert FREE_MAP_SECTOR in LiveSet(s.root, s.mem);
  }

  /** The open root directory is inode 1, and nobody denies writes to it. */
  lemma RootNode(d: seq<Sector>, s: Fs, a: int)
    requires Ok(s) && Mounted(d, s) && a in s.mem && s.mem[a].sector == ROOT_DIR_SECTOR
    ensures s.mem[a].data == s.headers[ROOT_DIR_SECTOR] && s.mem[a].denyCnt == 0
  {
    assert NodeOk(s, a);
    forall f | f in s.files ensures s.files[f].inode != a { assert FileOk(s, f); }
    NoFiles(s.files, a);
  }

  // dir_add has put an entry for x into the root directory.
  lemma AddedSound(d: seq<Sector>, e: seq<Sector>, s: Fs, name: Name, x: int, m: int)
    requires Sound(d, s, m) && NewOnDisk(d, s, x) && name !in s.root
    requires OnlyExtent(d, e, s.headers[ROOT_DIR_SECTOR].start, s.headers[ROOT_DIR_SECTOR].length)
    requires RootOnDisk(e, s.headers, s.root[name := x])
    ensures Sound(e, List(s, name, x), m)
    ensures BytesKept(d, e, s.headers, s.headers, LiveSet(s.root, s.mem) + {x} - {ROOT_DIR_SECTOR})
  {
    var r := List(s, name, x);
    ListOk(s, name, x);
    OneMoreLive(s.root, s.mem, name, x);
    RootWritten(d, e, r);
    MapStaysHeld(s, r, m);
  }

  lemma OneMoreLive(root: Root, mem: Nodes, name: Name, x: int)
    requires name !in root
    ensures LiveSet(root[name := x], mem) == LiveSet(root, mem) + {x}
  {
    var r := root[name := x];
    assert forall n | n in root :: r[n] == root[n];
    assert r[name] == x;
  }

  // The root directory has been written to but stands for the same map.
  lemma RootRewritten(d: seq<Sector>, e: seq<Sector>, s: Fs, m: int)
    requires Sound(d, s, m) && RootOnDisk(e, s.headers, s.root)
    requires OnlyExtent(d, e, s.headers[ROOT_DIR_SECTOR].start, s.headers[ROOT_DIR_SECTOR].length)
    ensures Sound(e, s, m) && BytesKept(d, e, s.headers, s.headers, LiveSet(s.root, s.mem) - {ROOT_DIR_SECTOR})
  {
    RootWritten(d, e, s);
  }

  // dir_remove has erased the entry for the inode open as a.
  lemma UnlistSound(d: seq<Sector>, e: seq<Sector>, s: Fs, name: Name, a: int, m: int)
    requires Sound(d, s, m) && name in s.root && a in s.mem && s.mem[a].sector == s.root[name]
    requires OnlyExtent(d, e, s.headers[ROOT_DIR_SECTOR].start, s.headers[ROOT_DIR_SECTOR].length)
    requires RootOnDisk(e, s.headers, s.root - {name})
    ensures Sound(e, Unlist(s, name, a), m)
    ensures BytesKept(d, e, s.headers, s.headers, LiveSet(s.root, s.mem) - {ROOT_DIR_SECTOR})
  {
    var r := Unlist(s, name, a);
    UnlistOk(s, name, a);
    UnlistSectors(s.root, name);
    SameSectors(s.mem, r.mem);
    assert s.mem[a].sector in OpenSectors(s.mem);
    assert LiveSet(r.root, r.mem) == LiveSet(s.root, s.mem);
    RootWritten(d, e, r);
    MapStaysHeld(s, r, m);
  }

  // ---------- A formatted device ----------

  /** Room for the free map's file and the root directory. */
  predicate FormatRoom(n: nat) {
    n >= BytesToSectors(ByteCnt(n)) + 3
  }

  ghost function FormattedHeaders(n: nat): Headers {
    var k := BytesToSectors(ByteCnt(n));
    map[FREE_MAP_SECTOR := Header(2, ByteCnt(n)), ROOT_DIR_SECTOR := Header(2 + k, ROOT_SLOTS * ENTRY)]
  }

  /** What formatting leaves on the device. */
  ghost predicate Formatted(d: seq<Sector>, bits: seq<bool>) {
    var n, k := |d|, BytesToSectors(ByteCnt(|d|));
    && |bits| == n && FormatRoom(n) && (forall x | 0 <= x < n :: bits[x] <==> x < 3 + k)
    && ReadHeader(d[0]) == Header(2, ByteCnt(n)) && ReadHeader(d[1]) == Header(2 + k, ROOT_SLOTS * ENTRY)
    && SavedIn(Contents(d, 2, ByteCnt(n)), bits)
    && Contents(d, 2 + k, ROOT_SLOTS * ENTRY) == seq(ROOT_SLOTS * ENTRY, _ => 0)
  }

  lemma FormattedSound(d: seq<Sector>, s: Fs, a: int, m: int)
    requires Formatted(d, s.bits) && |d| < 0x1_0000_0000 && s.headers == FormattedHeaders(|d|) && s.root == map[]
    requires s.mem == map[a := MemInode(FREE_MAP_SECTOR, 1, false, 0, s.headers[FREE_MAP_SECTOR])] && s.open == [a]
    requires s.files == map[m := File(a, false)] && s.hand == multiset{}
    ensures Sound(d, s, m) && Accounted(s) && MapSaved(d, s)
  {
    FormattedOk(s, BytesToSectors(ByteCnt(|d|)), ByteCnt(|d|), a, m);
    ZeroTable(RootBytes(d, s.headers));
    assert LiveSet(s.root, s.mem) == {FREE_MAP_SECTOR, ROOT_DIR_SECTOR};
  }

  ghost function RootBytes(d: seq<Sector>, hs: Headers): seq<byte>
    requires InodeFits(d, hs, ROOT_DIR_SECTOR)
  {
    FileBytes(d, hs, ROOT_DIR_SECTOR)
  }

  // ---------- Mounting again ----------

  /** The state after a device that was in state s has been mounted again. */
  ghost function Remounted(s: Fs, a: int, m: int): Fs
    requires FREE_MAP_SECTOR in s.headers
  {
    Fs(s.bits, s.headers, s.root, map[a := MemInode(FREE_MAP_SECTOR, 1, false, 0, s.headers[FREE_MAP_SECTOR])], [a],
       map[m := File(a, false)], multiset{})
  }

  lemma RemountedLive(s: Fs, a: int, m: int)
    requires FREE_MAP_SECTOR in s.headers
    ensures LiveSet(s.root, Remounted(s, a, m).mem) == Listed(s.root)
  {
    var mem := Remounted(s, a, m).mem;
    assert mem[a].sector == FREE_MAP_SECTOR && forall b | b in mem :: b == a;
    assert OpenSectors(mem) == {FREE_MAP_SECTOR};
  }

  lemma RemountedOk(s: Fs, a: int, m: int)
    requires Ok(s) && FREE_MAP_SECTOR in s.headers
    ensures Ok(Remounted(s, a, m))
  {
    var r := Remounted(s, a, m);
    RemountedLive(s, a, m);
    StorageSub(s.bits, s.headers, LiveSet(s.root, s.mem), LiveSet(r.root, r.mem));
    MapFileOk(r, a, m);
  }

  lemma RemountedSound(d: seq<Sector>, s: Fs, a: int, m: int)
    requires Ok(s) && Mounted(d, s)
    ensures Sound(d, Remounted(s, a, m), m)
  {
    RemountedOk(s, a, m);
    RemountedLive(s, a, m);
    SameDisk(d, s, Remounted(s, a, m));
  }

  /** Mounting again loses the sectors of removed files that were open. */
  lemma RemountedAccounted(s: Fs, a: int, m: int)
    requires Ok(s) && Accounted(s)
    ensures FREE_MAP_SECTOR in s.headers
    ensures Accounted(Remounted(s, a, m)) <==> OpenSectors(s.mem) <= Listed(s.root)
  {
    assert FREE_MAP_SECTOR in LiveSet(s.root, s.mem);
    var r := Remounted(s, a, m);
    RemountedLive(s, a, m);
    if OpenSectors(s.mem) <= Listed(s.root) {
      assert LiveSet(s.root, s.mem) == Listed(s.root);
    } else {
      var x :| x in OpenSectors(s.mem) && x !in Listed(s.root);
      assert Placed(s.bits, s.headers, x) && Owns(s.headers, x, x) && s.bits[x];
      forall t | t in Listed(s.root) ensures !Owns(s.headers, t, x) { assert NoOverlap(s.headers, t, x); }
    }
  }
}
