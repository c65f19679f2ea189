/**
 What file system calls do to the state and the device together, apart from the
 heap: what is said of each call, and the proofs that its steps add up to it.
 */
module FsEffects {
  import opened Bitmap
  import opened BitmapFile
  import opened InodeIo
  import opened DirEntries
  import opened Directory
  import opened FsState
  import opened FsSteps
  import opened FsCalls
  import opened FsDisk

  // ---------- The free map ----------

  lemma TakenBack(b: seq<bool>, x: int, cnt: int)
    requires Group(b, x, cnt, false)
    ensures SetRange(SetRange(b, x, cnt, true), x, cnt, false) == b == SetRange(b, x, cnt, false)
  {
  }

  // ---------- The root directory ----------

  /** The live inodes other than the free map and the root directory. */
  ghost function Others(root: Root, mem: Nodes): set<int> {
    LiveSet(root, mem) - {FREE_MAP_SECTOR, ROOT_DIR_SECTOR}
  }

  /** The root directory has one more entry, in a slot that was free, or is as it
      was. */
  ghost predicate RootChange(d: seq<Sector>, e: seq<Sector>, hs: Headers, hs': Headers, name: Name, x: int, ok: bool) {
    && InodeFits(d, hs, ROOT_DIR_SECTOR) && InodeFits(e, hs', ROOT_DIR_SECTOR)
    && if ok then Added(RootTable(d, hs), RootTable(e, hs'), name, x) else RootTable(e, hs') == RootTable(d, hs)
  }

  /** What dir_add does to the root directory. */
  ghost predicate RootPut(d: seq<Sector>, e: seq<Sector>, hs: Headers, root: Root, name: Name, x: int, ok: bool) {
    && RootChange(d, e, hs, hs, name, x, ok) && (ok <==> CanAdd(root, name))
    && OnlyExtent(d, e, hs[ROOT_DIR_SECTOR].start, hs[ROOT_DIR_SECTOR].length)
    && RootOnDisk(e, hs, if ok then root[name := x] else root)
  }

  // dir_add on the root directory, whose header is h.
  method PutEntry(dev: Device, h: Header, name: Name, x: int, ghost hs: Headers, ghost root: Root) returns (ok: bool)
    requires RootOnDisk(dev.sectors, hs, root) && h == hs[ROOT_DIR_SECTOR] && 0 !in name && 0 <= x < 0x1_0000_0000
    modifies dev
    ensures RootPut(old(dev.sectors), dev.sectors, hs, root, name, x, ok)
  {
    ok := AddTo(dev, h.start, h.length, name, x);
  }

  lemma EntryAdded(d: seq<Sector>, e: seq<Sector>, s: Fs, name: Name, x: int, ok: bool, m: int)
    requires Sound(d, s, m) && NewOnDisk(d, s, x) && RootPut(d, e, s.headers, s.root, name, x, ok)
    ensures var r := if ok then List(s, name, x) else s;
      Sound(e, r, m) && BytesKept(d, e, s.headers, s.headers, LiveSet(r.root, r.mem) - {ROOT_DIR_SECTOR})
  {
    if ok {
      AddedSound(d, e, s, name, x, m);
      OneMoreLive(s.root, s.mem, name, x);
    } else {
      RootRewritten(d, e, s, m);
    }
  }

  /** One slot of the root directory, the one with the name, has been cleared. */
  ghost predicate RootErased(d: seq<Sector>, e: seq<Sector>, hs: Headers, name: Name) {
    && InodeFits(d, hs, ROOT_DIR_SECTOR) && InodeFits(e, hs, ROOT_DIR_SECTOR)
    && var t, u := RootTable(d, hs), RootTable(e, hs);
       exists k :: Named(t, k, name) && u == t[k := Cleared(t[k])]
  }

  // dir_remove's write to the root directory, whose header is h.
  method EraseEntry(dev: Device, h: Header, name: Name, i: nat, e: Slot, ghost hs: Headers, ghost root: Root)
    requires RootOnDisk(dev.sectors, hs, root) && h == hs[ROOT_DIR_SECTOR]
    requires Named(RootTable(dev.sectors, hs), i, name) && e == RootTable(dev.sectors, hs)[i]
    modifies dev
    ensures OnlyExtent(old(dev.sectors), dev.sectors, h.start, h.length)
    ensures RootOnDisk(dev.sectors, hs, root - {name}) && RootErased(old(dev.sectors), dev.sectors, hs, name)
  {
    EraseIn(dev, h.start, h.length, i, e);
  }

  // ---------- Creating ----------

  /** A file of zeros. */
  ghost predicate ZeroFile(d: seq<Sector>, hs: Headers, x: int, size: nat) {
    InodeFits(d, hs, x) && hs[x].length == size && FileBytes(d, hs, x) == seq(size, _ => 0)
  }

  // A new inode has been made, which took the device from d to e, and entered.
  lemma MadeAndEntered(d: seq<Sector>, e: seq<Sector>, f: seq<Sector>, s: Fs, t: Fs, r: Fs, name: Name, x: int,
                       size: nat, ok: bool)
    requires t.root == s.root && t.mem == s.mem && r == if ok then List(t, name, x) else t
    requires BytesKept(d, e, s.headers, t.headers, LiveSet(s.root, s.mem) - {FREE_MAP_SECTOR})
    requires BytesKept(e, f, t.headers, t.headers, LiveSet(r.root, r.mem) - {ROOT_DIR_SECTOR})
    requires ok ==> name !in s.root
    requires RootChange(e, f, t.headers, t.headers, name, x, ok) && x != ROOT_DIR_SECTOR
    requires MapSaved(e, t) && ZeroFile(e, t.headers, x, size)
    ensures BytesKept(d, f, s.headers, r.headers, Others(s.root, s.mem)) && MapSaved(f, r)
    ensures RootChange(d, f, s.headers, r.headers, name, x, ok) && (ok ==> ZeroFile(f, r.headers, x, size))
  {
    var live := LiveSet(s.root, s.mem);
    if ok { OneMoreLive(s.root, s.mem, name, x); }
    KeptFewer(d, e, s.headers, t.headers, live - {FREE_MAP_SECTOR}, Others(s.root, s.mem));
    KeptFewer(e, f, t.headers, t.headers, LiveSet(r.root, r.mem) - {ROOT_DIR_SECTOR}, Others(s.root, s.mem));
    KeptTwice(d, e, f, s.headers, t.headers, r.headers, Others(s.root, s.mem));
    assert ROOT_DIR_SECTOR in live - {FREE_MAP_SECTOR} && FREE_MAP_SECTOR in LiveSet(r.root, r.mem) - {ROOT_DIR_SECTOR};
    assert ok ==> x in LiveSet(r.root, r.mem) - {ROOT_DIR_SECTOR};
  }

  /** What creating a file does to the device: the other live inodes keep headers and
      bytes; if it succeeds the root directory has a new entry for a file of zeros
      and the free map is saved, else the root directory is as it was. */
  ghost predicate FileCreated(d: seq<Sector>, e: seq<Sector>, s: Fs, r: Fs, name: Name, size: nat, header: Found,
                              ok: bool)
  {
    && BytesKept(d, e, s.headers, r.headers, Others(s.root, s.mem)) && (ok ==> header.At?)
    && RootChange(d, e, s.headers, r.headers, name, if header.At? then header.idx else 0, ok)
    && (ok ==> ZeroFile(e, r.headers, header.idx, size) && MapSaved(e, r))
  }

  lemma NotCreated(d: seq<Sector>, e: seq<Sector>, f: seq<Sector>, s: Fs, t: Fs, r: Fs, name: Name, size: nat, x: nat)
    requires BytesKept(d, e, s.headers, t.headers, Others(s.root, s.mem))
    requires RootChange(d, e, s.headers, t.headers, name, x, false)
    requires t.root == s.root && t.mem == s.mem && r.headers == t.headers
    requires BytesKept(e, f, t.headers, t.headers, LiveSet(s.root, s.mem) - {FREE_MAP_SECTOR})
    ensures FileCreated(d, f, s, r, name, size, At(x), false)
  {
    KeptTwice(d, e, f, s.headers, t.headers, t.headers, Others(s.root, s.mem));
    assert ROOT_DIR_SECTOR in LiveSet(s.root, s.mem) - {FREE_MAP_SECTOR};
  }

  // The header's sector has been taken, which has not touched other inodes.
  lemma CreatedAfter(d: seq<Sector>, e: seq<Sector>, f: seq<Sector>, s: Fs, r: Fs, name: Name, size: nat,
                     header: Found, ok: bool)
    requires BytesKept(d, e, s.headers, s.headers, LiveSet(s.root, s.mem) - {FREE_MAP_SECTOR})
    requires FileCreated(e, f, s, r, name, size, header, ok)
    ensures FileCreated(d, f, s, r, name, size, header, ok)
  {
    KeptTwice(d, e, f, s.headers, s.headers, r.headers, Others(s.root, s.mem));
    assert ROOT_DIR_SECTOR in LiveSet(s.root, s.mem) - {FREE_MAP_SECTOR};
  }

  lemma NeverCreated(d: seq<Sector>, e: seq<Sector>, s: Fs, name: Name, size: nat)
    requires BytesKept(d, e, s.headers, s.headers, LiveSet(s.root, s.mem) - {FREE_MAP_SECTOR})
    ensures FileCreated(d, e, s, s, name, size, BitmapError, false)
  {
    assert ROOT_DIR_SECTOR in LiveSet(s.root, s.mem) - {FREE_MAP_SECTOR};
  }

  /** Every step of creating a file before dir_add succeeds: there are the memory,
      the sectors and the buffers for saving the free map. */
  ghost predicate Reaches(bits: seq<bool>, size: int, memory: bool, saves: nat -> bool) {
    memory && CanSave(|bits|, saves(0)) && CanSave(|bits|, saves(1)) && RoomFor(bits, size)
  }

  // Having the root directory open makes no difference to what is said of a new file.
  lemma WithRootOpen(d: seq<Sector>, e: seq<Sector>, s: Fs, t: Fs, a: int, r: Fs, v: Fs, name: Name, size: nat,
                     header: Found, ok: bool)
    requires a !in s.mem && ROOT_DIR_SECTOR in s.headers && t == OpenNew(s, a, ROOT_DIR_SECTOR)
    requires FileCreated(d, e, t, r, name, size, header, ok) && v.headers == r.headers && v.bits == r.bits
    ensures FileCreated(d, e, s, v, name, size, header, ok)
  {
    forall y | y in Others(s.root, s.mem) ensures y in Others(t.root, t.mem) {
      if b :| b in s.mem && s.mem[b].sector == y { assert b in t.mem && t.mem[b].sector == y; }
    }
  }

  // ---------- Opening and closing ----------

  // What inode_open has found under a name.
  lemma FoundInode(s: Fs, name: Name, memory: Ptr, r: Ptr)
    requires Ok(s) && name in s.root && s.root[name] in s.headers && (memory.Ptr? ==> memory.addr !in s.mem)
    requires OpenedTo(s, s.root[name], memory, r) && r.Ptr?
    ensures var t := Opened(s, s.root[name], r);
      && Ok(t) && r.addr in t.mem && r.addr in t.hand && !t.mem[r.addr].removed && Closed(t, r.addr) == s
      && t.mem[r.addr].sector == s.root[name] && s.root[name] != ROOT_DIR_SECTOR && s.root[name] != FREE_MAP_SECTOR
  {
    assert s.root[name] in Listed(s.root);
    OpenedOk(s, s.root[name], memory, r);
    OpenedClosed(s, s.root[name], memory, r);
    assert NodeOk(Opened(s, s.root[name], r), r.addr);
  }

  /** What inode_close does to the device: it writes only to the free map, and only
      if the inode goes; inodes that are still live keep their bytes. */
  ghost predicate CloseStep(d: seq<Sector>, e: seq<Sector>, s: Fs, r: Fs, a: int, saved: bool) {
    && a in s.mem && (e == d || (s.mem[a].openCnt == 1 && s.mem[a].removed))
    && BytesKept(d, e, s.headers, r.headers, LiveSet(r.root, r.mem) - {FREE_MAP_SECTOR})
    && (MapSaved(d, s) && saved ==> MapSaved(e, r))
  }

  lemma ClosedFacts(s: Fs, f: int)
    requires Ok(s) && f in s.files && s.hand == multiset{} && s.files[f].inode in s.mem
    ensures FileClosed(s, f).hand == multiset{} && (Accounted(s) ==> Accounted(FileClosed(s, f)))
  {
    FileClosedIs(s, f);
    if Accounted(s) { FileClosedAccounted(s, f); }
  }

  // ---------- Removing ----------

  /** What removing a name does to the device: one slot of the root directory is
      cleared, inodes that are still live keep their bytes, and the free map is
      saved if it can be. */
  ghost predicate RemoveStep(d: seq<Sector>, e: seq<Sector>, s: Fs, r: Fs, name: Name, saved: bool) {
    && RootErased(d, e, r.headers, name) && BytesKept(d, e, s.headers, r.headers, Others(r.root, r.mem))
    && (MapSaved(d, s) && saved ==> MapSaved(e, r))
  }

  lemma StillFewer(s: Fs, t: Fs, r: Fs, name: Name, a: int)
    requires a in s.mem && t == Unlist(s, name, a) && a in t.mem && r == Closed(t, a)
    ensures LiveSet(r.root, r.mem) <= LiveSet(s.root, s.mem)
  {
    forall y | y in OpenSectors(r.mem) ensures y in OpenSectors(s.mem) {
      var b :| b in r.mem && r.mem[b].sector == y;
      assert b in s.mem && s.mem[b].sector == y;
    }
  }

  lemma ErasedClosed(d: seq<Sector>, e: seq<Sector>, f: seq<Sector>, s: Fs, t: Fs, r: Fs, name: Name, a: int,
                     saved: bool)
    requires a in s.mem && t == Unlist(s, name, a) && r == Closed(t, a) && r.headers == s.headers
    requires BytesKept(d, e, s.headers, s.headers, LiveSet(s.root, s.mem) - {ROOT_DIR_SECTOR})
    requires RootErased(d, e, s.headers, name) && CloseStep(e, f, t, r, a, saved)
    ensures RemoveStep(d, f, s, r, name, saved)
  {
    StillFewer(s, t, r, name, a);
    KeptFewer(d, e, s.headers, s.headers, LiveSet(s.root, s.mem) - {ROOT_DIR_SECTOR}, Others(r.root, r.mem));
    KeptFewer(e, f, s.headers, s.headers, LiveSet(r.root, r.mem) - {FREE_MAP_SECTOR}, Others(r.root, r.mem));
    KeptTwice(d, e, f, s.headers, s.headers, s.headers, Others(r.root, r.mem));
    assert ROOT_DIR_SECTOR in LiveSet(r.root, r.mem) - {FREE_MAP_SECTOR};
    assert FREE_MAP_SECTOR in LiveSet(s.root, s.mem) - {ROOT_DIR_SECTOR};
  }

  /** The name has been removed from state s, with the root directory still open as d. */
  ghost predicate RemovedUnder(s: Fs, v: Fs, d: int, name: Name)
    requires name in s.root
  {
    && d in v.hand && d in v.mem && v.mem[d].sector == ROOT_DIR_SECTOR && !v.mem[d].removed
    && RemovedFor(s, name, Closed(v, d))
  }

  // The inode of a name has been removed while the root directory was open as d.
  lemma RemovePlan(s: Fs, d: int, name: Name, memory: Ptr, r: Ptr)
    requires Ok(s) && s.hand == multiset{} && d !in s.mem && name in s.root && ROOT_DIR_SECTOR in s.headers
    requires OpenedTo(OpenNew(s, d, ROOT_DIR_SECTOR), s.root[name], memory, r) && r.Ptr? && s.root[name] in s.headers
    requires memory.Ptr? ==> memory.addr !in s.mem && memory.addr != d
    requires r.addr in Opened(OpenNew(s, d, ROOT_DIR_SECTOR), s.root[name], r).mem
    ensures RemovedUnder(s, Removed(Opened(OpenNew(s, d, ROOT_DIR_SECTOR), s.root[name], r), name, r.addr), d, name)
  {
    RemovedInRoot(s, d, name, memory, r);
    assert NodeOk(Removed(Opened(OpenNew(s, d, ROOT_DIR_SECTOR), s.root[name], r), name, r.addr), d);
  }

  lemma RemovedPlan(b: seq<Sector>, e: seq<Sector>, s: Fs, d: int, name: Name, memory: Ptr, r: Ptr, v: Fs, saved: bool)
    requires Ok(s) && s.hand == multiset{} && d !in s.mem && name in s.root && ROOT_DIR_SECTOR in s.headers
    requires s.root[name] in s.headers && OpenedTo(OpenNew(s, d, ROOT_DIR_SECTOR), s.root[name], memory, r)
    requires memory.Ptr? ==> memory.addr !in s.mem && memory.addr != d
    requires r.Ptr? ==> r.addr in Opened(OpenNew(s, d, ROOT_DIR_SECTOR), s.root[name], r).mem
    requires r.Ptr? ==> v == Removed(Opened(OpenNew(s, d, ROOT_DIR_SECTOR), s.root[name], r), name, r.addr)
    requires r.Ptr? ==> RemoveStep(b, e, OpenNew(s, d, ROOT_DIR_SECTOR), v, name, saved)
    ensures r.Ptr? <==> memory.Ptr? || s.root[name] in OpenSectors(s.mem)
    ensures r.Ptr? ==> RemovedUnder(s, v, d, name) && RemoveStep(b, e, s, v, name, saved)
  {
    RootOpened(s, d);
    assert s.root[name] != ROOT_DIR_SECTOR;
    if r.Ptr? { RemovePlan(s, d, name, memory, r); }
  }

  // Closing the root directory changes nothing on the device.
  lemma StillRemoved(d: seq<Sector>, e: seq<Sector>, s: Fs, t: Fs, a: int, name: Name, saved: bool)
    requires a in t.mem && !t.mem[a].removed && RemoveStep(d, e, s, t, name, saved)
    ensures RemoveStep(d, e, s, Closed(t, a), name, saved)
  {
    var r := Closed(t, a);
    forall y | y in OpenSectors(r.mem) ensures y in OpenSectors(t.mem) {
      var b :| b in r.mem && r.mem[b].sector == y;
      assert b in t.mem && t.mem[b].sector == y;
    }
    KeptFewer(d, e, s.headers, t.headers, Others(t.root, t.mem), Others(r.root, r.mem));
  }

  // ---------- Reading and writing files ----------

  /** The sector of the inode that file f is open on. */
  ghost function SectorOfFile(s: Fs, f: int): int
    requires f in s.files && s.files[f].inode in s.mem
  {
    s.mem[s.files[f].inode].sector
  }

  /** Some open file denies writes to the inode of f. */
  ghost predicate Denied(s: Fs, f: int)
    requires f in s.files
  {
    exists g :: g in s.files && s.files[g].inode == s.files[f].inode && s.files[g].denyWrite
  }

  /** Reading n bytes of file f gave this buffer. */
  ghost predicate FileRead(s: Fs, f: int, d: seq<Sector>, before: seq<byte>, after: seq<byte>, size: int, offset: int,
                           memory: bool, n: int)
    requires f in s.files
  {
    s.files[f].inode in s.mem
    && var x := SectorOfFile(s, f);
       && InodeFits(d, s.headers, x) && n == Transferred(s.headers[x].length, size, offset, memory)
       && after == Filled(before, FileBytes(d, s.headers, x), offset, n)
  }

  /** Writing to file f changed the device from d to e and took n bytes: none while
      writes are denied; the file's bytes are overwritten and nothing else. */
  ghost predicate FileWritten(s: Fs, f: int, d: seq<Sector>, e: seq<Sector>, data: seq<byte>, offset: int,
                              memory: bool, n: int)
    requires f in s.files && |e| == |d| && 0 <= offset
  {
    s.files[f].inode in s.mem
    && var x := SectorOfFile(s, f);
       && InodeFits(d, s.headers, x) && 0 <= n <= |data|
       && n == (if Denied(s, f) then 0 else Transferred(s.headers[x].length, |data|, offset, memory))
       && (n == 0 ==> e == d)
       && (n > 0 ==> offset + n <= s.headers[x].length
                     && FileBytes(e, s.headers, x) == Overwrite(FileBytes(d, s.headers, x), offset, data[..n]))
       && BytesKept(d, e, s.headers, s.headers, LiveSet(s.root, s.mem) - {x})
  }

  // The inode of an open file is live, on the device and what its header says.
  lemma OpenFile(s: Fs, d: seq<Sector>, f: int)
    requires Ok(s) && |s.bits| == |d| && f in s.files
    ensures s.files[f].inode in s.mem
    ensures var n := s.mem[s.files[f].inode];
      && InodeFits(d, s.headers, n.sector) && n.data == s.headers[n.sector] && n.sector in LiveSet(s.root, s.mem)
      && (n.denyCnt == 0 <==> !Denied(s, f))
  {
    var a := s.files[f].inode;
    assert FileOk(s, f) && NodeOk(s, a) && s.mem[a].sector in OpenSectors(s.mem);
    LiveFits(d, s, s.mem[a].sector);
    NobodyDenies(s.files, a);
  }

  lemma FileWriteSound(d: seq<Sector>, e: seq<Sector>, s: Fs, f: int, data: seq<byte>, offset: nat, n: int, m: int)
    requires Sound(d, s, m) && f in s.files && f != m && s.files[f].inode in s.mem && 0 <= n <= |data|
    requires var h := s.mem[s.files[f].inode].data;
      Fits(d, h.start, h.length) && ExtentWritten(d, e, h, offset, data, n)
    ensures Sound(e, s, m) && (MapSaved(d, s) ==> MapSaved(e, s))
    ensures BytesKept(d, e, s.headers, s.headers, LiveSet(s.root, s.mem) - {SectorOfFile(s, f)})
  {
    var x := SectorOfFile(s, f);
    OpenFile(s, d, f);
    NotTheMap(d, s, f, m);
    DataWritten(d, e, s, x);
    assert ROOT_DIR_SECTOR in LiveSet(s.root, s.mem) - {x} && FREE_MAP_SECTOR in LiveSet(s.root, s.mem) - {x};
  }

  /** What has been written is read back, through any file on the same inode. */
  lemma ReadBack(s: Fs, f: int, g: int, d: seq<Sector>, e: seq<Sector>, data: seq<byte>, offset: nat, memory: bool,
                 n: int, before: seq<byte>, after: seq<byte>)
    requires f in s.files && g in s.files && s.files[f].inode == s.files[g].inode && |e| == |d| && 0 < n <= |before|
    requires FileWritten(s, f, d, e, data, offset, memory, n) && FileRead(s, g, e, before, after, n, offset, true, n)
    ensures after[..n] == data[..n] && after[n..] == before[n..]
  {
    var x := SectorOfFile(s, f);
    var c := FileBytes(d, s.headers, x);
    assert Overwrite(c, offset, data[..n])[offset..offset + n] == data[..n];
  }

  // ---------- Formatting and mounting ----------

  // free_map_init.
  method NewMap(n: nat) returns (b: Bits)
    requires n >= 2
    ensures b.Valid() && fresh(b) && fresh(b.words) && b.bitCnt == n && forall x | 0 <= x < n :: b.View()[x] <==> x < 2
  {
    b := new Bits(n);
    b.Mark(FREE_MAP_SECTOR);
    b.Mark(ROOT_DIR_SECTOR);
  }

  // The header in sector x is that of a file of this length.
  ghost predicate InodeFitsAt(d: seq<Sector>, x: nat, length: int)
    requires x < |d|
  {
    var h := ReadHeader(d[x]);
    h.length == length && Fits(d, h.start, h.length)
  }

  // free_map_open reads the map from its file.
  method OpenMap(dev: Device, b: Bits) returns (h: Header)
    requires b.Valid() && |dev.sectors| > 0 && InodeFitsAt(dev.sectors, FREE_MAP_SECTOR, ByteCnt(b.bitCnt))
    modifies b.words
    ensures h == ReadHeader(dev.sectors[FREE_MAP_SECTOR]) && SavedIn(Contents(dev.sectors, h.start, h.length), b.View())
  {
    h := ReadHeader(dev.sectors[FREE_MAP_SECTOR]);
    var ok := LoadBits(dev, h, b, true);
  }

  /** do_format: after it, exactly the sectors of the free map's file and of the root
      directory are taken, and both are on the device. */
  method DoFormat(dev: Device, b: Bits)
    requires b.Valid() && b.bitCnt == |dev.sectors| < 0x1_0000_0000 && FormatRoom(b.bitCnt)
    requires forall x | 0 <= x < b.bitCnt :: b.View()[x] <==> x < 2
    modifies dev, b.words
    ensures |dev.sectors| == |old(dev.sectors)| && Formatted(dev.sectors, b.View())
  {
    var bytes := ByteCnt(b.bitCnt);
    var k := BytesToSectors(bytes);
    ghost var b0 := b.View();
    var r := b.ScanAndFlip(0, k, false);
    ScanFindsFirst(b0, k, 2, r);
    WriteInode(dev, FREE_MAP_SECTOR, Header(r.idx, bytes));
    var _ := SaveBits(dev, Header(r.idx, bytes), 0, b, true);
    ghost var b1 := b.View();
    var q := b.ScanAndFlip(0, 1, false);
    ScanFindsFirst(b1, 1, 2 + k, q);
    var _ := SaveBits(dev, Header(r.idx, bytes), 0, b, true);
    ghost var d := dev.sectors;
    WriteInode(dev, ROOT_DIR_SECTOR, Header(q.idx, ROOT_SLOTS * ENTRY));
    SameContents(d, dev.sectors, r.idx, bytes);
  }
}
