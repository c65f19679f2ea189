/**
 What the file system keeps: the free map, the inode headers on disk, the root
 directory as a map, the table of open inodes and the open files
 (filesys/inode.c, filesys/file.c, filesys/free-map.c, filesys/filesys.c).
 Structures in memory are named by their addresses.
 */
module FsState {
  import opened Sequences
  import opened InodeIo
  import opened DirEntries

  const FREE_MAP_SECTOR: int := 0
  const ROOT_DIR_SECTOR: int := 1

  /** An inode's header on disk: its data extent. */
  datatype Header = Header(start: int, length: int)

  datatype MemInode = MemInode(sector: int, openCnt: int, removed: bool, denyCnt: int, data: Header)

  datatype File = File(inode: int, denyWrite: bool)

  type Headers = map<int, Header>
  type Root = map<Name, int>
  type Nodes = map<int, MemInode>
  type Files = map<int, File>

  function DataSectors(h: Header): int {
    BytesToSectors(h.length)
  }

  // ---------- Storage ----------

  /** Sector x belongs to the inode in sector s: it is its header or its data. */
  ghost predicate Owns(hs: Headers, s: int, x: int) {
    s in hs && (x == s || hs[s].start <= x < hs[s].start + DataSectors(hs[s]))
  }

  /** The inode in sector s is on the device, every sector of it is marked in the
      free map, and its header is not among its data. */
  ghost predicate Placed(bits: seq<bool>, hs: Headers, s: int) {
    && s in hs && 0 <= hs[s].start && 0 <= hs[s].length && hs[s].start + DataSectors(hs[s]) <= |bits|
    && !(hs[s].start <= s < hs[s].start + DataSectors(hs[s]))
    && forall x | Owns(hs, s, x) :: 0 <= x < |bits| && bits[x]
  }

  ghost predicate NoOverlap(hs: Headers, s: int, t: int) {
    forall x :: !(Owns(hs, s, x) && Owns(hs, t, x))
  }

  /** Every inode of `live` is in place and no sector belongs to two of them. */
  ghost predicate Storage(bits: seq<bool>, hs: Headers, live: set<int>) {
    && (forall s | s in live :: Placed(bits, hs, s))
    && (forall s, t | s in live && t in live && s != t :: NoOverlap(hs, s, t))
  }

  /** Marking more sectors does no harm. */
  lemma StorageMark(bits: seq<bool>, bits': seq<bool>, hs: Headers, live: set<int>)
    requires Storage(bits, hs, live) && |bits'| == |bits| && forall x | 0 <= x < |bits| && bits[x] :: bits'[x]
    ensures Storage(bits', hs, live)
  {
    forall s | s in live ensures Placed(bits', hs, s) { assert Placed(bits, hs, s); }
  }

  /** Nor does clearing sectors that no live inode owns. */
  lemma StorageClear(bits: seq<bool>, bits': seq<bool>, hs: Headers, live: set<int>)
    requires Storage(bits, hs, live) && |bits'| == |bits|
    requires forall s, x | s in live && Owns(hs, s, x) && 0 <= x < |bits| :: bits'[x] == bits[x]
    ensures Storage(bits', hs, live)
  {
    forall s | s in live ensures Placed(bits', hs, s) { assert Placed(bits, hs, s); }
  }

  /** Writing the header of an inode that is not live changes no live one. */
  lemma StorageHeader(bits: seq<bool>, hs: Headers, hs': Headers, live: set<int>, s: int, h: Header)
    requires Storage(bits, hs, live) && s !in live && hs' == hs[s := h]
    ensures Storage(bits, hs', live)
  {
    forall t, x | t in live ensures Owns(hs', t, x) <==> Owns(hs, t, x) {}
    forall t | t in live ensures Placed(bits, hs', t) { assert Placed(bits, hs, t); }
    forall t, u | t in live && u in live && t != u ensures NoOverlap(hs', t, u) {
      assert NoOverlap(hs, t, u);
    }
  }

  /** An inode in place whose sectors no live inode owns can join them. */
  lemma StorageAdd(bits: seq<bool>, hs: Headers, live: set<int>, s: int)
    requires Storage(bits, hs, live) && Placed(bits, hs, s) && forall t | t in live :: NoOverlap(hs, s, t)
    ensures Storage(bits, hs, live + {s})
  {
    forall t, u | t in live + {s} && u in live + {s} && t != u ensures NoOverlap(hs, t, u) {
      if u == s { assert NoOverlap(hs, s, t); }
    }
  }

  lemma StorageSub(bits: seq<bool>, hs: Headers, live: set<int>, live': set<int>)
    requires Storage(bits, hs, live) && live' <= live
    ensures Storage(bits, hs, live')
  {
  }

  // ---------- Open inodes and files ----------

  ghost function FilesOn(fs: Files, a: int): set<int> {
    set f | f in fs && fs[f].inode == a
  }

  ghost function DenyingOn(fs: Files, a: int): set<int> {
    set f | f in fs && fs[f].inode == a && fs[f].denyWrite
  }

  ghost function Listed(root: Root): set<int> {
    {FREE_MAP_SECTOR, ROOT_DIR_SECTOR} + set n | n in root :: root[n]
  }

  ghost function OpenSectors(mem: Nodes): set<int> {
    set a | a in mem :: mem[a].sector
  }

  /** An inode is live while it is listed or open. */
  ghost function LiveSet(root: Root, mem: Nodes): set<int> {
    Listed(root) + OpenSectors(mem)
  }

  /** `hand` counts the references to an inode that the code running right now
      holds in its variables. */
  datatype Fs = Fs(bits: seq<bool>, headers: Headers, root: Root, mem: Nodes, open: seq<int>, files: Files,
                   hand: multiset<int>)

  /** The counters of the inode at address a tell the truth, its data is what is
      on disk, and it is marked removed exactly if it is no longer listed. */
  ghost predicate NodeOk(s: Fs, a: int)
    requires a in s.mem
  {
    var n := s.mem[a];
    && n.openCnt == |FilesOn(s.files, a)| + s.hand[a] && n.openCnt > 0
    && n.denyCnt == |DenyingOn(s.files, a)|
    && n.sector in s.headers && n.data == s.headers[n.sector]
    && (n.removed <==> n.sector !in Listed(s.root))
  }

  /** One structure per sector. */
  ghost predicate OneNode(mem: Nodes, a: int, b: int)
    requires a in mem && b in mem
  {
    mem[a].sector == mem[b].sector ==> a == b
  }

  ghost predicate FileOk(s: Fs, f: int)
    requires f in s.files
  {
    s.files[f].inode in s.mem && s.mem[s.files[f].inode].sector != ROOT_DIR_SECTOR
  }

  ghost predicate RootOk(root: Root) {
    && (forall n | n in root :: root[n] != FREE_MAP_SECTOR && root[n] != ROOT_DIR_SECTOR)
    && (forall n, m | n in root && m in root && n != m :: root[n] != root[m])
  }

  ghost predicate TableOk(s: Fs) {
    && Distinct(s.open) && (forall a :: a in s.open <==> a in s.mem)
    && (forall a, b | a in s.mem && b in s.mem :: OneNode(s.mem, a, b))
    && (forall a | a in s.hand :: a in s.mem)
  }

  /** The state between any two steps. */
  ghost predicate Ok(s: Fs) {
    && TableOk(s) && RootOk(s.root)
    && (forall a | a in s.mem :: NodeOk(s, a))
    && (forall f | f in s.files :: FileOk(s, f))
    && Storage(s.bits, s.headers, LiveSet(s.root, s.mem))
  }

  /** Writes are denied at most once per opener. */
  lemma DenyBound(s: Fs, a: int)
    requires Ok(s) && a in s.mem
    ensures 0 <= s.mem[a].denyCnt <= |FilesOn(s.files, a)| <= s.mem[a].openCnt
  {
    assert NodeOk(s, a);
    SubsetSize(DenyingOn(s.files, a), FilesOn(s.files, a));
  }

  lemma SubsetSize(t: set<int>, u: set<int>)
    requires t <= u
    ensures |t| <= |u|
  {
    assert u == t + (u - t);
  }

  /** No two inodes share a sector: two live files never overlap. */
  lemma LiveFilesApart(s: Fs, x: int, y: int)
    requires Ok(s) && x in LiveSet(s.root, s.mem) && y in LiveSet(s.root, s.mem) && x != y
    ensures x in s.headers && y in s.headers
    ensures var h, g := s.headers[x], s.headers[y];
      h.length > 0 && g.length > 0 ==> DisjointExtents(h.start, h.length, g.start, g.length)
    ensures !Owns(s.headers, x, y) && !Owns(s.headers, y, x)
  {
    assert Placed(s.bits, s.headers, x) && Placed(s.bits, s.headers, y) && NoOverlap(s.headers, x, y);
    var h, g := s.headers[x], s.headers[y];
    if h.length > 0 && g.length > 0 && !DisjointExtents(h.start, h.length, g.start, g.length) {
      var z := if h.start < g.start then g.start else h.start;
      assert Owns(s.headers, x, z) && Owns(s.headers, y, z);
    }
    assert Owns(s.headers, x, x) && Owns(s.headers, y, y);
  }
}
