/**
 The steps that file system calls are made of, as changes of the state, and the
 proof that each keeps it right (filesys/inode.c, filesys/file.c).
 */
module FsSteps {
  import opened Sequences
  import opened InodeIo
  import opened DirEntries
  import opened FsState

  // ---------- Opening ----------

  /** A second opener gets the structure that is there already. */
  ghost function Reopen(s: Fs, a: int): Fs
    requires a in s.mem
  {
    s.(mem := s.mem[a := s.mem[a].(openCnt := s.mem[a].openCnt + 1)], hand := s.hand + multiset{a})
  }

  // Changing counters moves no inode.
  lemma SameSectors(mem: Nodes, mem': Nodes)
    requires mem.Keys == mem'.Keys && forall a | a in mem :: mem'[a].sector == mem[a].sector
    ensures OpenSectors(mem') == OpenSectors(mem)
  {
  }

  lemma ReopenOk(s: Fs, a: int)
    requires Ok(s) && a in s.mem
    ensures Ok(Reopen(s, a))
  {
    var r := Reopen(s, a);
    SameSectors(s.mem, r.mem);
    forall b | b in r.mem ensures NodeOk(r, b) { assert NodeOk(s, b); }
    forall b, c | b in r.mem && c in r.mem ensures OneNode(r.mem, b, c) { assert OneNode(s.mem, b, c); }
    forall f | f in r.files ensures FileOk(r, f) { assert FileOk(s, f); }
  }

  /** The first opener of the inode in sector x makes a structure for it. */
  ghost function OpenNew(s: Fs, a: int, x: int): Fs
    requires x in s.headers
  {
    s.(mem := s.mem[a := MemInode(x, 1, false, 0, s.headers[x])], open := [a] + s.open, hand := s.hand + multiset{a})
  }

  lemma NoFiles(fs: Files, a: int)
    requires forall f | f in fs :: fs[f].inode != a
    ensures |FilesOn(fs, a)| == 0 && |DenyingOn(fs, a)| == 0
  {
    assert forall f :: f !in FilesOn(fs, a) && f !in DenyingOn(fs, a);
  }

  // A sector that was not open gets its one structure.
  lemma AddNode(mem: Nodes, a: int, n: MemInode)
    requires a !in mem && n.sector !in OpenSectors(mem) && forall b, c | b in mem && c in mem :: OneNode(mem, b, c)
    ensures var m := mem[a := n];
      && OpenSectors(m) == OpenSectors(mem) + {n.sector}
      && forall b, c | b in m && c in m :: OneNode(m, b, c)
  {
    var m := mem[a := n];
    forall x ensures x in OpenSectors(m) <==> x in OpenSectors(mem) || x == n.sector {
      if x in OpenSectors(mem) {
        var b :| b in mem && mem[b].sector == x;
        assert m[b].sector == x;
      }
      assert m[a].sector == n.sector;
    }
    forall b, c | b in m && c in m ensures OneNode(m, b, c) {
      if b != a && c != a { assert OneNode(mem, b, c); }
      if b != a { assert mem[b].sector in OpenSectors(mem); }
      if c != a { assert mem[c].sector in OpenSectors(mem); }
    }
  }

  lemma OpenNewOk(s: Fs, a: int, x: int)
    requires Ok(s) && a !in s.mem && x in Listed(s.root) && x !in OpenSectors(s.mem)
    ensures x in s.headers && Ok(OpenNew(s, a, x))
  {
    assert Placed(s.bits, s.headers, x);
    var r := OpenNew(s, a, x);
    DistinctPrepend(s.open, a);
    AddNode(s.mem, a, r.mem[a]);
    assert LiveSet(r.root, r.mem) == LiveSet(s.root, s.mem);
    forall f | f in r.files ensures FileOk(r, f) && r.files[f].inode != a { assert FileOk(s, f); }
    NoFiles(s.files, a);
    forall b | b in r.mem ensures NodeOk(r, b) {
      if b != a { assert NodeOk(s, b); }
    }
  }

  // ---------- Closing ----------

  ghost function CloseShared(s: Fs, a: int): Fs
    requires a in s.mem
  {
    s.(mem := s.mem[a := s.mem[a].(openCnt := s.mem[a].openCnt - 1)], hand := s.hand - multiset{a})
  }

  lemma CloseSharedOk(s: Fs, a: int)
    requires Ok(s) && a in s.hand && s.mem[a].openCnt > 1
    ensures Ok(CloseShared(s, a))
  {
    var r := CloseShared(s, a);
    SameSectors(s.mem, r.mem);
    forall b | b in r.mem ensures NodeOk(r, b) { assert NodeOk(s, b); }
    forall b, c | b in r.mem && c in r.mem ensures OneNode(r.mem, b, c) { assert OneNode(s.mem, b, c); }
    forall f | f in r.files ensures FileOk(r, f) { assert FileOk(s, f); }
  }

  /** The free map without the sectors of the inode in sector x. */
  ghost function Released(bits: seq<bool>, hs: Headers, x: int): (r: seq<bool>)
    ensures |r| == |bits| && forall k | 0 <= k < |bits| :: r[k] == (bits[k] && !Owns(hs, x, k))
  {
    seq(|bits|, k requires 0 <= k < |bits| => bits[k] && !Owns(hs, x, k))
  }

  /** The last closer drops the structure. */
  ghost function Dropped(s: Fs, a: int): Fs {
    s.(mem := s.mem - {a}, open := Without(s.open, {a}), hand := s.hand - multiset{a})
  }

  /** And it gives back the sectors of an inode that has been removed. */
  ghost function CloseLast(s: Fs, a: int): Fs
    requires a in s.mem
  {
    Dropped(s, a).(bits := if s.mem[a].removed then Released(s.bits, s.headers, s.mem[a].sector) else s.bits)
  }

  // Dropping the only structure of a sector.
  lemma DropNode(mem: Nodes, a: int)
    requires a in mem && forall b, c | b in mem && c in mem :: OneNode(mem, b, c)
    ensures OpenSectors(mem - {a}) == OpenSectors(mem) - {mem[a].sector}
  {
    var m := mem - {a};
    forall x ensures x in OpenSectors(m) <==> x in OpenSectors(mem) && x != mem[a].sector {
      if x in OpenSectors(m) {
        var b :| b in m && m[b].sector == x;
        assert OneNode(mem, a, b) && mem[b].sector == x;
      }
      if x in OpenSectors(mem) && x != mem[a].sector {
        var b :| b in mem && mem[b].sector == x;
        assert b in m && m[b].sector == x;
      }
    }
  }

  // An inode that has been removed is live no more; another one still is.
  lemma DroppedLive(s: Fs, a: int)
    requires Ok(s) && a in s.mem
    ensures var live, live' := LiveSet(s.root, s.mem), LiveSet(s.root, s.mem - {a});
      live' == if s.mem[a].removed then live - {s.mem[a].sector} else live
  {
    assert NodeOk(s, a) && s.mem[a].sector in OpenSectors(s.mem);
    DropNode(s.mem, a);
  }

  lemma DroppedOk(s: Fs, a: int)
    requires Ok(s) && a in s.hand && s.mem[a].openCnt == 1
    ensures Ok(Dropped(s, a))
  {
    var r := Dropped(s, a);
    DroppedLive(s, a);
    StorageSub(s.bits, s.headers, LiveSet(s.root, s.mem), LiveSet(r.root, r.mem));
    WithoutDistinct(s.open, {a});
    assert NodeOk(s, a) && s.hand[a] == 1 && |FilesOn(s.files, a)| == 0;
    forall b | b in r.mem ensures NodeOk(r, b) { assert NodeOk(s, b); }
    forall b, c | b in r.mem && c in r.mem ensures OneNode(r.mem, b, c) { assert OneNode(s.mem, b, c); }
    forall f | f in r.files ensures FileOk(r, f) {
      assert FileOk(s, f) && f !in FilesOn(s.files, a);
    }
  }

  /** No live inode owns any of these sectors. */
  ghost predicate Unowned(s: Fs, x: int, cnt: int) {
    forall t, k | t in LiveSet(s.root, s.mem) && x <= k < x + cnt :: !Owns(s.headers, t, k)
  }

  // The sectors of a removed inode are nobody's once its structure is gone.
  lemma DroppedUnowned(s: Fs, a: int)
    requires Ok(s) && a in s.mem && s.mem[a].removed
    ensures var n := s.mem[a];
      Unowned(Dropped(s, a), n.sector, 1) && Unowned(Dropped(s, a), n.data.start, DataSectors(n.data))
  {
    DroppedLive(s, a);
    var n, r := s.mem[a], Dropped(s, a);
    assert NodeOk(s, a) && n.sector in OpenSectors(s.mem) && n.sector in LiveSet(s.root, s.mem);
    forall t, k | t in LiveSet(r.root, r.mem) && Owns(s.headers, n.sector, k) ensures !Owns(s.headers, t, k) {
      assert NoOverlap(s.headers, t, n.sector);
    }
  }

  /** Giving back sectors that nobody owns does no harm. */
  lemma ReleasedOk(s: Fs, bits: seq<bool>)
    requires Ok(s) && |bits| == |s.bits|
    requires forall t, k | t in LiveSet(s.root, s.mem) && Owns(s.headers, t, k) && 0 <= k < |s.bits| ::
               bits[k] == s.bits[k]
    ensures Ok(s.(bits := bits))
  {
    StorageClear(s.bits, bits, s.headers, LiveSet(s.root, s.mem));
    WithBits(s, bits);
  }

  lemma CloseLastOk(s: Fs, a: int)
    requires Ok(s) && a in s.hand && s.mem[a].openCnt == 1
    ensures Ok(CloseLast(s, a))
  {
    DroppedOk(s, a);
    var r := Dropped(s, a);
    if s.mem[a].removed {
      DroppedLive(s, a);
      var x := s.mem[a].sector;
      assert x in OpenSectors(s.mem);
      forall t, k | t in LiveSet(r.root, r.mem) && Owns(s.headers, t, k) ensures !Owns(s.headers, x, k) {
        assert NoOverlap(s.headers, t, x);
      }
      ReleasedOk(r, Released(s.bits, s.headers, x));
    }
  }

  // ---------- Files ----------

  /** A new file takes over a reference. */
  ghost function ToFile(s: Fs, f: int, a: int): Fs {
    s.(files := s.files[f := File(a, false)], hand := s.hand - multiset{a})
  }

  // What adding file f, or changing the flag it had, does to the counts.
  lemma CountAdd(fs: Files, f: int, n: File, b: int)
    requires f !in fs
    ensures |FilesOn(fs[f := n], b)| == |FilesOn(fs, b)| + if n.inode == b then 1 else 0
    ensures |DenyingOn(fs[f := n], b)| == |DenyingOn(fs, b)| + if n.inode == b && n.denyWrite then 1 else 0
  {
    var gs := fs[f := n];
    if n.inode == b {
      assert FilesOn(gs, b) == FilesOn(fs, b) + {f};
    } else {
      assert FilesOn(gs, b) == FilesOn(fs, b);
    }
    if n.inode == b && n.denyWrite {
      assert DenyingOn(gs, b) == DenyingOn(fs, b) + {f};
    } else {
      assert DenyingOn(gs, b) == DenyingOn(fs, b);
    }
  }

  lemma CountDrop(fs: Files, f: int, b: int)
    requires f in fs
    ensures |FilesOn(fs - {f}, b)| == |FilesOn(fs, b)| - if fs[f].inode == b then 1 else 0
    ensures |DenyingOn(fs - {f}, b)| == |DenyingOn(fs, b)| - if fs[f].inode == b && fs[f].denyWrite then 1 else 0
  {
    CountAdd(fs - {f}, f, fs[f], b);
    assert (fs - {f})[f := fs[f]] == fs;
  }

  lemma ToFileOk(s: Fs, f: int, a: int)
    requires Ok(s) && f !in s.files && a in s.hand && s.mem[a].sector != ROOT_DIR_SECTOR
    ensures Ok(ToFile(s, f, a))
  {
    var r := ToFile(s, f, a);
    forall b | b in r.mem ensures NodeOk(r, b) {
      assert NodeOk(s, b);
      CountAdd(s.files, f, File(a, false), b);
    }
    forall g | g in r.files ensures FileOk(r, g) {
      if g != f { assert FileOk(s, g); }
    }
  }

  /** A file that is closed hands its reference back; it may not be denying
      writes any more. */
  ghost function FromFile(s: Fs, f: int): Fs
    requires f in s.files
  {
    s.(files := s.files - {f}, hand := s.hand + multiset{s.files[f].inode})
  }

  lemma FromFileOk(s: Fs, f: int)
    requires Ok(s) && f in s.files && !s.files[f].denyWrite
    ensures Ok(FromFile(s, f))
  {
    var r := FromFile(s, f);
    forall b | b in r.mem ensures NodeOk(r, b) {
      assert NodeOk(s, b);
      CountDrop(s.files, f, b);
    }
    forall g | g in r.files ensures FileOk(r, g) { assert FileOk(s, g); }
    assert FileOk(s, f);
  }

  /** Sets the deny flag of a file, and counts it in the inode. */
  ghost function SetDeny(s: Fs, f: int, v: bool): Fs
    requires f in s.files && s.files[f].inode in s.mem
  {
    var a := s.files[f].inode;
    var change := (if v then 1 else 0) - if s.files[f].denyWrite then 1 else 0;
    s.(files := s.files[f := File(a, v)], mem := s.mem[a := s.mem[a].(denyCnt := s.mem[a].denyCnt + change)])
  }

  lemma SetDenyOk(s: Fs, f: int, v: bool)
    requires Ok(s) && f in s.files
    ensures s.files[f].inode in s.mem && Ok(SetDeny(s, f, v))
  {
    assert FileOk(s, f);
    var r := SetDeny(s, f, v);
    SameSectors(s.mem, r.mem);
    forall b | b in r.mem ensures NodeOk(r, b) {
      assert NodeOk(s, b);
      CountDrop(s.files, f, b);
      CountAdd(s.files - {f}, f, r.files[f], b);
      assert (s.files - {f})[f := r.files[f]] == r.files;
    }
    forall b, c | b in r.mem && c in r.mem ensures OneNode(r.mem, b, c) { assert OneNode(s.mem, b, c); }
    forall g | g in r.files ensures FileOk(r, g) { assert FileOk(s, g); }
  }

  // ---------- Directory entries ----------

  /** Removing an entry and marking its inode, which is open, as removed. */
  ghost function Unlist(s: Fs, name: Name, a: int): Fs
    requires a in s.mem
  {
    s.(root := s.root - {name}, mem := s.mem[a := s.mem[a].(removed := true)])
  }

  lemma UnlistSectors(root: Root, name: Name)
    requires RootOk(root) && name in root
    ensures RootOk(root - {name}) && Listed(root - {name}) == Listed(root) - {root[name]}
  {
    var r := root - {name};
    forall x ensures x in Listed(r) <==> x in Listed(root) && x != root[name] {
      if x in Listed(root) && x != root[name] && x !in {FREE_MAP_SECTOR, ROOT_DIR_SECTOR} {
        var n :| n in root && root[n] == x;
        assert n in r && r[n] == x;
      }
    }
  }

  lemma UnlistOk(s: Fs, name: Name, a: int)
    requires Ok(s) && name in s.root && a in s.mem && s.mem[a].sector == s.root[name]
    ensures Ok(Unlist(s, name, a))
  {
    var r := Unlist(s, name, a);
    SameSectors(s.mem, r.mem);
    UnlistSectors(s.root, name);
    assert s.mem[a].sector in OpenSectors(s.mem);
    assert LiveSet(r.root, r.mem) == LiveSet(s.root, s.mem);
    forall b | b in r.mem ensures NodeOk(r, b) { assert NodeOk(s, b) && OneNode(s.mem, a, b); }
    forall b, c | b in r.mem && c in r.mem ensures OneNode(r.mem, b, c) { assert OneNode(s.mem, b, c); }
    forall f | f in r.files ensures FileOk(r, f) { assert FileOk(s, f); }
  }

  /** Adding an entry for an inode that is in place but not live. */
  ghost function List(s: Fs, name: Name, x: int): Fs {
    s.(root := s.root[name := x])
  }

  lemma ListOk(s: Fs, name: Name, x: int)
    requires Ok(s) && name !in s.root && x !in LiveSet(s.root, s.mem)
    requires Placed(s.bits, s.headers, x) && forall t | t in LiveSet(s.root, s.mem) :: NoOverlap(s.headers, x, t)
    ensures Ok(List(s, name, x))
  {
    var r := List(s, name, x);
    assert Listed(r.root) == Listed(s.root) + {x} by {
      assert forall n | n in s.root :: r.root[n] == s.root[n];
      assert r.root[name] == x;
    }
    assert LiveSet(r.root, r.mem) == LiveSet(s.root, s.mem) + {x};
    StorageAdd(s.bits, s.headers, LiveSet(s.root, s.mem), x);
    forall n | n in s.root ensures s.root[n] in Listed(s.root) {}
    forall b | b in r.mem ensures NodeOk(r, b) { assert NodeOk(s, b) && s.mem[b].sector in OpenSectors(s.mem); }
    forall f | f in r.files ensures FileOk(r, f) { assert FileOk(s, f); }
  }

  // ---------- The free map and headers ----------

  lemma WithBits(s: Fs, bits: seq<bool>)
    requires Ok(s) && Storage(bits, s.headers, LiveSet(s.root, s.mem))
    ensures Ok(s.(bits := bits))
  {
    var r := s.(bits := bits);
    forall b | b in r.mem ensures NodeOk(r, b) { assert NodeOk(s, b); }
    forall f | f in r.files ensures FileOk(r, f) { assert FileOk(s, f); }
  }

  lemma WriteHeaderOk(s: Fs, x: int, h: Header)
    requires Ok(s) && x !in LiveSet(s.root, s.mem)
    ensures Ok(s.(headers := s.headers[x := h]))
  {
    var r := s.(headers := s.headers[x := h]);
    StorageHeader(s.bits, s.headers, r.headers, LiveSet(s.root, s.mem), x, h);
    forall b | b in r.mem ensures NodeOk(r, b) { assert NodeOk(s, b) && s.mem[b].sector in OpenSectors(s.mem); }
    forall f | f in r.files ensures FileOk(r, f) { assert FileOk(s, f); }
  }
}
