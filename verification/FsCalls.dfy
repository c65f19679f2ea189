/**
 What the calls of the file system do to its state, put together from the steps,
 and what they do to the accounting of sectors.
 */
module FsCalls {
  import opened Sequences
  import opened Bitmap
  import opened InodeIo
  import opened DirEntries
  import opened FsState
  import opened FsSteps

  /** A pointer, or the outcome of an allocation. */
  datatype Ptr = NoPtr | Ptr(addr: int)

  const ROOT_SLOTS: int := 16

  /** A name that dir_add takes; see Directory.Dir.Add and DirEntries.FullTable. */
  predicate CanAdd(root: Root, name: Name) {
    0 < |name| <= NAME_MAX && name !in root && |root| < ROOT_SLOTS
  }

  // ---------- Opening and closing ----------

  /** Which structure inode_open returns. */
  ghost predicate OpenedTo(s: Fs, sector: int, memory: Ptr, r: Ptr) {
    if sector in OpenSectors(s.mem)
    then r.Ptr? && r.addr in s.mem && s.mem[r.addr].sector == sector
    else r == memory
  }

  /** The state after inode_open returned r. */
  ghost function Opened(s: Fs, sector: int, r: Ptr): Fs
    requires sector in s.headers
  {
    if r.NoPtr? then s else if r.addr in s.mem then Reopen(s, r.addr) else OpenNew(s, r.addr, sector)
  }

  /** The state after inode_close. */
  ghost function Closed(s: Fs, a: int): Fs
    requires a in s.mem
  {
    if s.mem[a].openCnt == 1 then CloseLast(s, a) else CloseShared(s, a)
  }

  lemma OpenedOk(s: Fs, x: int, memory: Ptr, r: Ptr)
    requires Ok(s) && x in Listed(s.root) && (memory.Ptr? ==> memory.addr !in s.mem) && OpenedTo(s, x, memory, r)
    ensures x in s.headers && Ok(Opened(s, x, r))
    ensures r.Ptr? ==> var t := Opened(s, x, r);
      r.addr in t.mem && r.addr in t.hand && t.mem[r.addr].sector == x && KeepsSectors(s.mem, t.mem)
  {
    assert Placed(s.bits, s.headers, x);
    if r.Ptr? {
      if r.addr in s.mem { ReopenOk(s, r.addr); } else { OpenNewOk(s, r.addr, x); }
    }
  }

  /** No structure changes the sector it is for. */
  ghost predicate KeepsSectors(m: Nodes, n: Nodes) {
    forall a | a in m && a in n :: m[a].sector == n[a].sector
  }

  lemma ClosedOk(s: Fs, a: int)
    requires Ok(s) && a in s.hand
    ensures a in s.mem && Ok(Closed(s, a)) && KeepsSectors(s.mem, Closed(s, a).mem)
  {
    assert NodeOk(s, a);
    if s.mem[a].openCnt == 1 { CloseLastOk(s, a); } else { CloseSharedOk(s, a); }
  }

  // Header and data of an inode are in use, and clearing both clears what it owns.
  lemma ReleaseBits(s: Fs, a: int)
    requires Ok(s) && a in s.mem
    ensures var x, h := s.mem[a].sector, s.mem[a].data;
      && 0 <= x && 0 <= h.start && 0 <= h.length && Group(s.bits, x, 1, true)
      && Group(SetRange(s.bits, x, 1, false), h.start, DataSectors(h), true)
      && SetRange(SetRange(s.bits, x, 1, false), h.start, DataSectors(h), false) == Released(s.bits, s.headers, x)
  {
    var x, h, hs := s.mem[a].sector, s.mem[a].data, s.headers;
    assert NodeOk(s, a) && x in OpenSectors(s.mem) && Placed(s.bits, hs, x);
    assert Owns(hs, x, x);
    forall k | h.start <= k < h.start + DataSectors(h) ensures 0 <= k < |s.bits| && s.bits[k] && k != x {
      assert Owns(hs, x, k);
    }
  }

  /** Between calls a structure is in memory exactly if a file has it open, and
      the table of open inodes follows from the open files. */
  lemma HeldByFiles(s: Fs, a: int)
    requires Ok(s) && s.hand == multiset{}
    ensures a in s.mem <==> exists f :: f in s.files && s.files[f].inode == a
  {
    if a in s.mem {
      assert NodeOk(s, a);
      if forall f | f in s.files :: s.files[f].inode != a { NoFiles(s.files, a); }
    }
    forall f | f in s.files && s.files[f].inode == a ensures a in s.mem { assert FileOk(s, f); }
  }

  lemma TableDetermined(s: Fs, t: Fs)
    requires Ok(s) && Ok(t) && s.hand == t.hand == multiset{} && KeepsSectors(s.mem, t.mem)
    requires s.files == t.files && s.root == t.root && s.headers == t.headers
    ensures s.mem == t.mem
  {
    forall a ensures a in s.mem <==> a in t.mem {
      HeldByFiles(s, a);
      HeldByFiles(t, a);
    }
    forall a | a in s.mem ensures s.mem[a] == t.mem[a] {
      assert NodeOk(s, a) && NodeOk(t, a);
    }
  }

  lemma RootNotOpen(s: Fs)
    requires Ok(s) && s.hand == multiset{}
    ensures ROOT_DIR_SECTOR !in OpenSectors(s.mem)
  {
    forall a | a in s.mem ensures s.mem[a].sector != ROOT_DIR_SECTOR {
      HeldByFiles(s, a);
      var f :| f in s.files && s.files[f].inode == a;
      assert FileOk(s, f);
    }
  }

  /** Closing an inode that one has just opened undoes the opening, whatever
      happened to the rest of the state in between. */
  lemma OpenThenClose(s: Fs, a: int, x: int, r: Fs)
    requires a !in s.mem && a !in s.open && x in s.headers
    requires r.mem == OpenNew(s, a, x).mem && r.open == OpenNew(s, a, x).open && r.hand == OpenNew(s, a, x).hand
    ensures CloseLast(r, a) == r.(mem := s.mem, open := s.open, hand := s.hand)
  {
    WithoutAbsent(s.open, {a});
    assert Without([a] + s.open, {a}) == Without(s.open, {a}) by { assert ([a] + s.open)[1..] == s.open; }
    assert r.mem - {a} == s.mem;
    assert s.hand + multiset{a} - multiset{a} == s.hand;
  }

  lemma ReopenThenClose(s: Fs, a: int)
    requires a in s.mem && s.mem[a].openCnt > 0
    ensures Closed(Reopen(s, a), a) == s
  {
    var t := Reopen(s, a);
    assert t.mem[a := t.mem[a].(openCnt := t.mem[a].openCnt - 1)] == s.mem;
    assert s.hand + multiset{a} - multiset{a} == s.hand;
  }

  /** Closing what inode_open returned undoes it. */
  lemma OpenedClosed(s: Fs, x: int, memory: Ptr, r: Ptr)
    requires Ok(s) && x in s.headers && (memory.Ptr? ==> memory.addr !in s.mem) && OpenedTo(s, x, memory, r) && r.Ptr?
    ensures Closed(Opened(s, x, r), r.addr) == s
  {
    if r.addr in s.mem {
      assert NodeOk(s, r.addr);
      ReopenThenClose(s, r.addr);
    } else {
      OpenThenClose(s, r.addr, x, OpenNew(s, r.addr, x));
    }
  }

  /** Opening another inode with the root directory open for the while is the
      same as opening it. */
  lemma LookedUp(s: Fs, d: int, x: int, memory: Ptr, r: Ptr)
    requires Ok(s) && s.hand == multiset{} && d !in s.mem && x in Listed(s.root) && x != ROOT_DIR_SECTOR
    requires ROOT_DIR_SECTOR in s.headers && OpenedTo(OpenNew(s, d, ROOT_DIR_SECTOR), x, memory, r)
    requires memory.Ptr? ==> memory.addr !in s.mem && memory.addr != d
    ensures OpenedTo(s, x, memory, r) && x in s.headers
    ensures var u := Opened(OpenNew(s, d, ROOT_DIR_SECTOR), x, r);
      d in u.mem && d in u.hand && Ok(u) && Closed(u, d) == Opened(s, x, r)
  {
    RootNotOpen(s);
    var t := OpenNew(s, d, ROOT_DIR_SECTOR);
    OpenNewOk(s, d, ROOT_DIR_SECTOR);
    AddNode(s.mem, d, t.mem[d]);
    OpenedOk(t, x, memory, r);
    var u := Opened(t, x, r);
    assert t.mem[d].sector == ROOT_DIR_SECTOR;
    if r.NoPtr? {
      OpenThenClose(s, d, ROOT_DIR_SECTOR, t);
    } else {
      LookedUpClose(s, d, x, r.addr);
    }
  }

  // The list after the root directory, d, has been taken off again.
  lemma WithoutRoot(open: seq<int>, d: int, a: int)
    requires d !in open && a != d
    ensures Without([d] + open, {d}) == open && Without([a] + ([d] + open), {d}) == [a] + open
  {
    WithoutAbsent(open, {d});
    assert ([d] + open)[1..] == open && ([a] + ([d] + open))[1..] == [d] + open;
  }

  lemma LookedUpClose(s: Fs, d: int, x: int, a: int)
    requires d !in s.mem && d !in s.open && a != d && s.hand == multiset{}
    requires ROOT_DIR_SECTOR in s.headers && x in s.headers
    ensures CloseLast(Opened(OpenNew(s, d, ROOT_DIR_SECTOR), x, Ptr(a)), d) == Opened(s, x, Ptr(a))
  {
    WithoutRoot(s.open, d, a);
    if a in s.mem { RootUnderReopen(s, d, a); } else { RootUnderNew(s, d, x, a); }
  }

  lemma RootUnderReopen(s: Fs, d: int, a: int)
    requires d !in s.mem && a != d && a in s.mem && s.hand == multiset{} && ROOT_DIR_SECTOR in s.headers
    requires Without([d] + s.open, {d}) == s.open
    ensures CloseLast(Reopen(OpenNew(s, d, ROOT_DIR_SECTOR), a), d) == Reopen(s, a)
  {
    var u := Reopen(OpenNew(s, d, ROOT_DIR_SECTOR), a);
    assert u.mem - {d} == Reopen(s, a).mem;
  }

  lemma RootUnderNew(s: Fs, d: int, x: int, a: int)
    requires d !in s.mem && a != d && a !in s.mem && s.hand == multiset{}
    requires ROOT_DIR_SECTOR in s.headers && x in s.headers && Without([a] + ([d] + s.open), {d}) == [a] + s.open
    ensures CloseLast(OpenNew(OpenNew(s, d, ROOT_DIR_SECTOR), a, x), d) == OpenNew(s, a, x)
  {
    var u, v := OpenNew(OpenNew(s, d, ROOT_DIR_SECTOR), a, x), OpenNew(s, a, x);
    assert u.open == [a] + ([d] + s.open) && v.open == [a] + s.open;
    assert u.mem - {d} == v.mem && u.hand - multiset{d} == v.hand;
    assert !u.mem[d].removed && CloseLast(u, d) == u.(mem := v.mem, open := v.open, hand := v.hand);
  }

  // ---------- Closing files ----------

  /** The counter of an inode has room for one more denial, and is positive while
      there is one. */
  lemma DenyRoom(s: Fs, f: int)
    requires Ok(s) && f in s.files
    ensures var a := s.files[f].inode;
      a in s.mem && (if s.files[f].denyWrite then 0 < s.mem[a].denyCnt else s.mem[a].denyCnt < s.mem[a].openCnt)
    ensures s.mem[s.files[f].inode].denyCnt <= s.mem[s.files[f].inode].openCnt
  {
    var a := s.files[f].inode;
    assert FileOk(s, f) && NodeOk(s, a);
    var ds, fs := DenyingOn(s.files, a), FilesOn(s.files, a);
    SubsetSize(ds, fs);
    if s.files[f].denyWrite { SubsetSize({f}, ds); } else { SubsetSize(ds + {f}, fs); }
  }

  /** file_close: stop denying writes, then drop the reference. */
  ghost function FileClosed(s: Fs, f: int): Fs
    requires f in s.files && s.files[f].inode in s.mem
  {
    Closed(FromFile(SetDeny(s, f, false), f), s.files[f].inode)
  }

  /** No other file has the inode of f open. */
  ghost predicate OnlyFile(fs: Files, f: int)
    requires f in fs
  {
    forall g | g in fs && g != f :: fs[g].inode != fs[f].inode
  }

  lemma OneFileLeft(fs: Files, f: int)
    requires f in fs
    ensures |FilesOn(fs, fs[f].inode)| == 1 <==> OnlyFile(fs, f)
  {
    var a := fs[f].inode;
    if OnlyFile(fs, f) {
      forall g ensures g in FilesOn(fs, a) <==> g == f {}
      assert FilesOn(fs, a) == {f};
    } else {
      var g :| g in fs && g != f && fs[g].inode == a;
      SubsetSize({f, g}, FilesOn(fs, a));
    }
  }

  lemma FileClosedOk(s: Fs, f: int)
    requires Ok(s) && f in s.files
    ensures s.files[f].inode in s.mem && Ok(FileClosed(s, f))
    ensures var t := FromFile(SetDeny(s, f, false), f);
      Ok(SetDeny(s, f, false)) && Ok(t) && s.files[f].inode in t.hand
  {
    SetDenyOk(s, f, false);
    var t := SetDeny(s, f, false);
    FromFileOk(t, f);
    ClosedOk(FromFile(t, f), s.files[f].inode);
  }

  /** Closing a file changes the free map exactly if its inode is removed and this
      was the last file on it; then all the sectors of the inode become free. */
  lemma FileClosedIs(s: Fs, f: int)
    requires Ok(s) && f in s.files && s.hand == multiset{} && s.files[f].inode in s.mem
    ensures var n, t := s.mem[s.files[f].inode], FileClosed(s, f);
      && t.files == s.files - {f} && t.root == s.root && t.headers == s.headers && t.hand == multiset{}
      && t.bits == if n.removed && OnlyFile(s.files, f) then Released(s.bits, s.headers, n.sector) else s.bits
  {
    var a := s.files[f].inode;
    assert NodeOk(s, a);
    OneFileLeft(s.files, f);
    var t := FromFile(SetDeny(s, f, false), f);
    assert t.files == s.files - {f};
    assert t.mem[a].openCnt == s.mem[a].openCnt == |FilesOn(s.files, a)|;
  }

  // ---------- Removing ----------

  /** filesys_remove once the inode of the name is open as r. */
  ghost function Removed(s: Fs, name: Name, a: int): Fs
    requires a in s.mem
  {
    Closed(Unlist(s, name, a), a)
  }

  lemma RemovedOk(s: Fs, name: Name, a: int)
    requires Ok(s) && name in s.root && a in s.hand && a in s.mem && s.mem[a].sector == s.root[name]
    ensures Ok(Unlist(s, name, a)) && Ok(Removed(s, name, a))
  {
    UnlistOk(s, name, a);
    ClosedOk(Unlist(s, name, a), a);
  }

  /** Removing a file that nobody has open frees its sectors at once. */
  lemma RemovedIs(s: Fs, name: Name, memory: Ptr, r: Ptr)
    requires Ok(s) && name in s.root && s.root[name] in s.headers && (memory.Ptr? ==> memory.addr !in s.mem)
    requires OpenedTo(s, s.root[name], memory, r) && r.Ptr?
    ensures r.addr in Opened(s, s.root[name], r).mem
    ensures var x, t := s.root[name], Removed(Opened(s, s.root[name], r), name, r.addr);
      && t.root == s.root - {name} && t.headers == s.headers && t.files == s.files && t.hand == s.hand
      && KeepsSectors(s.mem, t.mem)
      && t.bits == if x in OpenSectors(s.mem) then s.bits else Released(s.bits, s.headers, x)
  {
    var x := s.root[name];
    var u := Opened(s, x, r);
    if r.addr in s.mem { assert NodeOk(s, r.addr); }
    var v := Unlist(u, name, r.addr);
    assert v.mem[r.addr].openCnt == 1 <==> x !in OpenSectors(s.mem);
    assert s.hand + multiset{r.addr} - multiset{r.addr} == s.hand;
  }

  // The state with the root directory, d, and the inode to be removed open.
  lemma RemovingInRoot(s: Fs, d: int, name: Name, memory: Ptr, r: Ptr)
    requires Ok(s) && s.hand == multiset{} && d !in s.mem && name in s.root && ROOT_DIR_SECTOR in s.headers
    requires OpenedTo(OpenNew(s, d, ROOT_DIR_SECTOR), s.root[name], memory, r) && r.Ptr? && s.root[name] in s.headers
    requires memory.Ptr? ==> memory.addr !in s.mem && memory.addr != d
    ensures var t := OpenNew(s, d, ROOT_DIR_SECTOR);
      && Ok(t) && s.root[name] in Listed(s.root)
      && (s.root[name] in OpenSectors(t.mem) <==> s.root[name] in OpenSectors(s.mem))
    ensures var u := Opened(OpenNew(s, d, ROOT_DIR_SECTOR), s.root[name], r);
      r.addr in u.mem && Ok(Unlist(u, name, r.addr)) && Ok(Removed(u, name, r.addr))
  {
    RootNotOpen(s);
    OpenNewOk(s, d, ROOT_DIR_SECTOR);
    AddNode(s.mem, d, OpenNew(s, d, ROOT_DIR_SECTOR).mem[d]);
    assert s.root[name] in Listed(s.root);
    OpenedOk(OpenNew(s, d, ROOT_DIR_SECTOR), s.root[name], memory, r);
    RemovedOk(Opened(OpenNew(s, d, ROOT_DIR_SECTOR), s.root[name], r), name, r.addr);
  }

  /** What removing a name does: only the name goes, and the sectors of its inode
      unless a file has it open. */
  ghost predicate RemovedFor(s: Fs, name: Name, w: Fs)
    requires name in s.root
  {
    && w.root == s.root - {name} && w.headers == s.headers && w.files == s.files && w.hand == multiset{}
    && KeepsSectors(s.mem, w.mem)
    && w.bits == if s.root[name] in OpenSectors(s.mem) then s.bits else Released(s.bits, s.headers, s.root[name])
  }

  /** Removing a file, with the root directory closed last: its sectors are free
      at once unless a file has it open. */
  lemma RemovedInRoot(s: Fs, d: int, name: Name, memory: Ptr, r: Ptr)
    requires Ok(s) && s.hand == multiset{} && d !in s.mem && name in s.root && ROOT_DIR_SECTOR in s.headers
    requires OpenedTo(OpenNew(s, d, ROOT_DIR_SECTOR), s.root[name], memory, r) && r.Ptr? && s.root[name] in s.headers
    requires memory.Ptr? ==> memory.addr !in s.mem && memory.addr != d
    requires r.addr in Opened(OpenNew(s, d, ROOT_DIR_SECTOR), s.root[name], r).mem
    ensures var v := Removed(Opened(OpenNew(s, d, ROOT_DIR_SECTOR), s.root[name], r), name, r.addr);
      && Ok(v) && d in v.hand && d in v.mem && v.mem[d].sector == ROOT_DIR_SECTOR && Ok(Closed(v, d))
    ensures var v := Removed(Opened(OpenNew(s, d, ROOT_DIR_SECTOR), s.root[name], r), name, r.addr);
      RemovedFor(s, name, Closed(v, d))
  {
    var t := OpenNew(s, d, ROOT_DIR_SECTOR);
    RemovingInRoot(s, d, name, memory, r);
    RemovedIs(t, name, memory, r);
    var v := Removed(Opened(t, s.root[name], r), name, r.addr);
    RootStays(s, d, v);
    RootClosedLast(s, v, d, name);
  }

  // The reference to the root directory is still there.
  lemma RootStays(s: Fs, d: int, v: Fs)
    requires Ok(v) && ROOT_DIR_SECTOR in s.headers && d !in s.mem && s.hand == multiset{}
    requires v.hand == OpenNew(s, d, ROOT_DIR_SECTOR).hand && KeepsSectors(OpenNew(s, d, ROOT_DIR_SECTOR).mem, v.mem)
    ensures v.hand == multiset{d} && d in v.mem && v.mem[d].sector == ROOT_DIR_SECTOR && KeepsSectors(s.mem, v.mem)
  {
    var t := OpenNew(s, d, ROOT_DIR_SECTOR);
    assert d in v.hand && t.mem[d].sector == ROOT_DIR_SECTOR;
    forall a | a in s.mem && a in v.mem ensures s.mem[a].sector == v.mem[a].sector { assert t.mem[a] == s.mem[a]; }
  }

  lemma RootClosedLast(s: Fs, v: Fs, d: int, name: Name)
    requires Ok(v) && v.hand == multiset{d} && d in v.mem && v.mem[d].sector == ROOT_DIR_SECTOR && name in s.root
    requires v.root == s.root - {name} && v.headers == s.headers && v.files == s.files && KeepsSectors(s.mem, v.mem)
    requires v.bits == if s.root[name] in OpenSectors(s.mem) then s.bits else Released(s.bits, s.headers, s.root[name])
    ensures Ok(Closed(v, d)) && RemovedFor(s, name, Closed(v, d))
  {
    ClosedOk(v, d);
    assert NodeOk(v, d);
  }

  /** The root directory can be opened, which changes nothing else, and closed. */
  lemma RootOpened(s: Fs, d: int)
    requires Ok(s) && s.hand == multiset{} && d !in s.mem
    ensures ROOT_DIR_SECTOR in s.headers
    ensures var t := OpenNew(s, d, ROOT_DIR_SECTOR);
      && Ok(t) && OpenSectors(t.mem) == OpenSectors(s.mem) + {ROOT_DIR_SECTOR}
      && d in t.hand && d in t.mem && Closed(t, d) == s
  {
    RootNotOpen(s);
    OpenNewOk(s, d, ROOT_DIR_SECTOR);
    var t := OpenNew(s, d, ROOT_DIR_SECTOR);
    AddNode(s.mem, d, t.mem[d]);
    OpenThenClose(s, d, ROOT_DIR_SECTOR, t);
  }

  // ---------- Accounting ----------

  /** Every sector marked in use belongs to a live inode. */
  ghost predicate Accounted(s: Fs) {
    forall x | 0 <= x < |s.bits| && s.bits[x] :: exists t :: t in LiveSet(s.root, s.mem) && Owns(s.headers, t, x)
  }

  lemma ClosedAccounted(s: Fs, a: int)
    requires Ok(s) && a in s.hand && Accounted(s)
    ensures a in s.mem && Accounted(Closed(s, a))
  {
    ClosedOk(s, a);
    var r := Closed(s, a);
    if s.mem[a].openCnt == 1 {
      DroppedLive(s, a);
    } else {
      SameSectors(s.mem, r.mem);
    }
    forall x | 0 <= x < |r.bits| && r.bits[x] ensures exists t :: t in LiveSet(r.root, r.mem) && Owns(r.headers, t, x) {
      var t :| t in LiveSet(s.root, s.mem) && Owns(s.headers, t, x);
      assert t in LiveSet(r.root, r.mem);
    }
  }

  lemma SameLiveAccounted(s: Fs, t: Fs)
    requires Accounted(s) && t.bits == s.bits && t.headers == s.headers
    requires LiveSet(t.root, t.mem) == LiveSet(s.root, s.mem)
    ensures Accounted(t)
  {
  }

  /** Closing a file keeps every sector accounted for. */
  lemma FileClosedAccounted(s: Fs, f: int)
    requires Ok(s) && f in s.files && Accounted(s)
    ensures s.files[f].inode in s.mem && Accounted(FileClosed(s, f))
  {
    FileClosedOk(s, f);
    LetGoAccounted(s, f);
    ClosedAccounted(FromFile(SetDeny(s, f, false), f), s.files[f].inode);
  }

  lemma LetGoAccounted(s: Fs, f: int)
    requires Accounted(s) && f in s.files && s.files[f].inode in s.mem
    ensures Accounted(FromFile(SetDeny(s, f, false), f))
  {
    var t := FromFile(SetDeny(s, f, false), f);
    SameSectors(s.mem, t.mem);
    SameLiveAccounted(s, t);
  }

  /** So does opening one. */
  lemma OpenedAccounted(s: Fs, x: int, memory: Ptr, r: Ptr, f: int)
    requires Ok(s) && x in Listed(s.root) && x in s.headers && (memory.Ptr? ==> memory.addr !in s.mem)
    requires OpenedTo(s, x, memory, r) && r.Ptr? && Accounted(s)
    ensures Accounted(ToFile(Opened(s, x, r), f, r.addr))
  {
    var t := Opened(s, x, r);
    if r.addr in s.mem { SameSectors(s.mem, t.mem); } else { AddNode(s.mem, r.addr, t.mem[r.addr]); }
    assert LiveSet(t.root, t.mem) == LiveSet(s.root, s.mem);
    SameLiveAccounted(s, ToFile(t, f, r.addr));
  }

  /** And so does removing one. */
  lemma RemovedAccounted(s: Fs, name: Name, w: Fs)
    requires Ok(s) && s.hand == multiset{} && name in s.root && Accounted(s) && Ok(w) && RemovedFor(s, name, w)
    ensures Accounted(w)
  {
    forall a ensures a in s.mem <==> a in w.mem {
      HeldByFiles(s, a);
      HeldByFiles(w, a);
    }
    assert s.mem.Keys == w.mem.Keys;
    SameSectors(s.mem, w.mem);
    UnlistSectors(s.root, name);
    forall x | 0 <= x < |w.bits| && w.bits[x] ensures exists t :: t in LiveSet(w.root, w.mem) && Owns(w.headers, t, x) {
      var t :| t in LiveSet(s.root, s.mem) && Owns(s.headers, t, x);
      assert t in LiveSet(w.root, w.mem);
    }
  }

  // ---------- Creating ----------

  /** A new inode in sector x, which has been taken, with its data from `start` on. */
  ghost function WithData(s: Fs, x: int, start: int, size: int): Fs {
    s.(bits := SetRange(s.bits, start, BytesToSectors(size), true), headers := s.headers[x := Header(start, size)])
  }

  /** A new inode with header and data allocated. */
  ghost function Allocated(s: Fs, x: int, start: int, size: int): Fs {
    WithData(s.(bits := Taken(s.bits, x)), x, start, size)
  }

  /** No cnt consecutive sectors are free. */
  ghost predicate NoSpace(bits: seq<bool>, cnt: int) {
    FirstGroup(bits, 0, cnt, false, BitmapError)
  }

  ghost function Taken(bits: seq<bool>, x: int): seq<bool> {
    SetRange(bits, x, 1, true)
  }

  // A free sector belongs to no live inode.
  lemma FreshSector(s: Fs, x: int)
    requires Ok(s) && 0 <= x < |s.bits| && !s.bits[x]
    ensures forall t | t in LiveSet(s.root, s.mem) :: !Owns(s.headers, t, x)
    ensures x !in LiveSet(s.root, s.mem) && x != 0
  {
    forall t | t in LiveSet(s.root, s.mem) ensures !Owns(s.headers, t, x) && t != x {
      assert Placed(s.bits, s.headers, t) && Owns(s.headers, t, t);
    }
  }

  /** Inode x is in place, but not live, and shares no sector with any live one. */
  ghost predicate Detached(s: Fs, x: int) {
    && Placed(s.bits, s.headers, x) && x !in LiveSet(s.root, s.mem)
    && forall y | y in LiveSet(s.root, s.mem) :: NoOverlap(s.headers, x, y)
  }

  lemma WithDataOk(s: Fs, x: int, start: int, size: int)
    requires Ok(s) && size >= 0 && 0 <= x < |s.bits| && s.bits[x] && Unowned(s, x, 1)
    requires Group(s.bits, start, BytesToSectors(size), false)
    ensures Ok(WithData(s, x, start, size)) && Detached(WithData(s, x, start, size), x)
  {
    var t, live, n := WithData(s, x, start, size), LiveSet(s.root, s.mem), BytesToSectors(size);
    forall y | y in live ensures y != x { assert Placed(s.bits, s.headers, y) && Owns(s.headers, y, y); }
    StorageMark(s.bits, t.bits, s.headers, live);
    WithBits(s, t.bits);
    WriteHeaderOk(s.(bits := t.bits), x, Header(start, size));
    forall k | start <= k < start + n ensures k != x && !s.bits[k] { assert s.bits[k] == false; }
    forall y | y in live ensures NoOverlap(t.headers, x, y) { WithDataApart(s, x, start, size, y); }
  }

  lemma WithDataApart(s: Fs, x: int, start: int, size: int, y: int)
    requires Ok(s) && Unowned(s, x, 1) && Group(s.bits, start, BytesToSectors(size), false)
    requires y in LiveSet(s.root, s.mem) && y != x
    ensures NoOverlap(WithData(s, x, start, size).headers, x, y)
  {
    var hs := WithData(s, x, start, size).headers;
    forall k | Owns(hs, x, k) ensures !Owns(hs, y, k) {
      assert Owns(hs, y, k) <==> Owns(s.headers, y, k);
      if k != x {
        assert s.bits[k] == false;
        FreshSector(s, k);
      }
    }
  }

  lemma TakenOk(s: Fs, x: int)
    requires Ok(s) && Group(s.bits, x, 1, false)
    ensures Ok(s.(bits := Taken(s.bits, x))) && Unowned(s, x, 1) && x !in LiveSet(s.root, s.mem)
  {
    assert s.bits[x] == false;
    FreshSector(s, x);
    StorageMark(s.bits, Taken(s.bits, x), s.headers, LiveSet(s.root, s.mem));
    WithBits(s, Taken(s.bits, x));
  }

  lemma AllocatedOk(s: Fs, x: int, start: int, size: int)
    requires Ok(s) && size >= 0 && Group(s.bits, x, 1, false)
    requires Group(Taken(s.bits, x), start, BytesToSectors(size), false)
    ensures Ok(Allocated(s, x, start, size)) && Detached(Allocated(s, x, start, size), x)
    ensures x !in LiveSet(s.root, s.mem)
  {
    TakenOk(s, x);
    WithDataOk(s.(bits := Taken(s.bits, x)), x, start, size);
  }

  /** filesys_create, given where header and data went. */
  ghost function Created(s: Fs, name: Name, size: int, header: Found, data: Found): Fs
    requires data.At? ==> header.At?
  {
    if !data.At? then s
    else
      var t := Allocated(s, header.idx, data.idx, size);
      if CanAdd(s.root, name) then List(t, name, header.idx)
      else t.(bits := SetRange(t.bits, header.idx, 1, false))
  }

  /** The header gets the first free sector and the data the first run after that. */
  ghost predicate Placement(bits: seq<bool>, size: int, header: Found, data: Found) {
    && (header.At? ==> FirstGroup(bits, 0, 1, false, header))
    && (data.At? ==> header.At? && FirstGroup(Taken(bits, header.idx), 0, BytesToSectors(size), false, data))
  }

  /** There is a free sector for the header and then a run of free ones for the data. */
  ghost predicate RoomFor(bits: seq<bool>, size: int) {
    exists x: nat :: FirstGroup(bits, 0, 1, false, At(x)) && !NoSpace(Taken(bits, x), BytesToSectors(size))
  }

  lemma RoomAt(bits: seq<bool>, size: int, x: nat)
    requires FirstGroup(bits, 0, 1, false, At(x))
    ensures RoomFor(bits, size) <==> !NoSpace(Taken(bits, x), BytesToSectors(size))
  {
    if RoomFor(bits, size) {
      var y: nat :| FirstGroup(bits, 0, 1, false, At(y)) && !NoSpace(Taken(bits, y), BytesToSectors(size));
      assert Group(bits, y, 1, false) && Group(bits, x, 1, false);
      assert y == x;
    }
  }

  /** The state after an inode has been made in sector x and entered. */
  ghost function EntryMade(s: Fs, name: Name, x: int, size: int, data: Found): Fs {
    if !data.At? then s
    else
      var t := WithData(s, x, data.idx, size);
      if CanAdd(s.root, name) then List(t, name, x) else t
  }

  // The header's sector can be given back when the name was not entered.
  lemma EntryFailed(s: Fs, name: Name, x: int, size: int, data: Found)
    requires Ok(s) && size >= 0 && Group(s.bits, x, 1, false) && !(data.At? && CanAdd(s.root, name))
    requires data.At? ==> Group(Taken(s.bits, x), data.idx, BytesToSectors(size), false)
    ensures var t := EntryMade(s.(bits := Taken(s.bits, x)), name, x, size, data);
      && Group(t.bits, x, 1, true) && Unowned(t, x, 1)
      && t.(bits := SetRange(t.bits, x, 1, false)) == Created(s, name, size, At(x), data)
  {
    assert s.bits[x] == false;
    TakenOk(s, x);
    if data.At? {
      AllocatedOk(s, x, data.idx, size);
      assert Owns(Allocated(s, x, data.idx, size).headers, x, x);
    } else {
      assert SetRange(Taken(s.bits, x), x, 1, false) == s.bits;
    }
  }

  lemma CreatedOk(s: Fs, name: Name, size: int, header: Found, data: Found)
    requires Ok(s) && size >= 0 && Placement(s.bits, size, header, data)
    ensures Ok(Created(s, name, size, header, data))
    ensures data.At? && CanAdd(s.root, name) ==> header.idx !in LiveSet(s.root, s.mem)
  {
    if data.At? {
      var t, x := Allocated(s, header.idx, data.idx, size), header.idx;
      AllocatedOk(s, x, data.idx, size);
      if CanAdd(s.root, name) {
        ListOk(t, name, x);
      } else {
        var bits := SetRange(t.bits, x, 1, false);
        forall y, k | y in LiveSet(s.root, s.mem) && Owns(t.headers, y, k) && 0 <= k < |t.bits|
          ensures bits[k] == t.bits[k]
        {
          assert NoOverlap(t.headers, x, y);
        }
        StorageClear(t.bits, bits, t.headers, LiveSet(t.root, t.mem));
        WithBits(t, bits);
      }
    }
  }

  /** Creating keeps every sector accounted for, except that a name that the
      directory does not take costs the sectors of the data. */
  lemma CreatedAccounted(s: Fs, name: Name, size: int, header: Found, data: Found)
    requires Ok(s) && size >= 0 && Placement(s.bits, size, header, data) && Accounted(s)
    ensures Accounted(Created(s, name, size, header, data)) <==> !data.At? || CanAdd(s.root, name) || size == 0
  {
    if data.At? {
      AllocatedOk(s, header.idx, data.idx, size);
      if CanAdd(s.root, name) {
        AddedAccounted(s, name, size, header.idx, data.idx);
      } else {
        RefusedAccounted(s, name, size, header.idx, data.idx);
      }
    }
  }

  lemma AddedAccounted(s: Fs, name: Name, size: int, x: int, start: int)
    requires Ok(s) && size >= 0 && Accounted(s) && CanAdd(s.root, name) && x !in LiveSet(s.root, s.mem)
    ensures Accounted(List(Allocated(s, x, start, size), name, x))
  {
    var r := List(Allocated(s, x, start, size), name, x);
    assert r.root[name] == x && x in Listed(r.root);
    forall k | 0 <= k < |r.bits| && r.bits[k] ensures exists t :: t in LiveSet(r.root, r.mem) && Owns(r.headers, t, k) {
      if s.bits[k] {
        var t :| t in LiveSet(s.root, s.mem) && Owns(s.headers, t, k);
        StillLive(s, name, x, t);
        assert Owns(r.headers, t, k);
      } else {
        assert Owns(r.headers, x, k);
      }
    }
  }

  lemma StillLive(s: Fs, name: Name, x: int, t: int)
    requires name !in s.root && t in LiveSet(s.root, s.mem)
    ensures t in LiveSet(s.root[name := x], s.mem)
  {
    if t in Listed(s.root) && t != 0 && t != 1 {
      var n :| n in s.root && s.root[n] == t;
      assert s.root[name := x][n] == t;
    }
  }

  lemma RefusedAccounted(s: Fs, name: Name, size: int, x: int, start: int)
    requires Ok(s) && size >= 0 && Accounted(s) && Group(s.bits, x, 1, false) && x !in LiveSet(s.root, s.mem)
    requires Group(SetRange(s.bits, x, 1, true), start, BytesToSectors(size), false)
    ensures var t := Allocated(s, x, start, size);
      Accounted(t.(bits := SetRange(t.bits, x, 1, false))) <==> size == 0
  {
    var t := Allocated(s, x, start, size);
    var r := t.(bits := SetRange(t.bits, x, 1, false));
    if size == 0 {
      assert s.bits[x] == false;
      assert r.bits == s.bits;
      forall k | 0 <= k < |r.bits| && r.bits[k]
        ensures exists y :: y in LiveSet(r.root, r.mem) && Owns(r.headers, y, k)
      {
        var y :| y in LiveSet(s.root, s.mem) && Owns(s.headers, y, k);
        assert Owns(r.headers, y, k);
      }
    } else {
      assert SetRange(s.bits, x, 1, true)[start] == false;
      FreshSector(s, start);
      assert r.bits[start];
      forall y | y in LiveSet(r.root, r.mem) ensures !Owns(r.headers, y, start) {
        assert !Owns(s.headers, y, start);
      }
    }
  }

  /** Creating a file with the root directory open for the while is the same as
      creating it. */
  lemma CreatedInRoot(s: Fs, d: int, name: Name, size: int, header: Found, data: Found)
    requires d !in s.mem && d !in s.open && ROOT_DIR_SECTOR in s.headers && (data.At? ==> header.At?)
    ensures var r := Created(OpenNew(s, d, ROOT_DIR_SECTOR), name, size, header, data);
      CloseLast(r, d) == Created(s, name, size, header, data)
  {
    var t := OpenNew(s, d, ROOT_DIR_SECTOR);
    OpenThenClose(s, d, ROOT_DIR_SECTOR, Created(t, name, size, header, data));
    assert t.bits == s.bits && t.headers == s.headers && t.root == s.root && t.files == s.files;
  }

  // ---------- A formatted device ----------

  // Only the free map's file, f, is open.
  lemma MapFileOk(s: Fs, a: int, f: int)
    requires 0 in s.headers && s.mem == map[a := MemInode(0, 1, false, 0, s.headers[0])] && s.open == [a]
    requires s.files == map[f := File(a, false)] && s.hand == multiset{} && RootOk(s.root)
    requires Storage(s.bits, s.headers, LiveSet(s.root, s.mem))
    ensures Ok(s)
  {
    assert FilesOn(s.files, a) == {f};
    NoneDenying(s.files, a);
    assert NodeOk(s, a);
  }

  lemma FormattedOk(s: Fs, k: int, bytes: int, a: int, f: int)
    requires 3 + k <= |s.bits| && bytes >= 0 && k == BytesToSectors(bytes)
    requires forall x | 0 <= x < |s.bits| :: s.bits[x] <==> x < 3 + k
    requires s.headers == map[0 := Header(2, bytes), 1 := Header(2 + k, ROOT_SLOTS * ENTRY)] && s.root == map[]
    requires s.mem == map[a := MemInode(0, 1, false, 0, Header(2, bytes))] && s.open == [a]
    requires s.files == map[f := File(a, false)] && s.hand == multiset{}
    ensures Ok(s) && Accounted(s)
  {
    assert s.mem[a].sector == 0 && LiveSet(s.root, s.mem) == {0, 1};
    MapFileOk(s, a, f);
    forall x | 0 <= x < |s.bits| && s.bits[x]
      ensures exists t :: t in LiveSet(s.root, s.mem) && Owns(s.headers, t, x)
    {
      assert Owns(s.headers, if x == 1 || x == 2 + k then 1 else 0, x);
    }
  }

  lemma FirstAfter(b: seq<bool>, cnt: int, m: int)
    requires cnt > 0 && 0 <= m && m + cnt <= |b| && (forall x | 0 <= x < |b| :: b[x] <==> x < m)
    ensures FirstGroup(b, 0, cnt, false, At(m))
  {
    forall i | 0 <= i < m ensures !Group(b, i, cnt, false) { assert b[i]; }
  }

  // When exactly the first m bits are set, a scan finds bit m.
  lemma ScanFindsFirst(b: seq<bool>, cnt: int, m: int, r: Found)
    requires cnt > 0 && 0 <= m && m + cnt <= |b| && (forall x | 0 <= x < |b| :: b[x] <==> x < m)
    requires FirstGroup(b, 0, cnt, false, r)
    ensures r == At(m)
  {
    FirstAfter(b, cnt, m);
  }

  lemma NoneDenying(fs: Files, a: int)
    requires forall f | f in fs :: !fs[f].denyWrite
    ensures |DenyingOn(fs, a)| == 0
  {
    assert forall f :: f !in DenyingOn(fs, a);
  }

  /** A small formatted device: sectors 4 and 5 are free. */
  function SmallDevice(): Fs {
    Fs([true, true, true, true, false, false], map[0 := Header(2, 4), 1 := Header(3, ROOT_SLOTS * ENTRY)], map[],
       map[7 := MemInode(0, 1, false, 0, Header(2, 4))], [7], map[9 := File(7, false)], multiset{})
  }

  /** Creating a file of one byte without a name on it loses sector 5. */
  lemma LostSector()
    ensures Ok(SmallDevice()) && Accounted(SmallDevice()) && Placement(SmallDevice().bits, 1, At(4), At(5))
    ensures !Accounted(Created(SmallDevice(), [], 1, At(4), At(5)))
  {
    var s := SmallDevice();
    FormattedOk(s, 1, 4, 7, 9);
    FirstAfter(s.bits, 1, 4);
    FirstAfter(Taken(s.bits, 4), 1, 5);
    CreatedAccounted(s, [], 1, At(4), At(5));
  }
}
