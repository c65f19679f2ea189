/**
 Directory operations over the byte I/O of an inode (filesys/directory.c).  The
 loops read one 20-byte slot after another, wherever the sector boundaries fall.
 Every read and write of a slot needs memory for a bounce buffer; a `memory`
 parameter says of each whether there is any.
 */
module Directory {
  import opened Sequences
  import opened InodeIo
  import opened DirEntries

  // One slot is less than a sector, so nothing of it moves without a bounce buffer.
  lemma SlotTransfer(length: int, i: nat, memory: bool)
    requires length >= 0 && i <= length / ENTRY
    ensures var n := Transferred(length, ENTRY, ENTRY * i, memory);
      && 0 <= n <= ENTRY && ENTRY * i + n <= length && (n == ENTRY <==> memory && i < length / ENTRY)
      && (0 < n < ENTRY ==> i == length / ENTRY)
  {
  }

  // What a write of at most one slot does to the bytes of the directory.
  lemma SlotWritten(c: seq<byte>, i: nat, s: Slot, n: nat)
    requires n <= ENTRY && i <= |c| / ENTRY && ENTRY * i + n <= |c| && (n > 0 && n < ENTRY ==> i == |c| / ENTRY)
    requires n == ENTRY ==> i < |c| / ENTRY
    ensures Table(Overwrite(c, ENTRY * i, s[..n])) == if n == ENTRY then Table(c)[i := s] else Table(c)
  {
    if n == ENTRY {
      assert s[..n] == s;
      TableOverwrite(c, i, s);
    } else if i == |c| / ENTRY {
      TableTail(c, s[..n]);
    } else {
      assert Overwrite(c, ENTRY * i, s[..n]) == c;
    }
  }

  lemma SlotStored(d: seq<Sector>, e: seq<Sector>, start: int, length: int, i: nat, s: Slot, n: nat)
    requires Fits(d, start, length) && |e| == |d| && n <= ENTRY && i <= length / ENTRY && ENTRY * i + n <= length
    requires (n == ENTRY ==> i < length / ENTRY) && (0 < n < ENTRY ==> i == length / ENTRY)
    requires Flat(e) == Written(Flat(d), start * SECTOR + ENTRY * i, s[..n])
    ensures OnlyExtent(d, e, start, length)
    ensures var t := Table(Contents(d, start, length));
      Table(Contents(e, start, length)) == if n == ENTRY then t[i := s] else t
  {
    WriteIsOverwrite(d, e, start, length, ENTRY * i, s[..n]);
    SlotWritten(Contents(d, start, length), i, s, n);
    WriteInExtent(d, e, start, length, ENTRY * i, s[..n]);
  }

  class Dir {
    const inode: Inode
    var pos: int

    constructor (inode: Inode)
      ensures this.inode == inode && pos == 0
    {
      this.inode, pos := inode, 0;
    }

    ghost predicate Valid(dev: Device)
      reads this, inode, dev
    {
      Fits(dev.sectors, inode.start, inode.length)
    }

    ghost function Slots(dev: Device): seq<Slot>
      reads this, inode, dev
      requires Valid(dev)
    {
      Table(Contents(dev.sectors, inode.start, inode.length))
    }

    // Reads slot i, if the file has that many.
    method ReadSlot(dev: Device, buf: array<byte>, i: nat, memory: bool) returns (ok: bool)
      requires Valid(dev) && buf.Length == ENTRY && i <= |Slots(dev)|
      modifies buf
      ensures ok <==> memory && i < |Slots(dev)|
      ensures ok ==> buf[..] == Slots(dev)[i]
    {
      SlotTransfer(inode.length, i, memory);
      var n := inode.ReadAt(dev, buf, ENTRY, ENTRY * i, memory);
      ok := n == ENTRY;
    }

    /** Finds the first slot in use under `name` that it can read up to. */
    method Lookup(dev: Device, name: Name, memory: nat -> bool) returns (found: bool, e: Slot, i: nat)
      requires Valid(dev)
      ensures found <==> Sees(Slots(dev), memory, name)
      ensures found ==> Named(Slots(dev), i, name) && e == Slots(dev)[i]
      ensures Good(Slots(dev)) && found ==> name in DirMap(Slots(dev)) && SectorOf(e) == DirMap(Slots(dev))[name]
      ensures Good(Slots(dev)) && Readable(memory, |Slots(dev)|) ==> (found <==> name in DirMap(Slots(dev)))
    {
      i := 0;
      var buf := new byte[ENTRY](_ => 0);
      var ok := ReadSlot(dev, buf, 0, memory(0));
      while ok
        invariant i <= |Slots(dev)| && (ok <==> memory(i) && i < |Slots(dev)|)
        invariant ok ==> buf[..] == Slots(dev)[i]
        invariant forall j: nat | j < i :: memory(j) && !Named(Slots(dev), j, name)
        decreases |Slots(dev)| - i
      {
        e := buf[..];
        if Used(e) && NameOf(e) == name {
          FoundAt(Slots(dev), memory, name, i);
          return true, e, i;
        }
        i := i + 1;
        ok := ReadSlot(dev, buf, i, memory(i));
      }
      NotFound(Slots(dev), memory, name, i);
      return false, buf[..], i;
    }

    // The end of the search for a free slot, and whatever the buffer holds then.
    method FindFree(dev: Device, memory: nat -> bool) returns (e: Slot, i: nat)
      requires Valid(dev)
      ensures i == StopAt(Slots(dev), memory, 0)
    {
      i := 0;
      var buf := new byte[ENTRY](_ => 0);
      var ok := ReadSlot(dev, buf, 0, memory(0));
      e := buf[..];
      while ok && Used(e)
        invariant i <= |Slots(dev)| && (ok <==> memory(i) && i < |Slots(dev)|)
        invariant ok ==> e == Slots(dev)[i]
        invariant StopAt(Slots(dev), memory, 0) == StopAt(Slots(dev), memory, i)
        decreases |Slots(dev)| - i
      {
        i := i + 1;
        ok := ReadSlot(dev, buf, i, memory(i));
        e := buf[..];
      }
    }

    // Writes slot i; past the last slot the write comes up short.
    method WriteSlot(dev: Device, i: nat, s: Slot, memory: bool) returns (ok: bool)
      requires Valid(dev) && i <= |Slots(dev)|
      modifies dev
      ensures Valid(dev) && OnlyExtent(old(dev.sectors), dev.sectors, inode.start, inode.length)
      ensures ok <==> inode.denyWriteCnt == 0 && memory && i < |Slots(dev)|
      ensures Slots(dev) == if ok then old(Slots(dev))[i := s] else old(Slots(dev))
    {
      ghost var was := dev.sectors;
      SlotTransfer(inode.length, i, memory);
      var n := inode.WriteAt(dev, s, ENTRY * i, memory);
      ok := n == ENTRY;
      SlotStored(was, dev.sectors, inode.start, inode.length, i, s, n);
    }

    /** Adds an entry where the search for a free slot ends: fails exactly for an
        empty or over-long name, a name that is seen in use, a search that ends
        after the last slot, or a slot that cannot be written. */
    method Add(dev: Device, name: Name, sector: int, look: nat -> bool, seek: nat -> bool, store: bool)
      returns (ok: bool)
      requires Valid(dev) && 0 !in name && 0 <= sector < 0x1_0000_0000
      modifies dev
      ensures Valid(dev) && OnlyExtent(old(dev.sectors), dev.sectors, inode.start, inode.length)
      ensures |Slots(dev)| == |old(Slots(dev))|
      ensures ok <==> 0 < |name| <= NAME_MAX && !Sees(old(Slots(dev)), look, name) && inode.denyWriteCnt == 0
                      && store && StopAt(old(Slots(dev)), seek, 0) < |old(Slots(dev))|
      ensures !ok ==> Slots(dev) == old(Slots(dev))
      ensures ok ==> EntryPut(old(Slots(dev)), Slots(dev), StopAt(old(Slots(dev)), seek, 0), name, sector)
    {
      if name == [] || |name| > NAME_MAX { return false; }
      var found, _, _ := Lookup(dev, name, look);
      if found { return false; }
      var e, i := FindFree(dev, seek);
      FilledInReads(e, name, sector);
      ok := WriteSlot(dev, i, FilledIn(e, name, sector), store);
    }

    // Clears the flag of slot i, which reads e.
    method Erase(dev: Device, i: nat, e: Slot, store: bool) returns (ok: bool)
      requires Valid(dev) && i < |Slots(dev)| && e == Slots(dev)[i]
      modifies dev
      ensures Valid(dev) && OnlyExtent(old(dev.sectors), dev.sectors, inode.start, inode.length)
      ensures ok <==> inode.denyWriteCnt == 0 && store
      ensures Slots(dev) == if ok then old(Slots(dev))[i := Cleared(e)] else old(Slots(dev))
    {
      ok := WriteSlot(dev, i, Cleared(e), store);
    }

    /** Takes the entry for `name` out: fails exactly if it is not seen, if its
        inode cannot be opened, or if the slot cannot be written. */
    method Remove(dev: Device, name: Name, opens: bool, look: nat -> bool, store: bool) returns (ok: bool)
      requires Valid(dev) && Good(Slots(dev))
      modifies dev
      ensures Valid(dev) && OnlyExtent(old(dev.sectors), dev.sectors, inode.start, inode.length) && Good(Slots(dev))
      ensures ok <==> Sees(old(Slots(dev)), look, name) && opens && inode.denyWriteCnt == 0 && store
      ensures DirMap(Slots(dev)) == if ok then old(DirMap(Slots(dev))) - {name} else old(DirMap(Slots(dev)))
      ensures Readable(look, |old(Slots(dev))|) ==>
                (ok <==> name in old(DirMap(Slots(dev))) && opens && inode.denyWriteCnt == 0 && store)
    {
      ghost var t := Slots(dev);
      var found, e, i := Lookup(dev, name, look);
      if !found || !opens { return false; }
      RemovedFromMap(t, i, Cleared(e));
      ok := Erase(dev, i, e, store);
    }

    /** Advances past the next slot in use and returns its name, unless it comes to
        the end or to a slot that it cannot read.  `k` is the number of slots
        already passed. */
    method ReadDir(dev: Device, ghost k: nat, memory: nat -> bool) returns (ok: bool, name: Name, ghost k': nat)
      requires Valid(dev) && pos == ENTRY * k && k <= |Slots(dev)|
      modifies this
      ensures Valid(dev) && pos == ENTRY * k' && k <= k' <= |Slots(dev)|
      ensures forall j: nat | k <= j < k' :: memory(j)
      ensures ok ==> k < k' && Listing(Slots(dev), k) == [name] + Listing(Slots(dev), k')
      ensures !ok ==> (k' == |Slots(dev)| || !memory(k')) && Listing(Slots(dev), k) == Listing(Slots(dev), k')
    {
      name, k' := [], k;
      var buf := new byte[ENTRY](_ => 0);
      while true
        invariant pos == ENTRY * k' && k <= k' <= |Slots(dev)|
        invariant Listing(Slots(dev), k) == Listing(Slots(dev), k') && forall j: nat | k <= j < k' :: memory(j)
        decreases |Slots(dev)| - k'
      {
        var got := ReadSlot(dev, buf, pos / ENTRY, memory(pos / ENTRY));
        if !got { return false, [], k'; }
        var e: Slot := buf[..];
        pos, k' := pos + ENTRY, k' + 1;
        if Used(e) { return true, NameOf(e), k'; }
      }
    }

    // readdir until it fails.
    method ReadAll(dev: Device, memory: nat -> bool) returns (names: seq<Name>, ghost stop: nat)
      requires Valid(dev) && pos == 0
      modifies this
      ensures Valid(dev) && stop <= |Slots(dev)| && Listing(Slots(dev), 0) == names + Listing(Slots(dev), stop)
      ensures (stop < |Slots(dev)| ==> !memory(stop)) && forall j: nat | j < stop :: memory(j)
    {
      names, stop := [], 0;
      ghost var all := Listing(Slots(dev), 0);
      var ok, name;
      ok, name, stop := ReadDir(dev, 0, memory);
      while ok
        invariant pos == ENTRY * stop && stop <= |Slots(dev)| && forall j: nat | j < stop :: memory(j)
        invariant ok ==> all == names + ([name] + Listing(Slots(dev), stop))
        invariant !ok ==> all == names + Listing(Slots(dev), stop) && (stop == |Slots(dev)| || !memory(stop))
        decreases |Slots(dev)| - stop, ok
      {
        Regrouped(names, name, Listing(Slots(dev), stop));
        names := names + [name];
        ok, name, stop := ReadDir(dev, stop, memory);
      }
    }

    /** Reading a freshly opened directory to the end gives the names in use up to
        the first slot that cannot be read, each once: all of the directory's names
        if there is memory throughout. */
    method ListNames(dev: Device, memory: nat -> bool) returns (names: seq<Name>, ghost stop: nat)
      requires Valid(dev) && Good(Slots(dev)) && pos == 0
      modifies this
      ensures Valid(dev) && Distinct(names) && stop <= |Slots(dev)|
      ensures Listing(Slots(dev), 0) == names + Listing(Slots(dev), stop)
      ensures (stop < |Slots(dev)| ==> !memory(stop)) && forall j: nat | j < stop :: memory(j)
      ensures Readable(memory, |Slots(dev)|) ==> forall n :: n in names <==> n in DirMap(Slots(dev))
    {
      names, stop := ReadAll(dev, memory);
      ListedNames(Slots(dev), names, stop);
    }
  }

  lemma Regrouped(s: seq<Name>, n: Name, t: seq<Name>)
    ensures s + ([n] + t) == (s + [n]) + t
  {
  }

  lemma ListedNames(t: seq<Slot>, names: seq<Name>, stop: nat)
    requires Good(t) && stop <= |t| && Listing(t, 0) == names + Listing(t, stop)
    ensures Distinct(names) && (stop == |t| ==> forall n :: n in names <==> n in DirMap(t))
  {
    ListingIsMap(t);
    DistinctPrefix(names, Listing(t, stop));
    if stop == |t| { assert Listing(t, 0) == names; }
  }

  lemma FoundAt(t: seq<Slot>, memory: nat -> bool, name: Name, i: nat)
    requires Named(t, i, name) && Readable(memory, i)
    ensures Sees(t, memory, name)
    ensures Good(t) ==> name in DirMap(t) && SectorOf(t[i]) == DirMap(t)[name]
  {
    if Good(t) { MapHasSlots(t, name); }
  }

  lemma NotFound(t: seq<Slot>, memory: nat -> bool, name: Name, i: nat)
    requires i <= |t| && (i < |t| ==> !memory(i)) && forall j: nat | j < i :: !Named(t, j, name)
    ensures !Sees(t, memory, name)
    ensures Good(t) && Readable(memory, |t|) ==> name !in DirMap(t)
  {
    forall k | Named(t, k, name) ensures !Readable(memory, k) { assert k >= i; }
    if Good(t) { SeesMap(t, memory, name); }
  }

  /** Adding with memory for every read and write does what it should: it fails
      exactly for a bad name, a name in use or a full directory, and else adds the
      name. */
  lemma AddRight(t: seq<Slot>, u: seq<Slot>, name: Name, sector: int, look: nat -> bool, seek: nat -> bool)
    requires Good(t) && Readable(look, |t|) && Readable(seek, |t|)
    ensures StopAt(t, seek, 0) < |t| <==> |DirMap(t)| < |t|
    ensures Sees(t, look, name) <==> name in DirMap(t)
    ensures StopAt(t, seek, 0) < |t| && !Sees(t, look, name) && EntryPut(t, u, StopAt(t, seek, 0), name, sector) ==>
              Good(u) && DirMap(u) == DirMap(t)[name := sector]
  {
    SeesMap(t, look, name);
    FullTable(t);
    var i := StopAt(t, seek, 0);
    if i < |t| {
      assert !Used(t[i]);
      if !Sees(t, look, name) && EntryPut(t, u, i, name, sector) { AddedToMap(t, i, u[i]); }
    }
  }

  /** Whatever memory there is, an entry that has been put adds the name exactly if
      the slot held the name, or the name is new and the slot was free. */
  lemma AddRightIff(t: seq<Slot>, u: seq<Slot>, i: nat, name: Name, sector: int)
    requires Good(t) && i < |t| && EntryPut(t, u, i, name, sector)
    ensures Good(u) && DirMap(u) == DirMap(t)[name := sector] <==>
              if name in DirMap(t) then Named(t, i, name) else !Used(t[i])
  {
    FilledRight(t, i, u[i]);
  }

  /** A directory of one entry, in a search for a free slot that cannot read it. */
  lemma EntryOverwritten(e: Slot, u: seq<Slot>, name: Name, sector: int)
    requires Used(e) && |NameOf(e)| <= NAME_MAX && NameOf(e) != name
    requires EntryPut([e], u, StopAt([e], _ => false, 0), name, sector)
    ensures Good([e]) && NameOf(e) in DirMap([e]) && !(Good(u) && NameOf(e) in DirMap(u))
  {
    assert u == [e][0 := u[0]];
    NameLost([e], 0, u[0]);
  }

  // ---------- With memory throughout ----------

  /** One more entry, in a slot that was free. */
  ghost predicate Added(t: seq<Slot>, u: seq<Slot>, name: Name, sector: int) {
    exists k :: 0 <= k < |t| && !Used(t[k]) && EntryPut(t, u, k, name, sector)
  }

  ghost function TableIn(d: seq<Sector>, start: int, length: int): seq<Slot>
    requires Fits(d, start, length)
  {
    Table(Contents(d, start, length))
  }

  /** dir_add: fails exactly for an empty or over-long name, a name in use or a full
      directory, and else adds the name in a free slot. */
  method AddTo(dev: Device, start: int, length: int, name: Name, sector: int) returns (ok: bool)
    requires Fits(dev.sectors, start, length) && Good(TableIn(dev.sectors, start, length))
    requires 0 !in name && 0 <= sector < 0x1_0000_0000
    modifies dev
    ensures OnlyExtent(old(dev.sectors), dev.sectors, start, length)
    ensures var t, u := TableIn(old(dev.sectors), start, length), TableIn(dev.sectors, start, length);
      && (ok <==> 0 < |name| <= NAME_MAX && name !in DirMap(t) && |DirMap(t)| < |t|)
      && (ok ==> Added(t, u, name, sector) && Good(u) && DirMap(u) == DirMap(t)[name := sector])
      && (!ok ==> u == t)
  {
    var inode := new Inode(start, length);
    var dir := new Dir(inode);
    var all := (_: nat) => true;
    ghost var t := dir.Slots(dev);
    ok := dir.Add(dev, name, sector, all, all, true);
    AddRight(t, dir.Slots(dev), name, sector, all, all);
  }

  /** lookup. */
  method LookupIn(dev: Device, start: int, length: int, name: Name) returns (found: bool, e: Slot, i: nat)
    requires Fits(dev.sectors, start, length) && Good(TableIn(dev.sectors, start, length))
    ensures var t := TableIn(dev.sectors, start, length);
      && (found <==> name in DirMap(t))
      && (found ==> Named(t, i, name) && e == t[i] && SectorOf(e) == DirMap(t)[name])
  {
    var inode := new Inode(start, length);
    var dir := new Dir(inode);
    found, e, i := dir.Lookup(dev, name, _ => true);
  }

  /** The second half of dir_remove. */
  method EraseIn(dev: Device, start: int, length: int, i: nat, e: Slot)
    requires Fits(dev.sectors, start, length) && Good(TableIn(dev.sectors, start, length))
    requires i < |TableIn(dev.sectors, start, length)| && e == TableIn(dev.sectors, start, length)[i] && Used(e)
    modifies dev
    ensures OnlyExtent(old(dev.sectors), dev.sectors, start, length)
    ensures var t, u := TableIn(old(dev.sectors), start, length), TableIn(dev.sectors, start, length);
      u == t[i := Cleared(e)] && Good(u) && DirMap(u) == DirMap(t) - {NameOf(e)}
  {
    var inode := new Inode(start, length);
    var dir := new Dir(inode);
    RemovedFromMap(dir.Slots(dev), i, Cleared(e));
    var _ := dir.Erase(dev, i, e, true);
  }
}
