/**
 File system calls (filesys/filesys.c, filesys/file.c, filesys/free-map.c and the
 open and close half of filesys/inode.c), on the device.  Every call keeps
 `Valid`, so in every run what FsState.Ok says holds, the headers of all live
 inodes are on the device, and the table of slots in inode 1 is the root
 directory.  The outcome of each memory allocation is a parameter; `saves` is
 about the bounce buffer for each write of the free map, in order.  Reads and
 writes of directory slots have their bounce buffer here; Directory.Dir says what
 they do without.  `headers` and `root` only name what is on the device.
 */
module FileSystem {
  import opened Sequences
  import opened Bitmap
  import opened BitmapFile
  import opened InodeIo
  import opened DirEntries
  import opened Directory
  import opened FsState
  import opened FsSteps
  import opened FsCalls
  import opened FsDisk
  import opened FsEffects

  class FileSys {
    const dev: Device
    const freeMap: Bits
    const mapFile: int
    ghost var headers: Headers
    ghost var root: Root
    var mem: Nodes
    var open: seq<int>
    var files: Files
    ghost var hand: multiset<int>

    ghost function View(): Fs
      reads this, freeMap.words
      requires freeMap.Valid()
    {
      Fs(freeMap.View(), headers, root, mem, open, files, hand)
    }

    ghost predicate Valid()
      reads this, freeMap.words, dev
    {
      freeMap.Valid() && Sound(dev.sectors, View(), mapFile)
    }

    // ---------- Formatting and mounting ----------

    /** filesys_init with formatting: an empty file system, all of whose sectors are
        accounted for. */
    constructor Format(dev: Device, inode: int, file: int)
      requires FormatRoom(|dev.sectors|) && |dev.sectors| < 0x1_0000_0000
      modifies dev
      ensures Valid() && this.dev == dev && mapFile == file && fresh(freeMap) && fresh(freeMap.words)
      ensures |dev.sectors| == |old(dev.sectors)| && hand == multiset{} && root == map[]
      ensures files == map[file := File(inode, false)] && Accounted(View()) && MapSaved(dev.sectors, View())
    {
      var n := |dev.sectors|;
      var bits := NewMap(n);
      DoFormat(dev, bits);
      ghost var b := bits.View();
      var h := OpenMap(dev, bits);
      SavedOnce(Contents(dev.sectors, h.start, h.length), b, bits.View());
      this.dev, freeMap, mapFile := dev, bits, file;
      headers, root, hand := FormattedHeaders(n), map[], multiset{};
      mem, open := map[inode := MemInode(FREE_MAP_SECTOR, 1, false, 0, h)], [inode];
      files := map[file := File(inode, false)];
      new;
      FormattedSound(dev.sectors, View(), inode, file);
    }

    /** filesys_init without formatting, on a device that was left in state s with
        its free map saved: headers, root directory and free map are back.  Sectors
        of files that had been removed but were still open are lost, and no others. */
    constructor Mount(dev: Device, ghost s: Fs, ghost m: int, inode: int, file: int)
      requires Sound(dev.sectors, s, m) && MapSaved(dev.sectors, s)
      ensures Valid() && this.dev == dev && mapFile == file && fresh(freeMap) && fresh(freeMap.words)
      ensures headers == s.headers && root == s.root && freeMap.View() == s.bits && hand == multiset{}
      ensures files == map[file := File(inode, false)]
      ensures Accounted(s) ==> (Accounted(View()) <==> OpenSectors(s.mem) <= Listed(s.root))
    {
      var n := |dev.sectors|;
      var bits := NewMap(n);
      assert FREE_MAP_SECTOR in LiveSet(s.root, s.mem);
      var h := OpenMap(dev, bits);
      SavedOnce(Contents(dev.sectors, h.start, h.length), s.bits, bits.View());
      this.dev, freeMap, mapFile := dev, bits, file;
      headers, root, hand := s.headers, s.root, multiset{};
      mem, open := map[inode := MemInode(FREE_MAP_SECTOR, 1, false, 0, h)], [inode];
      files := map[file := File(inode, false)];
      new;
      RemountedSound(dev.sectors, s, inode, file);
      assert View() == Remounted(s, inode, file);
      if Accounted(s) { RemountedAccounted(s, inode, file); }
    }

    // ---------- The free map ----------

    // bitmap_write to the free map's file.
    method SaveMap(memory: bool) returns (ok: bool)
      requires freeMap.Valid() && mapFile in files && files[mapFile].inode in mem
      requires var n := mem[files[mapFile].inode];
        n.denyCnt == 0 && n.data.length == ByteCnt(freeMap.bitCnt) && Fits(dev.sectors, n.data.start, n.data.length)
      modifies dev
      ensures var h := mem[files[mapFile].inode].data;
        && OnlyExtent(old(dev.sectors), dev.sectors, h.start, h.length) && (ok <==> CanSave(freeMap.bitCnt, memory))
        && (ok ==> SavedIn(Contents(dev.sectors, h.start, h.length), freeMap.View()))
    {
      var n := mem[files[mapFile].inode];
      ok := SaveBits(dev, n.data, n.denyCnt, freeMap, memory);
    }

    // Saves a map in which cnt sectors have just been taken, or frees them again.
    method SaveTaken(ghost s: Fs, x: nat, cnt: nat, memory: bool) returns (ok: bool)
      requires freeMap.Valid() && Sound(dev.sectors, s, mapFile) && Group(s.bits, x, cnt, false)
      requires View() == s.(bits := SetRange(s.bits, x, cnt, true))
      modifies freeMap.words, dev
      ensures Valid() && (ok <==> CanSave(freeMap.bitCnt, memory))
      ensures View() == if ok then old(View()) else s
      ensures ok ==> MapSaved(dev.sectors, View())
      ensures BytesKept(old(dev.sectors), dev.sectors, s.headers, s.headers, LiveSet(s.root, s.mem) - {FREE_MAP_SECTOR})
    {
      ghost var d := dev.sectors;
      MapReady(d, s, mapFile);
      FreeUnowned(s, x, cnt);
      ok := SaveMap(memory);
      RangeChanged(d, dev.sectors, s, x, cnt, ok, mapFile);
      if !ok {
        freeMap.SetMultiple(x, cnt, false);
        TakenBack(s.bits, x, cnt);
      }
    }

    /** The first cnt free sectors, unless there are none or the free map cannot be
        saved. */
    method FreeMapAllocate(cnt: nat, memory: bool) returns (r: Found)
      requires Valid()
      modifies freeMap.words, dev
      ensures Valid() && View() == old(View()).(bits := freeMap.View())
      ensures r.At? <==> CanSave(freeMap.bitCnt, memory) && !NoSpace(old(freeMap.View()), cnt)
      ensures r.At? ==> FirstGroup(old(freeMap.View()), 0, cnt, false, r) && MapSaved(dev.sectors, View())
      ensures freeMap.View() == if r.At? then SetRange(old(freeMap.View()), r.idx, cnt, true) else old(freeMap.View())
      ensures BytesKept(old(dev.sectors), dev.sectors, headers, headers, LiveSet(root, mem) - {FREE_MAP_SECTOR})
      ensures NoSpace(old(freeMap.View()), cnt) ==> dev.sectors == old(dev.sectors)
    {
      ghost var s := View();
      AllKept(dev.sectors, s, LiveSet(root, mem) - {FREE_MAP_SECTOR});
      r := freeMap.ScanAndFlip(0, cnt, false);
      if r.At? {
        var ok := SaveTaken(s, r.idx, cnt, memory);
        if !ok { r := BitmapError; }
      }
    }

    /** Gives back sectors, which must all be in use, and saves the free map if it
        can. */
    method FreeMapRelease(x: nat, cnt: nat, memory: bool)
      requires Valid() && Group(freeMap.View(), x, cnt, true) && Unowned(View(), x, cnt)
      modifies freeMap.words, dev
      ensures Valid() && View() == old(View()).(bits := SetRange(old(freeMap.View()), x, cnt, false))
      ensures CanSave(freeMap.bitCnt, memory) ==> MapSaved(dev.sectors, View())
      ensures BytesKept(old(dev.sectors), dev.sectors, headers, headers, LiveSet(root, mem) - {FREE_MAP_SECTOR})
    {
      ghost var s, d := View(), dev.sectors;
      MapReady(d, s, mapFile);
      freeMap.SetMultiple(x, cnt, false);
      var ok := SaveMap(memory);
      RangeChanged(d, dev.sectors, s, x, cnt, false, mapFile);
    }

    // ---------- Inodes ----------

    // The open inode in this sector.
    method FindOpen(sector: int) returns (r: Ptr)
      requires forall a :: a in open <==> a in mem
      ensures r.Ptr? ==> r.addr in mem && mem[r.addr].sector == sector
      ensures r.NoPtr? ==> sector !in OpenSectors(mem)
    {
      for i := 0 to |open|
        invariant forall a :: a in open <==> a in mem
        invariant forall j | 0 <= j < i :: open[j] in mem && mem[open[j]].sector != sector
      {
        assert open[i] in open;
        if mem[open[i]].sector == sector { return Ptr(open[i]); }
      }
      forall a | a in mem ensures mem[a].sector != sector { assert a in open; }
      return NoPtr;
    }

    // inode_open, given that sector x holds this header.
    method OpenSector(sector: nat, memory: Ptr) returns (r: Ptr)
      requires freeMap.Valid() && (forall a :: a in open <==> a in mem) && (memory.Ptr? ==> memory.addr !in mem)
      requires sector in headers && sector < |dev.sectors| && ReadHeader(dev.sectors[sector]) == headers[sector]
      modifies `mem, `open, `hand
      ensures OpenedTo(old(View()), sector, memory, r)
      ensures View() == Opened(old(View()), sector, r)
    {
      r := FindOpen(sector);
      if r.Ptr? {
        mem := mem[r.addr := mem[r.addr].(openCnt := mem[r.addr].openCnt + 1)];
        hand := hand + multiset{r.addr};
      } else if memory.Ptr? {
        r := memory;
        open := [r.addr] + open;
        mem := mem[r.addr := MemInode(sector, 1, false, 0, ReadHeader(dev.sectors[sector]))];
        hand := hand + multiset{r.addr};
      }
    }

    /** One structure per sector: a sector that is open already is shared. */
    method InodeOpen(sector: int, memory: Ptr) returns (r: Ptr)
      requires Valid() && sector in Listed(root) && (memory.Ptr? ==> memory.addr !in mem)
      modifies `mem, `open, `hand
      ensures Valid() && sector in headers && OpenedTo(old(View()), sector, memory, r)
      ensures View() == Opened(old(View()), sector, r)
    {
      ghost var s := View();
      assert sector in LiveSet(root, mem);
      r := OpenSector(sector, memory);
      OpenedSound(dev.sectors, s, sector, memory, r, mapFile);
    }

    // Takes the structure away.
    method TakeOut(a: int)
      requires freeMap.Valid()
      modifies `mem, `open, `hand
      ensures View() == Dropped(old(View()), a)
    {
      open := Without(open, {a});
      mem := mem - {a};
      hand := hand - multiset{a};
    }

    method CountDown(a: int)
      requires freeMap.Valid() && a in mem
      modifies `mem, `hand
      ensures View() == CloseShared(old(View()), a)
    {
      mem := mem[a := mem[a].(openCnt := mem[a].openCnt - 1)];
      hand := hand - multiset{a};
    }

    // Gives back the sectors of an inode that has just been taken out of state s.
    method ReleaseInode(ghost s: Fs, ghost a: int, x: nat, h: Header, save1: bool, save2: bool)
      requires Valid() && Ok(s) && a in s.mem && s.mem[a].removed && View() == Dropped(s, a)
      requires x == s.mem[a].sector && h == s.mem[a].data
      modifies freeMap.words, dev
      ensures Valid() && View() == CloseLast(s, a)
      ensures BytesKept(old(dev.sectors), dev.sectors, headers, headers, LiveSet(root, mem) - {FREE_MAP_SECTOR})
      ensures CanSave(freeMap.bitCnt, save2) ==> MapSaved(dev.sectors, View())
    {
      ghost var d := dev.sectors;
      ReleaseBits(s, a);
      DroppedUnowned(s, a);
      FreeMapRelease(x, 1, save1);
      ghost var e := dev.sectors;
      FreeMapRelease(h.start, BytesToSectors(h.length), save2);
      KeptTwice(d, e, dev.sectors, headers, headers, headers, LiveSet(root, mem) - {FREE_MAP_SECTOR});
    }

    /** Drops a reference; the last one out of a removed inode gives back its
        sectors, and only then is the device written to. */
    method InodeClose(a: int, save1: bool, save2: bool)
      requires Valid() && a in hand
      modifies `mem, `open, `hand, freeMap.words, dev
      ensures Valid() && a in old(mem) && View() == Closed(old(View()), a)
      ensures CloseStep(old(dev.sectors), dev.sectors, old(View()), View(), a, CanSave(freeMap.bitCnt, save2))
    {
      ghost var s := View();
      assert NodeOk(s, a);
      var n := mem[a];
      if n.openCnt == 1 {
        DroppedSound(dev.sectors, s, a, mapFile);
        TakeOut(a);
        AllKept(dev.sectors, View(), LiveSet(root, mem) - {FREE_MAP_SECTOR});
        if n.removed {
          ReleaseBits(s, a);
          ReleaseInode(s, a, n.sector, n.data, save1, save2);
        }
      } else {
        SharedSound(dev.sectors, s, a, mapFile);
        CountDown(a);
        AllKept(dev.sectors, View(), LiveSet(root, mem) - {FREE_MAP_SECTOR});
      }
    }

    /** Makes an inode in sector x, which has been taken: its header is written, then
        its data, all zeros. */
    method InodeCreate(x: nat, size: nat, inodeMem: bool, save: bool) returns (data: Found)
      requires Valid() && size < 0x8000_0000 && x < freeMap.bitCnt && freeMap.View()[x] && Unowned(View(), x, 1)
      modifies `headers, freeMap.words, dev
      ensures Valid()
      ensures data.At? <==> inodeMem && CanSave(freeMap.bitCnt, save)
                            && !NoSpace(old(freeMap.View()), BytesToSectors(size))
      ensures data.At? ==> FirstGroup(old(freeMap.View()), 0, BytesToSectors(size), false, data)
      ensures View() == if data.At? then WithData(old(View()), x, data.idx, size) else old(View())
      ensures BytesKept(old(dev.sectors), dev.sectors, old(headers), headers, LiveSet(root, mem) - {FREE_MAP_SECTOR})
      ensures data.At? ==> MapSaved(dev.sectors, View())
      ensures data.At? ==> NewOnDisk(dev.sectors, View(), x) && ZeroFile(dev.sectors, headers, x, size)
    {
      ghost var s, d := View(), dev.sectors;
      AllKept(d, s, LiveSet(root, mem) - {FREE_MAP_SECTOR});
      data := BitmapError;
      if inodeMem {
        data := FreeMapAllocate(BytesToSectors(size), save);
        if data.At? {
          WithDataOk(s, x, data.idx, size);
          WriteNew(s, x, Header(data.idx, size));
        }
      }
    }

    // The writes of inode_create; s is the state before the data was allocated.
    method WriteNew(ghost s: Fs, x: nat, h: Header)
      requires Valid() && Storable(h) && View() == s.(bits := WithData(s, x, h.start, h.length).bits)
      requires Ok(WithData(s, x, h.start, h.length)) && Detached(WithData(s, x, h.start, h.length), x)
      requires MapSaved(dev.sectors, View())
      modifies `headers, dev
      ensures Valid() && View() == WithData(s, x, h.start, h.length) && MapSaved(dev.sectors, View())
      ensures NewOnDisk(dev.sectors, View(), x) && ZeroFile(dev.sectors, headers, x, h.length)
      ensures BytesKept(old(dev.sectors), dev.sectors, old(headers), headers, LiveSet(root, mem))
    {
      ghost var t, r, d := View(), WithData(s, x, h.start, h.length), dev.sectors;
      DetachedFits(d, r, x);
      WriteInode(dev, x, h);
      headers := headers[x := h];
      CreatedSound(d, dev.sectors, t, r, x, h, mapFile);
    }

    // dir_add's write to the root directory, open as d.
    method PutInRoot(d: int, name: Name, x: nat) returns (ok: bool)
      requires Valid() && d in mem && mem[d].sector == ROOT_DIR_SECTOR && 0 !in name && x < 0x1_0000_0000
      modifies dev
      ensures RootPut(old(dev.sectors), dev.sectors, headers, root, name, x, ok)
    {
      RootNode(dev.sectors, View(), d);
      ok := PutEntry(dev, mem[d].data, name, x, headers, root);
    }

    /** dir_add on the root directory: fails exactly for a bad name, a name in use or
        a full directory. */
    method AddEntry(d: int, name: Name, x: nat) returns (ok: bool)
      requires Valid() && d in mem && mem[d].sector == ROOT_DIR_SECTOR
      requires 0 !in name && NewOnDisk(dev.sectors, View(), x)
      modifies `root, dev
      ensures Valid() && (ok <==> CanAdd(old(root), name))
      ensures View() == if ok then List(old(View()), name, x) else old(View())
      ensures RootChange(old(dev.sectors), dev.sectors, headers, headers, name, x, ok)
      ensures BytesKept(old(dev.sectors), dev.sectors, headers, headers, LiveSet(root, mem) - {ROOT_DIR_SECTOR})
    {
      ghost var s, b := View(), dev.sectors;
      ok := PutInRoot(d, name, x);
      EntryAdded(b, dev.sectors, s, name, x, ok, mapFile);
      if ok { Enter(name, x); }
    }

    ghost method Enter(name: Name, x: nat)
      requires freeMap.Valid()
      modifies `root
      ensures View() == List(old(View()), name, x)
    {
      root := root[name := x];
    }

    // ---------- Calls ----------

    // Opens the root directory.  Between calls nobody has it open.
    method OpenRoot(dirMem: bool, rootMem: Ptr) returns (d: Ptr)
      requires Valid() && hand == multiset{} && (rootMem.Ptr? ==> rootMem.addr !in mem)
      modifies `mem, `open, `hand, freeMap.words, dev
      ensures Valid() && ROOT_DIR_SECTOR in headers && d == if dirMem then rootMem else NoPtr
      ensures View() == Opened(old(View()), ROOT_DIR_SECTOR, d) && dev.sectors == old(dev.sectors)
    {
      RootNotOpen(View());
      d := InodeOpen(ROOT_DIR_SECTOR, rootMem);
      if d.Ptr? && !dirMem {
        OpenThenClose(old(View()), d.addr, ROOT_DIR_SECTOR, View());
        CloseRoot(d.addr);
        d := NoPtr;
      }
    }

    // inode_create and dir_add of filesys_create, once sector x has been taken.
    method CreateIn(d: int, name: Name, x: nat, size: nat, inodeMem: bool, save: bool) returns (ok: bool, data: Found)
      requires Valid() && d in mem && mem[d].sector == ROOT_DIR_SECTOR && 0 !in name && size < 0x8000_0000
      requires x < freeMap.bitCnt && freeMap.View()[x] && Unowned(View(), x, 1)
      modifies `headers, `root, freeMap.words, dev
      ensures Valid() && (ok <==> data.At? && CanAdd(old(root), name))
      ensures data.At? <==> inodeMem && CanSave(freeMap.bitCnt, save)
                            && !NoSpace(old(freeMap.View()), BytesToSectors(size))
      ensures data.At? ==> FirstGroup(old(freeMap.View()), 0, BytesToSectors(size), false, data)
      ensures View() == EntryMade(old(View()), name, x, size, data)
      ensures BytesKept(old(dev.sectors), dev.sectors, old(headers), headers, Others(old(root), mem))
      ensures RootChange(old(dev.sectors), dev.sectors, old(headers), headers, name, x, ok)
      ensures ok ==> MapSaved(dev.sectors, View()) && ZeroFile(dev.sectors, headers, x, size)
    {
      ghost var s, b := View(), dev.sectors;
      data := InodeCreate(x, size, inodeMem, save);
      ghost var t, c := View(), dev.sectors;
      ok := false;
      if data.At? {
        ok := AddEntry(d, name, x);
        MadeAndEntered(b, c, dev.sectors, s, t, View(), name, x, size, ok);
      } else {
        NeverCreated(b, c, s, name, size);
      }
    }

    // The same, with sector x given back on failure; s is the state before x was taken.
    method CreateAt(ghost s: Fs, d: int, name: Name, x: nat, size: nat, inodeMem: bool, save: bool, saveBack: bool)
      returns (ok: bool, ghost data: Found)
      requires Valid() && d in mem && mem[d].sector == ROOT_DIR_SECTOR && 0 !in name && size < 0x8000_0000
      requires Ok(s) && Group(s.bits, x, 1, false) && View() == s.(bits := Taken(s.bits, x))
      modifies `headers, `root, freeMap.words, dev
      ensures Valid() && (ok <==> data.At? && CanAdd(s.root, name))
      ensures data.At? <==> inodeMem && CanSave(freeMap.bitCnt, save)
                            && !NoSpace(Taken(s.bits, x), BytesToSectors(size))
      ensures data.At? ==> FirstGroup(Taken(s.bits, x), 0, BytesToSectors(size), false, data)
      ensures View() == Created(s, name, size, At(x), data)
      ensures FileCreated(old(dev.sectors), dev.sectors, s, View(), name, size, At(x), ok)
      ensures CanSave(freeMap.bitCnt, saveBack) ==> MapSaved(dev.sectors, View())
    {
      ghost var b := dev.sectors;
      TakenOk(s, x);
      var start;
      ok, start := CreateIn(d, name, x, size, inodeMem, save);
      data := start;
      if !ok {
        ghost var c, t := dev.sectors, View();
        EntryFailed(s, name, x, size, data);
        FreeMapRelease(x, 1, saveBack);
        NotCreated(b, c, dev.sectors, s, t, View(), name, size, x);
      }
    }

    // filesys_create inside the open root directory.
    method CreateEntry(d: int, name: Name, size: nat, inodeMem: bool, saves: nat -> bool)
      returns (ok: bool, ghost header: Found, ghost data: Found)
      requires Valid() && d in mem && mem[d].sector == ROOT_DIR_SECTOR && 0 !in name && size < 0x8000_0000
      modifies `headers, `root, freeMap.words, dev
      ensures Valid() && (ok <==> data.At? && CanAdd(old(root), name))
      ensures Placement(old(freeMap.View()), size, header, data)
      ensures View() == Created(old(View()), name, size, header, data)
      ensures data.At? <==> CanSave(freeMap.bitCnt, saves(0)) && inodeMem && CanSave(freeMap.bitCnt, saves(1))
                            && RoomFor(old(freeMap.View()), size)
      ensures FileCreated(old(dev.sectors), dev.sectors, old(View()), View(), name, size, header, ok)
      ensures CanSave(freeMap.bitCnt, saves(0)) && CanSave(freeMap.bitCnt, saves(2)) ==>
                old(MapSaved(dev.sectors, View())) ==> MapSaved(dev.sectors, View())
    {
      ghost var s, b := View(), dev.sectors;
      ok, data := false, BitmapError;
      var x := FreeMapAllocate(1, saves(0));
      header := x;
      ghost var c := dev.sectors;
      if x.At? {
        RoomAt(s.bits, size, x.idx);
        ok, data := CreateAt(s, d, name, x.idx, size, inodeMem, saves(1), saves(2));
        CreatedAfter(b, c, dev.sectors, s, View(), name, size, x, ok);
      } else {
        NeverCreated(b, c, s, name, size);
      }
    }

    // The same and closing the root directory, which was opened as d in state s.
    method CreateClose(ghost s: Fs, d: int, name: Name, size: nat, inodeMem: bool, saves: nat -> bool)
      returns (ok: bool, ghost header: Found, ghost data: Found)
      requires Valid() && Ok(s) && s.hand == multiset{} && d !in s.mem && 0 !in name && size < 0x8000_0000
      requires ROOT_DIR_SECTOR in s.headers && View() == OpenNew(s, d, ROOT_DIR_SECTOR)
      modifies this, freeMap.words, dev
      ensures Valid() && (ok <==> data.At? && CanAdd(s.root, name))
      ensures Placement(s.bits, size, header, data) && View() == Created(s, name, size, header, data)
      ensures data.At? <==> CanSave(freeMap.bitCnt, saves(0)) && inodeMem && CanSave(freeMap.bitCnt, saves(1))
                            && RoomFor(s.bits, size)
      ensures FileCreated(old(dev.sectors), dev.sectors, s, View(), name, size, header, ok)
      ensures CanSave(freeMap.bitCnt, saves(0)) && CanSave(freeMap.bitCnt, saves(2)) ==>
                MapSaved(old(dev.sectors), s) ==> MapSaved(dev.sectors, View())
    {
      ghost var b, t := dev.sectors, View();
      ok, header, data := CreateEntry(d, name, size, inodeMem, saves);
      ghost var r := View();
      CreatedInRoot(s, d, name, size, header, data);
      CloseRoot(d);
      WithRootOpen(b, dev.sectors, s, t, d, r, View(), name, size, header, ok);
    }

    /** Creates a file: fails exactly if the directory does not take the name, or
        memory, sectors or saving the free map fail.  Sectors are lost exactly if all
        but the directory entry succeeds and the file is not empty. */
    method Create(name: Name, size: nat, dirMem: bool, rootMem: Ptr, inodeMem: bool, saves: nat -> bool)
      returns (ok: bool, ghost header: Found, ghost data: Found)
      requires Valid() && hand == multiset{} && (rootMem.Ptr? ==> rootMem.addr !in mem)
      requires 0 !in name && size < 0x8000_0000
      modifies this, freeMap.words, dev
      ensures Valid() && hand == multiset{} && (ok <==> data.At? && CanAdd(old(root), name))
      ensures Placement(old(freeMap.View()), size, header, data)
      ensures View() == Created(old(View()), name, size, header, data)
      ensures data.At? <==> Reaches(old(freeMap.View()), size, dirMem && rootMem.Ptr? && inodeMem, saves)
      ensures FileCreated(old(dev.sectors), dev.sectors, old(View()), View(), name, size, header, ok)
      ensures CanSave(freeMap.bitCnt, saves(0)) && CanSave(freeMap.bitCnt, saves(2)) ==>
                old(MapSaved(dev.sectors, View())) ==> MapSaved(dev.sectors, View())
      ensures old(Accounted(View())) ==>
                (Accounted(View()) <==> !Reaches(old(freeMap.View()), size, dirMem && rootMem.Ptr? && inodeMem, saves)
                                        || CanAdd(old(root), name) || size == 0)
    {
      ghost var s := View();
      ok, header, data := false, BitmapError, BitmapError;
      RootNotOpen(s);
      AllKept(dev.sectors, s, LiveSet(root, mem) - {FREE_MAP_SECTOR});
      NeverCreated(dev.sectors, dev.sectors, s, name, size);
      var d := OpenRoot(dirMem, rootMem);
      if d.Ptr? { ok, header, data := CreateClose(s, d.addr, name, size, inodeMem, saves); }
      if Accounted(s) { CreatedAccounted(s, name, size, header, data); }
    }

    // Makes a file of an inode reference.
    method NewFile(f: int, a: int)
      requires freeMap.Valid()
      modifies `files, `hand
      ensures View() == ToFile(old(View()), f, a)
    {
      files := files[f := File(a, false)];
      hand := hand - multiset{a};
    }

    // file_open: makes a file of an inode reference, or drops the reference.
    method FileOpen(r: Ptr, fileMem: Ptr) returns (f: Ptr)
      requires Valid() && (fileMem.Ptr? ==> fileMem.addr !in files)
      requires r.Ptr? ==> r.addr in hand && r.addr in mem && (mem[r.addr].openCnt == 1 ==> !mem[r.addr].removed)
                          && mem[r.addr].sector != ROOT_DIR_SECTOR && mem[r.addr].sector != FREE_MAP_SECTOR
      modifies this, freeMap.words, dev
      ensures Valid() && dev.sectors == old(dev.sectors)
      ensures f == if r.Ptr? then fileMem else NoPtr
      ensures f.Ptr? ==> View() == ToFile(old(View()), f.addr, r.addr)
      ensures f.NoPtr? ==> View() == if r.Ptr? then Closed(old(View()), r.addr) else old(View())
    {
      if r.Ptr? && fileMem.Ptr? {
        ToFileSound(dev.sectors, View(), fileMem.addr, r.addr, mapFile);
        NewFile(fileMem.addr, r.addr);
        f := fileMem;
      } else {
        if r.Ptr? { InodeClose(r.addr, true, true); }
        f := NoPtr;
      }
    }

    // lookup in the root directory, open as d.
    method Lookup(d: int, name: Name) returns (found: bool, e: Slot, i: nat)
      requires Valid() && d in mem && mem[d].sector == ROOT_DIR_SECTOR
      ensures InodeFits(dev.sectors, headers, ROOT_DIR_SECTOR) && (found <==> name in root)
      ensures found ==> Named(RootTable(dev.sectors, headers), i, name) && e == RootTable(dev.sectors, headers)[i]
      ensures found ==> SectorOf(e) == root[name]
    {
      RootNode(dev.sectors, View(), d);
      found, e, i := LookupIn(dev, mem[d].data.start, mem[d].data.length, name);
    }

    // Closes the root directory, open as d, which does not touch the device.
    method CloseRoot(d: int)
      requires Valid() && d in hand && d in mem && mem[d].sector == ROOT_DIR_SECTOR
      modifies `mem, `open, `hand, freeMap.words, dev
      ensures Valid() && View() == Closed(old(View()), d) && dev.sectors == old(dev.sectors)
    {
      assert NodeOk(View(), d) && ROOT_DIR_SECTOR in Listed(root);
      InodeClose(d, true, true);
    }

    // Opens the inode in sector x and closes the root directory, open as d.
    method OpenUnder(d: int, x: int, inodeMem: Ptr) returns (r: Ptr)
      requires Valid() && d in hand && d in mem && mem[d].sector == ROOT_DIR_SECTOR
      requires x in Listed(root) && (inodeMem.Ptr? ==> inodeMem.addr !in mem)
      modifies `mem, `open, `hand, freeMap.words, dev
      ensures Valid() && dev.sectors == old(dev.sectors) && x in headers && OpenedTo(old(View()), x, inodeMem, r)
      ensures var u := Opened(old(View()), x, r);
        d in u.mem && View() == Closed(u, d)
    {
      r := InodeOpen(x, inodeMem);
      CloseRoot(d);
    }

    // dir_lookup in the root directory, opened as d in state s, and dir_close.
    method LookupClose(ghost s: Fs, d: int, name: Name, inodeMem: Ptr) returns (r: Ptr)
      requires Valid() && Ok(s) && s.hand == multiset{} && d !in s.mem
      requires ROOT_DIR_SECTOR in s.headers && View() == OpenNew(s, d, ROOT_DIR_SECTOR)
      requires inodeMem.Ptr? ==> inodeMem.addr !in mem
      modifies `mem, `open, `hand, freeMap.words, dev
      ensures Valid() && dev.sectors == old(dev.sectors) && (r.NoPtr? ==> View() == s)
      ensures r.Ptr? <==> name in s.root && (inodeMem.Ptr? || s.root[name] in OpenSectors(s.mem))
      ensures r.Ptr? ==> s.root[name] in s.headers && OpenedTo(s, s.root[name], inodeMem, r)
      ensures r.Ptr? ==> View() == Opened(s, s.root[name], r)
    {
      r := NoPtr;
      var found, e, _ := Lookup(d, name);
      if found {
        assert root[name] in Listed(root) && root[name] != ROOT_DIR_SECTOR;
        r := OpenUnder(d, SectorOf(e), inodeMem);
        LookedUp(s, d, s.root[name], inodeMem, r);
      } else {
        OpenThenClose(s, d, ROOT_DIR_SECTOR, View());
        CloseRoot(d);
      }
    }

    /** Opens a file by name: fails exactly if there is no such name or memory
        runs out, and then changes nothing. */
    method Open(name: Name, dirMem: bool, rootMem: Ptr, inodeMem: Ptr, fileMem: Ptr) returns (f: Ptr, ghost r: Ptr)
      requires Valid() && hand == multiset{} && (rootMem.Ptr? ==> rootMem != inodeMem)
      requires (rootMem.Ptr? ==> rootMem.addr !in mem) && (inodeMem.Ptr? ==> inodeMem.addr !in mem)
      requires fileMem.Ptr? ==> fileMem.addr !in files
      modifies this, freeMap.words, dev
      ensures Valid() && hand == multiset{} && dev.sectors == old(dev.sectors)
      ensures f.NoPtr? ==> View() == old(View())
      ensures f.Ptr? <==> dirMem && rootMem.Ptr? && name in old(root) && fileMem.Ptr?
                          && (inodeMem.Ptr? || old(root)[name] in OpenSectors(old(mem)))
      ensures f.Ptr? ==> f == fileMem && r.Ptr? && old(root)[name] in old(headers)
      ensures f.Ptr? ==> OpenedTo(old(View()), old(root)[name], inodeMem, r)
      ensures f.Ptr? ==> View() == ToFile(Opened(old(View()), old(root)[name], r), f.addr, r.addr)
      ensures old(Accounted(View())) ==> Accounted(View())
    {
      ghost var s := View();
      RootNotOpen(s);
      var q := NoPtr;
      var d := OpenRoot(dirMem, rootMem);
      if d.Ptr? { q := LookupClose(s, d.addr, name, inodeMem); }
      r := q;
      if q.Ptr? { FoundInode(s, name, inodeMem, q); }
      f := FileOpen(q, fileMem);
      if f.Ptr? && Accounted(s) { OpenedAccounted(s, s.root[name], inodeMem, q, f.addr); }
    }

    // One more reference to an inode.
    method InodeReopen(a: int)
      requires freeMap.Valid() && a in mem
      modifies `mem, `hand
      ensures View() == Reopen(old(View()), a)
    {
      mem := mem[a := mem[a].(openCnt := mem[a].openCnt + 1)];
      hand := hand + multiset{a};
    }

    /** A second file for the same inode. */
    method FileReopen(f: int, fileMem: Ptr) returns (g: Ptr)
      requires Valid() && hand == multiset{} && f in files && f != mapFile && (fileMem.Ptr? ==> fileMem.addr !in files)
      modifies this, freeMap.words, dev
      ensures Valid() && hand == multiset{} && g == fileMem && dev.sectors == old(dev.sectors)
      ensures old(files)[f].inode in old(mem)
      ensures View() == if g.Ptr? then ToFile(Reopen(old(View()), old(files)[f].inode), g.addr, old(files)[f].inode)
                        else old(View())
    {
      ghost var s := View();
      var a := files[f].inode;
      NotTheMap(dev.sectors, s, f, mapFile);
      assert NodeOk(s, a);
      ReopenSound(dev.sectors, s, a, mapFile);
      ReopenThenClose(s, a);
      InodeReopen(a);
      g := FileOpen(Ptr(a), fileMem);
    }

    // Denies writes on behalf of f, once; the inode's counter stays below its
    // number of openers.
    method FileDeny(f: int)
      requires freeMap.Valid() && f in files && files[f].inode in mem
      requires !files[f].denyWrite ==> mem[files[f].inode].denyCnt < mem[files[f].inode].openCnt
      modifies `files, `mem
      ensures View() == SetDeny(old(View()), f, true)
    {
      var a := files[f].inode;
      if !files[f].denyWrite {
        files := files[f := File(a, true)];
        mem := mem[a := mem[a].(denyCnt := mem[a].denyCnt + 1)];
        assert mem[a].denyCnt <= mem[a].openCnt;
      } else {
        assert mem == mem[a := mem[a].(denyCnt := mem[a].denyCnt)] && files == files[f := File(a, true)];
      }
    }

    // Stops denying writes on behalf of f; the inode's counter cannot run out.
    method FileAllow(f: int)
      requires freeMap.Valid() && f in files && files[f].inode in mem
      requires files[f].denyWrite ==> 0 < mem[files[f].inode].denyCnt <= mem[files[f].inode].openCnt
      modifies `files, `mem
      ensures View() == SetDeny(old(View()), f, false)
    {
      var a := files[f].inode;
      if files[f].denyWrite {
        files := files[f := File(a, false)];
        mem := mem[a := mem[a].(denyCnt := mem[a].denyCnt - 1)];
      } else {
        assert mem == mem[a := mem[a].(denyCnt := mem[a].denyCnt)] && files == files[f := File(a, false)];
      }
    }

    method DenyWrite(f: int)
      requires Valid() && f in files && f != mapFile
      modifies `files, `mem
      ensures Valid() && old(files)[f].inode in old(mem) && View() == SetDeny(old(View()), f, true)
    {
      DenyRoom(View(), f);
      SetDenySound(dev.sectors, View(), f, true, mapFile);
      FileDeny(f);
    }

    method AllowWrite(f: int)
      requires Valid() && f in files && f != mapFile
      modifies `files, `mem
      ensures Valid() && old(files)[f].inode in old(mem) && View() == SetDeny(old(View()), f, false)
    {
      DenyRoom(View(), f);
      SetDenySound(dev.sectors, View(), f, false, mapFile);
      FileAllow(f);
    }

    // Frees the structure of a file, whose inode reference is then in hand.
    method DropFile(f: int)
      requires freeMap.Valid() && f in files && files[f].inode in mem
      requires files[f].denyWrite ==> 0 < mem[files[f].inode].denyCnt <= mem[files[f].inode].openCnt
      modifies `files, `mem, `hand
      ensures View() == FromFile(SetDeny(old(View()), f, false), f)
    {
      var a := files[f].inode;
      FileAllow(f);
      files := files - {f};
      hand := hand + multiset{a};
    }

    // file_close up to inode_close.
    method LetGo(f: int)
      requires Valid() && f in files && f != mapFile
      modifies `files, `mem, `hand
      ensures Valid() && old(files)[f].inode in old(mem) && old(files)[f].inode in hand
      ensures View() == FromFile(SetDeny(old(View()), f, false), f)
    {
      ghost var s := View();
      DenyRoom(s, f);
      SetDenySound(dev.sectors, s, f, false, mapFile);
      FromFileSound(dev.sectors, SetDeny(s, f, false), f, mapFile);
      DropFile(f);
    }

    /** Closes a file; see FsCalls.FileClosedIs.  All inodes that are still live keep
        their bytes. */
    method Close(f: int, saves: nat -> bool)
      requires Valid() && hand == multiset{} && f in files && f != mapFile
      modifies this, freeMap.words, dev
      ensures Valid() && hand == multiset{}
      ensures old(files)[f].inode in old(mem) && View() == FileClosed(old(View()), f)
      ensures BytesKept(old(dev.sectors), dev.sectors, headers, headers, LiveSet(root, mem) - {FREE_MAP_SECTOR})
      ensures old(MapSaved(dev.sectors, View())) && CanSave(freeMap.bitCnt, saves(1)) ==> MapSaved(dev.sectors, View())
      ensures old(Accounted(View())) ==> Accounted(View())
    {
      ghost var s := View();
      var a := files[f].inode;
      LetGo(f);
      InodeClose(a, saves(0), saves(1));
      assert View() == FileClosed(s, f);
      ClosedFacts(s, f);
    }

    // inode_remove and the removal of the entry.
    method MarkRemoved(name: Name, a: int)
      requires freeMap.Valid() && a in mem
      modifies `root, `mem
      ensures View() == Unlist(old(View()), name, a)
    {
      root := root - {name};
      mem := mem[a := mem[a].(removed := true)];
    }

    // The second half of dir_remove in the root directory, open as d, for the inode
    // open as a.
    method UnlistEntry(d: int, name: Name, i: nat, e: Slot, a: int)
      requires Valid() && d in mem && mem[d].sector == ROOT_DIR_SECTOR && name in root
      requires a in mem && mem[a].sector == root[name] && InodeFits(dev.sectors, headers, ROOT_DIR_SECTOR)
      requires Named(RootTable(dev.sectors, headers), i, name) && e == RootTable(dev.sectors, headers)[i]
      modifies `root, `mem, dev
      ensures Valid() && View() == Unlist(old(View()), name, a)
      ensures BytesKept(old(dev.sectors), dev.sectors, headers, headers,
                        LiveSet(old(root), old(mem)) - {ROOT_DIR_SECTOR})
      ensures RootErased(old(dev.sectors), dev.sectors, headers, name)
    {
      ghost var s, b := View(), dev.sectors;
      RootNode(b, s, d);
      EraseEntry(dev, mem[d].data, name, i, e, headers, root);
      UnlistSound(b, dev.sectors, s, name, a, mapFile);
      MarkRemoved(name, a);
    }

    // Erases the entry and closes the inode, open as a.
    method RemoveOpen(d: int, name: Name, i: nat, e: Slot, a: int, saves: nat -> bool)
      requires Valid() && d in mem && mem[d].sector == ROOT_DIR_SECTOR && name in root && a in hand
      requires a in mem && mem[a].sector == root[name] && InodeFits(dev.sectors, headers, ROOT_DIR_SECTOR)
      requires Named(RootTable(dev.sectors, headers), i, name) && e == RootTable(dev.sectors, headers)[i]
      modifies this, freeMap.words, dev
      ensures Valid() && View() == Removed(old(View()), name, a)
      ensures RemoveStep(old(dev.sectors), dev.sectors, old(View()), View(), name, CanSave(freeMap.bitCnt, saves(1)))
    {
      ghost var b, s := dev.sectors, View();
      UnlistEntry(d, name, i, e, a);
      ghost var c, t := dev.sectors, View();
      InodeClose(a, saves(0), saves(1));
      ErasedClosed(b, c, dev.sectors, s, t, View(), name, a, CanSave(freeMap.bitCnt, saves(1)));
    }

    // dir_remove once the entry has been found in the root directory, open as d.
    method RemoveFound(d: int, name: Name, i: nat, e: Slot, inodeMem: Ptr, saves: nat -> bool) returns (q: Ptr)
      requires Valid() && d in mem && mem[d].sector == ROOT_DIR_SECTOR && (inodeMem.Ptr? ==> inodeMem.addr !in mem)
      requires name in root && InodeFits(dev.sectors, headers, ROOT_DIR_SECTOR) && SectorOf(e) == root[name]
      requires Named(RootTable(dev.sectors, headers), i, name) && e == RootTable(dev.sectors, headers)[i]
      modifies this, freeMap.words, dev
      ensures Valid() && old(root)[name] in old(headers) && OpenedTo(old(View()), old(root)[name], inodeMem, q)
      ensures q.NoPtr? ==> View() == old(View()) && dev.sectors == old(dev.sectors)
      ensures q.Ptr? ==> q.addr in Opened(old(View()), old(root)[name], q).mem
      ensures q.Ptr? ==> View() == Removed(Opened(old(View()), old(root)[name], q), name, q.addr)
      ensures q.Ptr? ==>
                RemoveStep(old(dev.sectors), dev.sectors, old(View()), View(), name, CanSave(freeMap.bitCnt, saves(1)))
    {
      ghost var t := View();
      assert root[name] in Listed(root);
      q := InodeOpen(SectorOf(e), inodeMem);
      if q.Ptr? {
        OpenedOk(t, t.root[name], inodeMem, q);
        ghost var u, b := View(), dev.sectors;
        RemoveOpen(d, name, i, e, q.addr, saves);
        assert RemoveStep(b, dev.sectors, u, View(), name, CanSave(freeMap.bitCnt, saves(1)));
      }
    }

    // dir_remove, with the root directory opened as d in state s.
    method RemoveEntry(ghost s: Fs, d: int, name: Name, inodeMem: Ptr, saves: nat -> bool) returns (ok: bool)
      requires Valid() && Ok(s) && s.hand == multiset{} && d !in s.mem && ROOT_DIR_SECTOR in s.headers
      requires View() == OpenNew(s, d, ROOT_DIR_SECTOR) && (inodeMem.Ptr? ==> inodeMem.addr !in mem)
      modifies this, freeMap.words, dev
      ensures Valid() && (ok <==> name in s.root && (inodeMem.Ptr? || s.root[name] in OpenSectors(s.mem)))
      ensures !ok ==> View() == old(View()) && dev.sectors == old(dev.sectors)
      ensures ok ==> RemovedUnder(s, View(), d, name)
      ensures ok ==> RemoveStep(old(dev.sectors), dev.sectors, s, View(), name, CanSave(freeMap.bitCnt, saves(1)))
    {
      ok := false;
      ghost var b := dev.sectors;
      var found, e, i := Lookup(d, name);
      if found {
        var q := RemoveFound(d, name, i, e, inodeMem, saves);
        ok := q.Ptr?;
        RemovedPlan(b, dev.sectors, s, d, name, inodeMem, q, View(), CanSave(freeMap.bitCnt, saves(1)));
      }
    }

    // And dir_close.
    method RemoveClose(ghost s: Fs, d: int, name: Name, inodeMem: Ptr, saves: nat -> bool) returns (ok: bool)
      requires Valid() && Ok(s) && s.hand == multiset{} && d !in s.mem && ROOT_DIR_SECTOR in s.headers
      requires View() == OpenNew(s, d, ROOT_DIR_SECTOR) && (inodeMem.Ptr? ==> inodeMem.addr !in mem)
      modifies this, freeMap.words, dev
      ensures Valid() && (ok <==> name in s.root && (inodeMem.Ptr? || s.root[name] in OpenSectors(s.mem)))
      ensures !ok ==> View() == s && dev.sectors == old(dev.sectors)
      ensures ok ==> RemovedFor(s, name, View())
      ensures ok ==> RemoveStep(old(dev.sectors), dev.sectors, s, View(), name, CanSave(freeMap.bitCnt, saves(1)))
    {
      ghost var b := dev.sectors;
      RootOpened(s, d);
      ok := RemoveEntry(s, d, name, inodeMem, saves);
      ghost var t := View();
      CloseRoot(d);
      if ok { StillRemoved(b, dev.sectors, s, t, d, name, CanSave(freeMap.bitCnt, saves(1))); }
    }

    /** Removes a name: fails exactly if there is no such name or memory runs out,
        and then changes nothing.  The sectors go back at once unless a file has
        the inode open.  Inodes that are still live keep their bytes. */
    method Remove(name: Name, dirMem: bool, rootMem: Ptr, inodeMem: Ptr, saves: nat -> bool) returns (ok: bool)
      requires Valid() && hand == multiset{} && (rootMem.Ptr? ==> rootMem != inodeMem)
      requires (rootMem.Ptr? ==> rootMem.addr !in mem) && (inodeMem.Ptr? ==> inodeMem.addr !in mem)
      modifies this, freeMap.words, dev
      ensures Valid() && hand == multiset{}
      ensures !ok ==> View() == old(View()) && dev.sectors == old(dev.sectors)
      ensures ok <==> dirMem && rootMem.Ptr? && name in old(root)
                      && (inodeMem.Ptr? || old(root)[name] in OpenSectors(old(mem)))
      ensures ok ==> RemovedFor(old(View()), name, View())
      ensures ok ==>
                RemoveStep(old(dev.sectors), dev.sectors, old(View()), View(), name, CanSave(freeMap.bitCnt, saves(1)))
      ensures old(Accounted(View())) ==> Accounted(View())
    {
      ghost var s := View();
      ok := false;
      RootNotOpen(s);
      var d := OpenRoot(dirMem, rootMem);
      if d.Ptr? { ok := RemoveClose(s, d.addr, name, inodeMem, saves); }
      if ok && Accounted(s) { RemovedAccounted(s, name, View()); }
    }

    // ---------- Bytes ----------

    /** Reads from a file: exactly the bytes from the offset on, as far as the file
        goes and there is memory for partial sectors. */
    method ReadAt(f: int, buffer: array<byte>, size: int, offset: nat, memory: bool) returns (n: int)
      requires Valid() && f in files && size <= buffer.Length
      modifies buffer
      ensures FileRead(View(), f, dev.sectors, old(buffer[..]), buffer[..], size, offset, memory, n)
    {
      OpenFile(View(), dev.sectors, f);
      n := ReadExtent(dev, mem[files[f].inode].data, buffer, size, offset, memory);
    }

    /** Writes to a file: nothing if any file denies writes to the inode, else as
        many bytes as the file has room for; no other live inode changes. */
    method WriteAt(f: int, data: seq<byte>, offset: nat, memory: bool) returns (n: int)
      requires Valid() && f in files && f != mapFile
      modifies dev
      ensures Valid() && |dev.sectors| == |old(dev.sectors)|
      ensures FileWritten(View(), f, old(dev.sectors), dev.sectors, data, offset, memory, n)
      ensures old(MapSaved(dev.sectors, View())) ==> MapSaved(dev.sectors, View())
    {
      ghost var s, d := View(), dev.sectors;
      OpenFile(s, d, f);
      var node := mem[files[f].inode];
      n := WriteExtent(dev, node.data, node.denyCnt, data, offset, memory);
      FileWriteSound(d, dev.sectors, s, f, data, offset, n, mapFile);
    }
  }
}
