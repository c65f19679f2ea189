/**
 Two-level x86 page tables (userprog/pagedir.c, threads/pte.h, threads/vaddr.h).
 Memory is a word for each kernel address.  A page directory maps user pages to
 entries; the tables it uses are its own.
 */
module PageTable {
  import opened Options

  type Word = bv32

  const PHYS_BASE: Word := 0xc000_0000
  const PTE_ADDR: Word := 0xffff_f000
  const PTE_P: Word := 0x1
  const PTE_W: Word := 0x2
  const PTE_U: Word := 0x4
  const PTE_A: Word := 0x20
  const PTE_D: Word := 0x40

  // ---------- Addresses and entries ----------

  function PageOffset(va: Word): Word { va & 0xfff }

  function PageBase(va: Word): Word { va & PTE_ADDR }

  predicate Aligned(p: Word) { PageOffset(p) == 0 }

  predicate IsUser(va: Word) { va < PHYS_BASE }

  function PtNo(va: Word): (i: Word)
    ensures i < 1024
  {
    (va & 0x003f_f000) >> 12
  }

  function PdNo(va: Word): (i: Word)
    ensures i < 1024
  {
    va >> 22
  }

  function PhysToVirt(p: Word): Word { p + PHYS_BASE }

  function VirtToPhys(v: Word): Word { v - PHYS_BASE }

  function PdeCreate(pt: Word): Word { VirtToPhys(pt) | PTE_U | PTE_P | PTE_W }

  function PdeGetPt(pde: Word): Word { PhysToVirt(pde & PTE_ADDR) }

  function PteCreateUser(page: Word, writable: bool): Word {
    VirtToPhys(page) | PTE_P | (if writable then PTE_W else 0) | PTE_U
  }

  function PteGetPage(pte: Word): Word { PhysToVirt(pte & PTE_ADDR) }

  /** Decoding an entry gives back the page, its flags and nothing else. */
  lemma PteRoundTrip(page: Word, writable: bool)
    requires Aligned(page) && !IsUser(page)
    ensures var e := PteCreateUser(page, writable);
      && PteGetPage(e) == page && e & PTE_P != 0 && e & PTE_U != 0 && (e & PTE_W != 0 <==> writable)
      && e & PTE_D == 0 && e & PTE_A == 0 && e & PTE_ADDR < PHYS_BASE
  {
  }

  lemma PdeRoundTrip(pt: Word)
    requires Aligned(pt)
    ensures PdeGetPt(PdeCreate(pt)) == pt && PdeCreate(pt) & PTE_P != 0 && PdeCreate(pt) != 0
  {
  }

  lemma IndexesOfPage(va: Word, vb: Word)
    requires PageBase(va) == PageBase(vb)
    ensures PdNo(va) == PdNo(vb) && PtNo(va) == PtNo(vb)
  {
  }

  lemma PageOfIndexes(va: Word, vb: Word)
    requires PdNo(va) == PdNo(vb) && PtNo(va) == PtNo(vb)
    ensures PageBase(va) == PageBase(vb)
  {
  }

  /** Two addresses use the same entry exactly if they are in the same page. */
  lemma SamePage(va: Word, vb: Word)
    ensures PdNo(va) == PdNo(vb) && PtNo(va) == PtNo(vb) <==> PageBase(va) == PageBase(vb)
  {
    if PageBase(va) == PageBase(vb) { IndexesOfPage(va, vb); }
    if PdNo(va) == PdNo(vb) && PtNo(va) == PtNo(vb) { PageOfIndexes(va, vb); }
  }

  lemma UserIndex(va: Word)
    ensures IsUser(va) <==> PdNo(va) < 768
  {
  }

  /** Word i of a page. */
  function Slot(page: Word, i: Word): Word { page + (i << 2) }

  lemma SlotsApart(a: Word, b: Word, i: Word, j: Word)
    requires Aligned(a) && Aligned(b) && i < 1024 && j < 1024
    ensures Slot(a, i) == Slot(b, j) <==> a == b && i == j
  {
  }

  // ---------- Directories in memory ----------

  type Memory = Word -> Word

  /** A table page knows the directory and the index it is for. */
  datatype Owner = Owner(dir: Word, index: Word)

  /** Which pages are tables, and whose. */
  type Tables = Word -> Option<Owner>

  /** The word of the directory that covers address va. */
  function PdeAt(pd: Word, va: Word): Word { Slot(pd, PdNo(va)) }

  /** The address of the entry for va, if its table is there. */
  function Lookup(m: Memory, pd: Word, va: Word): Option<Word> {
    if m(PdeAt(pd, va)) == 0 then None else Some(Slot(PdeGetPt(m(PdeAt(pd, va))), PtNo(va)))
  }

  /** The entry for va. */
  function Entry(m: Memory, pd: Word, va: Word): Option<Word> {
    match Lookup(m, pd, va)
    case None => None
    case Some(p) => Some(m(p))
  }

  predicate Present(e: Option<Word>) {
    e.Some? && e.value & PTE_P != 0
  }

  /** The kernel address behind user address va, or none. */
  function Translate(m: Memory, pd: Word, va: Word): Option<Word> {
    var e := Entry(m, pd, va);
    if Present(e) then Some(PteGetPage(e.value) + PageOffset(va)) else None
  }

  /** The directory word at index i is empty or leads to a table that belongs to
      it alone. */
  ghost predicate PdeOk(m: Memory, tables: Tables, pd: Word, i: Word) {
    var e := m(Slot(pd, i));
    e == 0 || (tables(PdeGetPt(e)) == Some(Owner(pd, i)) && e == PdeCreate(PdeGetPt(e)))
  }

  /** Directories and tables are different pages, and every user index of every
      directory is in order. */
  ghost predicate TablesOk(m: Memory, dirs: set<Word>, tables: Tables) {
    && (forall d | d in dirs :: Aligned(d) && tables(d).None?)
    && (forall t | tables(t).Some? :: Aligned(t))
    && (forall d, i: Word | d in dirs && i < 768 :: PdeOk(m, tables, d, i))
  }

  function Stored(m: Memory, a: Word, w: Word): Memory {
    x => if x == a then w else m(x)
  }

  /** The page filled with zeros. */
  function Zeroed(m: Memory, page: Word): Memory {
    x => if PageBase(x) == page then 0 else m(x)
  }

  lemma SlotInPage(page: Word, i: Word)
    requires Aligned(page) && i < 1024
    ensures PageBase(Slot(page, i)) == page
  {
  }

  lemma SlotOffset(page: Word, i: Word)
    requires Aligned(page) && i < 1024
    ensures PageOffset(Slot(page, i)) == i << 2
  {
  }

  // Entries of different pages or directories are different words.
  lemma EntryApart(m: Memory, tables: Tables, pd: Word, va: Word, d: Word, vb: Word)
    requires (forall t | tables(t).Some? :: Aligned(t)) && Lookup(m, pd, va).Some?
    requires PdeOk(m, tables, pd, PdNo(va)) && PdeOk(m, tables, d, PdNo(vb))
    ensures Lookup(m, d, vb) == Lookup(m, pd, va) <==> d == pd && PageBase(vb) == PageBase(va)
  {
    SamePage(va, vb);
    if Lookup(m, d, vb).Some? {
      SlotsApart(PdeGetPt(m(PdeAt(pd, va))), PdeGetPt(m(PdeAt(d, vb))), PtNo(va), PtNo(vb));
    }
  }

  // A word of a table is no word of a directory.
  lemma DirWordKept(m: Memory, dirs: set<Word>, tables: Tables, t: Word, j: Word, w: Word, d: Word, i: Word)
    requires TablesOk(m, dirs, tables) && tables(t).Some? && j < 1024 && d in dirs && i < 1024
    ensures Stored(m, Slot(t, j), w)(Slot(d, i)) == m(Slot(d, i))
  {
    SlotsApart(d, t, i, j);
  }

  lemma StoreKeepsDirs(m: Memory, dirs: set<Word>, tables: Tables, t: Word, j: Word, w: Word)
    requires TablesOk(m, dirs, tables) && tables(t).Some? && j < 1024
    ensures TablesOk(Stored(m, Slot(t, j), w), dirs, tables)
  {
    var n := Stored(m, Slot(t, j), w);
    forall d, i: Word | d in dirs && i < 768 ensures PdeOk(n, tables, d, i) {
      assert PdeOk(m, tables, d, i);
      DirWordKept(m, dirs, tables, t, j, w, d, i);
    }
  }

  // A write that misses the directory word is seen exactly in the entry it hits.
  lemma EntryAfter(m: Memory, a: Word, w: Word, d: Word, vb: Word)
    requires Stored(m, a, w)(PdeAt(d, vb)) == m(PdeAt(d, vb))
    ensures Entry(Stored(m, a, w), d, vb) == if Lookup(m, d, vb) == Some(a) then Some(w) else Entry(m, d, vb)
  {
  }

  /** Writing an entry changes that entry and no other, in any directory. */
  lemma StoreEntry(m: Memory, dirs: set<Word>, tables: Tables, pd: Word, va: Word, w: Word, d: Word, vb: Word)
    requires TablesOk(m, dirs, tables) && pd in dirs && d in dirs && IsUser(va) && IsUser(vb)
    requires Lookup(m, pd, va).Some?
    ensures var n := Stored(m, Lookup(m, pd, va).value, w);
      Entry(n, d, vb) == if d == pd && PageBase(vb) == PageBase(va) then Some(w) else Entry(m, d, vb)
  {
    UserIndex(va);
    UserIndex(vb);
    assert PdeOk(m, tables, pd, PdNo(va)) && PdeOk(m, tables, d, PdNo(vb));
    EntryApart(m, tables, pd, va, d, vb);
    DirWordKept(m, dirs, tables, PdeGetPt(m(PdeAt(pd, va))), PtNo(va), w, d, PdNo(vb));
    EntryAfter(m, Lookup(m, pd, va).value, w, d, vb);
  }

  // ---------- What a directory says about a page ----------

  /** The entry for va; a missing table reads as empty entries. */
  function EntryWord(m: Memory, pd: Word, va: Word): Word {
    match Entry(m, pd, va)
    case None => 0
    case Some(w) => w
  }

  /** Nothing is said differently, in any directory, about any page but that of
      va in pd. */
  ghost predicate OthersKept(m: Memory, n: Memory, dirs: set<Word>, pd: Word, va: Word) {
    forall d, vb: Word | d in dirs && IsUser(vb) && !(d == pd && PageBase(vb) == PageBase(va)) ::
      EntryWord(n, d, vb) == EntryWord(m, d, vb)
  }

  ghost predicate AllKept(m: Memory, n: Memory, dirs: set<Word>) {
    forall d, vb: Word | d in dirs && IsUser(vb) :: EntryWord(n, d, vb) == EntryWord(m, d, vb)
  }

  lemma StoreOthers(m: Memory, dirs: set<Word>, tables: Tables, pd: Word, va: Word, w: Word)
    requires TablesOk(m, dirs, tables) && pd in dirs && IsUser(va) && Lookup(m, pd, va).Some?
    ensures var n := Stored(m, Lookup(m, pd, va).value, w);
      && TablesOk(n, dirs, tables) && OthersKept(m, n, dirs, pd, va)
      && forall vb: Word | IsUser(vb) && PageBase(vb) == PageBase(va) :: EntryWord(n, pd, vb) == w
  {
    UserIndex(va);
    assert PdeOk(m, tables, pd, PdNo(va));
    StoreKeepsDirs(m, dirs, tables, PdeGetPt(m(PdeAt(pd, va))), PtNo(va), w);
    forall d, vb: Word | d in dirs && IsUser(vb)
      ensures var n := Stored(m, Lookup(m, pd, va).value, w);
        EntryWord(n, d, vb) == if d == pd && PageBase(vb) == PageBase(va) then w else EntryWord(m, d, vb)
    {
      StoreEntry(m, dirs, tables, pd, va, w, d, vb);
    }
  }

  // ---------- A new table ----------

  // Filling a page leaves the words of other pages alone.
  lemma ZeroedKeeps(m: Memory, page: Word, q: Word, i: Word)
    requires Aligned(q) && q != page && i < 1024
    ensures Zeroed(m, page)(Slot(q, i)) == m(Slot(q, i))
  {
    SlotInPage(q, i);
  }

  lemma ZeroedReads(m: Memory, page: Word, i: Word)
    requires Aligned(page) && i < 1024
    ensures Zeroed(m, page)(Slot(page, i)) == 0
  {
    SlotInPage(page, i);
  }

  function Claimed(tables: Tables, page: Word, o: Owner): Tables {
    x => if x == page then Some(o) else tables(x)
  }

  ghost predicate Fresh(dirs: set<Word>, tables: Tables, page: Word) {
    Aligned(page) && page !in dirs && tables(page).None?
  }

  /** Memory after a zeroed page has become the table for va. */
  function WithTable(m: Memory, pd: Word, va: Word, page: Word): Memory {
    Stored(Zeroed(m, page), PdeAt(pd, va), PdeCreate(page))
  }

  lemma TableDirWord(m: Memory, dirs: set<Word>, tables: Tables, pd: Word, va: Word, page: Word, d: Word, i: Word)
    requires TablesOk(m, dirs, tables) && pd in dirs && d in dirs && Fresh(dirs, tables, page) && i < 1024
    ensures WithTable(m, pd, va, page)(Slot(d, i)) ==
      if d == pd && i == PdNo(va) then PdeCreate(page) else m(Slot(d, i))
  {
    SlotsApart(d, pd, i, PdNo(va));
    ZeroedKeeps(m, page, d, i);
  }

  lemma StoredMisses(m: Memory, a: Word, w: Word, x: Word)
    requires x != a
    ensures Stored(m, a, w)(x) == m(x)
  {
  }

  lemma TableWord(m: Memory, dirs: set<Word>, tables: Tables, pd: Word, va: Word, page: Word, t: Word, j: Word)
    requires TablesOk(m, dirs, tables) && pd in dirs && Fresh(dirs, tables, page) && j < 1024
    requires tables(t).Some? || t == page
    ensures WithTable(m, pd, va, page)(Slot(t, j)) == if t == page then 0 else m(Slot(t, j))
  {
    SlotsApart(t, pd, j, PdNo(va));
    StoredMisses(Zeroed(m, page), PdeAt(pd, va), PdeCreate(page), Slot(t, j));
    if t == page { ZeroedReads(m, page, j); } else { ZeroedKeeps(m, page, t, j); }
  }

  // A directory word stays in order when tables are added.
  lemma PdeOkKept(m: Memory, n: Memory, tables: Tables, after: Tables, d: Word, i: Word)
    requires PdeOk(m, tables, d, i) && n(Slot(d, i)) == m(Slot(d, i))
    requires forall t | tables(t).Some? :: after(t) == tables(t)
    ensures PdeOk(n, after, d, i)
  {
  }

  lemma PdeOkNew(n: Memory, after: Tables, d: Word, i: Word, page: Word)
    requires Aligned(page) && n(Slot(d, i)) == PdeCreate(page) && after(page) == Some(Owner(d, i))
    ensures PdeOk(n, after, d, i)
  {
    PdeRoundTrip(page);
  }

  lemma NewTableOk(m: Memory, dirs: set<Word>, tables: Tables, pd: Word, va: Word, page: Word)
    requires TablesOk(m, dirs, tables) && pd in dirs && Fresh(dirs, tables, page) && m(PdeAt(pd, va)) == 0
    ensures TablesOk(WithTable(m, pd, va, page), dirs, Claimed(tables, page, Owner(pd, PdNo(va))))
  {
    var n, after := WithTable(m, pd, va, page), Claimed(tables, page, Owner(pd, PdNo(va)));
    forall d, i: Word | d in dirs && i < 768 ensures PdeOk(n, after, d, i) {
      assert PdeOk(m, tables, d, i);
      TableDirWord(m, dirs, tables, pd, va, page, d, i);
      if d == pd && i == PdNo(va) {
        PdeOkNew(n, after, d, i, page);
      } else {
        PdeOkKept(m, n, tables, after, d, i);
      }
    }
  }

  // The same directory word and the same entry behind it.
  lemma SameEntry(m: Memory, n: Memory, d: Word, vb: Word, e: Word)
    requires n(PdeAt(d, vb)) == m(PdeAt(d, vb)) == e
    requires e != 0 ==> n(Slot(PdeGetPt(e), PtNo(vb))) == m(Slot(PdeGetPt(e), PtNo(vb)))
    ensures EntryWord(n, d, vb) == EntryWord(m, d, vb)
  {
  }

  // An empty entry, or none.
  lemma NoEntry(n: Memory, d: Word, vb: Word, e: Word)
    requires n(PdeAt(d, vb)) == e && (e != 0 ==> n(Slot(PdeGetPt(e), PtNo(vb))) == 0)
    ensures EntryWord(n, d, vb) == 0
  {
  }

  /** A new table says nothing new about any page. */
  lemma NewTableSays(m: Memory, dirs: set<Word>, tables: Tables, pd: Word, va: Word, page: Word, d: Word, vb: Word)
    requires TablesOk(m, dirs, tables) && pd in dirs && d in dirs && Fresh(dirs, tables, page)
    requires m(PdeAt(pd, va)) == 0 && IsUser(vb)
    ensures EntryWord(WithTable(m, pd, va, page), d, vb) == EntryWord(m, d, vb)
  {
    UserIndex(vb);
    assert PdeOk(m, tables, d, PdNo(vb));
    TableDirWord(m, dirs, tables, pd, va, page, d, PdNo(vb));
    PdeRoundTrip(page);
    var n, e := WithTable(m, pd, va, page), m(PdeAt(d, vb));
    if d == pd && PdNo(vb) == PdNo(va) {
      TableWord(m, dirs, tables, pd, va, page, page, PtNo(vb));
      NoEntry(n, d, vb, PdeCreate(page));
      NoEntry(m, d, vb, 0);
    } else {
      if e != 0 { TableWord(m, dirs, tables, pd, va, page, PdeGetPt(e), PtNo(vb)); }
      SameEntry(m, n, d, vb, e);
    }
  }

  // ---------- A new directory ----------

  /** Page p as a copy of page q. */
  function Copied(m: Memory, q: Word, p: Word): Memory {
    x => if PageBase(x) == p then m(q + PageOffset(x)) else m(x)
  }

  lemma CopiedReads(m: Memory, q: Word, p: Word, i: Word)
    requires Aligned(p) && Aligned(q) && i < 1024
    ensures Copied(m, q, p)(Slot(p, i)) == m(Slot(q, i))
  {
    SlotInPage(p, i);
    SlotOffset(p, i);
  }

  lemma CopiedKeeps(m: Memory, q: Word, p: Word, r: Word, i: Word)
    requires Aligned(r) && r != p && i < 1024
    ensures Copied(m, q, p)(Slot(r, i)) == m(Slot(r, i))
  {
    SlotInPage(r, i);
  }

  lemma NewDirOk(m: Memory, dirs: set<Word>, tables: Tables, q: Word, p: Word)
    requires TablesOk(m, dirs, tables) && q in dirs && Fresh(dirs, tables, p)
    requires forall i: Word | i < 768 :: m(Slot(q, i)) == 0
    ensures TablesOk(Copied(m, q, p), dirs + {p}, tables)
  {
    var n := Copied(m, q, p);
    forall d, i: Word | d in dirs + {p} && i < 768 ensures PdeOk(n, tables, d, i) {
      if d == p {
        CopiedReads(m, q, p, i);
      } else {
        assert PdeOk(m, tables, d, i);
        CopiedKeeps(m, q, p, d, i);
      }
    }
  }

  lemma NewDirSays(m: Memory, dirs: set<Word>, tables: Tables, q: Word, p: Word, d: Word, vb: Word)
    requires TablesOk(m, dirs, tables) && q in dirs && Fresh(dirs, tables, p) && IsUser(vb) && (d in dirs || d == p)
    requires forall i: Word | i < 768 :: m(Slot(q, i)) == 0
    ensures EntryWord(Copied(m, q, p), d, vb) == if d == p then 0 else EntryWord(m, d, vb)
  {
    UserIndex(vb);
    var n := Copied(m, q, p);
    if d == p {
      CopiedReads(m, q, p, PdNo(vb));
      NoEntry(n, d, vb, 0);
    } else {
      var e := m(PdeAt(d, vb));
      assert PdeOk(m, tables, d, PdNo(vb));
      CopiedKeeps(m, q, p, d, PdNo(vb));
      if e != 0 { CopiedKeeps(m, q, p, PdeGetPt(e), PtNo(vb)); }
      SameEntry(m, n, d, vb, e);
    }
  }

  // ---------- The operations ----------

  class Paging {
    var mem: Memory
    const initDir: Word
    ghost var dirs: set<Word>
    ghost var tables: Tables

    ghost predicate Valid()
      reads this
    {
      TablesOk(mem, dirs, tables) && initDir in dirs && forall i: Word | i < 768 :: mem(Slot(initDir, i)) == 0
    }

    /** The kernel's own directory maps no user page. */
    constructor (initDir: Word, m: Memory)
      requires Aligned(initDir) && forall i: Word | i < 768 :: m(Slot(initDir, i)) == 0
      ensures Valid() && this.initDir == initDir && dirs == {initDir}
    {
      this.initDir, mem, dirs, tables := initDir, m, {initDir}, _ => None;
    }

    /** A new directory has the kernel's mappings and says nothing about any user
        page, and no other directory changes. */
    method Create(page: Option<Word>) returns (pd: Option<Word>)
      requires Valid() && (page.Some? ==> Fresh(dirs, tables, page.value))
      modifies this
      ensures Valid() && pd == page && AllKept(old(mem), mem, old(dirs))
      ensures dirs == if pd.Some? then old(dirs) + {pd.value} else old(dirs)
      ensures pd.Some? ==> forall va: Word | IsUser(va) :: EntryWord(mem, pd.value, va) == 0
      ensures pd.Some? ==> forall i: Word | 768 <= i < 1024 :: mem(Slot(pd.value, i)) == old(mem)(Slot(initDir, i))
    {
      pd := page;
      if pd.Some? {
        var p := pd.value;
        ghost var m := mem;
        NewDirOk(m, dirs, tables, initDir, p);
        forall d, vb: Word | (d in dirs || d == p) && IsUser(vb)
          ensures EntryWord(Copied(m, initDir, p), d, vb) == if d == p then 0 else EntryWord(m, d, vb)
        {
          NewDirSays(m, dirs, tables, initDir, p, d, vb);
        }
        forall i: Word | i < 768 ensures Copied(m, initDir, p)(Slot(initDir, i)) == 0 {
          CopiedKeeps(m, initDir, p, initDir, i);
        }
        forall i: Word | i < 1024 ensures Copied(m, initDir, p)(Slot(p, i)) == m(Slot(initDir, i)) {
          CopiedReads(m, initDir, p, i);
        }
        mem := Copied(mem, initDir, p);
        dirs := dirs + {p};
      }
    }

    /** The address of the entry for va; a missing table is made if asked for. */
    method LookupPage(pd: Word, va: Word, create: bool, page: Option<Word>) returns (r: Option<Word>)
      requires Valid() && pd in dirs && IsUser(va) && (create ==> pd != initDir)
      requires page.Some? ==> Fresh(dirs, tables, page.value)
      modifies `mem, `tables
      ensures Valid() && r == Lookup(mem, pd, va) && AllKept(old(mem), mem, dirs)
      ensures r.None? <==> Lookup(old(mem), pd, va).None? && (!create || page.None?)
      ensures !create ==> mem == old(mem)
    {
      if mem(PdeAt(pd, va)) == 0 {
        if !create || page.None? { return None; }
        MakeTable(pd, va, page.value);
      }
      return Some(Slot(PdeGetPt(mem(PdeAt(pd, va))), PtNo(va)));
    }

    // Makes a zeroed page the table for va.
    method MakeTable(pd: Word, va: Word, p: Word)
      requires Valid() && pd in dirs && IsUser(va) && pd != initDir && Fresh(dirs, tables, p) && mem(PdeAt(pd, va)) == 0
      modifies `mem, `tables
      ensures Valid() && mem(PdeAt(pd, va)) != 0 && AllKept(old(mem), mem, dirs)
    {
      ghost var m := mem;
      NewTableOk(m, dirs, tables, pd, va, p);
      forall d, vb: Word | d in dirs && IsUser(vb)
        ensures EntryWord(WithTable(m, pd, va, p), d, vb) == EntryWord(m, d, vb)
      {
        NewTableSays(m, dirs, tables, pd, va, p, d, vb);
      }
      forall i: Word | i < 768 ensures WithTable(m, pd, va, p)(Slot(initDir, i)) == 0 {
        TableDirWord(m, dirs, tables, pd, va, p, initDir, i);
      }
      TableDirWord(m, dirs, tables, pd, va, p, pd, PdNo(va));
      PdeRoundTrip(p);
      mem := Zeroed(mem, p);
      mem := Stored(mem, PdeAt(pd, va), PdeCreate(p));
      tables := Claimed(tables, p, Owner(pd, PdNo(va)));
    }

    // Writes the entry for va, whose table is there.
    method StoreWord(pd: Word, va: Word, w: Word)
      requires Valid() && pd in dirs && IsUser(va) && Lookup(mem, pd, va).Some?
      modifies `mem
      ensures Valid() && OthersKept(old(mem), mem, dirs, pd, va)
      ensures forall vb: Word | IsUser(vb) && PageBase(vb) == PageBase(va) :: EntryWord(mem, pd, vb) == w
    {
      ghost var m := mem;
      StoreOthers(m, dirs, tables, pd, va, w);
      UserIndex(va);
      assert PdeOk(m, tables, pd, PdNo(va));
      forall i: Word | i < 768 ensures Stored(m, Lookup(m, pd, va).value, w)(Slot(initDir, i)) == m(Slot(initDir, i)) {
        DirWordKept(m, dirs, tables, PdeGetPt(m(PdeAt(pd, va))), PtNo(va), w, initDir, i);
      }
      mem := Stored(mem, Slot(PdeGetPt(mem(PdeAt(pd, va))), PtNo(va)), w);
    }

    /** Maps a user page to a frame: afterwards every address in the page leads to
        the same offset in the frame, and nothing else is different. */
    method SetPage(pd: Word, upage: Word, kpage: Word, writable: bool, page: Option<Word>) returns (ok: bool)
      requires Valid() && pd in dirs && pd != initDir && Aligned(upage) && IsUser(upage)
      requires Aligned(kpage) && !IsUser(kpage) && EntryWord(mem, pd, upage) & PTE_P == 0
      requires page.Some? ==> Fresh(dirs, tables, page.value)
      modifies `mem, `tables
      ensures Valid() && OthersKept(old(mem), mem, dirs, pd, upage)
      ensures !ok ==> AllKept(old(mem), mem, dirs)
      ensures ok <==> Lookup(old(mem), pd, upage).Some? || page.Some?
      ensures ok ==> forall va: Word | IsUser(va) && PageBase(va) == upage ::
                EntryWord(mem, pd, va) == PteCreateUser(kpage, writable)
                && Translate(mem, pd, va) == Some(kpage + PageOffset(va))
    {
      AlignedBase(upage);
      var pte := LookupPage(pd, upage, true, page);
      ok := pte.Some?;
      if ok {
        StoreWord(pd, upage, PteCreateUser(kpage, writable));
        forall va: Word | IsUser(va) && PageBase(va) == upage
          ensures EntryWord(mem, pd, va) == PteCreateUser(kpage, writable)
          ensures Translate(mem, pd, va) == Some(kpage + PageOffset(va))
        {
          MappedTranslates(mem, pd, va, kpage, writable);
        }
      }
    }

    /** The kernel address behind a user address, or none if it is not mapped. */
    method GetPage(pd: Word, va: Word) returns (r: Option<Word>)
      requires Valid() && pd in dirs && IsUser(va)
      ensures r == Translate(mem, pd, va)
    {
      var pte := Lookup(mem, pd, va);
      if pte.Some? && mem(pte.value) & PTE_P != 0 { return Some(PteGetPage(mem(pte.value)) + PageOffset(va)); }
      return None;
    }

    // Sets or clears a flag in the entry for va, if its table is there.
    method ChangeFlag(pd: Word, va: Word, flag: Word, v: bool)
      requires Valid() && pd in dirs && IsUser(va)
      modifies `mem, `tables
      ensures Valid() && OthersKept(old(mem), mem, dirs, pd, va)
      ensures EntryWord(mem, pd, va) == if Lookup(old(mem), pd, va).None? then EntryWord(old(mem), pd, va)
                                        else WithFlag(EntryWord(old(mem), pd, va), flag, v)
    {
      var pte := LookupPage(pd, va, false, None);
      if pte.Some? { StoreWord(pd, va, WithFlag(mem(pte.value), flag, v)); }
    }

    // pagedir_clear_page: an entry that is present is so no more.
    method ClearPresent(pd: Word, upage: Word)
      requires Valid() && pd in dirs && IsUser(upage)
      modifies `mem, `tables
      ensures Valid() && OthersKept(old(mem), mem, dirs, pd, upage)
      ensures EntryWord(mem, pd, upage) == WithoutPresent(EntryWord(old(mem), pd, upage))
    {
      var pte := LookupPage(pd, upage, false, None);
      if pte.Some? {
        var w := mem(pte.value);
        if w & PTE_P != 0 { StoreWord(pd, upage, WithoutPresent(w)); }
      }
    }

    /** The page is not mapped any more; the rest of its entry stays. */
    method ClearPage(pd: Word, upage: Word)
      requires Valid() && pd in dirs && IsUser(upage)
      modifies `mem, `tables
      ensures Valid() && OthersKept(old(mem), mem, dirs, pd, upage)
      ensures EntryWord(mem, pd, upage) == EntryWord(old(mem), pd, upage) & !PTE_P
      ensures Translate(mem, pd, upage) == None
    {
      ClearFacts(EntryWord(mem, pd, upage));
      ClearPresent(pd, upage);
      WordTranslates(mem, pd, upage);
    }

    method IsDirty(pd: Word, vpage: Word) returns (r: bool)
      requires Valid() && pd in dirs && IsUser(vpage)
      ensures r <==> EntryWord(mem, pd, vpage) & PTE_D != 0
    {
      r := mem(PdeAt(pd, vpage)) != 0 && mem(Slot(PdeGetPt(mem(PdeAt(pd, vpage))), PtNo(vpage))) & PTE_D != 0;
    }

    /** Sets or clears the dirty bit of a page that has an entry, and nothing else. */
    method SetDirty(pd: Word, vpage: Word, dirty: bool)
      requires Valid() && pd in dirs && IsUser(vpage)
      modifies `mem, `tables
      ensures Valid() && OthersKept(old(mem), mem, dirs, pd, vpage)
      ensures Lookup(old(mem), pd, vpage).Some? ==> (EntryWord(mem, pd, vpage) & PTE_D != 0 <==> dirty)
      ensures EntryWord(mem, pd, vpage) & !PTE_D == EntryWord(old(mem), pd, vpage) & !PTE_D
    {
      FlagIs(EntryWord(mem, pd, vpage), PTE_D, dirty);
      FlagAlone(EntryWord(mem, pd, vpage), PTE_D, dirty);
      ChangeFlag(pd, vpage, PTE_D, dirty);
    }

    method IsAccessed(pd: Word, vpage: Word) returns (r: bool)
      requires Valid() && pd in dirs && IsUser(vpage)
      ensures r <==> EntryWord(mem, pd, vpage) & PTE_A != 0
    {
      r := mem(PdeAt(pd, vpage)) != 0 && mem(Slot(PdeGetPt(mem(PdeAt(pd, vpage))), PtNo(vpage))) & PTE_A != 0;
    }

    /** Sets or clears the accessed bit of a page that has an entry, and nothing
        else. */
    method SetAccessed(pd: Word, vpage: Word, accessed: bool)
      requires Valid() && pd in dirs && IsUser(vpage)
      modifies `mem, `tables
      ensures Valid() && OthersKept(old(mem), mem, dirs, pd, vpage)
      ensures Lookup(old(mem), pd, vpage).Some? ==> (EntryWord(mem, pd, vpage) & PTE_A != 0 <==> accessed)
      ensures EntryWord(mem, pd, vpage) & !PTE_A == EntryWord(old(mem), pd, vpage) & !PTE_A
    {
      FlagIs(EntryWord(mem, pd, vpage), PTE_A, accessed);
      FlagAlone(EntryWord(mem, pd, vpage), PTE_A, accessed);
      ChangeFlag(pd, vpage, PTE_A, accessed);
    }
  }

  /** What an address leads to follows from its entry. */
  lemma WordTranslates(m: Memory, pd: Word, va: Word)
    ensures Translate(m, pd, va) ==
      if EntryWord(m, pd, va) & PTE_P == 0 then None else Some(PteGetPage(EntryWord(m, pd, va)) + PageOffset(va))
  {
  }

  lemma MappedTranslates(m: Memory, pd: Word, va: Word, kpage: Word, writable: bool)
    requires Aligned(kpage) && !IsUser(kpage) && EntryWord(m, pd, va) == PteCreateUser(kpage, writable)
    ensures Translate(m, pd, va) == Some(kpage + PageOffset(va))
  {
    WordTranslates(m, pd, va);
    PteRoundTrip(kpage, writable);
  }

  lemma AlignedBase(p: Word)
    requires Aligned(p)
    ensures PageBase(p) == p
  {
  }

  function WithFlag(w: Word, flag: Word, v: bool): Word {
    if v then w | flag else w & !flag
  }

  lemma FlagIs(w: Word, flag: Word, v: bool)
    requires flag != 0
    ensures WithFlag(w, flag, v) & flag != 0 <==> v
  {
  }

  lemma OrMasked(w: Word, m: Word)
    ensures (w | m) & !m == w & !m
  {
  }

  lemma AndMasked(w: Word, m: Word)
    ensures (w & !m) & !m == w & !m
  {
  }

  // Only the flag changes.
  lemma FlagAlone(w: Word, flag: Word, v: bool)
    ensures WithFlag(w, flag, v) & !flag == w & !flag
  {
    OrMasked(w, flag);
    AndMasked(w, flag);
  }

  function WithoutPresent(w: Word): Word {
    if w & PTE_P != 0 then w & !PTE_P else w
  }

  lemma ClearFacts(w: Word)
    ensures WithoutPresent(w) & PTE_P == 0 && WithoutPresent(w) == w & !PTE_P
  {
  }

  /** Changing one page of one directory leaves every other translation, in every
      directory, as it was. */
  lemma OtherTranslations(m: Memory, n: Memory, dirs: set<Word>, pd: Word, va: Word, d: Word, vb: Word)
    requires OthersKept(m, n, dirs, pd, va) && d in dirs && IsUser(vb) && !(d == pd && PageBase(vb) == PageBase(va))
    ensures Translate(n, d, vb) == Translate(m, d, vb)
    ensures EntryWord(n, d, vb) & PTE_D == EntryWord(m, d, vb) & PTE_D
    ensures EntryWord(n, d, vb) & PTE_A == EntryWord(m, d, vb) & PTE_A
  {
    WordTranslates(m, d, vb);
    WordTranslates(n, d, vb);
  }
}
