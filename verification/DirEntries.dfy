/**
 The table of 20-byte slots inside a directory file and the map from names to
 inode sectors that it stands for (filesys/directory.c).  Everything here is
 about values; Directory has the operations.
 */
module DirEntries {
  import opened Sequences
  import opened InodeIo

  const NAME_MAX: int := 14
  const ENTRY: int := 20

  // A C string without its terminator.
  type Name = seq<byte>

  /** Four bytes of sector number, fifteen of name, one of flag. */
  type Slot = s: seq<byte> | |s| == 20 witness seq(20, i => 0)

  function Encode32(x: int): (b: seq<byte>)
    requires 0 <= x < 0x1_0000_0000
    ensures |b| == 4
  {
    [x % 256, x / 256 % 256, x / 0x1_0000 % 256, x / 0x100_0000]
  }

  function Decode32(b: seq<byte>): int
    requires |b| == 4
  {
    b[0] as int + 256 * (b[1] as int) + 0x1_0000 * (b[2] as int) + 0x100_0000 * (b[3] as int)
  }

  lemma DecodeEncode(x: int)
    requires 0 <= x < 0x1_0000_0000
    ensures Decode32(Encode32(x)) == x
  {
    assert x / 0x1_0000 == x / 256 / 256 && x / 0x100_0000 == x / 256 / 256 / 256;
  }

  /** The characters before the first null, or all of them. */
  function CString(b: seq<byte>): (n: Name)
    ensures |n| <= |b| && n == b[..|n|] && 0 !in n
    ensures |n| < |b| ==> b[|n|] == 0
  {
    if b == [] || b[0] == 0 then [] else [b[0]] + CString(b[1..])
  }

  lemma {:induction false} CStringIs(b: seq<byte>, n: Name)
    requires 0 !in n && |n| < |b| && b[..|n|] == n && b[|n|] == 0
    ensures CString(b) == n
  {
    if n != [] {
      assert b[0] == b[..|n|][0] == n[0];
      assert b[1..][..|n| - 1] == b[..|n|][1..] == n[1..];
      CStringIs(b[1..], n[1..]);
    }
  }

  function SectorOf(s: Slot): int {
    Decode32(s[..4])
  }

  function NameOf(s: Slot): Name {
    CString(s[4..19])
  }

  predicate Used(s: Slot) {
    s[19] != 0
  }

  /** `e` after dir_add has filled it in: what strlcpy does not reach stays. */
  function FilledIn(e: Slot, name: Name, sector: int): (s: Slot)
    requires |name| <= NAME_MAX && 0 <= sector < 0x1_0000_0000
  {
    Encode32(sector) + name + [0] + e[5 + |name|..19] + [1]
  }

  /** An entry with its flag cleared. */
  function Cleared(e: Slot): (s: Slot)
    ensures !Used(s)
  {
    e[..19] + [0]
  }

  /** Slot i now has the entry, and no other slot has changed. */
  ghost predicate EntryPut(t: seq<Slot>, u: seq<Slot>, i: nat, name: Name, sector: int) {
    && |u| == |t| && i < |t| && u == t[i := u[i]]
    && Used(u[i]) && NameOf(u[i]) == name && SectorOf(u[i]) == sector && |name| <= NAME_MAX
  }

  lemma FilledInReads(e: Slot, name: Name, sector: int)
    requires |name| <= NAME_MAX && 0 !in name && 0 <= sector < 0x1_0000_0000
    ensures var s := FilledIn(e, name, sector);
      Used(s) && NameOf(s) == name && SectorOf(s) == sector && |NameOf(s)| <= NAME_MAX
  {
    var s := FilledIn(e, name, sector);
    assert s[..4] == Encode32(sector);
    DecodeEncode(sector);
    var b := s[4..19];
    assert b[..|name|] == name && b[|name|] == 0;
    CStringIs(b, name);
  }

  // ---------- Tables of slots ----------

  ghost function SlotAt(c: seq<byte>, i: int): Slot
    requires 0 <= i < |c| / ENTRY
  {
    c[ENTRY * i..ENTRY * i + ENTRY]
  }

  /** The whole slots in the file; a shorter rest at the end is not one. */
  ghost function Table(c: seq<byte>): (t: seq<Slot>)
    ensures |t| == |c| / ENTRY
  {
    seq(|c| / ENTRY, i requires 0 <= i < |c| / ENTRY => SlotAt(c, i))
  }

  lemma TableOverwrite(c: seq<byte>, i: int, s: Slot)
    requires 0 <= i < |c| / ENTRY
    ensures Table(Overwrite(c, ENTRY * i, s)) == Table(c)[i := s]
  {
    var c' := Overwrite(c, ENTRY * i, s);
    forall j | 0 <= j < |c| / ENTRY ensures SlotAt(c', j) == Table(c)[i := s][j] {
      if j < i { assert ENTRY * j + ENTRY <= ENTRY * i; }
      if i < j { assert ENTRY * i + ENTRY <= ENTRY * j; }
      assert Table(c)[j] == SlotAt(c, j);
    }
  }

  lemma TableTail(c: seq<byte>, data: seq<byte>)
    requires ENTRY * (|c| / ENTRY) + |data| <= |c|
    ensures Table(Overwrite(c, ENTRY * (|c| / ENTRY), data)) == Table(c)
  {
    var c' := Overwrite(c, ENTRY * (|c| / ENTRY), data);
    forall j | 0 <= j < |c| / ENTRY ensures SlotAt(c', j) == SlotAt(c, j) {
      assert ENTRY * j + ENTRY <= ENTRY * (|c| / ENTRY);
    }
  }

  // ---------- The map a table stands for ----------

  ghost function DirMap(t: seq<Slot>): map<Name, int> {
    if t == [] then map[]
    else
      var m, s := DirMap(t[..|t| - 1]), t[|t| - 1];
      if Used(s) then m[NameOf(s) := SectorOf(s)] else m
  }

  /** Slots in use hold a terminated name, and no name is in two of them. */
  ghost predicate Good(t: seq<Slot>) {
    && (forall i | 0 <= i < |t| && Used(t[i]) :: |NameOf(t[i])| <= NAME_MAX)
    && (forall i, j | 0 <= i < j < |t| && Used(t[i]) && Used(t[j]) :: NameOf(t[i]) != NameOf(t[j]))
  }

  /** Slot i of the table is in use under this name. */
  ghost predicate Named(t: seq<Slot>, i: int, n: Name) {
    0 <= i < |t| && Used(t[i]) && NameOf(t[i]) == n
  }

  lemma {:induction false} MapHasSlots(t: seq<Slot>, n: Name)
    requires Good(t)
    ensures n in DirMap(t) <==> exists i :: Named(t, i, n)
    ensures forall i | Named(t, i, n) :: n in DirMap(t) && DirMap(t)[n] == SectorOf(t[i])
  {
    if t != [] {
      var r, k := t[..|t| - 1], |t| - 1;
      MapHasSlots(r, n);
      forall i | Named(r, i, n) ensures Named(t, i, n) {}
      forall i | Named(t, i, n) && i < k ensures Named(r, i, n) {}
      if Named(t, k, n) {
        forall i | 0 <= i < k ensures !Named(r, i, n) { assert Used(t[i]) ==> NameOf(t[i]) != NameOf(t[k]); }
      }
    }
  }

  /** A table with no slot in use, as in a new directory, is in order and empty. */
  lemma {:induction false} EmptyTable(t: seq<Slot>)
    requires forall i | 0 <= i < |t| :: !Used(t[i])
    ensures Good(t) && DirMap(t) == map[]
  {
    if t != [] { EmptyTable(t[..|t| - 1]); }
  }

  /** So a file of zeros is an empty directory. */
  lemma ZeroTable(c: seq<byte>)
    requires forall k | 0 <= k < |c| :: c[k] == 0
    ensures Good(Table(c)) && DirMap(Table(c)) == map[]
  {
    forall i | 0 <= i < |Table(c)| ensures !Used(Table(c)[i]) {
      assert Table(c)[i][19] == c[ENTRY * i + 19];
    }
    EmptyTable(Table(c));
  }

  /** Two good tables with the same named slots stand for the same map. */
  lemma SameMap(t: seq<Slot>, m: map<Name, int>)
    requires Good(t)
    requires forall n :: n in m <==> exists i :: Named(t, i, n)
    requires forall n, i | Named(t, i, n) && n in m :: m[n] == SectorOf(t[i])
    ensures DirMap(t) == m
  {
    forall n ensures (n in DirMap(t) <==> n in m) && (n in m ==> DirMap(t)[n] == m[n]) {
      MapHasSlots(t, n);
      if n in m { var i :| Named(t, i, n); }
    }
  }

  /** Filling a free slot with a new name adds it to the map. */
  lemma AddedToMap(t: seq<Slot>, k: int, s: Slot)
    requires Good(t) && 0 <= k < |t| && !Used(t[k])
    requires Used(s) && |NameOf(s)| <= NAME_MAX && NameOf(s) !in DirMap(t)
    ensures Good(t[k := s]) && DirMap(t[k := s]) == DirMap(t)[NameOf(s) := SectorOf(s)]
  {
    var u := t[k := s];
    MapHasSlots(t, NameOf(s));
    forall i | 0 <= i < |t| && i != k && Used(t[i]) ensures NameOf(t[i]) != NameOf(s) {
      assert !Named(t, i, NameOf(s));
    }
    assert Good(u);
    var m := DirMap(t)[NameOf(s) := SectorOf(s)];
    forall n ensures n in m <==> exists i :: Named(u, i, n) {
      MapHasSlots(t, n);
      assert Named(u, k, NameOf(s));
      forall i | i != k ensures Named(t, i, n) <==> Named(u, i, n) {}
      assert !Named(t, k, n);
    }
    forall n, i | Named(u, i, n) && n in m ensures m[n] == SectorOf(u[i]) {
      MapHasSlots(t, n);
      if i != k { assert Named(t, i, n); }
    }
    SameMap(u, m);
  }

  /** Filling slot k, free or not, adds the name exactly if the slot held the name,
      or the name is new and the slot free; else a name is lost or there twice. */
  lemma FilledRight(t: seq<Slot>, k: int, s: Slot)
    requires Good(t) && 0 <= k < |t| && Used(s) && |NameOf(s)| <= NAME_MAX
    ensures var n, u := NameOf(s), t[k := s];
      Good(u) && DirMap(u) == DirMap(t)[n := SectorOf(s)] <==>
        if n in DirMap(t) then Named(t, k, n) else !Used(t[k])
  {
    var n, u := NameOf(s), t[k := s];
    MapHasSlots(t, n);
    assert Named(u, k, n);
    if n in DirMap(t) {
      if Named(t, k, n) {
        Renumbered(t, k, s);
      } else {
        var i :| Named(t, i, n);
        assert Named(u, i, n) && i != k;
      }
    } else if Used(t[k]) {
      NameLost(t, k, s);
    } else {
      AddedToMap(t, k, s);
    }
  }

  // The slot that has the name gets another sector.
  lemma Renumbered(t: seq<Slot>, k: int, s: Slot)
    requires Good(t) && 0 <= k < |t| && Used(s) && Named(t, k, NameOf(s))
    ensures Good(t[k := s]) && DirMap(t[k := s]) == DirMap(t)[NameOf(s) := SectorOf(s)]
  {
    var u, m := t[k := s], DirMap(t)[NameOf(s) := SectorOf(s)];
    assert Good(u);
    forall n ensures n in m <==> exists i :: Named(u, i, n) {
      MapHasSlots(t, n);
      forall i ensures Named(t, i, n) <==> Named(u, i, n) {}
    }
    forall n, i | Named(u, i, n) && n in m ensures m[n] == SectorOf(u[i]) {
      MapHasSlots(t, n);
      assert Named(t, i, n);
    }
    SameMap(u, m);
  }

  // A slot in use under another name loses that name.
  lemma NameLost(t: seq<Slot>, k: int, s: Slot)
    requires Good(t) && 0 <= k < |t| && Used(t[k]) && Used(s) && NameOf(s) != NameOf(t[k])
    ensures NameOf(t[k]) in DirMap(t) && (Good(t[k := s]) ==> NameOf(t[k]) !in DirMap(t[k := s]))
  {
    var u, n := t[k := s], NameOf(t[k]);
    MapHasSlots(t, n);
    assert Named(t, k, n);
    if Good(u) {
      MapHasSlots(u, n);
      forall i ensures !Named(u, i, n) { assert Named(u, i, n) ==> Named(t, i, n); }
    }
  }

  /** Clearing the flag of a slot takes its name out of the map. */
  lemma RemovedFromMap(t: seq<Slot>, k: int, s: Slot)
    requires Good(t) && 0 <= k < |t| && Used(t[k]) && !Used(s)
    ensures Good(t[k := s]) && DirMap(t[k := s]) == DirMap(t) - {NameOf(t[k])}
  {
    var u, name := t[k := s], NameOf(t[k]);
    var m := DirMap(t) - {name};
    assert Good(u);
    forall n ensures n in m <==> exists i :: Named(u, i, n) {
      MapHasSlots(t, n);
      assert Named(t, k, name) && !Named(u, k, n);
      forall i | i != k ensures Named(t, i, n) <==> Named(u, i, n) {}
      if n == name { forall i ensures !Named(u, i, n) { assert Named(t, i, n) ==> i == k; } }
    }
    forall n, i | Named(u, i, n) && n in m ensures m[n] == SectorOf(u[i]) {
      MapHasSlots(t, n);
      assert Named(t, i, n);
    }
    SameMap(u, m);
  }

  // ---------- Searching and listing ----------

  /** Every slot up to k can be read: `memory` says of each read whether there is
      memory for a bounce buffer. */
  ghost predicate Readable(memory: nat -> bool, k: int) {
    forall j: nat | j <= k :: memory(j)
  }

  /** A search from the first slot on comes upon the name. */
  ghost predicate Sees(t: seq<Slot>, memory: nat -> bool, n: Name) {
    exists k :: Named(t, k, n) && Readable(memory, k)
  }

  /** While there is memory a search sees exactly the names of the map. */
  lemma SeesMap(t: seq<Slot>, memory: nat -> bool, n: Name)
    requires Good(t)
    ensures Sees(t, memory, n) ==> n in DirMap(t)
    ensures Readable(memory, |t|) ==> (Sees(t, memory, n) <==> n in DirMap(t))
  {
    MapHasSlots(t, n);
    if Readable(memory, |t|) && n in DirMap(t) {
      var k :| Named(t, k, n);
      assert Readable(memory, k);
    }
  }

  /** Where the search for a free slot ends, from slot k on: at a free slot, at a
      slot it cannot read, or after the last. */
  ghost function StopAt(t: seq<Slot>, memory: nat -> bool, k: nat): (i: nat)
    requires k <= |t|
    ensures k <= i <= |t| && (i < |t| && memory(i) ==> !Used(t[i])) && forall j | k <= j < i :: Used(t[j])
    decreases |t| - k
  {
    if k == |t| || !memory(k) || !Used(t[k]) then k else StopAt(t, memory, k + 1)
  }

  /** The names in use from slot k on, in order. */
  ghost function Listing(t: seq<Slot>, k: nat): seq<Name>
    requires k <= |t|
    decreases |t| - k
  {
    if k == |t| then [] else (if Used(t[k]) then [NameOf(t[k])] else []) + Listing(t, k + 1)
  }

  lemma {:induction false} ListingHas(t: seq<Slot>, k: nat, n: Name)
    requires k <= |t|
    ensures n in Listing(t, k) <==> exists i :: k <= i && Named(t, i, n)
    decreases |t| - k
  {
    if k < |t| {
      ListingHas(t, k + 1, n);
      assert n in Listing(t, k) <==> Named(t, k, n) || n in Listing(t, k + 1);
      if i :| k <= i && Named(t, i, n) { assert i == k || k + 1 <= i; }
    }
  }

  /** A directory lists each of its names exactly once. */
  lemma {:induction false} ListingOnce(t: seq<Slot>, k: nat)
    requires k <= |t| && Good(t)
    ensures Distinct(Listing(t, k))
    decreases |t| - k
  {
    if k < |t| {
      ListingOnce(t, k + 1);
      if Used(t[k]) {
        var n, r := NameOf(t[k]), Listing(t, k + 1);
        ListingHas(t, k + 1, n);
        assert n !in r;
        AllApart(r);
        assert forall i | 0 < i < |[n] + r| :: ([n] + r)[i] == r[i - 1];
      } else {
        assert Listing(t, k) == Listing(t, k + 1);
      }
    }
  }

  lemma ListingIsMap(t: seq<Slot>)
    requires Good(t)
    ensures Distinct(Listing(t, 0)) && forall n :: n in Listing(t, 0) <==> n in DirMap(t)
  {
    ListingOnce(t, 0);
    forall n ensures n in Listing(t, 0) <==> n in DirMap(t) {
      ListingHas(t, 0, n);
      MapHasSlots(t, n);
      forall i | Named(t, i, n) ensures 0 <= i && Named(t, i, n) {}
    }
  }

  /** A table has a free slot exactly if it holds fewer names than slots. */
  lemma {:induction false} FullTable(t: seq<Slot>)
    requires Good(t)
    ensures |DirMap(t)| <= |t| && (|DirMap(t)| < |t| <==> exists k :: 0 <= k < |t| && !Used(t[k]))
  {
    if t != [] {
      var r, s := t[..|t| - 1], t[|t| - 1];
      FullTable(r);
      assert forall k | 0 <= k < |r| :: r[k] == t[k];
      if Used(s) {
        MapHasSlots(r, NameOf(s));
        assert forall i | 0 <= i < |r| :: !Named(r, i, NameOf(s));
      }
    }
  }
}
