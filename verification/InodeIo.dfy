/**
 Byte I/O on an inode's extent over 512-byte sectors (filesys/inode.c).  An
 extent is `length` bytes in consecutive sectors from `start`; reading and
 writing go sector by sector, through a bounce buffer where a chunk does not
 fill a sector.  Memory for the bounce buffer may run out: `memory` says
 whether the one allocation succeeds.
 */
module InodeIo {

  type byte = x: int | 0 <= x < 256

  const SECTOR: int := 512

  type Sector = s: seq<byte> | |s| == 512 witness seq(512, i => 0)

  const ZEROS: Sector := seq(512, i => 0)

  /** The disk: block_read and block_write move whole sectors. */
  class Device {
    var sectors: seq<Sector>

    constructor (n: nat)
      ensures |sectors| == n
    {
      sectors := seq(n, i => seq(512, j => 0));
    }
  }

  /** Byte k of the device. */
  ghost function ByteAt(d: seq<Sector>, k: int): byte
    requires 0 <= k < SECTOR * |d|
  {
    d[k / SECTOR][k % SECTOR]
  }

  /** The device as one flat sequence of bytes. */
  ghost function Flat(d: seq<Sector>): (f: seq<byte>)
    ensures |f| == SECTOR * |d|
  {
    seq(SECTOR * |d|, k requires 0 <= k < SECTOR * |d| => ByteAt(d, k))
  }

  /** `s` with the bytes from `at` on replaced by `data`. */
  ghost function Overwrite(s: seq<byte>, at: int, data: seq<byte>): (r: seq<byte>)
    requires 0 <= at && at + |data| <= |s|
    ensures |r| == |s|
  {
    s[..at] + data + s[at + |data|..]
  }

  function Min(a: int, b: int): int {
    if a < b then a else b
  }

  function BytesToSectors(size: int): int {
    (size + SECTOR - 1) / SECTOR
  }

  /** The extent lies on the device. */
  ghost predicate Fits(d: seq<Sector>, start: int, length: int) {
    0 <= start && 0 <= length && start + BytesToSectors(length) <= |d|
  }

  lemma ExtentInside(d: seq<Sector>, start: int, length: int)
    requires Fits(d, start, length)
    ensures start * SECTOR + length <= SECTOR * |d|
  {
  }

  /** The bytes of the extent. */
  ghost function Contents(d: seq<Sector>, start: int, length: int): (c: seq<byte>)
    requires Fits(d, start, length)
    ensures |c| == length
  {
    Flat(d)[start * SECTOR..start * SECTOR + length]
  }

  /** How many bytes a transfer moves.  Without a bounce buffer it stops before
      the first sector that it does not cover entirely. */
  function Transferred(length: int, size: int, offset: int, memory: bool): (n: int)
    ensures 0 <= n && (memory ==> n == if size <= 0 || offset >= length then 0 else Min(size, length - offset))
  {
    var full := if size <= 0 || offset >= length then 0 else Min(size, length - offset);
    if memory then full else if offset % SECTOR != 0 then 0 else full / SECTOR * SECTOR
  }

  // The lesser of the request, what is left of the inode and of the sector.
  function Chunk(length: int, left: int, ofs: int): int {
    var sectorLeft := SECTOR - ofs % SECTOR;
    var minLeft := if length - ofs < sectorLeft then length - ofs else sectorLeft;
    if left < minLeft then left else minLeft
  }

  lemma ChunkInSector(d: seq<Sector>, start: int, length: int, left: int, ofs: int)
    requires Fits(d, start, length) && 0 <= ofs && Chunk(length, left, ofs) > 0
    ensures 0 <= start + ofs / SECTOR < |d|
    ensures ofs % SECTOR + Chunk(length, left, ofs) <= SECTOR && ofs + Chunk(length, left, ofs) <= length
  {
  }

  /** Part of one sector is part of the flat extent. */
  lemma SectorIsContents(d: seq<Sector>, start: int, length: int, ofs: int, chunk: int)
    requires Fits(d, start, length) && 0 <= ofs && 0 < chunk && ofs + chunk <= length
    requires ofs % SECTOR + chunk <= SECTOR && start + ofs / SECTOR < |d|
    ensures d[start + ofs / SECTOR][ofs % SECTOR..ofs % SECTOR + chunk]
         == Contents(d, start, length)[ofs..ofs + chunk]
  {
    var a := d[start + ofs / SECTOR][ofs % SECTOR..ofs % SECTOR + chunk];
    var b := Contents(d, start, length)[ofs..ofs + chunk];
    forall k | 0 <= k < chunk ensures a[k] == b[k] {
      var pos := start * SECTOR + ofs + k;
      assert pos / SECTOR == start + ofs / SECTOR && pos % SECTOR == ofs % SECTOR + k;
      assert b[k] == Flat(d)[pos] == ByteAt(d, pos);
    }
  }

  /** Where a transfer can stand after n bytes. */
  ghost predicate Underway(length: int, size: int, offset: int, memory: bool, n: int) {
    && 0 <= n && (n > 0 ==> n <= size && offset + n <= length)
    && (!memory && n > 0 ==> offset % SECTOR == 0 && n % SECTOR == 0)
  }

  lemma Advance(length: int, size: int, offset: int, memory: bool, n: int, chunk: int)
    requires 0 <= offset && Underway(length, size, offset, memory, n)
    requires chunk == Chunk(length, size - n, offset + n) && 0 < chunk && (memory || chunk == SECTOR)
    ensures Underway(length, size, offset, memory, n + chunk)
  {
  }

  // No chunk left, or one that needs a bounce buffer there is no memory for.
  ghost predicate Stuck(length: int, size: int, offset: int, memory: bool, n: int) {
    var chunk := Chunk(length, size - n, offset + n);
    chunk <= 0 || (!memory && chunk < SECTOR)
  }

  lemma Finished(length: int, size: int, offset: int, memory: bool, n: int)
    requires 0 <= offset && Underway(length, size, offset, memory, n)
    requires size <= n || Stuck(length, size, offset, memory, n)
    ensures n == Transferred(length, size, offset, memory)
  {
    if !memory {
      if n > 0 {
        FinishedSectors(length, size, offset, n);
      } else if size > 0 && offset < length && offset % SECTOR == 0 {
        FinishedSectors(length, size, offset, 0);
      }
    }
  }

  // Without a bounce buffer a transfer stops at less than a whole sector.
  lemma FinishedSectors(length: int, size: int, offset: int, n: int)
    requires 0 <= offset < length && offset % SECTOR == 0 && n % SECTOR == 0 && 0 <= n <= size && offset + n <= length
    requires size > 0 && (size <= n || Stuck(length, size, offset, false, n))
    ensures n == Transferred(length, size, offset, false)
  {
    assert (offset + n) % SECTOR == 0;
    var full := Min(size, length - offset);
    assert n <= full < n + SECTOR;
    assert full / SECTOR == n / SECTOR;
  }

  class Inode {
    var start: int
    var length: int
    var denyWriteCnt: int

    constructor (start: int, length: int)
      ensures this.start == start && this.length == length && denyWriteCnt == 0
    {
      this.start, this.length, denyWriteCnt := start, length, 0;
    }

    // Copies the next chunk, all within one sector, if there is one.
    method ReadChunk(dev: Device, buffer: array<byte>, n: nat, size: int, offset: nat, memory: bool,
                     ghost was: seq<byte>)
      returns (chunk: int)
      requires Fits(dev.sectors, start, length) && n < size <= buffer.Length
      requires Underway(length, size, offset, memory, n)
      requires Got(buffer[..], was, Contents(dev.sectors, start, length), offset, n)
      modifies buffer
      ensures 0 <= chunk && Underway(length, size, offset, memory, n + chunk)
      ensures chunk == 0 ==> Stuck(length, size, offset, memory, n)
      ensures Got(buffer[..], was, Contents(dev.sectors, start, length), offset, n + chunk)
    {
      var ofs := offset + n;
      chunk := Chunk(length, size - n, ofs);
      if chunk <= 0 { return 0; }
      ChunkInSector(dev.sectors, start, length, size - n, ofs);
      // A partial sector has to go through the bounce buffer.
      if !memory && !(ofs % SECTOR == 0 && chunk == SECTOR) { return 0; }
      Advance(length, size, offset, memory, n, chunk);
      var data := SectorPart(dev, ofs, chunk);
      ghost var b, c := buffer[..], Contents(dev.sectors, start, length);
      CopyIn(buffer, n, data);
      GotMore(b, buffer[..], was, c, offset, n, data);
    }

    // The part of one sector that a chunk covers; all of it when it is whole.
    method SectorPart(dev: Device, ofs: nat, chunk: nat) returns (data: seq<byte>)
      requires Fits(dev.sectors, start, length) && 0 < chunk && ofs + chunk <= length
      requires ofs % SECTOR + chunk <= SECTOR && start + ofs / SECTOR < |dev.sectors|
      ensures |data| == chunk && forall k | 0 <= k < chunk :: data[k] == Contents(dev.sectors, start, length)[ofs + k]
    {
      SectorIsContents(dev.sectors, start, length, ofs, chunk);
      var sector := dev.sectors[start + ofs / SECTOR];
      if ofs % SECTOR == 0 && chunk == SECTOR {
        data := sector;
        assert sector == sector[0..SECTOR];
      } else {
        data := sector[ofs % SECTOR..ofs % SECTOR + chunk];
      }
    }

    /** Fills the buffer with the extent's bytes from `offset` on and says how
        many there were. */
    method ReadAt(dev: Device, buffer: array<byte>, size: int, offset: int, memory: bool) returns (n: int)
      requires Fits(dev.sectors, start, length) && offset >= 0 && size <= buffer.Length
      modifies buffer
      ensures n == Transferred(length, size, offset, memory)
      ensures buffer[..] == Filled(old(buffer[..]), Contents(dev.sectors, start, length), offset, n)
    {
      n := 0;
      ghost var was := buffer[..];
      while n < size
        invariant Underway(length, size, offset, memory, n)
        invariant Got(buffer[..], was, Contents(dev.sectors, start, length), offset, n)
      {
        var chunk := ReadChunk(dev, buffer, n, size, offset, memory, was);
        if chunk == 0 { break; }
        n := n + chunk;
      }
      Finished(length, size, offset, memory, n);
      GotFilled(buffer[..], was, Contents(dev.sectors, start, length), offset, n);
    }

    // What the sector looks like once the chunk is in it.
    method PatchSector(dev: Device, idx: nat, sectorOfs: nat, chunk: seq<byte>) returns (patched: Sector)
      requires idx < |dev.sectors| && sectorOfs + |chunk| <= SECTOR
      ensures patched == Overwrite(dev.sectors[idx], sectorOfs, chunk)
    {
      if sectorOfs == 0 && |chunk| == SECTOR {
        return chunk;
      }
      // If the sector holds data before or after the chunk, read it in first.
      var bounce := if sectorOfs > 0 || |chunk| < SECTOR - sectorOfs then dev.sectors[idx] else ZEROS;
      return bounce[..sectorOfs] + chunk + bounce[sectorOfs + |chunk|..];
    }

    // Writes the next chunk, all within one sector, if there is one.
    method WriteChunk(dev: Device, data: seq<byte>, n: nat, offset: nat, memory: bool, ghost was: seq<byte>)
      returns (size: int)
      requires Fits(dev.sectors, start, length) && n < |data|
      requires Underway(length, |data|, offset, memory, n)
      requires Holds(dev.sectors, was, start * SECTOR + offset, data, n)
      modifies dev
      ensures |dev.sectors| == |old(dev.sectors)| && 0 <= size
      ensures Underway(length, |data|, offset, memory, n + size)
      ensures size == 0 ==> Stuck(length, |data|, offset, memory, n)
      ensures Holds(dev.sectors, was, start * SECTOR + offset, data, n + size)
    {
      var ofs := offset + n;
      size := Chunk(length, |data| - n, ofs);
      if size <= 0 { return 0; }
      ChunkInSector(dev.sectors, start, length, |data| - n, ofs);
      var idx, sectorOfs := start + ofs / SECTOR, ofs % SECTOR;
      if !memory && !(sectorOfs == 0 && size == SECTOR) { return 0; }
      Advance(length, |data|, offset, memory, n, size);
      HoldsMore(dev.sectors, was, start * SECTOR + offset, data, n, size, idx, sectorOfs);
      var patched := PatchSector(dev, idx, sectorOfs, data[n..n + size]);
      dev.sectors := dev.sectors[idx := patched];
    }

    // The loop over sectors.
    method WriteChunks(dev: Device, data: seq<byte>, offset: nat, memory: bool) returns (n: int)
      requires Fits(dev.sectors, start, length)
      modifies dev
      ensures n == Transferred(length, |data|, offset, memory)
      ensures |dev.sectors| == |old(dev.sectors)|
      ensures Holds(dev.sectors, Flat(old(dev.sectors)), start * SECTOR + offset, data, n)
    {
      n := 0;
      ghost var was := Flat(dev.sectors);
      while n < |data|
        invariant Underway(length, |data|, offset, memory, n)
        invariant |dev.sectors| == |old(dev.sectors)|
        invariant Holds(dev.sectors, was, start * SECTOR + offset, data, n)
      {
        var size := WriteChunk(dev, data, n, offset, memory, was);
        if size == 0 { break; }
        n := n + size;
      }
      Finished(length, |data|, offset, memory, n);
    }

    /** Writes the data from `offset` on, as far as the extent goes, and says how
        many bytes that was; nothing if writes are denied.  No other byte of the
        device changes. */
    method WriteAt(dev: Device, data: seq<byte>, offset: int, memory: bool) returns (n: int)
      requires Fits(dev.sectors, start, length) && offset >= 0
      modifies dev
      ensures n == (if denyWriteCnt != 0 then 0 else Transferred(length, |data|, offset, memory))
      ensures 0 <= n <= |data| && |dev.sectors| == |old(dev.sectors)|
      ensures Flat(dev.sectors) == Written(Flat(old(dev.sectors)), start * SECTOR + offset, data[..n])
    {
      n := 0;
      if denyWriteCnt != 0 { return; }
      ExtentInside(dev.sectors, start, length);
      n := WriteChunks(dev, data, offset, memory);
      HoldsFlat(dev.sectors, Flat(old(dev.sectors)), start * SECTOR + offset, data, n);
    }
  }

  /** Overwriting, where writing nothing is allowed anywhere. */
  ghost function Written(f: seq<byte>, at: int, data: seq<byte>): (r: seq<byte>)
    ensures |r| == |f|
    ensures data == [] ==> r == f
  {
    if data != [] && 0 <= at && at + |data| <= |f| then Overwrite(f, at, data) else f
  }

  /** The device is `was` with the first n bytes of the data written at `base`. */
  ghost predicate Holds(d: seq<Sector>, was: seq<byte>, base: int, data: seq<byte>, n: int) {
    && 0 <= n <= |data| && |was| == SECTOR * |d|
    && forall k | 0 <= k < |was| :: ByteAt(d, k) == Patched(was, base, data, n, k)
  }

  ghost function Patched(was: seq<byte>, base: int, data: seq<byte>, n: int, k: int): byte
    requires 0 <= n <= |data| && 0 <= k < |was|
  {
    if base <= k < base + n then data[k - base] else was[k]
  }

  lemma HoldsMore(d: seq<Sector>, was: seq<byte>, base: int, data: seq<byte>, n: int, size: int, idx: int, at: int)
    requires Holds(d, was, base, data, n) && 0 < size && n + size <= |data|
    requires 0 <= idx < |d| && 0 <= at && at + size <= SECTOR && idx * SECTOR + at == base + n
    ensures Holds(d[idx := Overwrite(d[idx], at, data[n..n + size])], was, base, data, n + size)
  {
    var e := d[idx := Overwrite(d[idx], at, data[n..n + size])];
    forall k | 0 <= k < |was| ensures ByteAt(e, k) == Patched(was, base, data, n + size, k) {
      assert ByteAt(d, k) == Patched(was, base, data, n, k);
      assert k == k / SECTOR * SECTOR + k % SECTOR;
      if k / SECTOR == idx {
        assert base + n <= k < base + n + size <==> at <= k % SECTOR < at + size;
      } else {
        assert !(base + n <= k < base + n + size);
      }
    }
  }

  lemma HoldsFlat(d: seq<Sector>, was: seq<byte>, base: int, data: seq<byte>, n: int)
    requires Holds(d, was, base, data, n) && 0 <= base && (n > 0 ==> base + n <= |was|)
    ensures Flat(d) == Written(was, base, data[..n])
  {
    var a, b := Flat(d), Written(was, base, data[..n]);
    forall k | 0 <= k < |a| ensures a[k] == b[k] {
      assert ByteAt(d, k) == Patched(was, base, data, n, k);
    }
  }

  /** A buffer whose first n bytes have been replaced by c[offset..]. */
  ghost function Filled(was: seq<byte>, c: seq<byte>, offset: int, n: int): (r: seq<byte>)
    ensures n == 0 ==> r == was
  {
    if 0 <= offset && 0 < n <= |was| && offset + n <= |c| then c[offset..offset + n] + was[n..] else was
  }

  ghost predicate Got(b: seq<byte>, was: seq<byte>, c: seq<byte>, offset: int, n: int) {
    && |b| == |was| && 0 <= offset && 0 <= n <= |was| && (n > 0 ==> offset + n <= |c|)
    && (forall k | 0 <= k < n :: b[k] == c[offset + k])
    && (forall k | n <= k < |was| :: b[k] == was[k])
  }

  // The next chunk has been copied in.
  lemma GotMore(b: seq<byte>, b': seq<byte>, was: seq<byte>, c: seq<byte>, offset: int, n: int, data: seq<byte>)
    requires Got(b, was, c, offset, n) && |b'| == |b| && n + |data| <= |was| && offset + n + |data| <= |c|
    requires forall k | 0 <= k < |data| :: data[k] == c[offset + n + k]
    requires forall k | 0 <= k < |b| :: b'[k] == if n <= k < n + |data| then data[k - n] else b[k]
    ensures Got(b', was, c, offset, n + |data|)
  {
    forall k | n <= k < n + |data| ensures b'[k] == c[offset + k] {
      assert data[k - n] == c[offset + n + (k - n)];
    }
  }

  lemma GotFilled(b: seq<byte>, was: seq<byte>, c: seq<byte>, offset: int, n: int)
    requires Got(b, was, c, offset, n)
    ensures b == Filled(was, c, offset, n)
  {
  }

  // memcpy into the caller's buffer.
  method CopyIn(buffer: array<byte>, at: nat, data: seq<byte>)
    requires at + |data| <= buffer.Length
    modifies buffer
    ensures forall k | 0 <= k < buffer.Length ::
              buffer[k] == if at <= k < at + |data| then data[k - at] else old(buffer[k])
  {
    for i := 0 to |data|
      invariant forall k | 0 <= k < buffer.Length ::
                  buffer[k] == if at <= k < at + i then data[k - at] else old(buffer[k])
    {
      buffer[at + i] := data[i];
    }
  }

  // ---------- Extents as independent flat files ----------

  /** A write inside an extent is an overwrite of that extent's bytes, so what is
      read back is what was written and every other byte of it is unchanged. */
  lemma WriteIsOverwrite(d: seq<Sector>, d': seq<Sector>, start: int, length: int, offset: int, data: seq<byte>)
    requires Fits(d, start, length) && |d'| == |d| && 0 <= offset && offset + |data| <= length
    requires Flat(d') == Written(Flat(d), start * SECTOR + offset, data)
    ensures Contents(d', start, length) == Overwrite(Contents(d, start, length), offset, data)
    ensures Contents(d', start, length)[offset..offset + |data|] == data
  {
    ExtentInside(d, start, length);
    var c, c' := Contents(d, start, length), Contents(d', start, length);
    var o := Overwrite(c, offset, data);
    forall k | 0 <= k < length ensures c'[k] == o[k] {
      var pos := start * SECTOR + k;
      assert c[k] == Flat(d)[pos] && c'[k] == Flat(d')[pos];
    }
    assert c' == o;
  }

  /** Two extents share no sector. */
  ghost predicate DisjointExtents(start: int, length: int, start2: int, length2: int) {
    start + BytesToSectors(length) <= start2 || start2 + BytesToSectors(length2) <= start
  }

  /** A write inside one extent leaves every disjoint extent as it was. */
  lemma WriteLeavesOthers(d: seq<Sector>, d': seq<Sector>, start: int, length: int, offset: int, data: seq<byte>,
                          start2: int, length2: int)
    requires Fits(d, start, length) && |d'| == |d| && 0 <= offset && offset + |data| <= length
    requires Flat(d') == Written(Flat(d), start * SECTOR + offset, data)
    requires Fits(d, start2, length2) && DisjointExtents(start, length, start2, length2)
    ensures Contents(d', start2, length2) == Contents(d, start2, length2)
  {
    ExtentInside(d, start, length);
    ExtentInside(d, start2, length2);
    var c, c' := Contents(d, start2, length2), Contents(d', start2, length2);
    forall k | 0 <= k < length2 ensures c'[k] == c[k] {
      var pos := start2 * SECTOR + k;
      assert c[k] == Flat(d)[pos] && c'[k] == Flat(d')[pos];
      assert !(start * SECTOR + offset <= pos < start * SECTOR + offset + |data|);
    }
  }

  /** Only sectors of the extent have changed. */
  ghost predicate OnlyExtent(d: seq<Sector>, e: seq<Sector>, start: int, length: int) {
    |e| == |d| && forall x | 0 <= x < |d| && !(start <= x < start + BytesToSectors(length)) :: e[x] == d[x]
  }

  lemma WriteInExtent(d: seq<Sector>, e: seq<Sector>, start: int, length: int, offset: int, data: seq<byte>)
    requires Fits(d, start, length) && |e| == |d| && 0 <= offset && offset + |data| <= length
    requires Flat(e) == Written(Flat(d), start * SECTOR + offset, data)
    ensures OnlyExtent(d, e, start, length)
  {
    forall x | 0 <= x < |d| && !(start <= x < start + BytesToSectors(length)) ensures e[x] == d[x] {
      SectorsOutside(d, e, start, length, offset, data, x);
    }
  }

  // A write inside an extent leaves sectors outside it as they were.
  lemma SectorsOutside(d: seq<Sector>, e: seq<Sector>, start: int, length: int, offset: int, data: seq<byte>, x: int)
    requires Fits(d, start, length) && |e| == |d| && 0 <= offset && offset + |data| <= length
    requires Flat(e) == Written(Flat(d), start * SECTOR + offset, data)
    requires 0 <= x < |d| && !(start <= x < start + BytesToSectors(length))
    ensures e[x] == d[x]
  {
    forall j | 0 <= j < SECTOR ensures e[x][j] == d[x][j] {
      var pos := x * SECTOR + j;
      assert pos / SECTOR == x && pos % SECTOR == j;
      assert Flat(d)[pos] == d[x][j] && Flat(e)[pos] == e[x][j];
      assert !(start * SECTOR + offset <= pos < start * SECTOR + offset + |data|);
    }
  }
}
