/**
 Reading a Minix file: fs/minix/block.c and fs/minix/read.c. A zone number 0 is a hole. Blocks that
 cannot be read are missing from the disk. What the file holds is defined on a device without missing
 blocks; ContentIff says when a read from a disk with missing blocks returns that.
 */
module Minix {
  import opened Arith

  const BLOCK_SIZE: nat := 4096
  const MINIX_BLOCK_SIZE: nat := 1024
  /** 7 + 512 + 512 * 512. */
  const MAX_BLOCKS: nat := 262_663
  const MAX_ZONES: nat := 0x1_0000
  const EIO: int := 7

  /** MAX_BLOCKS * MINIX_BLOCK_SIZE. */
  const MAX_SIZE: nat := 268_966_912

  type Byte = bv8

  function BlockOf(pos: nat): nat {
    pos / 1024
  }

  function Offset(pos: nat): (o: nat)
    ensures o < MINIX_BLOCK_SIZE
  {
    pos % 1024
  }

  /** The device in blocks of BLOCK_SIZE bytes, as bread returns them. */
  type Disk = map<nat, seq<Byte>>

  ghost predicate DiskOk(d: Disk) {
    forall b :: b in d ==> |d[b]| == BLOCK_SIZE
  }

  /** The part of a struct inode that a read uses. */
  datatype File = File(zones: seq<nat>, size: nat)

  /** Zone numbers are 16 bits wide. */
  predicate FileOk(f: File) {
    |f.zones| == 9 && f.size <= MAX_SIZE && forall i :: 0 <= i < 9 ==> f.zones[i] < MAX_ZONES
  }

  // ---------------------------------------------------------------------------------------------
  // The contents of a file
  // ---------------------------------------------------------------------------------------------

  predicate Readable(d: Disk, z: nat) {
    z / 4 in d && |d[z / 4]| == BLOCK_SIZE
  }

  /** The Minix block `z` is a quarter of a device block. */
  function Data(d: Disk, z: nat): (r: seq<Byte>)
    requires Readable(d, z)
    ensures |r| == MINIX_BLOCK_SIZE
  {
    d[z / 4][z % 4 * MINIX_BLOCK_SIZE..][..MINIX_BLOCK_SIZE]
  }

  function DiskByte(d: Disk, a: nat): Byte
    requires a / BLOCK_SIZE in d && |d[a / BLOCK_SIZE]| == BLOCK_SIZE
  {
    d[a / BLOCK_SIZE][a % BLOCK_SIZE]
  }

  /** Minix blocks are numbered through the whole device. */
  lemma DataOnDisk(d: Disk, z: nat, i: nat)
    requires Readable(d, z) && i < MINIX_BLOCK_SIZE
    ensures var a := z * MINIX_BLOCK_SIZE + i;
            a / BLOCK_SIZE in d && |d[a / BLOCK_SIZE]| == BLOCK_SIZE && Data(d, z)[i] == DiskByte(d, a)
  {
    var a := z * MINIX_BLOCK_SIZE + i;
    assert z == z / 4 * 4 + z % 4;
    ModUnique(a, BLOCK_SIZE, z / 4, z % 4 * MINIX_BLOCK_SIZE + i);
  }

  /** Entry `i` of an indirect block: 16 bits, little-endian. */
  function Pointer(data: seq<Byte>, i: nat): nat
    requires |data| == MINIX_BLOCK_SIZE && i < 512
  {
    data[2 * i] as nat + 256 * data[2 * i + 1] as nat
  }

  predicate Indices(ix: seq<nat>) {
    forall i :: 0 <= i < |ix| ==> ix[i] < 512
  }

  /** Follow `ix` through indirect blocks, starting at `z`; one that cannot be read leads to 0, like a hole. */
  function Follow(d: Disk, z: nat, ix: seq<nat>): nat
    requires Indices(ix)
    decreases |ix|
  {
    if z == 0 || ix == [] then z
    else if Readable(d, z) then Follow(d, Pointer(Data(d, z), ix[0]), ix[1..])
    else 0
  }

  lemma FollowTwice(d: Disk, z: nat, i: nat, j: nat)
    requires i < 512 && j < 512
    ensures Follow(d, z, [i, j]) == Follow(d, Follow(d, z, [i]), [j])
  {
    assert [i, j][1..] == [j] && [i][1..] == [];
  }

  /** The slot of the inode's zone array and the path below it for file block `b`. */
  function Slot(b: nat): nat {
    if b < 7 then b else if b < 7 + 512 then 7 else 8
  }

  function Path(b: nat): (ix: seq<nat>)
    requires b < MAX_BLOCKS
    ensures Indices(ix) && |ix| == if b < 7 then 0 else if b < 7 + 512 then 1 else 2
  {
    if b < 7 then [] else if b < 7 + 512 then [b - 7] else [(b - 519) / 512, (b - 519) % 512]
  }

  /** Different file blocks have different paths: no two share an entry of the map. */
  lemma PathInjective(b: nat, c: nat)
    requires b < MAX_BLOCKS && c < MAX_BLOCKS && Slot(b) == Slot(c) && Path(b) == Path(c)
    ensures b == c
  {
    if b >= 7 + 512 {
      assert Path(b)[0] == Path(c)[0] && Path(b)[1] == Path(c)[1];
    } else if b >= 7 {
      assert Path(b)[0] == Path(c)[0];
    }
  }

  function Zone(d: Disk, f: File, b: nat): nat
    requires FileOk(f) && b < MAX_BLOCKS
  {
    Follow(d, f.zones[Slot(b)], Path(b))
  }

  /** The block map, level by level. */
  lemma ZoneBySteps(d: Disk, f: File, b: nat)
    requires FileOk(f) && b < MAX_BLOCKS
    ensures b < 7 ==> Zone(d, f, b) == f.zones[b]
    ensures 7 <= b < 519 ==> Zone(d, f, b) == if f.zones[7] == 0 then 0 else Follow(d, f.zones[7], [b - 7])
    ensures b >= 519 ==>
      var i, j := (b - 519) / 512, (b - 519) % 512;
      var z := if f.zones[8] == 0 then 0 else Follow(d, f.zones[8], [i]);
      i < 512 && Zone(d, f, b) == if z == 0 then 0 else Follow(d, z, [j])
  {
    hide Readable, Data, Pointer;
    if b >= 519 { FollowTwice(d, f.zones[8], (b - 519) / 512, (b - 519) % 512); }
  }

  /** Byte `a` of the file as far as this disk gives it; holes read as zeros. */
  function FileByte(d: Disk, f: File, a: nat): Byte
    requires FileOk(f) && a < f.size
  {
    var z := Zone(d, f, BlockOf(a));
    if z == 0 || !Readable(d, z) then 0 else Data(d, z)[Offset(a)]
  }

  function Content(d: Disk, f: File, from: nat, to: nat): (s: seq<Byte>)
    requires FileOk(f) && from <= to <= f.size
    ensures |s| == to - from
  {
    seq<Byte>(to - from, i requires 0 <= i < to - from => FileByte(d, f, from + i))
  }

  lemma ContentSplit(d: Disk, f: File, from: nat, mid: nat, to: nat)
    requires FileOk(f) && from <= mid <= to <= f.size
    ensures Content(d, f, from, to) == Content(d, f, from, mid) + Content(d, f, mid, to)
  {
    hide FileByte;
  }

  /** `n` bytes from `pos` on; nothing may be read behind the end of the file. */
  function Bytes(d: Disk, f: File, pos: nat, n: nat): (s: seq<Byte>)
    requires FileOk(f) && (n > 0 ==> pos + n <= f.size)
    ensures |s| == n
  {
    if n == 0 then [] else Content(d, f, pos, pos + n)
  }

  lemma BytesSplit(d: Disk, f: File, pos: nat, m: nat, n: nat)
    requires FileOk(f) && (m > 0 ==> pos + m <= f.size) && (n > 0 ==> pos + m + n <= f.size)
    ensures Bytes(d, f, pos, m + n) == Bytes(d, f, pos, m) + Bytes(d, f, pos + m, n)
  {
    hide FileByte;
  }

  // ---------------------------------------------------------------------------------------------
  // What one read does
  // ---------------------------------------------------------------------------------------------

  function Min(a: nat, b: nat): nat {
    if a < b then a else b
  }

  /** The bytes of one round of the copy loop. */
  function Chunk(f: File, pos: nat, left: nat): nat {
    if pos < f.size then Min(f.size - pos, Min(MINIX_BLOCK_SIZE - Offset(pos), left)) else 0
  }

  /** The number of bytes a read of `left` bytes at `pos` returns. */
  function Extent(d: Disk, f: File, pos: nat, left: nat): (n: nat)
    requires FileOk(f)
    ensures n <= left && (n > 0 ==> pos + n <= f.size)
    decreases left
  {
    if left == 0 || pos >= f.size then 0
    else
      var z, c := Zone(d, f, BlockOf(pos)), Chunk(f, pos, left);
      if z == 0 then (if pos + c < f.size then c else 0)
      else if !Readable(d, z) then 0
      else c + Extent(d, f, pos + c, left - c)
  }

  /** The file position after that read. */
  function NextPos(d: Disk, f: File, pos: nat, left: nat): nat
    requires FileOk(f)
    decreases left
  {
    if left == 0 || pos >= f.size then pos
    else
      var z, c := Zone(d, f, BlockOf(pos)), Chunk(f, pos, left);
      if z == 0 then pos + c
      else if !Readable(d, z) then pos
      else NextPos(d, f, pos + c, left - c)
  }

  /** The three ways a round can go: a hole, a block that cannot be read, a block of data. */
  ghost predicate RoundResult(d: Disk, f: File, pos: nat, left: nat, done: nat, next: nat, stop: bool)
    requires FileOk(f) && pos < MAX_SIZE
  {
    var z, c := Zone(d, f, BlockOf(pos)), Chunk(f, pos, left);
    if z == 0 then stop && next == pos + c && done == if next < f.size then c else 0
    else if !Readable(d, z) then stop && next == pos && done == 0
    else next == pos + c && done == c && stop == (next >= f.size)
  }

  /** `r` is `b` with the bytes `q` put at `at`. */
  ghost predicate Spliced(b: seq<Byte>, r: seq<Byte>, at: nat, q: seq<Byte>) {
    at + |q| <= |b| && r == b[..at] + q + b[at + |q|..]
  }

  lemma SplicedAgain(b0: seq<Byte>, b1: seq<Byte>, b2: seq<Byte>, p: seq<Byte>, q: seq<Byte>)
    requires Spliced(b0, b1, 0, p) && Spliced(b1, b2, |p|, q)
    ensures Spliced(b0, b2, 0, p + q)
  {
    assert b1[..|p|] == p && b1[|p| + |q|..] == b0[|p| + |q|..];
  }

  /** What Round leaves to the loop. */
  lemma RoundEffect(d: Disk, f: File, pos: nat, left: nat, done: nat, next: nat, stop: bool)
    requires FileOk(f) && left > 0 && pos < MAX_SIZE && done <= left
    requires RoundResult(d, f, pos, left, done, next, stop)
    ensures Extent(d, f, pos, left) == done + if stop then 0 else Extent(d, f, next, left - done)
    ensures NextPos(d, f, pos, left) == if stop then next else NextPos(d, f, next, left - done)
    ensures !stop ==> done > 0 && next == pos + done < f.size
  {
    hide Zone, Readable;
  }

  /** A read of `size` bytes at `pos` into a buffer that holds `before`. */
  datatype Request = Request(d: Disk, f: File, pos: nat, size: nat, before: seq<Byte>)

  /** What is left of the request is a read of `left` bytes at `next`. */
  ghost predicate Progress(r: Request, next: nat, left: nat, b: seq<Byte>) {
    && FileOk(r.f) && left <= r.size <= |r.before|
    && next == r.pos + (r.size - left) < MAX_SIZE && (left < r.size ==> next < r.f.size)
    && Extent(r.d, r.f, r.pos, r.size) == r.size - left + Extent(r.d, r.f, next, left)
    && NextPos(r.d, r.f, r.pos, r.size) == NextPos(r.d, r.f, next, left)
    && Spliced(r.before, b, 0, Bytes(r.d, r.f, r.pos, r.size - left))
  }

  /** The request is served: `n` bytes are in the buffer `b`. */
  ghost predicate Served(r: Request, next: nat, n: nat, b: seq<Byte>) {
    && FileOk(r.f) && n == Extent(r.d, r.f, r.pos, r.size) && next == NextPos(r.d, r.f, r.pos, r.size)
    && Spliced(r.before, b, 0, Bytes(r.d, r.f, r.pos, n))
  }

  lemma ProgressRound(r: Request, was: nat, left: nat, before: seq<Byte>, b: seq<Byte>, done: nat, next: nat, stop: bool)
    requires Progress(r, was, left, before) && 0 < left && done <= left
    requires RoundResult(r.d, r.f, was, left, done, next, stop) && (done > 0 ==> was + done <= r.f.size)
    requires Spliced(before, b, r.size - left, Bytes(r.d, r.f, was, done))
    ensures stop ==> Served(r, next, r.size - left + done, b)
    ensures !stop ==> Progress(r, next, left - done, b) && done > 0
  {
    hide Extent, NextPos, RoundResult, Bytes, Spliced, BlockOf, Offset, Zone;
    RoundEffect(r.d, r.f, was, left, done, next, stop);
    BytesSplit(r.d, r.f, r.pos, r.size - left, done);
    SplicedAgain(r.before, before, b, Bytes(r.d, r.f, r.pos, r.size - left), Bytes(r.d, r.f, was, done));
  }

  lemma ProgressBound(r: Request, next: nat, left: nat, b: seq<Byte>)
    requires Progress(r, next, left, b)
    ensures next < MAX_SIZE
  {
  }

  lemma ProgressEnds(r: Request, next: nat)
    requires FileOk(r.f) && r.size <= |r.before| && r.pos < MAX_SIZE
    ensures Progress(r, r.pos, r.size, r.before)
    ensures forall b :: Progress(r, next, 0, b) ==> Served(r, next, r.size, b)
  {
  }

  class Reader {
    const disk: Disk
    /** Blocks obtained by get_minix_block and not yet put back. */
    var held: nat

    constructor (d: Disk)
      ensures disk == d && held == 0
    {
      disk, held := d, 0;
    }

    /** get_minix_block; the result [] stands for NULL. */
    method GetMinixBlock(nr: nat) returns (data: seq<Byte>)
      requires DiskOk(disk)
      modifies `held
      ensures Readable(disk, nr) ==> data == Data(disk, nr) && held == old(held) + 1
      ensures !Readable(disk, nr) ==> data == [] && held == old(held)
    {
      var block := nr / (BLOCK_SIZE / MINIX_BLOCK_SIZE);
      var offset := nr % (BLOCK_SIZE / MINIX_BLOCK_SIZE) * MINIX_BLOCK_SIZE;
      if block in disk {
        data := disk[block][offset..offset + MINIX_BLOCK_SIZE];
        held := held + 1;
      } else {
        data := [];
      }
    }

    /** put_minix_block. */
    method PutMinixBlock()
      requires held > 0
      modifies `held
      ensures held == old(held) - 1
    {
      held := held - 1;
    }

    /** _bmap without `create`: the zone that holds file block `b`; every block is put back. */
    method Bmap(f: File, b: nat) returns (z: nat)
      requires DiskOk(disk) && FileOk(f) && b < MAX_BLOCKS
      modifies `held
      ensures z == Zone(disk, f, b) && held == old(held)
    {
      ZoneBySteps(disk, f, b);
      hide Zone, Follow, DiskOk;
      if b < 7 {
        return f.zones[b];
      }
      var block := b - 7;
      if block < 512 {
        if f.zones[7] == 0 {
          return 0;
        }
        z := Entry(f.zones[7], block);
        return;
      }
      block := block - 512;
      if f.zones[8] == 0 {
        return 0;
      }
      z := Entry(f.zones[8], block / 512);
      if z != 0 {
        z := Entry(z, block % 512);
      }
    }

    /** One level of _bmap: entry `i` of the indirect block `z`, 0 if it cannot be read. */
    method Entry(z: nat, i: nat) returns (e: nat)
      requires DiskOk(disk) && z != 0 && i < 512
      modifies `held
      ensures e == Follow(disk, z, [i]) && held == old(held)
    {
      assert [i][1..] == [];
      var data := GetMinixBlock(z);
      if data == [] {
        return 0;
      }
      e := Pointer(data, i);
      PutMinixBlock();
    }

    /** One round of the loop of minix_file_read; `at` is the place in the buffer. */
    method Round(f: File, buf: array<Byte>, at: nat, left: nat, pos: nat) returns (done: nat, next: nat, stop: bool)
      requires DiskOk(disk) && FileOk(f) && 0 < left && at + left <= buf.Length && pos < MAX_SIZE
      modifies `held, buf
      ensures held == old(held) && done <= left && (done > 0 ==> pos + done <= f.size)
      ensures Spliced(old(buf[..]), buf[..], at, Bytes(disk, f, pos, done))
      ensures RoundResult(disk, f, pos, left, done, next, stop)
    {
      done, next, stop := 0, pos, true;
      var nr := Bmap(f, BlockOf(pos));
      var data: seq<Byte> := [];
      hide Zone, Data, Readable;
      if nr != 0 {
        data := GetMinixBlock(nr);
        if data == [] {
          return;
        }
      }
      var offset := Offset(pos);
      var remains := Min(if pos < f.size then f.size - pos else 0, Min(MINIX_BLOCK_SIZE - offset, left));
      next := pos + remains;
      if nr != 0 {
        ChunkIsData(disk, f, pos, remains);
        CopyOut(buf, at, data, offset, remains);
        PutMinixBlock();
        done, stop := remains, next >= f.size;
      } else if next < f.size {
        ChunkIsZero(disk, f, pos, remains);
        ZeroOut(buf, at, remains);
        done := remains;
      }
    }

    /**
     minix_file_read of `size` bytes at `pos` into `buf`; a negative result is -EIO. Bytes of the
     buffer behind the returned ones keep their values.
     */
    method FileRead(f: File, buf: array<Byte>, size: nat, pos: nat) returns (ret: int, next: nat)
      requires DiskOk(disk) && FileOk(f) && size <= buf.Length && pos < MAX_SIZE
      modifies `held, buf
      ensures held == old(held)
      ensures ret > 0 || ret == -EIO
      ensures Served(Request(disk, f, pos, size, old(buf[..])), next, if ret < 0 then 0 else ret, buf[..])
    {
      hide Extent, NextPos, Bytes, Spliced, Progress, Served, RoundResult, DiskOk, FileOk, Zone, BlockOf;
      ghost var r := Request(disk, f, pos, size, buf[..]);
      ProgressEnds(r, pos);
      next := pos;
      var left: nat, stop := size, false;
      while left > 0 && !stop
        invariant left <= size && held == old(held)
        invariant if stop then Served(r, next, size - left, buf[..]) else Progress(r, next, left, buf[..])
        decreases left, !stop
      {
        ghost var was, before := next, buf[..];
        ProgressBound(r, next, left, before);
        var done;
        done, next, stop := Round(f, buf, size - left, left, next);
        ProgressRound(r, was, left, before, buf[..], done, next, stop);
        left := left - done;
      }
      ProgressEnds(r, next);
      ret := if size - left == 0 then -EIO else size - left;
    }

    /** The copy loop of one block. */
    method CopyOut(buf: array<Byte>, at: nat, data: seq<Byte>, from: nat, n: nat)
      requires at + n <= buf.Length && from + n <= |data|
      modifies buf
      ensures Spliced(old(buf[..]), buf[..], at, data[from..from + n])
    {
      for i := 0 to n
        invariant buf[..] == old(buf[..at]) + data[from..from + i] + old(buf[at + i..])
      {
        buf[at + i] := data[from + i];
      }
    }

    method ZeroOut(buf: array<Byte>, at: nat, n: nat)
      requires at + n <= buf.Length
      modifies buf
      ensures Spliced(old(buf[..]), buf[..], at, Zeros(n))
    {
      for i := 0 to n
        invariant buf[..] == old(buf[..at]) + Zeros(i) + old(buf[at + i..])
      {
        ZerosMore(i);
        hide Zeros;
        buf[at + i] := 0;
        assert buf[..] == old(buf[..at]) + (Zeros(i) + [0]) + old(buf[at + (i + 1)..]);
      }
    }
  }

  function Zeros(n: nat): (s: seq<Byte>)
    ensures |s| == n
  {
    seq<Byte>(n, _ => 0)
  }

  lemma ZerosMore(n: nat)
    ensures Zeros(n + 1) == Zeros(n) + [0] && |Zeros(n)| == n
  {
  }

  /** Inside one block the file's bytes are the block's. */
  lemma ChunkIsData(d: Disk, f: File, pos: nat, n: nat)
    requires FileOk(f) && BlockOf(pos) < MAX_BLOCKS && n <= MINIX_BLOCK_SIZE - Offset(pos)
    requires n > 0 ==> pos + n <= f.size
    requires var z := Zone(d, f, BlockOf(pos)); z != 0 && Readable(d, z)
    ensures var o := Offset(pos);
            Bytes(d, f, pos, n) == Data(d, Zone(d, f, BlockOf(pos)))[o..o + n]
  {
    hide Zone, Data;
    var z, o := Zone(d, f, BlockOf(pos)), Offset(pos);
    if n > 0 {
      var s, t := Content(d, f, pos, pos + n), Data(d, z)[o..o + n];
      forall i | 0 <= i < n ensures s[i] == t[i] {
        ContentAt(d, f, pos, pos + n, i);
        SameBlock(pos, i);
      }
    }
  }

  lemma ContentAt(d: Disk, f: File, from: nat, to: nat, i: nat)
    requires FileOk(f) && from <= to <= f.size && i < to - from
    ensures Content(d, f, from, to)[i] == FileByte(d, f, from + i)
  {
    hide FileByte;
  }

  lemma SameBlock(pos: nat, i: nat)
    requires Offset(pos) + i < MINIX_BLOCK_SIZE
    ensures BlockOf(pos + i) == BlockOf(pos)
    ensures Offset(pos + i) == Offset(pos) + i
  {
  }

  lemma ChunkIsZero(d: Disk, f: File, pos: nat, n: nat)
    requires FileOk(f) && BlockOf(pos) < MAX_BLOCKS && n <= MINIX_BLOCK_SIZE - Offset(pos)
    requires pos + n <= f.size && Zone(d, f, BlockOf(pos)) == 0
    ensures Bytes(d, f, pos, n) == Zeros(n)
  {
    hide Zone, Data;
    if n > 0 {
      var s := Content(d, f, pos, pos + n);
      forall i | 0 <= i < n ensures s[i] == 0 {
        ContentAt(d, f, pos, pos + n, i);
        SameBlock(pos, i);
      }
    }
  }

  // ---------------------------------------------------------------------------------------------
  // How far a read gets
  // ---------------------------------------------------------------------------------------------

  predicate Hole(d: Disk, f: File, a: nat)
    requires FileOk(f) && a < f.size
  {
    Zone(d, f, BlockOf(a)) == 0
  }

  predicate Mapped(d: Disk, f: File, a: nat)
    requires FileOk(f) && a < f.size
  {
    !Hole(d, f, a) && Readable(d, Zone(d, f, BlockOf(a)))
  }

  /** The first byte from `pos` on, before `end`, that is in a hole or cannot be read; else `end`. */
  function FirstGap(d: Disk, f: File, pos: nat, end: nat): (g: nat)
    requires FileOk(f) && pos <= end <= f.size
    ensures pos <= g <= end && (g < end ==> !Mapped(d, f, g)) && forall a | pos <= a < g :: Mapped(d, f, a)
    decreases end - pos
  {
    if pos == end || !Mapped(d, f, pos) then pos else FirstGap(d, f, pos + 1, end)
  }

  /** Bytes of one block are mapped or missing together. */
  lemma SameZone(d: Disk, f: File, pos: nat, i: nat)
    requires FileOk(f) && pos + i < f.size && Offset(pos) + i < MINIX_BLOCK_SIZE
    ensures Mapped(d, f, pos + i) == Mapped(d, f, pos) && Hole(d, f, pos + i) == Hole(d, f, pos)
  {
    SameBlock(pos, i);
  }

  lemma {:induction false} GapBehindChunk(d: Disk, f: File, pos: nat, n: nat, end: nat)
    requires FileOk(f) && pos + n <= end <= f.size && Offset(pos) + n <= MINIX_BLOCK_SIZE && (n > 0 ==> Mapped(d, f, pos))
    ensures FirstGap(d, f, pos, end) == FirstGap(d, f, pos + n, end)
    decreases n
  {
    if n > 0 {
      GapBehindChunk(d, f, pos, n - 1, end);
      SameZone(d, f, pos, n - 1);
    }
  }

  /** Where the read ends if everything is mapped, and where the round at `g` ends. */
  function End(f: File, pos: nat, left: nat): (e: nat)
    requires pos <= f.size
    ensures pos <= e <= f.size
  {
    Min(pos + left, f.size)
  }

  function RoundEnd(g: nat, end: nat): nat {
    Min(g + (MINIX_BLOCK_SIZE - Offset(g)), end)
  }

  /**
   A read gets to the first gap. A gap that cannot be read ends it there. A hole is read as zeros
   to the end of its block, but not if that is the end of the file: then only the position moves.
   */
  lemma {:induction false} ReadShape(d: Disk, f: File, pos: nat, left: nat)
    requires FileOk(f) && pos <= f.size
    ensures var end := End(f, pos, left);
            var g := FirstGap(d, f, pos, end);
            var h := RoundEnd(g, end);
            && Extent(d, f, pos, left) == (if g < end && Hole(d, f, g) && h < f.size then h else g) - pos
            && NextPos(d, f, pos, left) == if g < end && Hole(d, f, g) then h else g
    decreases left
  {
    hide Extent, NextPos, FirstGap, Hole, Mapped, End, RoundEnd, Chunk;
    var end := End(f, pos, left);
    if pos == end {
      NothingLeft(d, f, pos, left);
    } else {
      var c := Chunk(f, pos, left);
      ChunkEnds(f, pos, left);
      if Mapped(d, f, pos) {
        MappedRound(d, f, pos, left);
        GapBehindChunk(d, f, pos, c, end);
        ReadShape(d, f, pos + c, left - c);
      } else {
        GapRound(d, f, pos, left);
        GapHere(d, f, pos, end);
      }
    }
  }

  lemma NothingLeft(d: Disk, f: File, pos: nat, left: nat)
    requires FileOk(f) && pos <= f.size && pos == End(f, pos, left)
    ensures Extent(d, f, pos, left) == 0 && NextPos(d, f, pos, left) == pos
  {
  }

  lemma GapHere(d: Disk, f: File, pos: nat, end: nat)
    requires FileOk(f) && pos < end <= f.size && !Mapped(d, f, pos)
    ensures FirstGap(d, f, pos, end) == pos
  {
  }

  lemma ChunkEnds(f: File, pos: nat, left: nat)
    requires pos <= f.size && pos < End(f, pos, left)
    ensures pos < f.size && left > 0 && 0 < Chunk(f, pos, left) <= left && pos + Chunk(f, pos, left) <= End(f, pos, left)
    ensures var c := Chunk(f, pos, left);
            && Offset(pos) + c <= MINIX_BLOCK_SIZE && pos + c == RoundEnd(pos, End(f, pos, left))
            && End(f, pos + c, left - c) == End(f, pos, left)
  {
    hide Offset;
  }

  lemma MappedRound(d: Disk, f: File, pos: nat, left: nat)
    requires FileOk(f) && pos < f.size && left > 0 && Mapped(d, f, pos) && Chunk(f, pos, left) <= left
    ensures var c := Chunk(f, pos, left);
            && Extent(d, f, pos, left) == c + Extent(d, f, pos + c, left - c)
            && NextPos(d, f, pos, left) == NextPos(d, f, pos + c, left - c)
  {
    hide Zone, Readable, Chunk;
  }

  lemma GapRound(d: Disk, f: File, pos: nat, left: nat)
    requires FileOk(f) && pos < f.size && left > 0 && !Mapped(d, f, pos)
    ensures var h := pos + Chunk(f, pos, left);
            && Extent(d, f, pos, left) == (if Hole(d, f, pos) && h < f.size then h else pos) - pos
            && NextPos(d, f, pos, left) == if Hole(d, f, pos) then h else pos
  {
    hide Zone, Readable, Chunk;
  }

  /** A read returns all it can exactly if no gap comes before its last round, and no hole ends the file there. */
  lemma FullReadIff(d: Disk, f: File, pos: nat, left: nat)
    requires FileOk(f) && pos <= f.size
    ensures var end := End(f, pos, left);
            var g := FirstGap(d, f, pos, end);
            Extent(d, f, pos, left) == end - pos <==>
              g == end || (Hole(d, f, g) && RoundEnd(g, end) == end && end < f.size)
  {
    ReadShape(d, f, pos, left);
  }

  /** The position moves by the returned count exactly if no hole reaches the end of the file. */
  lemma PositionIff(d: Disk, f: File, pos: nat, left: nat)
    requires FileOk(f) && pos <= f.size
    ensures var end := End(f, pos, left);
            var g := FirstGap(d, f, pos, end);
            NextPos(d, f, pos, left) == pos + Extent(d, f, pos, left) <==>
              g == end || !Hole(d, f, g) || RoundEnd(g, end) < f.size
  {
    ReadShape(d, f, pos, left);
  }

  /** A file of ten bytes that is one hole: reading nine bytes works, reading all ten fails and moves the position. */
  lemma HoleAtEnd()
    ensures var d, f := map[], File([0, 0, 0, 0, 0, 0, 0, 0, 0], 10);
            && FileOk(f)
            && Extent(d, f, 0, 9) == 9 && NextPos(d, f, 0, 9) == 9
            && Extent(d, f, 0, 10) == 0 && NextPos(d, f, 0, 10) == 10
  {
    var d: Disk, f := map[], File([0, 0, 0, 0, 0, 0, 0, 0, 0], 10);
    assert f.zones[0] == 0 && Zone(d, f, 0) == 0;
  }

  // ---------------------------------------------------------------------------------------------
  // Reading a file piece by piece
  // ---------------------------------------------------------------------------------------------

  ghost predicate HoleFree(d: Disk, f: File)
    requires FileOk(f)
  {
    forall a | 0 <= a < f.size :: Mapped(d, f, a)
  }

  lemma HoleFreeRead(d: Disk, f: File, pos: nat, left: nat)
    requires FileOk(f) && HoleFree(d, f) && pos <= f.size
    ensures Extent(d, f, pos, left) == End(f, pos, left) - pos && NextPos(d, f, pos, left) == End(f, pos, left)
  {
    ReadShape(d, f, pos, left);
  }

  /** The position after reads of the given sizes, one after the other, and all the bytes they return. */
  function Position(d: Disk, f: File, pos: nat, sizes: seq<nat>): nat
    requires FileOk(f)
    decreases |sizes|
  {
    if sizes == [] then pos else Position(d, f, NextPos(d, f, pos, sizes[0]), sizes[1..])
  }

  function Returned(d: Disk, f: File, pos: nat, sizes: seq<nat>): seq<Byte>
    requires FileOk(f)
    decreases |sizes|
  {
    if sizes == [] then []
    else Bytes(d, f, pos, Extent(d, f, pos, sizes[0])) + Returned(d, f, NextPos(d, f, pos, sizes[0]), sizes[1..])
  }

  /** Reads of a hole-free file return it without gaps and overlaps. */
  lemma {:induction false} ReadsJoin(d: Disk, f: File, pos: nat, sizes: seq<nat>)
    requires FileOk(f) && HoleFree(d, f) && pos <= f.size
    ensures pos <= Position(d, f, pos, sizes) <= f.size
    ensures Returned(d, f, pos, sizes) == Content(d, f, pos, Position(d, f, pos, sizes))
    decreases |sizes|
  {
    hide FileByte;
    if sizes != [] {
      var next := NextPos(d, f, pos, sizes[0]);
      HoleFreeRead(d, f, pos, sizes[0]);
      ReadsJoin(d, f, next, sizes[1..]);
      ContentSplit(d, f, pos, next, Position(d, f, pos, sizes));
    }
  }

  /** Once a further read of at least one byte gives -EIO, the earlier ones have returned all the rest. */
  lemma ReadToEnd(d: Disk, f: File, pos: nat, sizes: seq<nat>, last: nat)
    requires FileOk(f) && HoleFree(d, f) && pos <= f.size && last > 0
    requires Extent(d, f, Position(d, f, pos, sizes), last) == 0
    ensures Returned(d, f, pos, sizes) == Content(d, f, pos, f.size)
  {
    ReadsJoin(d, f, pos, sizes);
    HoleFreeRead(d, f, Position(d, f, pos, sizes), last);
  }

  // ---------------------------------------------------------------------------------------------
  // Disks with missing blocks against the whole device
  // ---------------------------------------------------------------------------------------------

  /** A device on which every block of every zone can be read. */
  ghost predicate Total(d: Disk) {
    forall b :: 0 <= b < MAX_ZONES / 4 ==> b in d && |d[b]| == BLOCK_SIZE
  }

  /** `full` is `d` with the missing blocks. */
  ghost predicate Extends(full: Disk, d: Disk) {
    forall b :: b in d ==> b in full && full[b] == d[b]
  }

  /** All indirect blocks on the path can be read. */
  predicate PathReadable(d: Disk, z: nat, ix: seq<nat>)
    requires Indices(ix)
    decreases |ix|
  {
    z == 0 || ix == [] || (Readable(d, z) && PathReadable(d, Pointer(Data(d, z), ix[0]), ix[1..]))
  }

  predicate BlockReachable(d: Disk, f: File, b: nat)
    requires FileOk(f) && b < MAX_BLOCKS
  {
    PathReadable(d, f.zones[Slot(b)], Path(b))
  }

  lemma ExtendsData(d: Disk, full: Disk, z: nat)
    requires Extends(full, d) && Readable(d, z)
    ensures Readable(full, z) && Data(full, z) == Data(d, z)
  {
  }

  lemma {:induction false} FollowExtends(d: Disk, full: Disk, z: nat, ix: seq<nat>)
    requires Extends(full, d) && Indices(ix) && PathReadable(d, z, ix)
    ensures Follow(full, z, ix) == Follow(d, z, ix)
    decreases |ix|
  {
    if z != 0 && ix != [] {
      ExtendsData(d, full, z);
      hide Data;
      FollowExtends(d, full, Pointer(Data(d, z), ix[0]), ix[1..]);
    }
  }

  lemma {:induction false} FollowLost(d: Disk, z: nat, ix: seq<nat>)
    requires Indices(ix) && !PathReadable(d, z, ix)
    ensures Follow(d, z, ix) == 0
    decreases |ix|
  {
    hide Data, Pointer;
    if Readable(d, z) { FollowLost(d, Pointer(Data(d, z), ix[0]), ix[1..]); }
  }

  /** What a read returns lies in holes or in blocks that can be read. */
  lemma ReturnedBytes(d: Disk, f: File, pos: nat, left: nat, a: nat)
    requires FileOk(f) && pos <= a < pos + Extent(d, f, pos, left)
    ensures a < f.size && (Hole(d, f, a) || Mapped(d, f, a))
  {
    hide Extent, Hole, Mapped, Offset;
    if pos < f.size {
      ReadShape(d, f, pos, left);
      var end := End(f, pos, left);
      var g := FirstGap(d, f, pos, end);
      if a >= g { SameZone(d, f, g, a - g); }
    } else {
      NothingBehind(d, f, pos, left);
    }
  }

  lemma NothingBehind(d: Disk, f: File, pos: nat, left: nat)
    requires FileOk(f) && pos >= f.size
    ensures Extent(d, f, pos, left) == 0
  {
  }

  lemma ByteExtends(d: Disk, full: Disk, f: File, a: nat)
    requires FileOk(f) && Extends(full, d) && a < f.size && BlockReachable(d, f, BlockOf(a))
    requires Hole(d, f, a) || Mapped(d, f, a)
    ensures FileByte(full, f, a) == FileByte(d, f, a)
  {
    var b := BlockOf(a);
    FollowExtends(d, full, f.zones[Slot(b)], Path(b));
    var z := Zone(d, f, b);
    if z != 0 { ExtendsData(d, full, z); }
    hide Follow, Data;
  }

  // A device on which the lost byte is not zero: inside the missing block, `z` leads to `t` or `u`, `t`
  // leads to `u`, and `u` is full of ones.

  function ByteOf(v: nat): (b: Byte)
    requires v < 256
    ensures b as nat == v
  {
    if v == 0 then 0
    else
      var c := ByteOf(v - 1);
      NextByte(c);
      c + 1
  }

  lemma NextByte(b: Byte)
    ensures b as nat < 255 ==> (b + 1) as nat == b as nat + 1
  {
    assert b as nat < 255 ==> b != 255;
  }

  /** Byte `k` of an indirect block all of whose entries are `z`. */
  function EntryByte(z: nat, k: nat): Byte
    requires z < MAX_ZONES
  {
    ByteOf(if k % 2 == 0 then z % 256 else z / 256)
  }

  function Quarter(z: nat, t: nat, u: nat, next: nat, k: nat): Byte
    requires t < MAX_ZONES && u < MAX_ZONES && next < MAX_ZONES
  {
    if k / 1024 == z % 4 then EntryByte(next, k % 1024)
    else if k / 1024 == t % 4 then EntryByte(u, k % 1024)
    else 1
  }

  function LostBlock(z: nat, t: nat, u: nat, next: nat): (s: seq<Byte>)
    requires t < MAX_ZONES && u < MAX_ZONES && next < MAX_ZONES
    ensures |s| == BLOCK_SIZE
  {
    seq<Byte>(BLOCK_SIZE, k requires 0 <= k < BLOCK_SIZE => Quarter(z, t, u, next, k))
  }

  ghost function Completed(d: Disk, lost: nat, s: seq<Byte>): Disk {
    (map b: nat | b < MAX_ZONES / 4 :: BlockFor(b, lost, s)) + d
  }

  function BlockFor(b: nat, lost: nat, s: seq<Byte>): seq<Byte> {
    if b == lost then s else Zeros(BLOCK_SIZE)
  }

  lemma CompletedIs(d: Disk, lost: nat, s: seq<Byte>)
    requires DiskOk(d) && |s| == BLOCK_SIZE && lost < MAX_ZONES / 4 && lost !in d
    ensures var full := Completed(d, lost, s); Total(full) && Extends(full, d) && lost in full && full[lost] == s
  {
  }

  lemma EntryIs(data: seq<Byte>, z: nat, i: nat)
    requires |data| == MINIX_BLOCK_SIZE && z < MAX_ZONES && i < 512
    requires forall k :: 0 <= k < MINIX_BLOCK_SIZE ==> data[k] == EntryByte(z, k)
    ensures Pointer(data, i) == z
  {
    assert data[2 * i] == EntryByte(z, 2 * i) && data[2 * i + 1] == EntryByte(z, 2 * i + 1);
  }

  lemma LostData(full: Disk, z: nat, t: nat, u: nat, next: nat, w: nat)
    requires t < MAX_ZONES && u < MAX_ZONES && next < MAX_ZONES && z / 4 == t / 4 == u / 4 == w / 4
    requires z / 4 in full && full[z / 4] == LostBlock(z, t, u, next)
    ensures Readable(full, w)
    ensures forall k :: 0 <= k < MINIX_BLOCK_SIZE ==>
      Data(full, w)[k] == if w % 4 == z % 4 then EntryByte(next, k) else if w % 4 == t % 4 then EntryByte(u, k) else 1
  {
    hide EntryByte;
    forall k | 0 <= k < MINIX_BLOCK_SIZE
      ensures Data(full, w)[k] == if w % 4 == z % 4 then EntryByte(next, k) else if w % 4 == t % 4 then EntryByte(u, k) else 1
    {
      assert Data(full, w)[k] == full[z / 4][w % 4 * MINIX_BLOCK_SIZE + k];
      ModUnique(w % 4 * MINIX_BLOCK_SIZE + k, 1024, w % 4, k);
    }
  }

  /** Two other zones of the block of `z`, neither of them 0. */
  lemma Neighbours(z: nat) returns (t: nat, u: nat)
    requires z < MAX_ZONES
    ensures t != 0 && u != 0 && t < MAX_ZONES && u < MAX_ZONES && z / 4 == t / 4 == u / 4
    ensures z % 4 != t % 4 && z % 4 != u % 4 && t % 4 != u % 4
  {
    var b := z / 4 * 4;
    if z % 4 == 3 {
      t, u := b + 1, b + 2;
    } else if z % 4 == 2 {
      t, u := b + 1, b + 3;
    } else {
      t, u := b + 2, b + 3;
    }
  }

  /** At the first indirect block that is missing, the device may lead on to a block full of ones. */
  lemma LostPath(d: Disk, z: nat, ix: seq<nat>) returns (full: Disk, u: nat)
    requires DiskOk(d) && Indices(ix) && 0 < |ix| <= 2 && 0 < z < MAX_ZONES && !Readable(d, z)
    ensures Total(full) && Extends(full, d) && u != 0 && Follow(full, z, ix) == u && Readable(full, u)
    ensures forall k :: 0 <= k < MINIX_BLOCK_SIZE ==> Data(full, u)[k] == 1
  {
    var t;
    t, u := Neighbours(z);
    var next := if |ix| == 1 then u else t;
    full := Completed(d, z / 4, LostBlock(z, t, u, next));
    CompletedIs(d, z / 4, LostBlock(z, t, u, next));
    LostData(full, z, t, u, next, z);
    LostData(full, z, t, u, next, t);
    LostData(full, z, t, u, next, u);
    hide LostBlock, Completed, EntryByte, Data, Pointer, Total, Extends, Readable;
    EntryIs(Data(full, z), next, ix[0]);
    if |ix| == 2 { EntryIs(Data(full, t), u, ix[1]); }
    FollowBoth(full, z, ix, t, u);
  }

  lemma FollowBoth(d: Disk, z: nat, ix: seq<nat>, t: nat, u: nat)
    requires Indices(ix) && 0 < |ix| <= 2 && z != 0 && Readable(d, z)
    requires |ix| == 1 ==> Pointer(Data(d, z), ix[0]) == u
    requires |ix| == 2 ==> t != 0 && Readable(d, t) && Pointer(Data(d, z), ix[0]) == t && Pointer(Data(d, t), ix[1]) == u
    ensures Follow(d, z, ix) == u
  {
    hide Data, Pointer, Readable;
    if |ix| == 2 {
      assert ix[1..][0] == ix[1] && ix[1..][1..] == [];
      assert Follow(d, t, ix[1..]) == Follow(d, u, []);
    } else {
      assert ix[1..] == [];
    }
  }

  lemma PointerFits(data: seq<Byte>, i: nat)
    requires |data| == MINIX_BLOCK_SIZE && i < 512
    ensures Pointer(data, i) < MAX_ZONES
  {
  }

  /** A path with a missing block somewhere. */
  lemma {:induction false} LostSomewhere(d: Disk, z: nat, ix: seq<nat>) returns (full: Disk, u: nat)
    requires DiskOk(d) && Indices(ix) && |ix| <= 2 && z < MAX_ZONES && !PathReadable(d, z, ix)
    ensures Total(full) && Extends(full, d) && u != 0 && Follow(full, z, ix) == u && Readable(full, u)
    ensures forall k :: 0 <= k < MINIX_BLOCK_SIZE ==> Data(full, u)[k] == 1
    decreases |ix|
  {
    if Readable(d, z) {
      PointerFits(Data(d, z), ix[0]);
      full, u := LostSomewhere(d, Pointer(Data(d, z), ix[0]), ix[1..]);
      ExtendsData(d, full, z);
      hide Data, Pointer, Readable, Total, Extends;
    } else {
      full, u := LostPath(d, z, ix);
    }
  }

  lemma ByteLost(d: Disk, f: File, a: nat) returns (full: Disk)
    requires DiskOk(d) && FileOk(f) && a < f.size && !BlockReachable(d, f, BlockOf(a))
    ensures Total(full) && Extends(full, d) && FileByte(full, f, a) != FileByte(d, f, a)
  {
    var b := BlockOf(a);
    FollowLost(d, f.zones[Slot(b)], Path(b));
    var u;
    full, u := LostSomewhere(d, f.zones[Slot(b)], Path(b));
    hide Follow, PathReadable, Data, Total, Extends;
  }

  /** The bytes a read returns are the file's, whatever the missing blocks hold. */
  ghost predicate Certain(d: Disk, f: File, pos: nat, n: nat)
    requires FileOk(f) && (n > 0 ==> pos + n <= f.size)
  {
    forall full: Disk | Total(full) && Extends(full, d) :: Bytes(d, f, pos, n) == Bytes(full, f, pos, n)
  }

  /**
   What a read returns is what the whole device has there exactly if no indirect block that leads to a
   returned byte is missing; otherwise a zero may stand for anything.
   */
  lemma ContentIff(d: Disk, f: File, pos: nat, left: nat)
    requires DiskOk(d) && FileOk(f)
    ensures var n := Extent(d, f, pos, left);
            Certain(d, f, pos, n) <==> forall a: nat :: pos <= a < pos + n ==> BlockReachable(d, f, BlockOf(a))
  {
    hide Extent, BlockReachable, Total, Extends, DiskOk, FileByte;
    var n := Extent(d, f, pos, left);
    if forall a: nat :: pos <= a < pos + n ==> BlockReachable(d, f, BlockOf(a)) {
      forall full: Disk | Total(full) && Extends(full, d) ensures Bytes(d, f, pos, n) == Bytes(full, f, pos, n) {
        forall i | 0 <= i < n ensures Bytes(d, f, pos, n)[i] == Bytes(full, f, pos, n)[i] {
          ReturnedBytes(d, f, pos, left, pos + i);
          ByteExtends(d, full, f, pos + i);
        }
      }
    } else {
      var a: nat :| pos <= a < pos + n && !BlockReachable(d, f, BlockOf(a));
      var full := ByteLost(d, f, a);
      assert Bytes(d, f, pos, n)[a - pos] != Bytes(full, f, pos, n)[a - pos];
    }
  }

  /** A disk of which nothing can be read: the first bytes behind an indirect block read as zeros. */
  lemma LostIndirect()
    ensures var d, f := map[], File([0, 0, 0, 0, 0, 0, 0, 4, 0], 9216);
            && DiskOk(d) && FileOk(f) && Extent(d, f, 7168, 10) == 10 && Bytes(d, f, 7168, 10) == Zeros(10)
            && !Certain(d, f, 7168, 10)
  {
    var d: Disk, f := map[], File([0, 0, 0, 0, 0, 0, 0, 4, 0], 9216);
    assert Zone(d, f, 7) == 0 && BlockOf(7168) == 7;
    assert !BlockReachable(d, f, 7);
    ContentIff(d, f, 7168, 10);
    ChunkIsZero(d, f, 7168, 10);
  }

  // ---------------------------------------------------------------------------------------------
  // The layout on disk
  // ---------------------------------------------------------------------------------------------

  /** Which slot and which entries lead to a file block: first direct, then single, then double indirect, each in order. */
  lemma PathsInOrder(i: nat, j: nat)
    requires i < 512 && j < 512
    ensures i < 7 ==> Slot(i) == i && Path(i) == []
    ensures Slot(7 + i) == 7 && Path(7 + i) == [i]
    ensures Slot(519 + 512 * i + j) == 8 && Path(519 + 512 * i + j) == [i, j]
  {
    ModUnique(512 * i + j, 512, i, j);
  }

  function EncodedZone(z: nat): (s: seq<Byte>)
    ensures |s| == 2
  {
    [ByteOf(z % MAX_ZONES % 256), ByteOf(z % MAX_ZONES / 256)]
  }

  /** Zone numbers as an indirect block holds them: 16 bits each, the low byte first. */
  function Encoded(zones: seq<nat>): (s: seq<Byte>)
    ensures |s| == 2 * |zones|
  {
    if zones == [] then [] else Encoded(zones[..|zones| - 1]) + EncodedZone(zones[|zones| - 1])
  }

  lemma {:induction false} EncodedBytes(zones: seq<nat>, i: nat)
    requires i < |zones|
    ensures [Encoded(zones)[2 * i], Encoded(zones)[2 * i + 1]] == EncodedZone(zones[i])
  {
    hide EncodedZone;
    var rest := zones[..|zones| - 1];
    assert Encoded(zones) == Encoded(rest) + EncodedZone(zones[|zones| - 1]);
    if i < |rest| {
      EncodedBytes(rest, i);
      assert rest[i] == zones[i];
    }
    hide Encoded;
  }

  lemma ZoneFromBytes(z: nat)
    requires z < MAX_ZONES
    ensures EncodedZone(z)[0] as nat + 256 * EncodedZone(z)[1] as nat == z
  {
    hide ByteOf;
  }

  lemma EncodedAt(zones: seq<nat>, data: seq<Byte>, i: nat)
    requires |data| == MINIX_BLOCK_SIZE && i < |zones| <= 512 && zones[i] < MAX_ZONES && Encoded(zones) <= data
    ensures Pointer(data, i) == zones[i]
  {
    hide ByteOf, Encoded, EncodedZone;
    EncodedBytes(zones, i);
    var pair := [Encoded(zones)[2 * i], Encoded(zones)[2 * i + 1]];
    assert data[2 * i] == pair[0] && data[2 * i + 1] == pair[1];
    ZoneFromBytes(zones[i]);
  }

  /** The zones of the file from `from` on, as many as there are and as fit. */
  function Part(zones: seq<nat>, from: nat, n: nat): seq<nat> {
    if from >= |zones| then [] else zones[from..Min(from + n, |zones|)]
  }

  /** The indirect block `z` lists `zones`. */
  ghost predicate Lists(d: Disk, z: nat, zones: seq<nat>) {
    z != 0 && Readable(d, z) && Encoded(zones) <= Data(d, z)
  }

  /**
   A file as it is laid out when its blocks are the zones `zones` in order: seven in the inode, the next
   512 listed in the indirect block, and the rest in the blocks `inner` that the double indirect block lists.
   */
  ghost predicate LaidOut(d: Disk, f: File, zones: seq<nat>, inner: seq<nat>) {
    && FileOk(f) && |zones| <= MAX_BLOCKS && (forall i :: 0 <= i < |zones| ==> zones[i] < MAX_ZONES)
    && (forall i :: 0 <= i < 7 && i < |zones| ==> f.zones[i] == zones[i])
    && (|zones| > 7 ==> Lists(d, f.zones[7], Part(zones, 7, 512)))
    && (|zones| > 519 ==> Lists(d, f.zones[8], inner))
    && |inner| <= 512 && (forall i :: 0 <= i < |inner| ==> inner[i] < MAX_ZONES) && |zones| <= 519 + 512 * |inner|
    && forall i :: 0 <= i < |inner| ==> Lists(d, inner[i], Part(zones, 519 + 512 * i, 512))
  }

  lemma ListedAt(d: Disk, z: nat, zones: seq<nat>, i: nat)
    requires Lists(d, z, zones) && i < |zones| <= 512 && zones[i] < MAX_ZONES
    ensures Follow(d, z, [i]) == zones[i]
  {
    EncodedAt(zones, Data(d, z), i);
    assert [i][1..] == [];
    hide Data, Pointer, Encoded;
  }

  /** The block map finds the zones in their order. */
  lemma ZoneOfLayout(d: Disk, f: File, zones: seq<nat>, inner: seq<nat>, b: nat)
    requires LaidOut(d, f, zones, inner) && b < |zones|
    ensures Zone(d, f, b) == zones[b]
  {
    hide Lists, Follow, Readable;
    if b < 7 {
      PathsInOrder(b, 0);
      NoPath(d, f.zones[b]);
    } else if b < 519 {
      PathsInOrder(b - 7, 0);
      ListedAt(d, f.zones[7], Part(zones, 7, 512), b - 7);
    } else {
      var i, j := (b - 519) / 512, (b - 519) % 512;
      PathsInOrder(i, j);
      assert i < |inner|;
      ListedAt(d, f.zones[8], inner, i);
      ListedAt(d, inner[i], Part(zones, 519 + 512 * i, 512), j);
      FollowTwice(d, f.zones[8], i, j);
    }
  }

  lemma NoPath(d: Disk, z: nat)
    ensures Follow(d, z, []) == z
  {
  }

  /** The data of the given zones, one after the other. */
  function Concatenated(d: Disk, zones: seq<nat>): (s: seq<Byte>)
    requires forall i :: 0 <= i < |zones| ==> Readable(d, zones[i])
    ensures |s| == MINIX_BLOCK_SIZE * |zones|
  {
    if zones == [] then [] else Concatenated(d, zones[..|zones| - 1]) + Data(d, zones[|zones| - 1])
  }

  lemma {:induction false} ConcatenatedAt(d: Disk, zones: seq<nat>, b: nat, k: nat)
    requires (forall i :: 0 <= i < |zones| ==> Readable(d, zones[i])) && b < |zones| && k < MINIX_BLOCK_SIZE
    ensures Concatenated(d, zones)[MINIX_BLOCK_SIZE * b + k] == Data(d, zones[b])[k]
  {
    hide Readable, Data;
    if b < |zones| - 1 { ConcatenatedAt(d, zones[..|zones| - 1], b, k); }
  }

  /** The content of a file without holes is the data of its blocks in order, up to its size. */
  lemma ContentOfLayout(d: Disk, f: File, zones: seq<nat>, inner: seq<nat>)
    requires LaidOut(d, f, zones, inner) && f.size <= MINIX_BLOCK_SIZE * |zones|
    requires forall i :: 0 <= i < |zones| ==> zones[i] != 0 && Readable(d, zones[i])
    ensures HoleFree(d, f)
    ensures Content(d, f, 0, f.size) == Concatenated(d, zones)[..f.size]
  {
    hide LaidOut, Readable, Data, Zone, FileOk;
    LayoutOk(d, f, zones, inner);
    forall a | 0 <= a < f.size ensures Mapped(d, f, a) && FileByte(d, f, a) == Concatenated(d, zones)[a] {
      ZoneOfLayout(d, f, zones, inner, BlockOf(a));
      ConcatenatedAt(d, zones, BlockOf(a), Offset(a));
    }
    forall a | 0 <= a < f.size ensures Content(d, f, 0, f.size)[a] == Concatenated(d, zones)[a] {
      ContentAt(d, f, 0, f.size, a);
    }
  }

  lemma LayoutOk(d: Disk, f: File, zones: seq<nat>, inner: seq<nat>)
    requires LaidOut(d, f, zones, inner)
    ensures FileOk(f)
  {
  }
}
