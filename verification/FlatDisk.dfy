/**
 The specification level of the virtual disk: an image that is a flat run of bytes, read and
 written one 512-byte sector at a time, and the real-mode buffer a caller of int 13h passes.
 Nothing here knows about the 4 KiB window.
 */
module FlatDisk {
  import opened Words

  /** A sector number as the two 16-bit ports D000 (lo) and D002 (hi) hold it. */
  datatype Lba = Lba(lo: word, hi: word)

  /** Where sector `i` of a transfer that starts at `l` lives: the low word wraps and the high
      word stays, because the driver's carry into the high word is lost. */
  function SectorAt(l: Lba, i: nat): nat {
    l.hi * 0x1_0000 + Wrap(l.lo + i)
  }

  ghost predicate Fits(size: nat, l: Lba, n: nat) {
    forall i :: 0 <= i < n ==> 512 * SectorAt(l, i) + 512 <= size
  }

  function SectorOf(d: seq<byte>, s: nat): (r: seq<byte>)
    requires 512 * s + 512 <= |d|
  {
    d[512 * s..512 * s + 512]
  }

  /** The bytes a transfer of `n` sectors from `l` must deliver. */
  function FlatRead(d: seq<byte>, l: Lba, n: nat): (r: seq<byte>)
    requires Fits(|d|, l, n)
    ensures |r| == 512 * n
  {
    seq(512 * n, b requires 0 <= b < 512 * n => d[512 * SectorAt(l, b / 512) + b % 512])
  }

  /** The image after the first `n` sectors of `data` went to the `n` sectors from `l`. */
  function FlatWrite(d: seq<byte>, l: Lba, data: seq<byte>, n: nat): (r: seq<byte>)
    requires 512 * n <= |data|
    ensures |r| == |d|
  {
    seq(|d|, p requires 0 <= p < |d| =>
      if Covers(l, n, p / 512) then data[512 * IndexOf(l, p / 512) + p % 512] else d[p])
  }

  // ---------------------------------------------------------------- addresses

  /** The inverse of SectorAt in `i`. */
  function IndexOf(l: Lba, s: nat): (i: nat) {
    if l.lo <= s % 0x1_0000 then s % 0x1_0000 - l.lo else s % 0x1_0000 + 0x1_0000 - l.lo
  }

  predicate Covers(l: Lba, n: nat, s: nat) {
    s / 0x1_0000 == l.hi && IndexOf(l, s) < n
  }

  /** A transfer of up to 65536 sectors addresses sector `s` exactly when Covers says so, and at
      one place only. */
  lemma CoversExactly(l: Lba, n: nat, s: nat)
    requires n <= 0x1_0000
    ensures Covers(l, n, s) ==> SectorAt(l, IndexOf(l, s)) == s
    ensures forall i :: 0 <= i < n && SectorAt(l, i) == s ==> Covers(l, n, s) && i == IndexOf(l, s)
  {
    if s % 0x1_0000 < l.lo {
      WrapOnce(l.lo + IndexOf(l, s));
    }
    forall i | 0 <= i < n && SectorAt(l, i) == s
      ensures Covers(l, n, s) && i == IndexOf(l, s)
    {
      if l.lo + i >= 0x1_0000 {
        WrapOnce(l.lo + i);
      }
    }
  }

  /** The addresses are the linear ones exactly when the transfer stays below the next multiple
      of 65536 sectors. */
  lemma LinearExactlyWithinRegion(l: Lba, n: nat)
    requires 1 <= n <= 0x1_0000
    ensures (forall i :: 0 <= i < n ==> SectorAt(l, i) == l.hi * 0x1_0000 + l.lo + i)
            <==> l.lo + n <= 0x1_0000
  {
    if l.lo + n > 0x1_0000 {
      var i := 0x1_0000 - l.lo;
      assert i < n && SectorAt(l, i) != l.hi * 0x1_0000 + l.lo + i;
    }
  }

  /** In general the high word stays and the low word counts modulo 65536. */
  lemma SectorAtExactly(l: Lba, i: nat)
    ensures SectorAt(l, i) == l.hi * 0x1_0000 + (l.lo + i) % 0x1_0000
  {
    WrapIsMod(l.lo + i);
  }

  /** The lost carry, seen by a caller: the first sector of a read beyond the region is the region's
      own first sector, not the next region's. */
  lemma CrossingReadsRegionStart(d: seq<byte>, l: Lba, n: nat)
    requires Fits(|d|, l, n) && 0x1_0000 < l.lo + n && n <= 0x1_0000
    ensures var i := 0x1_0000 - l.lo;
      SectorAt(l, i) == l.hi * 0x1_0000
      && FlatRead(d, l, n)[512 * i..512 * i + 512] == SectorOf(d, l.hi * 0x1_0000)
  {
    WrapOnce(0x1_0000);
    FlatReadSector(d, l, n, 0x1_0000 - l.lo);
  }

  /** And that the sectors are in the image: within a region, that the last of them is. */
  lemma FitsExactly(size: nat, l: Lba, n: nat)
    requires n > 0 && l.lo + n <= 0x1_0000
    ensures Fits(size, l, n) <==> 512 * (l.hi * 0x1_0000 + l.lo + n) <= size
  {
    assert SectorAt(l, n - 1) == l.hi * 0x1_0000 + l.lo + n - 1;
  }

  // ---------------------------------------------------------------- reads and writes

  /** The flat read, sector by sector. */
  lemma FlatReadSector(d: seq<byte>, l: Lba, n: nat, i: nat)
    requires Fits(|d|, l, n) && i < n
    ensures FlatRead(d, l, n)[512 * i..512 * i + 512] == SectorOf(d, SectorAt(l, i))
  {
    var r := FlatRead(d, l, n);
    forall p | 512 * i <= p < 512 * i + 512
      ensures r[p] == d[512 * SectorAt(l, i) + p - 512 * i]
    {
      assert p / 512 == i;
    }
  }

  /** A write changes exactly the sectors it addresses, each to its own piece of the data. */
  lemma FlatWriteSector(d: seq<byte>, l: Lba, data: seq<byte>, n: nat, s: nat)
    requires 512 * n <= |data| && 512 * s + 512 <= |d|
    ensures SectorOf(FlatWrite(d, l, data, n), s)
         == if Covers(l, n, s) then data[512 * IndexOf(l, s)..512 * IndexOf(l, s) + 512] else SectorOf(d, s)
  {
    var after := FlatWrite(d, l, data, n);
    forall p | 512 * s <= p < 512 * s + 512
      ensures after[p] == if Covers(l, n, s) then data[512 * IndexOf(l, s) + p - 512 * s] else d[p]
    {
      assert p / 512 == s;
    }
  }

  /** What was written is what is read back. */
  lemma ReadAfterWrite(d: seq<byte>, l: Lba, data: seq<byte>, n: nat)
    requires Fits(|d|, l, n) && 512 * n == |data| && n <= 0x1_0000
    ensures FlatRead(FlatWrite(d, l, data, n), l, n) == data
  {
    var r := FlatRead(FlatWrite(d, l, data, n), l, n);
    forall j | 0 <= j < |data| ensures r[j] == data[j] {
      var i, b := j / 512, j % 512;
      var s := SectorAt(l, i);
      CoversExactly(l, n, s);
      assert (512 * s + b) / 512 == s && (512 * s + b) % 512 == b;
    }
  }

  // ---------------------------------------------------------------- runs of adjoining sectors

  ghost predicate Adjoining(l: Lba, i: nat, k: nat, a: nat) {
    forall j :: i <= j < i + k ==> SectorAt(l, j) == a + j - i
  }

  /** Reading `k` adjoining sectors extends a flat read by one slice of the image. */
  lemma FlatReadExtend(d: seq<byte>, l: Lba, i: nat, k: nat, a: nat)
    requires Fits(|d|, l, i + k) && Adjoining(l, i, k, a) && 512 * (a + k) <= |d|
    ensures FlatRead(d, l, i + k) == FlatRead(d, l, i) + d[512 * a..512 * (a + k)]
  {
    var r := FlatRead(d, l, i + k);
    forall b | 512 * i <= b < 512 * (i + k)
      ensures r[b] == d[512 * a + b - 512 * i]
    {
      AdjoiningByte(l, i, k, a, b);
    }
    assert r[..512 * i] == FlatRead(d, l, i);
    assert r[512 * i..] == d[512 * a..512 * (a + k)];
  }

  /** Byte `b` of a transfer lies as far into a run of adjoining sectors as into the image. */
  lemma AdjoiningByte(l: Lba, i: nat, k: nat, a: nat, b: nat)
    requires Adjoining(l, i, k, a) && 512 * i <= b < 512 * (i + k)
    ensures 512 * SectorAt(l, b / 512) + b % 512 == 512 * a + b - 512 * i
  {
    assert SectorAt(l, b / 512) == a + b / 512 - i;
  }

  /** Writing `k` adjoining sectors is one splice of the image. */
  lemma FlatWriteExtend(d: seq<byte>, l: Lba, data: seq<byte>, i: nat, k: nat, a: nat)
    requires Fits(|d|, l, i + k) && Adjoining(l, i, k, a) && i + k <= 0x1_0000
    requires 512 * (i + k) <= |data| && (k > 0 ==> 512 * (a + k) <= |d|)
    ensures FlatWrite(d, l, data, i + k)
         == Splice(FlatWrite(d, l, data, i), 512 * a, data[512 * i..512 * (i + k)])
  {
    var r := FlatWrite(d, l, data, i + k);
    var piece := data[512 * i..512 * (i + k)];
    forall p | 0 <= p < |d|
      ensures r[p] == Splice(FlatWrite(d, l, data, i), 512 * a, piece)[p]
    {
      CoversExactly(l, i, p / 512);
      CoversExactly(l, i + k, p / 512);
      if 512 * a <= p < 512 * (a + k) {
        assert SectorAt(l, i + p / 512 - a) == p / 512;
      } else if Covers(l, i + k, p / 512) {
        assert SectorAt(l, IndexOf(l, p / 512)) == p / 512;
        assert IndexOf(l, p / 512) < i;
      }
    }
  }

  // ---------------------------------------------------------------- the caller's buffer

  /** Physical address of byte `j` of a buffer at segment:offset; offsets wrap in their segment. */
  function Cell(segment: word, offset: word, j: nat): nat {
    segment * 16 + Wrap(offset + j)
  }

  ghost predicate InRam(size: nat, segment: word, offset: word, len: nat) {
    forall j :: 0 <= j < len ==> Cell(segment, offset, j) < size
  }

  /** `rep movsw` may touch the buffer: it lies in RAM, and no word straddles the segment end. */
  predicate BufferOk(size: nat, segment: word, offset: word, len: nat) {
    if offset + len <= 0x1_0000 then segment * 16 + offset + len <= size
    else offset % 2 == 0 && segment * 16 + 0x1_0000 <= size
  }

  lemma BufferInRam(size: nat, segment: word, offset: word, len: nat)
    requires BufferOk(size, segment, offset, len)
    ensures InRam(size, segment, offset, len)
  {
  }

  /** What a caller must see to is no more than that: every byte of the buffer is in RAM, and the
      buffer is at an even offset if it wraps. */
  lemma BufferOkExactly(size: nat, segment: word, offset: word, len: nat)
    requires len > 0
    ensures BufferOk(size, segment, offset, len)
      <==> (forall j :: 0 <= j < len ==> Cell(segment, offset, j) < size)
           && (offset % 2 == 0 || offset + len <= 0x1_0000)
  {
    if offset + len <= 0x1_0000 {
      assert Cell(segment, offset, len - 1) == segment * 16 + offset + (len - 1);
    } else {
      assert Cell(segment, offset, 0xFFFF - offset) == segment * 16 + 0xFFFF;
    }
  }

  /** Which byte of a store of `n` bytes ends up in the cell `i` bytes after its start: a store of
      more than 64 KiB wraps over itself and the last byte stays. */
  function LastAt(i: nat, n: nat): (j: nat)
    requires i < n
    ensures j < n
    decreases n - i
  {
    if i + 0x1_0000 < n then LastAt(i + 0x1_0000, n) else i
  }

  /** How far behind segment:offset the cell `p` of the segment lies. */
  function Behind(segment: word, offset: word, p: nat): (i: nat)
    requires segment * 16 <= p < segment * 16 + 0x1_0000
  {
    if segment * 16 + offset <= p then p - segment * 16 - offset else p - segment * 16 - offset + 0x1_0000
  }

  lemma BehindExactly(segment: word, offset: word, p: nat)
    requires segment * 16 <= p < segment * 16 + 0x1_0000
    ensures Behind(segment, offset, p) < 0x1_0000 && Cell(segment, offset, Behind(segment, offset, p)) == p
  {
    if p < segment * 16 + offset {
      WrapOnce(p - segment * 16 + 0x1_0000);
    }
  }

  /** RAM after the bytes of `x` were stored one after the other from segment:offset. */
  function Put(ram: seq<byte>, segment: word, offset: word, x: seq<byte>): (r: seq<byte>)
    ensures |r| == |ram|
  {
    seq(|ram|, p requires 0 <= p < |ram| =>
      if segment * 16 <= p < segment * 16 + 0x1_0000 && Behind(segment, offset, p) < |x|
      then x[LastAt(Behind(segment, offset, p), |x|)] else ram[p])
  }

  function Get(ram: seq<byte>, segment: word, offset: word, len: nat): (r: seq<byte>)
    requires InRam(|ram|, segment, offset, len)
    ensures |r| == len
  {
    seq(len, j requires 0 <= j < len => ram[Cell(segment, offset, j)])
  }

  /** A buffer seen from `k` bytes further on. */
  lemma CellShift(size: nat, segment: word, offset: word, k: nat, o2: word, len: nat)
    requires InRam(size, segment, offset, k + len) && o2 == Wrap(offset + k)
    ensures InRam(size, segment, o2, len)
    ensures forall j :: 0 <= j < len ==> Cell(segment, o2, j) == Cell(segment, offset, k + j)
  {
    forall j | 0 <= j < len
      ensures Cell(segment, o2, j) == Cell(segment, offset, k + j) < size
    {
      WrapAdd(offset + k, j);
    }
  }

  /** Two bytes of a buffer share a cell exactly when they are a multiple of 64 KiB apart. */
  lemma {:induction false} LastAtGrows(segment: word, offset: word, i: nat, n: nat)
    requires i < n
    ensures Cell(segment, offset, i) == Cell(segment, offset, n) ==> LastAt(i, n + 1) == n
    ensures Cell(segment, offset, i) != Cell(segment, offset, n) ==> LastAt(i, n + 1) == LastAt(i, n)
    decreases n - i
  {
    assert Wrap(offset + (i + 0x1_0000)) == Wrap(offset + i);
    if i + 0x1_0000 < n {
      LastAtGrows(segment, offset, i + 0x1_0000, n);
    } else if i + 0x1_0000 > n {
      CellsDiffer(segment, offset, i, n);
    }
  }

  lemma CellsDiffer(segment: word, offset: word, i: nat, j: nat)
    requires i < j < i + 0x1_0000
    ensures Cell(segment, offset, i) != Cell(segment, offset, j)
  {
    WrapAdd(offset + i, j - i);
    var w := Wrap(offset + i);
    assert Wrap(w + (j - i)) == if w + (j - i) < 0x1_0000 then w + (j - i) else w + (j - i) - 0x1_0000;
  }

  /** Storing one more byte. */
  lemma PutByte(ram: seq<byte>, segment: word, offset: word, x: seq<byte>, b: byte)
    requires Cell(segment, offset, |x|) < |ram|
    ensures Put(ram, segment, offset, x + [b]) == Put(ram, segment, offset, x)[Cell(segment, offset, |x|) := b]
  {
    var cell, n := Cell(segment, offset, |x|), |x|;
    forall p | 0 <= p < |ram|
      ensures Put(ram, segment, offset, x + [b])[p] == if p == cell then b else Put(ram, segment, offset, x)[p]
    {
      if segment * 16 <= p < segment * 16 + 0x1_0000 {
        var i := Behind(segment, offset, p);
        BehindExactly(segment, offset, p);
        if i < n {
          LastAtGrows(segment, offset, i, n);
        } else if n < i {
          CellsDiffer(segment, offset, n, i);
        }
      }
    }
  }

  /** Two stores in a row are one, when the second starts where the first ended (modulo 64 KiB). */
  lemma {:induction false} PutAppend(ram: seq<byte>, segment: word, offset: word, x: seq<byte>, o2: word, y: seq<byte>)
    requires InRam(|ram|, segment, offset, |x| + |y|) && o2 == Wrap(offset + |x|)
    ensures Put(ram, segment, offset, x + y) == Put(Put(ram, segment, offset, x), segment, o2, y)
  {
    if |y| == 0 {
      assert x + y == x;
    } else {
      var last := |y| - 1;
      var init := y[..last];
      PutAppend(ram, segment, offset, x, o2, init);
      WrapAdd(offset + |x|, last);
      PutByte(ram, segment, offset, x + init, y[last]);
      PutByte(Put(ram, segment, offset, x), segment, o2, init, y[last]);
      assert init + [y[last]] == y && x + init + [y[last]] == x + y;
    }
  }

  /** Splicing in word `k` of `x`. */
  lemma SpliceWord(d: seq<byte>, at: nat, x: seq<byte>, k: nat, to: nat)
    requires at + |x| <= |d| && 2 * k + 2 <= |x| && to == at + 2 * k
    ensures Splice(d, at, x[..2 * (k + 1)]) == Splice(d, at, x[..2 * k])[to := x[2 * k]][to + 1 := x[2 * k + 1]]
  {
  }

  /** The two bytes of a word of the buffer are neighbours, unless the word straddles the segment end. */
  lemma WordCells(segment: word, offset: word, k: nat, r: word)
    requires r == Wrap(offset + 2 * k) && (offset % 2 == 0 || offset + 2 * k + 2 <= 0x1_0000)
    ensures Cell(segment, offset, 2 * k) == segment * 16 + r
    ensures Cell(segment, offset, 2 * k + 1) == segment * 16 + r + 1
    ensures Wrap(r + 2) == Wrap(offset + 2 * (k + 1))
  {
    if offset % 2 == 0 {
      EvenStaysEven(offset, k);
    }
    WrapRoom(offset + 2 * k, 1);
    WrapAdd(offset + 2 * k, 2);
  }

  /** Storing word `k` of `x` through an offset register `r` that has got that far. */
  lemma PutWord(ram: seq<byte>, segment: word, offset: word, x: seq<byte>, k: nat, r: word)
    requires InRam(|ram|, segment, offset, |x|) && 2 * k + 2 <= |x|
    requires r == Wrap(offset + 2 * k) && (offset % 2 == 0 || offset + 2 * k + 2 <= 0x1_0000)
    ensures segment * 16 + r + 1 < |ram| && Wrap(r + 2) == Wrap(offset + 2 * (k + 1))
    ensures Put(ram, segment, offset, x[..2 * (k + 1)])
         == Put(ram, segment, offset, x[..2 * k])[segment * 16 + r := x[2 * k]][segment * 16 + r + 1 := x[2 * k + 1]]
  {
    WordCells(segment, offset, k, r);
    var j := 2 * k;
    assert x[..j] + [x[j]] == x[..j + 1] && x[..j + 1] + [x[j + 1]] == x[..j + 2];
    PutByte(ram, segment, offset, x[..j], x[j]);
    PutByte(ram, segment, offset, x[..j + 1], x[j + 1]);
  }

  /** Loading word `k` of a buffer through an offset register `r` that has got that far. */
  lemma GetWord(ram: seq<byte>, segment: word, offset: word, len: nat, k: nat, r: word)
    requires InRam(|ram|, segment, offset, len) && 2 * k + 2 <= len
    requires r == Wrap(offset + 2 * k) && (offset % 2 == 0 || offset + 2 * k + 2 <= 0x1_0000)
    ensures segment * 16 + r + 1 < |ram| && Wrap(r + 2) == Wrap(offset + 2 * (k + 1))
    ensures ram[segment * 16 + r] == Get(ram, segment, offset, len)[2 * k]
    ensures ram[segment * 16 + r + 1] == Get(ram, segment, offset, len)[2 * k + 1]
  {
    WordCells(segment, offset, k, r);
  }

  /** A byte of RAM outside the buffer is kept. */
  lemma PutOutside(ram: seq<byte>, segment: word, offset: word, x: seq<byte>, p: nat)
    requires p < |ram| && forall j :: 0 <= j < |x| ==> Cell(segment, offset, j) != p
    ensures Put(ram, segment, offset, x)[p] == ram[p]
  {
    if segment * 16 <= p < segment * 16 + 0x1_0000 {
      BehindExactly(segment, offset, p);
    }
  }

  /** A byte that is not overwritten by a later wrap of the same buffer holds what was put there. */
  lemma PutInside(ram: seq<byte>, segment: word, offset: word, x: seq<byte>, j: nat)
    requires InRam(|ram|, segment, offset, |x|) && j < |x| <= j + 0x1_0000
    ensures Put(ram, segment, offset, x)[Cell(segment, offset, j)] == x[j]
  {
    var i := Behind(segment, offset, Cell(segment, offset, j));
    BehindExactly(segment, offset, Cell(segment, offset, j));
    SameCellSameLast(segment, offset, i, j, |x|);
  }

  lemma {:induction false} SameCellSameLast(segment: word, offset: word, i: nat, j: nat, n: nat)
    requires i < 0x1_0000 && j < n <= j + 0x1_0000
    requires Cell(segment, offset, i) == Cell(segment, offset, j)
    ensures i < n && LastAt(i, n) == j
    decreases j
  {
    if j < 0x1_0000 {
      if i < j {
        CellsDiffer(segment, offset, i, j);
      } else if j < i {
        CellsDiffer(segment, offset, j, i);
      }
    } else {
      var j' := j - 0x1_0000;
      assert Wrap(offset + j) == Wrap(offset + j');
      SameCellSameLast(segment, offset, i, j', j' + 1);
      LastAtSteps(i, j', n);
    }
  }

  lemma {:induction false} LastAtSteps(i: nat, j: nat, n: nat)
    requires i < j + 1 && LastAt(i, j + 1) == j && j + 0x1_0000 < n <= j + 0x2_0000
    ensures LastAt(i, n) == j + 0x1_0000
    decreases j - i
  {
    if i < j {
      LastAtSteps(i + 0x1_0000, j, n);
    }
  }

  /** A buffer holds the last 64 KiB that were put into it. */
  lemma GetPut(ram: seq<byte>, segment: word, offset: word, x: seq<byte>, from: nat)
    requires InRam(|ram|, segment, offset, |x|) && from <= |x| <= from + 0x1_0000
    ensures Get(Put(ram, segment, offset, x), segment, offset, |x|)[from..] == x[from..]
  {
    var g := Get(Put(ram, segment, offset, x), segment, offset, |x|);
    forall j | from <= j < |x| ensures g[j] == x[j] {
      PutInside(ram, segment, offset, x, j);
    }
  }

  // ---------------------------------------------------------------- one copy of a transfer

  /** Where sector `done` of a transfer lies in its 8-sector block. */
  function InBlock(l: Lba, done: nat): nat {
    Wrap(l.lo + done) % 8
  }

  /** Sectors done, done+1, ... of a transfer adjoin as long as they stay in one 8-sector block. */
  lemma BlockAdjoins(l: Lba, done: nat, k: nat)
    requires InBlock(l, done) + k <= 8
    ensures Adjoining(l, done, k, SectorAt(l, done))
  {
    forall j | done <= j < done + k
      ensures SectorAt(l, j) == SectorAt(l, done) + j - done
    {
      WrapRoom(l.lo + done, j - done);
    }
  }

  /** The 16-bit offset register of a buffer that is good for `n` sectors, after `done` of them. */
  ghost predicate BufferAt(size: nat, segment: word, offset: word, n: nat, done: nat, o2: word) {
    BufferOk(size, segment, offset, 512 * n) && done <= n && o2 == Wrap(offset + 512 * done)
  }

  /** The next `k` sectors of such a buffer can be touched through that register. */
  lemma BufferNext(size: nat, segment: word, offset: word, n: nat, done: nat, k: nat, o2: word)
    requires BufferAt(size, segment, offset, n, done, o2) && done + k <= n
    ensures InRam(size, segment, o2, 512 * k)
    ensures k > 0 ==> o2 % 2 == 0 || o2 + 512 * k <= 0x1_0000
    ensures BufferAt(size, segment, offset, n, done + k, Wrap(o2 + 512 * k))
  {
    BufferInRam(size, segment, offset, 512 * n);
    CellShift(size, segment, offset, 512 * done, o2, 512 * k);
    WrapAdd(offset + 512 * done, 512 * k);
    if k > 0 && offset + 512 * n > 0x1_0000 {
      EvenStaysEven(offset, 256 * done);
    }
  }

  lemma EvenStaysEven(offset: word, words: nat)
    requires offset % 2 == 0
    ensures Wrap(offset + 2 * words) % 2 == 0
  {
    WrapLowBits(offset + 2 * words);
  }

  /** The sectors of a block that a transfer has reached are inside the image. */
  lemma BlockInImage(size: nat, l: Lba, n: nat, done: nat, k: nat)
    requires Fits(size, l, n) && done + k <= n && InBlock(l, done) + k <= 8
    ensures k > 0 ==> 512 * (SectorAt(l, done) + k) <= size
  {
    BlockAdjoins(l, done, k);
    assert k > 0 ==> SectorAt(l, done + k - 1) == SectorAt(l, done) + k - 1;
  }

  /** Copying `k` adjoining sectors to where the buffer has got to extends the flat read by `k`. */
  lemma ReadStep(ram: seq<byte>, segment: word, offset: word, d: seq<byte>, l: Lba, n: nat, done: nat, k: nat, o2: word)
    requires Fits(|d|, l, n) && done + k <= n && InBlock(l, done) + k <= 8
    requires BufferAt(|ram|, segment, offset, n, done, o2)
    requires k > 0 ==> 512 * (SectorAt(l, done) + k) <= |d|
    ensures var x := if k == 0 then [] else d[512 * SectorAt(l, done)..512 * (SectorAt(l, done) + k)];
      Put(Put(ram, segment, offset, FlatRead(d, l, done)), segment, o2, x)
      == Put(ram, segment, offset, FlatRead(d, l, done + k))
  {
    var a := SectorAt(l, done);
    BlockAdjoins(l, done, k);
    BufferInRam(|ram|, segment, offset, 512 * n);
    if k > 0 {
      FlatReadExtend(d, l, done, k, a);
      PutAppend(ram, segment, offset, FlatRead(d, l, done), o2, d[512 * a..512 * (a + k)]);
    }
  }

  /** Splicing in the buffer's next `k` sectors extends the flat write by `k`. */
  lemma WriteStep(ram: seq<byte>, segment: word, offset: word, d: seq<byte>, l: Lba, n: nat, done: nat, k: nat,
                  o2: word)
    requires Fits(|d|, l, n) && done + k <= n <= 0x1_0000 && InBlock(l, done) + k <= 8
    requires BufferAt(|ram|, segment, offset, n, done, o2)
    requires k > 0 ==> 512 * (SectorAt(l, done) + k) <= |d|
    requires InRam(|ram|, segment, offset, 512 * n) && InRam(|ram|, segment, o2, 512 * k)
    ensures var data := Get(ram, segment, offset, 512 * n);
      FlatWrite(d, l, data, done + k)
      == Splice(FlatWrite(d, l, data, done), 512 * SectorAt(l, done), Get(ram, segment, o2, 512 * k))
  {
    var data := Get(ram, segment, offset, 512 * n);
    BlockAdjoins(l, done, k);
    CellShift(|ram|, segment, offset, 512 * done, o2, 512 * k);
    FlatWriteExtend(d, l, data, done, k, SectorAt(l, done));
    assert Get(ram, segment, o2, 512 * k) == data[512 * done..512 * (done + k)];
  }
}
