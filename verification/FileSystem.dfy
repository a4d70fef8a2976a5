/** The read-only file system: a raw image of 4 KB blocks, gathered into the bytes of a file. */
module FileSystem {
  import opened Memory

  const BLOCK: nat := 4096
  const MAX_BLOCKS: nat := 1023
  const TWO_31: nat := 0x8000_0000
  const TWO_32: nat := 0x1_0000_0000

  type Image = seq<Byte>

  // ----- layout: boot block, inodes, data blocks -----

  function WordAt(img: Image, at: nat): (w: nat)
    requires at + 4 <= |img|
    ensures w < TWO_32
  {
    ReadWord(img, at)
  }

  function DirCount(img: Image): nat
    requires |img| >= BLOCK
  {
    WordAt(img, 0)
  }

  function InodeCount(img: Image): nat
    requires |img| >= BLOCK
  {
    WordAt(img, 4)
  }

  function DataCount(img: Image): nat
    requires |img| >= BLOCK
  {
    WordAt(img, 8)
  }

  function InodeAt(n: nat): nat { BLOCK * (n + 1) }

  /** The blocks that the boot block announces are there, and addresses fit in 31 bits. */
  predicate Laid(img: Image) {
    && BLOCK <= |img| < TWO_31
    && |img| == BLOCK * (1 + InodeCount(img) + DataCount(img))
    && DirCount(img) <= 63
  }

  function DataAt(img: Image): nat
    requires Laid(img)
  {
    BLOCK * (InodeCount(img) + 1)
  }

  lemma {:induction false} InodeInside(img: Image, n: nat)
    requires Laid(img) && n < InodeCount(img)
    ensures InodeAt(n) + BLOCK <= DataAt(img) <= |img|
  {
  }

  function FileLength(img: Image, n: nat): nat
    requires Laid(img) && n < InodeCount(img)
  {
    InodeInside(img, n);
    WordAt(img, InodeAt(n))
  }

  function Blocks(length: nat): nat { (length + BLOCK - 1) / BLOCK }

  function BlockNumber(img: Image, n: nat, b: nat): nat
    requires Laid(img) && n < InodeCount(img) && b < MAX_BLOCKS
  {
    InodeInside(img, n);
    WordAt(img, InodeAt(n) + 4 + 4 * b)
  }

  /** An inode whose length fits its block table and whose blocks exist. */
  ghost predicate InodeOk(img: Image, n: nat)
    requires Laid(img) && n < InodeCount(img)
  {
    && FileLength(img, n) <= MAX_BLOCKS * BLOCK
    && forall b: nat | b < Blocks(FileLength(img, n)) :: BlockNumber(img, n, b) < DataCount(img)
  }

  ghost predicate WellFormed(img: Image) {
    Laid(img) && forall n: nat | n < InodeCount(img) :: InodeOk(img, n)
  }

  // ----- the flat file -----

  function BlockAt(img: Image, number: nat): nat
    requires Laid(img)
  {
    DataAt(img) + BLOCK * number
  }

  function BlockBytes(img: Image, n: nat, b: nat): (bytes: seq<Byte>)
    requires Laid(img) && n < InodeCount(img) && b < MAX_BLOCKS && BlockNumber(img, n, b) < DataCount(img)
    ensures |bytes| == BLOCK
  {
    var at := BlockAt(img, BlockNumber(img, n, b));
    img[at..at + BLOCK]
  }

  /** The first `k` data blocks of the inode, one after the other. */
  ghost function Gathered(img: Image, n: nat, k: nat): (bytes: seq<Byte>)
    requires Laid(img) && n < InodeCount(img) && InodeOk(img, n) && k <= Blocks(FileLength(img, n))
    ensures |bytes| == BLOCK * k
  {
    if k == 0 then [] else Gathered(img, n, k - 1) + BlockBytes(img, n, k - 1)
  }

  ghost function FileBytes(img: Image, n: nat): (bytes: seq<Byte>)
    requires Laid(img) && n < InodeCount(img) && InodeOk(img, n)
    ensures |bytes| == FileLength(img, n)
  {
    Gathered(img, n, Blocks(FileLength(img, n)))[..FileLength(img, n)]
  }

  lemma {:induction false} SliceOfSlice(s: seq<Byte>, a: nat, b: nat, lo: nat, hi: nat)
    requires a + hi <= b <= |s| && lo <= hi
    ensures s[a..b][lo..hi] == s[a + lo..a + hi]
  {
    assert |s[a..b][lo..hi]| == |s[a + lo..a + hi]|;
    forall k | 0 <= k < hi - lo ensures s[a..b][lo..hi][k] == s[a + lo..a + hi][k] {
      assert s[a..b][lo + k] == s[a + (lo + k)];
    }
  }

  lemma {:induction false} GatheredAt(img: Image, n: nat, k: nat, b: nat)
    requires Laid(img) && n < InodeCount(img) && InodeOk(img, n) && b < k <= Blocks(FileLength(img, n))
    ensures Gathered(img, n, k)[BLOCK * b..BLOCK * b + BLOCK] == BlockBytes(img, n, b)
    decreases k
  {
    hide BlockBytes, WordAt, DataAt;
    if b < k - 1 {
      GatheredAt(img, n, k - 1, b);
      assert Gathered(img, n, k)[..BLOCK * (k - 1)] == Gathered(img, n, k - 1);
      SliceOfSlice(Gathered(img, n, k), 0, BLOCK * (k - 1), BLOCK * b, BLOCK * b + BLOCK);
    }
  }

  /** A piece of a data block is the piece of the file at the same place. */
  lemma {:induction false} PieceOfFile(img: Image, n: nat, b: nat, lo: nat, hi: nat)
    requires Laid(img) && n < InodeCount(img) && InodeOk(img, n)
    requires lo <= hi <= BLOCK && BLOCK * b + hi <= FileLength(img, n) && BLOCK * b + lo < FileLength(img, n)
    ensures b < Blocks(FileLength(img, n)) && BlockNumber(img, n, b) < DataCount(img)
    ensures var at := BlockAt(img, BlockNumber(img, n, b));
            && at + BLOCK <= |img|
            && img[at + lo..at + hi] == FileBytes(img, n)[BLOCK * b + lo..BLOCK * b + hi]
  {
    hide WordAt;
    var length := FileLength(img, n);
    var k := Blocks(length);
    assert b < k;
    var at := BlockAt(img, BlockNumber(img, n, b));
    GatheredAt(img, n, k, b);
    SliceOfSlice(img, at, at + BLOCK, lo, hi);
    var all := Gathered(img, n, k);
    SliceOfSlice(all, BLOCK * b, BLOCK * b + BLOCK, lo, hi);
    SliceOfSlice(all, 0, length, BLOCK * b + lo, BLOCK * b + hi);
  }

  // ----- read_data -----

  /** `now` is `was` with `bytes` written at `at`. */
  ghost predicate Delivered(now: seq<Byte>, was: seq<Byte>, at: nat, bytes: seq<Byte>) {
    && |now| == |was| && at + |bytes| <= |was|
    && now[at..at + |bytes|] == bytes
    && forall j | 0 <= j < |now| && !(at <= j < at + |bytes|) :: now[j] == was[j]
  }

  lemma {:induction false} DeliveredTwice(now: seq<Byte>, mid: seq<Byte>, was: seq<Byte>, at: nat,
                                          a: seq<Byte>, b: seq<Byte>)
    requires Delivered(mid, was, at, a) && Delivered(now, mid, at + |a|, b)
    ensures Delivered(now, was, at, a + b)
  {
    var n := now[at..at + |a + b|];
    forall j | 0 <= j < |a + b| ensures n[j] == (a + b)[j] {
      if j < |a| {
        assert now[at + j] == mid[at + j] == mid[at..at + |a|][j];
      } else {
        assert now[at + j] == now[at + |a|..at + |a| + |b|][j - |a|];
      }
    }
    forall j | 0 <= j < |now| && !(at <= j < at + |a + b|) ensures now[j] == was[j] {
      assert now[j] == mid[j];
    }
  }

  /** The byte loop that each of the three phases runs. */
  method CopyOut(img: Image, addr: nat, buf: array<Byte>, at: nat, n: nat)
    requires addr + n <= |img| && at + n <= buf.Length
    modifies buf
    ensures Delivered(buf[..], old(buf[..]), at, img[addr..addr + n])
  {
    var count: nat := 0;
    while count < n
      invariant count <= n
      invariant Delivered(buf[..], old(buf[..]), at, img[addr..addr + count])
    {
      ghost var done := buf[at..at + count];
      buf[at + count] := img[addr + count];
      assert buf[at..at + count + 1] == done + [img[addr + count]];
      assert img[addr..addr + count + 1] == img[addr..addr + count] + [img[addr + count]];
      count := count + 1;
    }
  }

  /** What a read of `length` bytes at `offset` yields. */
  function Available(fileLength: nat, offset: nat, length: nat): nat {
    if offset >= fileLength then 0
    else if length < fileLength - offset then length
    else fileLength - offset
  }

  ghost function Slice(img: Image, n: nat, offset: nat, length: nat): (bytes: seq<Byte>)
    requires Laid(img) && n < InodeCount(img) && InodeOk(img, n)
    ensures |bytes| == Available(FileLength(img, n), offset, length)
  {
    var r := Available(FileLength(img, n), offset, length);
    if offset >= FileLength(img, n) then [] else FileBytes(img, n)[offset..offset + r]
  }

  /** Bytes `from` to `to` of the file have been put in the buffer so far. */
  ghost predicate Progress(file: seq<Byte>, now: seq<Byte>, was: seq<Byte>, at: nat, from: nat, to: nat) {
    from <= to <= |file| && Delivered(now, was, at, file[from..to])
  }

  /** One piece of one block: the address lands in the intended block, and the progress grows by the piece. */
  method CopyPiece(img: Image, ghost n: nat, ghost b: nat, curr: nat, lo: nat, hi: nat, buf: array<Byte>, dest: nat,
                   ghost was: seq<Byte>, ghost at: nat, ghost from: nat)
    requires Laid(img) && n < InodeCount(img) && InodeOk(img, n)
    requires lo <= hi <= BLOCK && from <= BLOCK * b + lo && BLOCK * b + hi <= FileLength(img, n)
    requires BLOCK * b + lo < FileLength(img, n) && b < MAX_BLOCKS && curr == BlockNumber(img, n, b)
    requires dest == at + (BLOCK * b + lo - from) && dest + (hi - lo) <= buf.Length
    requires Progress(FileBytes(img, n), buf[..], was, at, from, BLOCK * b + lo)
    modifies buf
    ensures Progress(FileBytes(img, n), buf[..], was, at, from, BLOCK * b + hi)
  {
    hide Delivered, FileBytes, WordAt, DataAt;
    PieceOfFile(img, n, b, lo, hi);
    ghost var file := FileBytes(img, n);
    ghost var mid := buf[..];
    var addr := BlockAt(img, curr) + lo;
    CopyOut(img, addr, buf, dest, hi - lo);
    DeliveredTwice(buf[..], mid, was, at, file[from..BLOCK * b + lo], file[BLOCK * b + lo..BLOCK * b + hi]);
    assert file[from..BLOCK * b + lo] + file[BLOCK * b + lo..BLOCK * b + hi] == file[from..BLOCK * b + hi];
  }

  /** Entry `i` of the block table, fetched by address. The entry fetched ahead of need may be one past the end
      of the table, and is inside the image even then. */
  method FetchEntry(img: Image, n: nat, i: nat) returns (w: nat)
    requires Laid(img) && n < InodeCount(img) && InodeOk(img, n) && FileLength(img, n) > 0 && i <= MAX_BLOCKS
    ensures InodeAt(n) + 4 + 4 * i + 4 <= |img| && w == WordAt(img, InodeAt(n) + 4 + 4 * i)
    ensures i < MAX_BLOCKS ==> w == BlockNumber(img, n, i)
  {
    InodeInside(img, n);
    assert 0 < Blocks(FileLength(img, n));
    assert BlockNumber(img, n, 0) < DataCount(img);
    w := WordAt(img, InodeAt(n) + 4 + 4 * i);
  }

  lemma {:induction false} ProgressNothing(img: Image, n: nat, was: seq<Byte>, at: nat, from: nat)
    requires Laid(img) && n < InodeCount(img) && InodeOk(img, n) && from <= FileLength(img, n) && at <= |was|
    ensures Progress(FileBytes(img, n), was, was, at, from, from)
  {
  }

  /** The loop over whole blocks: what is left to read starts at block `i`, whose number is `curr`. */
  method ReadWholeBlocks(img: Image, n: nat, first: nat, current: nat, buf: array<Byte>, dest: nat, length: nat,
                         ghost was: seq<Byte>, ghost at: nat, ghost from: nat)
    returns (result: nat, ghost i: nat, curr: nat)
    requires Laid(img) && n < InodeCount(img) && InodeOk(img, n) && FileLength(img, n) > 0
    requires from <= BLOCK * first && BLOCK * first + length <= FileLength(img, n)
    requires dest == at + (BLOCK * first - from) && dest + length <= buf.Length
    requires length > 0 ==> first < MAX_BLOCKS && current == BlockNumber(img, n, first)
    requires Progress(FileBytes(img, n), buf[..], was, at, from, BLOCK * first)
    modifies buf
    ensures result <= length < result + BLOCK && BLOCK * first + result == BLOCK * i
    ensures result < length ==> i < MAX_BLOCKS && curr == BlockNumber(img, n, i)
    ensures Progress(FileBytes(img, n), buf[..], was, at, from, BLOCK * i)
  {
    assert FileLength(img, n) <= MAX_BLOCKS * BLOCK;
    hide Delivered, WordAt, Laid, FileBytes, InodeOk, Progress, FileLength, BlockNumber, InodeAt;
    var next: nat, bytesToRead: int := first, length;
    result, curr := 0, current;
    while bytesToRead / BLOCK > 0
      invariant 0 <= bytesToRead && result + bytesToRead == length
      invariant first <= next && BLOCK * first + result == BLOCK * next
      invariant bytesToRead > 0 ==> next < MAX_BLOCKS && curr == BlockNumber(img, n, next)
      invariant Progress(FileBytes(img, n), buf[..], was, at, from, BLOCK * next)
    {
      CopyPiece(img, n, next, curr, 0, BLOCK, buf, dest + result, was, at, from);
      bytesToRead := bytesToRead - BLOCK;
      result := result + BLOCK;
      next := next + 1;
      curr := FetchEntry(img, n, next);
    }
    i := next;
  }

  /** The whole blocks and the part of the last one. */
  method ReadAligned(img: Image, n: nat, first: nat, current: nat, buf: array<Byte>, dest: nat, length: nat,
                     ghost was: seq<Byte>, ghost at: nat, ghost from: nat) returns (result: nat)
    requires Laid(img) && n < InodeCount(img) && InodeOk(img, n) && FileLength(img, n) > 0
    requires from <= BLOCK * first && BLOCK * first + length <= FileLength(img, n)
    requires dest == at + (BLOCK * first - from) && dest + length <= buf.Length
    requires length > 0 ==> first < MAX_BLOCKS && current == BlockNumber(img, n, first)
    requires Progress(FileBytes(img, n), buf[..], was, at, from, BLOCK * first)
    modifies buf
    ensures result == length && Progress(FileBytes(img, n), buf[..], was, at, from, BLOCK * first + length)
  {
    hide Delivered, WordAt, Laid, FileBytes, InodeOk, Progress, FileLength, BlockNumber, InodeAt;
    ghost var i;
    var curr;
    result, i, curr := ReadWholeBlocks(img, n, first, current, buf, dest, length, was, at, from);
    if result < length {
      CopyPiece(img, n, i, curr, 0, length - result, buf, dest + result, was, at, from);
      result := length;
    }
  }

  /** A read that starts inside block `first`: it ends in the block, or goes on at the next boundary. */
  method ReadFromMiddle(img: Image, n: nat, first: nat, current: nat, blockOffset: nat, buf: array<Byte>, at: nat,
                        length: nat, ghost was: seq<Byte>) returns (result: nat)
    requires Laid(img) && n < InodeCount(img) && InodeOk(img, n)
    requires 0 < blockOffset < BLOCK && BLOCK * first + blockOffset < FileLength(img, n)
    requires BLOCK * first + blockOffset + length <= FileLength(img, n) && at + length <= buf.Length
    requires first < MAX_BLOCKS && current == BlockNumber(img, n, first)
    requires Progress(FileBytes(img, n), buf[..], was, at, BLOCK * first + blockOffset, BLOCK * first + blockOffset)
    modifies buf
    ensures result == length
    ensures var from := BLOCK * first + blockOffset;
            Progress(FileBytes(img, n), buf[..], was, at, from, from + length)
  {
    assert FileLength(img, n) <= MAX_BLOCKS * BLOCK;
    hide Delivered, WordAt, Laid, FileBytes, InodeOk, Progress, FileLength, BlockNumber, InodeAt;
    ghost var from := BLOCK * first + blockOffset;
    if blockOffset + length < BLOCK {
      CopyPiece(img, n, first, current, blockOffset, blockOffset + length, buf, at, was, at, from);
      result := length;
    } else {
      var part := BLOCK - blockOffset;
      CopyPiece(img, n, first, current, blockOffset, BLOCK, buf, at, was, at, from);
      var next := FetchEntry(img, n, first + 1);
      var more := ReadAligned(img, n, first + 1, next, buf, at + part, length - part, was, at, from);
      result := part + more;
    }
  }

  /** The block and the place in it of an offset. */
  method Locate(offset: nat) returns (i: nat, blockOffset: nat)
    ensures offset == BLOCK * i + blockOffset && blockOffset < BLOCK
  {
    var rest: int := offset;
    i := offset / BLOCK;
    if i > 0 {
      rest := rest - i * BLOCK;
    }
    blockOffset := rest;
  }

  /** The copying part of `read_data`, with the length cut at the end of the file. */
  method ReadBlocks(img: Image, n: nat, offset: nat, buf: array<Byte>, at: nat, length: nat) returns (result: nat)
    requires Laid(img) && n < InodeCount(img) && InodeOk(img, n)
    requires offset < FileLength(img, n) && offset + length <= FileLength(img, n) && at + length <= buf.Length
    modifies buf
    ensures result == length
    ensures Progress(FileBytes(img, n), buf[..], old(buf[..]), at, offset, offset + length)
  {
    assert FileLength(img, n) <= MAX_BLOCKS * BLOCK;
    ghost var was := buf[..];
    ProgressNothing(img, n, was, at, offset);
    hide Delivered, WordAt, Laid, FileBytes, InodeOk, Progress, FileLength, BlockNumber, InodeAt;
    var i, blockOffset := Locate(offset);
    var curr := FetchEntry(img, n, i);
    if blockOffset == 0 {
      result := ReadAligned(img, n, i, curr, buf, at, length, was, at, offset);
    } else {
      result := ReadFromMiddle(img, n, i, curr, blockOffset, buf, at, length, was);
    }
  }

  /** A 32-bit word as a signed number. */
  function SignedWord(w: nat): (n: int)
    requires w < TWO_32
    ensures -(TWO_31 as int) <= n < TWO_31 && (n == w || n == w - TWO_32)
  {
    if w < TWO_31 then w else w - TWO_32
  }

  /** `bytes_to_read`, cut at the end of the file: the sum is unsigned and may wrap. */
  method CutAtEnd(srcLength: nat, offset: nat, length: nat) returns (bytesToRead: int)
    requires offset < srcLength < TWO_31 && length < TWO_32
    ensures bytesToRead == if offset + length < TWO_32 then Available(srcLength, offset, length) else length - TWO_32
  {
    bytesToRead := SignedWord(length);
    var sum := (offset + bytesToRead) % TWO_32;
    if sum > srcLength {
      bytesToRead := SignedWord((bytesToRead - (sum - srcLength)) % TWO_32);
    }
  }

  /** `read_data`: the part of the first block, the whole blocks, the part of the last one. The slice is delivered
      exactly when the end of the read is below 4 GB or nothing is left to read; otherwise nothing is copied, and the
      result is a negative number or 0. */
  method ReadData(img: Image, inode: nat, offset: nat, buf: array<Byte>, at: nat, length: nat) returns (result: int)
    requires WellFormed(img) && offset < TWO_32 && length < TWO_32
    requires inode < InodeCount(img) ==> at + Available(FileLength(img, inode), offset, length) <= buf.Length
    modifies buf
    ensures inode >= InodeCount(img) ==> result == -1 && buf[..] == old(buf[..])
    ensures inode < InodeCount(img) ==>
              (result == Available(FileLength(img, inode), offset, length)
               <==> offset >= FileLength(img, inode) || offset + length < TWO_32)
    ensures inode < InodeCount(img) && result == Available(FileLength(img, inode), offset, length) ==>
              Delivered(buf[..], old(buf[..]), at, Slice(img, inode, offset, length))
    ensures inode < InodeCount(img) && result != Available(FileLength(img, inode), offset, length) ==>
              buf[..] == old(buf[..]) && result == if offset % BLOCK == 0 then 0 else length - TWO_32
  {
    hide Delivered, WordAt, FileBytes;
    ghost var was := buf[..];
    if inode >= InodeCount(img) {
      return -1;
    }
    var srcLength := FileLength(img, inode);
    if offset >= srcLength {
      DeliveredNothing(was, at);
      return 0;
    }
    assert InodeOk(img, inode);
    var bytesToRead := CutAtEnd(srcLength, offset, length);
    if bytesToRead < 0 {
      // no byte is copied; only the branch for a read within one block adds the count to the result
      return if offset % BLOCK == 0 then 0 else bytesToRead;
    }
    result := ReadBlocks(img, inode, offset, buf, at, bytesToRead);
  }

  lemma {:induction false} DeliveredNothing(was: seq<Byte>, at: nat)
    requires at <= |was|
    ensures Delivered(was, was, at, [])
  {
  }
}
