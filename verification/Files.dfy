/** Reading an open file: the descriptor's position walks through the flat file. */
module Files {
  import opened Division
  import opened Memory
  import opened FileSystem

  /** The file a descriptor is open on, the bytes a read may still yield, and what a read leaves in the buffer. */
  class FileDescriptor {
    var open: bool
    var inode: nat
    var position: nat

    ghost predicate Valid(img: Image)
      reads this
    {
      WellFormed(img) && position < TWO_32 && (open && inode < InodeCount(img) ==> position <= FileLength(img, inode))
    }

    /** As `file_open` leaves it, for an inode number from a directory entry. */
    constructor (img: Image, inode: nat)
      requires WellFormed(img)
      ensures Valid(img) && open && this.inode == inode && position == 0
    {
      open := true;
      this.inode := inode;
      position := 0;
    }

    ghost function File(img: Image): seq<Byte>
      requires Valid(img) && inode < InodeCount(img)
      reads this
    {
      FileBytes(img, inode)
    }

    /** `file_read`: clears the buffer, reads at the position and moves it on. */
    method FileRead(img: Image, buf: array<Byte>, at: nat, n: nat) returns (result: int)
      requires Valid(img) && n < TWO_31 && at + n <= buf.Length
      modifies this`position, buf
      ensures Valid(img) && buf[..at] == old(buf[..at]) && buf[at + n..] == old(buf[at + n..])
      ensures result == -1 <==> !open || inode >= InodeCount(img)
      ensures result == -1 ==> position == old(position)
      ensures result != -1 ==>
                && result == Available(|File(img)|, old(position), n) <= n
                && position == old(position) + result <= |File(img)|
                && buf[at..at + result] == File(img)[old(position)..position]
                && (forall j | at + result <= j < at + n :: buf[j] == 0)
    {
      if !open {
        return -1;
      }
      result := ReadAt(img, inode, position, buf, at, n);
      if result == -1 {
        return -1;
      }
      position := position + result;
    }
  }

  /** The buffer is cleared and filled from `position`. */
  method ReadAt(img: Image, inode: nat, position: nat, buf: array<Byte>, at: nat, n: nat) returns (result: int)
    requires WellFormed(img) && position < TWO_32 && n < TWO_31 && at + n <= buf.Length
    modifies buf
    ensures buf[..at] == old(buf[..at]) && buf[at + n..] == old(buf[at + n..])
    ensures if inode >= InodeCount(img) then result == -1
            else
              && result == Available(FileLength(img, inode), position, n) <= n
              && InodeOk(img, inode) && buf[at..at + result] == Slice(img, inode, position, n)
              && (forall j | at + result <= j < at + n :: buf[j] == 0)
  {
    hide Filled, Delivered, Slice;
    ghost var was := buf[..];
    ClearBuffer(buf, at, n);
    ghost var mid := buf[..];
    assert inode < InodeCount(img) ==> InodeOk(img, inode);
    hide WellFormed, FileLength, InodeCount;
    result := ReadData(img, inode, position, buf, at, n);
    ReadOver(was, mid, buf[..], at, n, if inode < InodeCount(img) then Slice(img, inode, position, n) else []);
  }

  /** Bytes delivered into a part of the buffer that was cleared. */
  lemma {:induction false} ReadOver(was: seq<Byte>, mid: seq<Byte>, now: seq<Byte>, at: nat, n: nat, bytes: seq<Byte>)
    requires Filled(mid, was, at, 0, n) && (now == mid || Delivered(now, mid, at, bytes)) && |bytes| <= n
    ensures |now| == |was| && now[..at] == was[..at] && now[at + n..] == was[at + n..]
    ensures Delivered(now, mid, at, bytes) ==>
              now[at..at + |bytes|] == bytes && forall j | at + |bytes| <= j < at + n :: now[j] == 0
  {
  }

  /** The byte loop and the `memset` that clear the buffer before a read. */
  method ClearBuffer(buf: array<Byte>, at: nat, n: nat)
    requires at + n <= buf.Length
    modifies buf
    ensures Filled(buf[..], old(buf[..]), at, 0, n)
  {
    ghost var was := buf[..];
    var i: nat := 0;
    while i < n
      invariant i <= n && Filled(buf[..], was, at, 0, i)
    {
      buf[at + i] := 0;
      i := i + 1;
    }
    ghost var mid := buf[..];
    Memset(buf, at, 0, n);
  }


  // ----- a series of reads -----

  /** What successive reads of the given sizes yield, starting at `position`. */
  function Chunks(file: seq<Byte>, position: nat, sizes: seq<nat>): seq<seq<Byte>>
    requires position <= |file|
    decreases |sizes|
  {
    if sizes == [] then []
    else
      var r := Available(|file|, position, sizes[0]);
      [file[position..position + r]] + Chunks(file, position + r, sizes[1..])
  }

  function Joined(chunks: seq<seq<Byte>>): seq<Byte> {
    if chunks == [] then [] else chunks[0] + Joined(chunks[1..])
  }

  function Sum(sizes: seq<nat>): nat { if sizes == [] then 0 else sizes[0] + Sum(sizes[1..]) }

  function Min(a: nat, b: nat): nat { if a < b then a else b }

  /** Where a series of reads ends. */
  function EndOf(fileLength: nat, position: nat, sizes: seq<nat>): nat { Min(position + Sum(sizes), fileLength) }

  /** Reads of any sizes put the file together again, up to the sum of the sizes or the end of the file. */
  lemma {:induction false} ReadsReassemble(file: seq<Byte>, position: nat, sizes: seq<nat>)
    requires position <= |file|
    ensures Joined(Chunks(file, position, sizes)) == file[position..EndOf(|file|, position, sizes)]
    decreases |sizes|
  {
    if sizes == [] {
      assert file[position..position] == [];
    } else {
      var r := Available(|file|, position, sizes[0]);
      var first, rest := file[position..position + r], Chunks(file, position + r, sizes[1..]);
      ReadsReassemble(file, position + r, sizes[1..]);
      assert EndOf(|file|, position, sizes) == EndOf(|file|, position + r, sizes[1..]);
      assert ([first] + rest)[1..] == rest;
      hide Available, EndOf, Sum;
      TwoPieces(file, position, position + r, EndOf(|file|, position, sizes));
    }
  }

  lemma {:induction false} TwoPieces(s: seq<Byte>, a: nat, b: nat, c: nat)
    requires a <= b <= c <= |s|
    ensures s[a..b] + s[b..c] == s[a..c]
  {
  }



  /** A read of a positive size yields nothing exactly at the end of the file. */
  lemma {:induction false} NothingOnlyAtEnd(file: seq<Byte>, position: nat, size: nat)
    requires position <= |file| && size > 0
    ensures Available(|file|, position, size) == 0 <==> position == |file|
  {
  }

  /** The `read` system call passes a positive count on as the size that was asked for. */
  function ReadResult(count: int, n: nat): int {
    if count == 0 then 0 else if count == -1 then -1 else n
  }

  /** So what a program is told is the number of bytes exactly when the read was full, or empty, or failed. */
  lemma {:induction false} ReadResultIsCount(fileLength: nat, position: nat, n: nat)
    requires position <= fileLength && n > 0
    ensures var count := Available(fileLength, position, n);
            ReadResult(count, n) == count <==> position == fileLength || position + n <= fileLength
  {
  }

  /** After `i` reads: what is still to come completes the series. */
  ghost predicate SeriesAt(file: seq<Byte>, start: nat, sizes: seq<nat>, chunks: seq<seq<Byte>>, position: nat,
                           i: nat)
  {
    && start <= |file| && position <= |file| && i <= |sizes|
    && chunks + Chunks(file, position, sizes[i..]) == Chunks(file, start, sizes)
    && EndOf(|file|, position, sizes[i..]) == EndOf(|file|, start, sizes)
  }



  lemma {:induction false} SeriesEnds(file: seq<Byte>, start: nat, sizes: seq<nat>, chunks: seq<seq<Byte>>,
                                      position: nat)
    requires SeriesAt(file, start, sizes, chunks, position, |sizes|)
    ensures chunks == Chunks(file, start, sizes) && position == EndOf(|file|, start, sizes)
    ensures start <= position <= |file| && Joined(chunks) == file[start..position]
  {
    assert sizes[|sizes|..] == [] && chunks + [] == chunks;
    ReadsReassemble(file, start, sizes);
  }

  method ReadOne(fd: FileDescriptor, img: Image, buf: array<Byte>, n: nat) returns (chunk: seq<Byte>)
    requires fd.Valid(img) && fd.open && fd.inode < InodeCount(img) && n < TWO_31 && n <= buf.Length
    modifies fd`position, buf
    ensures fd.Valid(img) && fd.File(img) == old(fd.File(img)) && old(fd.position) <= |fd.File(img)|
    ensures fd.position == old(fd.position) + |chunk| <= |fd.File(img)|
    ensures var r := Available(|fd.File(img)|, old(fd.position), n);
            old(fd.position) + r <= |fd.File(img)| && chunk == fd.File(img)[old(fd.position)..old(fd.position) + r]
  {
    hide FileBytes, WellFormed, FileLength, InodeCount;
    var count := fd.FileRead(img, buf, 0, n);
    chunk := buf[..count];
    assert chunk == buf[0..0 + count];
  }

  /** A series of reads of the given sizes. */
  method ReadSeries(fd: FileDescriptor, img: Image, buf: array<Byte>, sizes: seq<nat>) returns (chunks: seq<seq<Byte>>)
    requires fd.Valid(img) && fd.open && fd.inode < InodeCount(img)
    requires forall n | n in sizes :: n < TWO_31 && n <= buf.Length
    modifies fd`position, buf
    ensures fd.Valid(img) && fd.File(img) == old(fd.File(img))
    ensures old(fd.position) <= fd.position <= |fd.File(img)| && chunks == Chunks(fd.File(img), old(fd.position), sizes)
    ensures Joined(chunks) == fd.File(img)[old(fd.position)..fd.position]
    ensures fd.position == EndOf(|fd.File(img)|, old(fd.position), sizes)
  {
    ghost var file, start := fd.File(img), fd.position;
    assert start <= |file|;
    hide FileBytes, Chunks, EndOf, Joined, SeriesAt, WellFormed, FileLength, InodeCount, Available;
    hide FileDescriptor.Valid, FileDescriptor.File;
    chunks := [];
    var i := 0;
    while i < |sizes|
      invariant 0 <= i <= |sizes| && fd.Valid(img) && fd.File(img) == file && fd.position <= |file|
      invariant SeriesAt(file, start, sizes, chunks, fd.position, i)
    {
      assert sizes[i] in sizes;
      ghost var position := fd.position;
      var chunk := ReadOne(fd, img, buf, sizes[i]);
      chunks := chunks + [chunk];
      i := i + 1;
    }
    SeriesEnds(file, start, sizes, chunks, fd.position);
  }

  /** `written` is the rest of a file, and then zeros. */
  ghost predicate PaddedWith(written: seq<Byte>, rest: seq<Byte>) {
    |rest| <= |written| && written[..|rest|] == rest && forall j | |rest| <= j < |written| :: written[j] == 0
  }

  lemma {:induction false} PaddingIsNuls(written: seq<Byte>, rest: seq<Byte>)
    requires PaddedWith(written, rest)
    ensures WithoutNuls(written) == WithoutNuls(rest)
    decreases |written|
  {
    if written == [] {
    } else if rest == [] {
      PaddingIsNuls(written[1..], []);
    } else {
      assert written[0] == written[..|rest|][0] && written[1..][..|rest| - 1] == written[..|rest|][1..];
      PaddingIsNuls(written[1..], rest[1..]);
    }
  }

  /** What a loop of reads of size `n` has written: a whole number of buffers. */
  lemma {:induction false} WholeBuffers(written: seq<Byte>, rest: seq<Byte>, n: nat)
    requires n > 0 && |written| % n == 0 && |written| < |rest| + n && PaddedWith(written, rest)
    ensures written == rest <==> |rest| % n == 0
  {
    if |rest| % n == 0 {
      SameMultiple(|rest|, |written|, n);
      assert written[..|rest|] == written;
    }
  }

  /** The loop of `cat`, which goes by the result of the `read` call: it ends, and what it writes is a whole number of
      buffers: the rest of the file and fewer than `n` zeros, none exactly when `n` divides its length. */
  method Drain(fd: FileDescriptor, img: Image, buf: array<Byte>, n: nat) returns (written: seq<Byte>)
    requires fd.Valid(img) && fd.open && fd.inode < InodeCount(img) && 0 < n < TWO_31 && n <= buf.Length
    modifies fd`position, buf
    ensures fd.Valid(img) && fd.position == |fd.File(img)|
    ensures var rest := old(fd.File(img)[fd.position..]);
            && PaddedWith(written, rest) && |written| < |rest| + n && |written| % n == 0
            && (written == rest <==> |rest| % n == 0)
            && WithoutNuls(written) == WithoutNuls(rest)
  {
    ghost var file, start := fd.File(img), fd.position;
    assert file[start..start] == [] && PaddedWith([], file[start..start]);
    assert 0 % n == 0;
    hide FileBytes, WellFormed, FileLength, InodeCount, PaddedWith, FileDescriptor.Valid, FileDescriptor.File;
    written := [];
    while true
      invariant fd.Valid(img) && fd.File(img) == file && start <= fd.position <= |file| && |written| % n == 0
      invariant PaddedWith(written, file[start..fd.position]) && |written| < fd.position - start + n
      invariant fd.position < |file| ==> written == file[start..fd.position]
      decreases |file| - fd.position
    {
      ghost var position, was := fd.position, written;
      var result := fd.FileRead(img, buf, 0, n);
      var count := ReadResult(result, n);
      if count == 0 {
        assert file[start..fd.position] == file[start..];
        PaddingIsNuls(written, file[start..]);
        WholeBuffers(written, file[start..], n);
        return;
      }
      assert buf[..count][..result] == buf[0..0 + result];
      written := written + buf[..count];
      NextMultiple(|was|, n);
    }
  }

}
