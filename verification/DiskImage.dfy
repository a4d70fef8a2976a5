/** A disk with given directory entries and files, in the format of the file system: what the kernel's functions find
  in it are those entries and those files. */
module DiskImage {
  import opened Memory
  import opened FileSystem
  import opened Directory

  function Word(w: nat): (r: seq<Byte>)
    requires w < TWO_32
    ensures |r| == 4
  {
    [ByteOf(w, 0), ByteOf(w, 1), ByteOf(w, 2), ByteOf(w, 3)]
  }

  function Zeros(n: nat): (r: seq<Byte>)
    ensures |r| == n
  {
    seq(n, i => 0)
  }

  // ----- the three regions -----

  predicate EntryFits(e: Entry) { |e.name| <= 32 && NulFree(e.name) && e.fileType < TWO_32 && e.inode < TWO_32 }

  /** 64 bytes: name, type, inode number, and 24 that are reserved. */
  function EntryBytes(e: Entry): (r: seq<Byte>)
    requires EntryFits(e)
    ensures |r| == 64
  {
    e.name + Zeros(32 - |e.name|) + Word(e.fileType) + Word(e.inode) + Zeros(24)
  }

  function Entries(es: seq<Entry>): (r: seq<Byte>)
    requires forall e | e in es :: EntryFits(e)
    ensures |r| == 64 * |es|
  {
    if es == [] then [] else EntryBytes(es[0]) + Entries(es[1..])
  }

  /** The number of the data block with which file `n` starts. */
  function FirstBlock(files: seq<seq<Byte>>, n: nat): nat
    requires n <= |files|
  {
    if n == 0 then 0 else Blocks(|files[0]|) + FirstBlock(files[1..], n - 1)
  }

  /** The boot block: the three counts, 52 reserved bytes and the directory entries. */
  function BootBlock(es: seq<Entry>, files: seq<seq<Byte>>): (r: seq<Byte>)
    requires Storable(es, files)
    ensures |r| == 4096
  {
    Word(|es|) + Word(|files|) + Word(FirstBlock(files, |files|)) + Zeros(52)
    + Entries(es) + Zeros(4032 - 64 * |es|)
  }

  /** `k` consecutive block numbers. */
  function BlockNumbers(first: nat, k: nat): (r: seq<Byte>)
    requires first + k <= TWO_32
    ensures |r| == 4 * k
  {
    if k == 0 then [] else BlockNumbers(first, k - 1) + Word(first + k - 1)
  }

  /** An inode: the length and the numbers of the data blocks. */
  function InodeBlock(file: seq<Byte>, first: nat): (r: seq<Byte>)
    requires |file| <= 1023 * 4096 && first + Blocks(|file|) <= TWO_32
    ensures |r| == 4096
  {
    Word(|file|) + BlockNumbers(first, Blocks(|file|)) + Zeros(4092 - 4 * Blocks(|file|))
  }

  function Inodes(files: seq<seq<Byte>>, first: nat): (r: seq<Byte>)
    requires (forall f | f in files :: |f| <= 1023 * 4096) && first + FirstBlock(files, |files|) <= TWO_32
    ensures |r| == 4096 * |files|
  {
    if files == [] then [] else InodeBlock(files[0], first) + Inodes(files[1..], first + Blocks(|files[0]|))
  }

  function Data(files: seq<seq<Byte>>): (r: seq<Byte>)
    ensures |r| == 4096 * FirstBlock(files, |files|)
  {
    if files == [] then [] else files[0] + Zeros(4096 * Blocks(|files[0]|) - |files[0]|) + Data(files[1..])
  }

  predicate Storable(es: seq<Entry>, files: seq<seq<Byte>>) {
    && |es| <= 63 && (forall e | e in es :: EntryFits(e)) && (forall f | f in files :: |f| <= 1023 * 4096)
    && 4096 * (1 + |files| + FirstBlock(files, |files|)) < TWO_31
  }

  function Disk(es: seq<Entry>, files: seq<seq<Byte>>): (r: seq<Byte>)
    requires Storable(es, files)
    ensures |r| == 4096 * (1 + |files| + FirstBlock(files, |files|))
  {
    BootBlock(es, files) + Inodes(files, 0) + Data(files)
  }

  // ----- words and pieces -----

  lemma {:induction false} WordThere(s: seq<Byte>, at: nat, w: nat)
    requires at + 4 <= |s| && w < TWO_32 && s[at..at + 4] == Word(w)
    ensures ReadWord(s, at) == w
  {
    assert s[at..at + 4][0] == s[at] && s[at..at + 4][1] == s[at + 1];
    assert s[at..at + 4][2] == s[at + 2] && s[at..at + 4][3] == s[at + 3];
    assert w / 0x1_0000 == w / 0x100 / 0x100 && w / 0x100_0000 == w / 0x1_0000 / 0x100;
  }

  /** A piece of a piece. */
  lemma {:induction false} Piece(s: seq<Byte>, part: seq<Byte>, at: nat, lo: nat, hi: nat)
    requires at + |part| <= |s| && s[at..at + |part|] == part && lo <= hi <= |part|
    ensures s[at + lo..at + hi] == part[lo..hi]
  {
    SliceOfSlice(s, at, at + |part|, lo, hi);
  }

  lemma {:induction false} PieceAt(s: seq<Byte>, part: seq<Byte>, at: nat, lo: nat, hi: nat, from: nat, to: nat)
    requires at + |part| <= |s| && s[at..at + |part|] == part && lo <= hi <= |part| && from == at + lo && to == at + hi
    ensures s[from..to] == part[lo..hi]
  {
    Piece(s, part, at, lo, hi);
  }

  lemma {:induction false} Prefix(s: seq<Byte>, at: nat, to: nat, n: nat)
    requires at + n <= to <= |s|
    ensures s[at..to][..n] == s[at..at + n]
  {
    SliceOfSlice(s, at, to, 0, n);
  }

  lemma {:induction false} WordInPart(s: seq<Byte>, part: seq<Byte>, at: nat, k: nat, w: nat)
    requires at + |part| <= |s| && s[at..at + |part|] == part && w < TWO_32
    requires k + 4 <= |part| && part[k..k + 4] == Word(w)
    ensures ReadWord(s, at + k) == w
  {
    hide Word, ReadWord;
    Piece(s, part, at, k, k + 4);
    WordThere(s, at + k, w);
  }

  lemma {:induction false} Middle(a: seq<Byte>, b: seq<Byte>, c: seq<Byte>)
    ensures (a + b + c)[|a|..|a| + |b|] == b
  {
  }

  lemma {:induction false} EntriesAt(es: seq<Entry>, i: nat)
    requires (forall e | e in es :: EntryFits(e)) && i < |es|
    ensures Entries(es)[64 * i..64 * i + 64] == EntryBytes(es[i])
    decreases |es|
  {
    hide EntryBytes, EntryFits;
    if i > 0 {
      EntriesAt(es[1..], i - 1);
      Piece(Entries(es), Entries(es[1..]), 64, 64 * (i - 1), 64 * (i - 1) + 64);
    }
  }

  lemma {:induction false} FirstBlockBound(files: seq<seq<Byte>>, n: nat)
    requires n < |files|
    ensures FirstBlock(files, n) + Blocks(|files[n]|) <= FirstBlock(files, |files|)
    decreases n
  {
    hide Blocks;
    if n > 0 {
      FirstBlockBound(files[1..], n - 1);
    }
  }

  lemma {:induction false} InodesAt(files: seq<seq<Byte>>, first: nat, n: nat)
    requires (forall f | f in files :: |f| <= 1023 * 4096) && first + FirstBlock(files, |files|) <= TWO_32
    requires n < |files| && first + FirstBlock(files, n) + Blocks(|files[n]|) <= TWO_32
    ensures Inodes(files, first)[4096 * n..4096 * n + 4096] == InodeBlock(files[n], first + FirstBlock(files, n))
    decreases |files|
  {
    hide InodeBlock, Blocks;
    if n > 0 {
      InodesAt(files[1..], first + Blocks(|files[0]|), n - 1);
      Piece(Inodes(files, first), Inodes(files[1..], first + Blocks(|files[0]|)), 4096, 4096 * (n - 1), 4096 * n);
    }
  }

  lemma {:induction false} DataThere(files: seq<seq<Byte>>, n: nat)
    requires n < |files|
    ensures 4096 * FirstBlock(files, n) + 4096 * Blocks(|files[n]|) <= |Data(files)|
    ensures Data(files)[4096 * FirstBlock(files, n)..4096 * FirstBlock(files, n) + |files[n]|] == files[n]
    decreases |files|
  {
    FileLengthFits(files[0]);
    hide Blocks;
    if n > 0 {
      var rest := files[1..];
      DataThere(rest, n - 1);
      FileLengthFits(files[n]);
      var lo, at := 4096 * FirstBlock(rest, n - 1), 4096 * FirstBlock(files, n);
      PieceAt(Data(files), Data(rest), 4096 * Blocks(|files[0]|), lo, lo + |files[n]|, at, at + |files[n]|);
    }
  }

  lemma {:induction false} NumbersAt(first: nat, k: nat, b: nat)
    requires first + k <= TWO_32 && b < k
    ensures BlockNumbers(first, k)[4 * b..4 * b + 4] == Word(first + b)
    decreases k
  {
    if b < k - 1 {
      NumbersAt(first, k - 1, b);
      Piece(BlockNumbers(first, k), BlockNumbers(first, k - 1), 0, 4 * b, 4 * b + 4);
    }
  }

  // ----- what the kernel finds -----

  lemma {:induction false} Counts(es: seq<Entry>, files: seq<seq<Byte>>)
    requires Storable(es, files)
    ensures var img := Disk(es, files);
            && Laid(img) && DirCount(img) == |es| && InodeCount(img) == |files|
            && DataCount(img) == FirstBlock(files, |files|)
  {
    BootWords(es, files);
    var img, boot := Disk(es, files), BootBlock(es, files);
    hide Inodes, Data, FirstBlock, Word, Zeros, ReadWord, BootBlock;
    assert img[0..|boot|] == boot;
    WordInPart(img, boot, 0, 0, |es|);
    WordInPart(img, boot, 0, 4, |files|);
    WordInPart(img, boot, 0, 8, FirstBlock(files, |files|));
  }

  lemma {:induction false} BootWords(es: seq<Entry>, files: seq<seq<Byte>>)
    requires Storable(es, files)
    ensures var boot := BootBlock(es, files);
            && boot[0..4] == Word(|es|) && boot[4..8] == Word(|files|)
            && boot[8..12] == Word(FirstBlock(files, |files|))
  {
    hide Entries, FirstBlock, Word, Zeros;
  }

  /** Where the directory entries, the inodes and the data are. */
  lemma {:induction false} EntryRegion(es: seq<Entry>, files: seq<seq<Byte>>)
    requires Storable(es, files)
    ensures Disk(es, files)[64..64 + 64 * |es|] == Entries(es)
  {
    hide FirstBlock, Entries, Inodes, Data, Word, Zeros;
    var boot := BootBlock(es, files);
    assert boot[64..64 + 64 * |es|] == Entries(es);
    hide BootBlock;
    assert Disk(es, files)[..4096] == boot;
    Piece(Disk(es, files), boot, 0, 64, 64 + 64 * |es|);
  }

  lemma {:induction false} InodeRegion(es: seq<Entry>, files: seq<seq<Byte>>)
    requires Storable(es, files)
    ensures Disk(es, files)[4096..4096 + |Inodes(files, 0)|] == Inodes(files, 0)
  {
    hide FirstBlock, Inodes, Data, BootBlock;
    Middle(BootBlock(es, files), Inodes(files, 0), Data(files));
  }

  lemma {:induction false} DataRegion(es: seq<Entry>, files: seq<seq<Byte>>)
    requires Storable(es, files)
    ensures 4096 * (1 + |files|) + |Data(files)| == |Disk(es, files)|
    ensures Disk(es, files)[4096 * (1 + |files|)..4096 * (1 + |files|) + |Data(files)|] == Data(files)
  {
    hide FirstBlock, Inodes, Data, BootBlock;
  }

  lemma {:induction false} EntryThere(es: seq<Entry>, files: seq<seq<Byte>>, i: nat)
    requires Storable(es, files) && i < |es|
    ensures Disk(es, files)[64 + 64 * i..64 + 64 * i + 64] == EntryBytes(es[i])
  {
    EntryRegion(es, files);
    EntriesAt(es, i);
    hide Disk, EntryBytes, Entries, Inodes, Data, FirstBlock;
    Piece(Disk(es, files), Entries(es), 64, 64 * i, 64 * i + 64);
  }

  lemma {:induction false} EntryFields(e: Entry)
    requires EntryFits(e)
    ensures var bytes := EntryBytes(e);
            bytes[0..32] == e.name + Zeros(32 - |e.name|) && bytes[32..36] == Word(e.fileType)
            && bytes[36..40] == Word(e.inode)
  {
    hide Word, Zeros;
  }

  /** The directory: every entry has the name, type and inode it was written with, and the lookup of a name finds the
      first entry written with it. */
  lemma {:induction false} EntryRoundTrip(es: seq<Entry>, files: seq<seq<Byte>>, i: nat)
    requires Storable(es, files) && i < |es|
    ensures var img := Disk(es, files);
            && Laid(img) && DirCount(img) == |es|
            && CString(NameField(img, i)) == es[i].name
            && WordAt(img, EntryAt(i) + 32) == es[i].fileType && WordAt(img, EntryAt(i) + 36) == es[i].inode
  {
    assert es[i] in es;
    hide Laid, DirCount, Disk, ReadWord, EntryBytes, CString, Storable;
    Counts(es, files);
    EntryThere(es, files, i);
    FieldsThere(Disk(es, files), 64 + 64 * i, es[i]);
  }

  lemma {:induction false} FieldsThere(img: seq<Byte>, at: nat, e: Entry)
    requires EntryFits(e) && at + 64 <= |img| && img[at..at + 64] == EntryBytes(e)
    ensures CString(img[at..at + 32]) == e.name
    ensures ReadWord(img, at + 32) == e.fileType && ReadWord(img, at + 36) == e.inode
  {
    EntryFields(e);
    hide EntryBytes, Word, ReadWord, CString;
    var bytes := EntryBytes(e);
    Piece(img, bytes, at, 0, 32);
    WordInPart(img, bytes, at, 32, e.fileType);
    WordInPart(img, bytes, at, 36, e.inode);
    CStringUnique(img[at..at + 32], e.name);
  }

  lemma {:induction false} LookupFinds(es: seq<Entry>, files: seq<seq<Byte>>, i: nat)
    requires Storable(es, files) && i < |es| && forall j | 0 <= j < i :: es[j].name != es[i].name
    ensures Laid(Disk(es, files)) && FirstNamed(Disk(es, files), es[i].name, 0) == i
  {
    Counts(es, files);
    var img := Disk(es, files);
    forall j: nat | j <= i ensures CString(NameField(img, j)) == es[j].name {
      EntryRoundTrip(es, files, j);
    }
    hide Disk, Storable, Laid, NameField, CString;
  }

  lemma {:induction false} InodeNumbers(file: seq<Byte>, first: nat)
    requires |file| <= 1023 * 4096 && first + Blocks(|file|) <= TWO_32
    ensures 4 + 4 * Blocks(|file|) <= 4096
    ensures InodeBlock(file, first)[4..4 + 4 * Blocks(|file|)] == BlockNumbers(first, Blocks(|file|))
  {
    hide Word, Zeros, BlockNumbers;
  }

  /** A word of the inode is the word of the disk at the same place of its block. */
  lemma {:induction false} InodeWord(es: seq<Entry>, files: seq<seq<Byte>>, n: nat, k: nat, w: nat)
    requires Storable(es, files) && n < |files| && |files[n]| <= 1023 * 4096 && k + 4 <= 4096 && w < TWO_32
    requires FirstBlock(files, n) + Blocks(|files[n]|) <= TWO_32
    requires InodeBlock(files[n], FirstBlock(files, n))[k..k + 4] == Word(w)
    ensures 4096 * (n + 1) + k + 4 <= |Disk(es, files)| && ReadWord(Disk(es, files), 4096 * (n + 1) + k) == w
  {
    hide Disk, Word, ReadWord, FirstBlock, Inodes, InodeBlock, Blocks;
    InodeRegion(es, files);
    InodesAt(files, 0, n);
    hide Storable;
    WordInBlock(Disk(es, files), Inodes(files, 0), n, k, w);
  }

  lemma {:induction false} WordInBlock(img: seq<Byte>, inodes: seq<Byte>, n: nat, k: nat, w: nat)
    requires 4096 + |inodes| <= |img| && img[4096..4096 + |inodes|] == inodes && 4096 * n + 4096 <= |inodes|
    requires k + 4 <= 4096 && w < TWO_32 && inodes[4096 * n..4096 * n + 4096][k..k + 4] == Word(w)
    ensures ReadWord(img, 4096 * (n + 1) + k) == w
  {
    hide Word, ReadWord;
    SliceOfSlice(inodes, 4096 * n, 4096 * n + 4096, k, k + 4);
    WordInPart(img, inodes, 4096, 4096 * n + k, w);
  }

  lemma {:induction false} FileBounds(es: seq<Entry>, files: seq<seq<Byte>>, n: nat)
    requires Storable(es, files) && n < |files|
    ensures |files[n]| <= 1023 * 4096 && FirstBlock(files, n) + Blocks(|files[n]|) <= TWO_31
  {
    assert files[n] in files;
    FirstBlockBound(files, n);
  }

  lemma {:induction false} InodeThere(es: seq<Entry>, files: seq<seq<Byte>>, n: nat)
    requires Storable(es, files) && n < |files|
    ensures var img := Disk(es, files);
            && Laid(img) && InodeCount(img) == |files| && FileLength(img, n) == |files[n]|
            && forall b: nat | b < Blocks(|files[n]|) :: BlockNumber(img, n, b) == FirstBlock(files, n) + b
  {
    hide Disk, Laid, InodeCount, Word, ReadWord, BlockNumbers, FirstBlock, Blocks, Storable;
    Counts(es, files);
    FileBounds(es, files, n);
    assert InodeBlock(files[n], FirstBlock(files, n))[0..4] == Word(|files[n]|);
    hide InodeBlock;
    InodeWord(es, files, n, 0, |files[n]|);
    forall b: nat | b < Blocks(|files[n]|)
      ensures BlockNumber(Disk(es, files), n, b) == FirstBlock(files, n) + b
    {
      NumberThere(es, files, n, b);
    }
  }

  lemma {:induction false} NumberThere(es: seq<Entry>, files: seq<seq<Byte>>, n: nat, b: nat)
    requires Storable(es, files) && n < |files| && b < Blocks(|files[n]|)
    ensures var img := Disk(es, files);
            Laid(img) && n < InodeCount(img) && b < MAX_BLOCKS && BlockNumber(img, n, b) == FirstBlock(files, n) + b
  {
    hide Disk, Laid, InodeCount, Word, ReadWord, FirstBlock, Blocks, Storable;
    Counts(es, files);
    FileBounds(es, files, n);
    NumberInDisk(es, files, n, b);
  }

  lemma {:induction false} NumberInDisk(es: seq<Entry>, files: seq<seq<Byte>>, n: nat, b: nat)
    requires Storable(es, files) && n < |files| && |files[n]| <= 1023 * 4096 && b < Blocks(|files[n]|)
    requires FirstBlock(files, n) + Blocks(|files[n]|) <= TWO_31
    ensures b < 1023 && 4096 * (n + 1) + 4 + 4 * b + 4 <= |Disk(es, files)|
    ensures ReadWord(Disk(es, files), 4096 * (n + 1) + 4 + 4 * b) == FirstBlock(files, n) + b
  {
    hide Disk, Word, ReadWord, BlockNumbers, FirstBlock, InodeBlock, Inodes, Blocks, Storable;
    InodeNumbers(files[n], FirstBlock(files, n));
    NumberInInode(InodeBlock(files[n], FirstBlock(files, n)), FirstBlock(files, n), Blocks(|files[n]|), b);
    InodeWord(es, files, n, 4 + 4 * b, FirstBlock(files, n) + b);
  }

  lemma {:induction false} NumberInInode(inode: seq<Byte>, first: nat, k: nat, b: nat)
    requires |inode| == 4096 && 4 + 4 * k <= 4096 && first + k <= TWO_32 && b < k
    requires inode[4..4 + 4 * k] == BlockNumbers(first, k)
    ensures inode[4 + 4 * b..4 + 4 * b + 4] == Word(first + b)
  {
    NumbersAt(first, k, b);
    hide Word, BlockNumbers;
    SliceOfSlice(inode, 4, 4 + 4 * k, 4 * b, 4 * b + 4);
  }

  lemma {:induction false} InodeFits(es: seq<Entry>, files: seq<seq<Byte>>, n: nat)
    requires Storable(es, files) && n < |files|
    ensures Laid(Disk(es, files)) && n < InodeCount(Disk(es, files)) && InodeOk(Disk(es, files), n)
  {
    assert files[n] in files;
    Counts(es, files);
    InodeThere(es, files, n);
    FirstBlockBound(files, n);
    hide Disk, Laid, InodeCount, DataCount, FileLength, BlockNumber, FirstBlock;
  }

  lemma {:induction false} BlockThere(es: seq<Entry>, files: seq<seq<Byte>>, n: nat, b: nat)
    requires Storable(es, files) && n < |files| && b < Blocks(|files[n]|)
    ensures var img := Disk(es, files);
            var at := 4096 * (1 + |files| + FirstBlock(files, n));
            && Laid(img) && n < InodeCount(img) && b < MAX_BLOCKS && BlockNumber(img, n, b) < DataCount(img)
            && at + 4096 * b + 4096 <= |img| && BlockBytes(img, n, b) == BlockOf(img, at, b)
  {
    hide Disk, Laid, FirstBlock, BlockNumber, InodeCount, DataCount, Blocks, Storable;
    NumberThere(es, files, n, b);
    FirstBlockBound(files, n);
    Counts(es, files);
    DiskLength(es, files, n);
  }

  /** Blocks that lie one behind the other. */
  lemma {:induction false} GatheredFrom(img: Image, n: nat, at: nat, k: nat)
    requires Laid(img) && n < InodeCount(img) && InodeOk(img, n) && k <= Blocks(FileLength(img, n))
    requires at + 4096 * k <= |img| && forall b: nat | b < k :: BlockBytes(img, n, b) == BlockOf(img, at, b)
    ensures Gathered(img, n, k) == img[at..at + 4096 * k]
    decreases k
  {
    hide Laid, FileLength, BlockNumber, BlockBytes, InodeOk, InodeCount, DataCount, Blocks;
    if k == 0 {
    } else {
      GatheredFrom(img, n, at, k - 1);
      NextBlock(img, at, k);
    }
  }

  function BlockOf(img: Image, at: nat, b: nat): seq<Byte>
    requires at + 4096 * b + 4096 <= |img|
  {
    img[at + 4096 * b..at + 4096 * b + 4096]
  }

  lemma {:induction false} NextBlock(s: Image, at: nat, k: nat)
    requires k > 0 && at + 4096 * k <= |s|
    ensures var mid := at + 4096 * (k - 1);
            s[at..mid] + BlockOf(s, at, k - 1) == s[at..at + 4096 * k]
  {
  }

  lemma {:induction false} DiskLength(es: seq<Entry>, files: seq<seq<Byte>>, n: nat)
    requires Storable(es, files) && n < |files|
    ensures 4096 * (1 + |files| + FirstBlock(files, n) + Blocks(|files[n]|)) <= |Disk(es, files)|
  {
    FirstBlockBound(files, n);
  }

  lemma {:induction false} GatheredThere(es: seq<Entry>, files: seq<seq<Byte>>, n: nat, at: nat)
    requires Storable(es, files) && n < |files| && at == 4096 * (1 + |files| + FirstBlock(files, n))
    requires Laid(Disk(es, files)) && n < InodeCount(Disk(es, files)) && InodeOk(Disk(es, files), n)
    requires FileLength(Disk(es, files), n) == |files[n]| && at + 4096 * Blocks(|files[n]|) <= |Disk(es, files)|
    ensures Gathered(Disk(es, files), n, Blocks(|files[n]|))
            == Disk(es, files)[at..at + 4096 * Blocks(|files[n]|)]
  {
    var img := Disk(es, files);
    hide Disk, Laid, FirstBlock, FileLength, InodeOk, Blocks, InodeCount, BlockNumber, BlockBytes, BlockOf, Storable;
    forall b: nat | b < Blocks(|files[n]|) ensures BlockBytes(img, n, b) == BlockOf(img, at, b) {
      BlockThere(es, files, n, b);
    }
    GatheredFrom(img, n, at, Blocks(|files[n]|));
  }

  lemma {:induction false} FileLengthFits(file: seq<Byte>)
    // as many blocks as it takes
    ensures |file| <= 4096 * Blocks(|file|) < |file| + 4096
  {
  }

  lemma {:induction false} FileThere(es: seq<Entry>, files: seq<seq<Byte>>, n: nat)
    requires Storable(es, files) && n < |files|
    ensures var at := 4096 * (1 + |files| + FirstBlock(files, n));
            at + |files[n]| <= |Disk(es, files)| && Disk(es, files)[at..at + |files[n]|] == files[n]
  {
    hide Disk, FirstBlock, Data, Blocks, Storable;
    DataRegion(es, files);
    DataThere(files, n);
    FileLengthFits(files[n]);
    var lo, at := 4096 * FirstBlock(files, n), 4096 * (1 + |files| + FirstBlock(files, n));
    PieceAt(Disk(es, files), Data(files), 4096 * (1 + |files|), lo, lo + |files[n]|, at, at + |files[n]|);
  }

  /** The round trip: the file the kernel reads from inode `n` is the file that was put there. */
  lemma {:induction false} FileRoundTrip(es: seq<Entry>, files: seq<seq<Byte>>, n: nat)
    requires Storable(es, files) && n < |files|
    ensures var img := Disk(es, files);
            WellFormed(img) && InodeCount(img) == |files| && InodeOk(img, n) && FileBytes(img, n) == files[n]
  {
    var img, file := Disk(es, files), files[n];
    Counts(es, files);
    forall i: nat | i < |files| ensures InodeOk(img, i) {
      InodeFits(es, files, i);
    }
    InodeThere(es, files, n);
    hide Disk, Laid, FirstBlock, FileLength, Data, InodeOk, Gathered, Blocks, InodeCount, BlockNumber;
    var at := 4096 * (1 + |files| + FirstBlock(files, n));
    DiskLength(es, files, n);
    hide BlockBytes, Storable;
    GatheredThere(es, files, n, at);
    FileThere(es, files, n);
    FileLengthFits(file);
    Prefix(img, at, at + 4096 * Blocks(|file|), |file|);
  }

  /** So a file that was written under a name is what the lookup of that name leads to. */
  lemma {:induction false} NamedFile(es: seq<Entry>, files: seq<seq<Byte>>, i: nat)
    requires Storable(es, files) && i < |es| && forall j | 0 <= j < i :: es[j].name != es[i].name
    requires es[i].inode < |files|
    ensures var img := Disk(es, files);
            && Laid(img) && FirstNamed(img, es[i].name, 0) == i && DirCount(img) == |es|
            && WordAt(img, EntryAt(i) + 32) == es[i].fileType && WordAt(img, EntryAt(i) + 36) == es[i].inode
    ensures var img, inode := Disk(es, files), es[i].inode;
            && WellFormed(img) && InodeCount(img) == |files| && InodeOk(img, inode)
            && FileBytes(img, inode) == files[inode]
  {
    hide Disk, Storable, Laid, InodeOk, FileBytes, FirstNamed, DirCount, InodeCount, WordAt;
    LookupFinds(es, files, i);
    EntryRoundTrip(es, files, i);
    FileRoundTrip(es, files, es[i].inode);
  }
}
