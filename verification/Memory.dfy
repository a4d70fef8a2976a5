/** The memory routines of the kernel library, over one flat byte memory. An address is an index, and the
  alignment tests look at its two lowest bits. */
module Memory {
  type Byte = x: int | 0 <= x < 256

  /** The value of a plain `char` that holds the byte: it is signed on this machine. */
  function Signed(b: Byte): int { if b < 128 then b else b - 256 }

  predicate NulFree(t: seq<Byte>) { forall k | 0 <= k < |t| :: t[k] != 0 }

  /** The bytes before the first NUL. */
  function CString(field: seq<Byte>): (t: seq<Byte>)
    ensures |t| <= |field| && NulFree(t) && field[..|t|] == t && (|t| < |field| ==> field[|t|] == 0)
  {
    if field == [] || field[0] == 0 then [] else [field[0]] + CString(field[1..])
  }

  const NUL: Byte := 0

  function WithoutNuls(buf: seq<Byte>): seq<Byte> {
    if buf == [] then [] else (if buf[0] == NUL then [] else [buf[0]]) + WithoutNuls(buf[1..])
  }

  /** Four bytes as the 32-bit word at their address, least significant byte first. */
  function WordOf(b0: Byte, b1: Byte, b2: Byte, b3: Byte): nat {
    b0 + 0x100 * b1 + 0x1_0000 * b2 + 0x100_0000 * b3
  }

  function ByteOf(w: nat, k: nat): Byte
    requires k < 4
  {
    if k == 0 then w % 0x100
    else if k == 1 then w / 0x100 % 0x100
    else if k == 2 then w / 0x1_0000 % 0x100
    else w / 0x100_0000 % 0x100
  }

  lemma {:induction false} WordBytes(b0: Byte, b1: Byte, b2: Byte, b3: Byte)
    ensures var w := WordOf(b0, b1, b2, b3);
            ByteOf(w, 0) == b0 && ByteOf(w, 1) == b1 && ByteOf(w, 2) == b2 && ByteOf(w, 3) == b3
  {
    var w := WordOf(b0, b1, b2, b3);
    assert w / 0x100 == b1 + 0x100 * b2 + 0x1_0000 * b3;
    assert w / 0x1_0000 == b2 + 0x100 * b3;
    assert w / 0x100_0000 == b3;
  }

  function ReadWord(mem: seq<Byte>, at: nat): nat
    requires at + 4 <= |mem|
  {
    WordOf(mem[at], mem[at + 1], mem[at + 2], mem[at + 3])
  }

  method StoreWord(mem: array<Byte>, at: nat, w: nat)
    requires at + 4 <= mem.Length
    modifies mem
    ensures forall i | 0 <= i < mem.Length :: mem[i] == if at <= i < at + 4 then ByteOf(w, i - at) else old(mem[i])
  {
    mem[at], mem[at + 1], mem[at + 2], mem[at + 3] := ByteOf(w, 0), ByteOf(w, 1), ByteOf(w, 2), ByteOf(w, 3);
  }

  // ----- memset -----

  /** `now` is `was` with `n` bytes at `at` set to `c`, and nothing else changed. */
  ghost predicate Filled(now: seq<Byte>, was: seq<Byte>, at: nat, c: Byte, n: nat) {
    && |now| == |was| && at + n <= |was|
    && (forall i | 0 <= i < |now| && !(at <= i < at + n) :: now[i] == was[i])
    && (forall i | at <= i < at + n :: now[i] == c)
  }

  /** Bytes up to the first aligned address, then words, then the bytes left over: the same as byte by byte. */
  method Memset(mem: array<Byte>, s: nat, c: int, n: nat)
    requires s + n <= mem.Length
    modifies mem
    ensures Filled(mem[..], old(mem[..]), s, c % 256, n)
  {
    var al: Byte := c % 256;
    var edi: nat, ecx: nat := s, n;
    while ecx != 0 && edi % 4 != 0
      invariant s <= edi && edi + ecx == s + n
      invariant Filled(mem[..], old(mem[..]), s, al, edi - s)
    {
      mem[edi] := al;
      edi, ecx := edi + 1, ecx - 1;
    }
    var edx: nat := ecx % 4;
    FillWords(mem, edi, al, WordOf(al, al, al, al), ecx / 4);
    edi := edi + 4 * (ecx / 4);
    while edx != 0
      invariant s <= edi && edi + edx == s + n
      invariant Filled(mem[..], old(mem[..]), s, al, edi - s)
    {
      mem[edi] := al;
      edi, edx := edi + 1, edx - 1;
    }
  }

  method FillWords(mem: array<Byte>, at: nat, al: Byte, eax: nat, words: nat)
    requires at + 4 * words <= mem.Length && eax == WordOf(al, al, al, al)
    modifies mem
    ensures Filled(mem[..], old(mem[..]), at, al, 4 * words)
  {
    WordBytes(al, al, al, al);
    var edi: nat, ecx: nat := at, words;
    while ecx != 0
      invariant edi + 4 * ecx == at + 4 * words && at <= edi
      invariant Filled(mem[..], old(mem[..]), at, al, edi - at)
    {
      StoreWord(mem, edi, eax);
      edi, ecx := edi + 4, ecx - 1;
    }
  }

  // ----- memcpy and memmove -----

  /** `now` is `was` with the `n` bytes at `src` copied to `dest`, and nothing else changed. */
  ghost predicate Copied(now: seq<Byte>, was: seq<Byte>, dest: nat, src: nat, n: nat) {
    && |now| == |was| && dest + n <= |was| && src + n <= |was|
    && (forall i | 0 <= i < |now| && !(dest <= i < dest + n) :: now[i] == was[i])
    && (forall i | dest <= i < dest + n :: now[i] == was[i - dest + src])
  }

  predicate Disjoint(a: nat, b: nat, n: nat) { a + n <= b || b + n <= a }

  lemma {:induction false} CopiedTwice(now: seq<Byte>, mid: seq<Byte>, was: seq<Byte>, dest: nat, src: nat,
                                       k: nat, m: nat)
    requires Copied(mid, was, dest, src, k) && Copied(now, mid, dest + k, src + k, m) && Disjoint(dest, src, k + m)
    ensures Copied(now, was, dest, src, k + m)
  {
    forall i | dest <= i < dest + k + m ensures now[i] == was[i - dest + src] {
      if i < dest + k { assert now[i] == mid[i]; } else { assert mid[i - dest + src] == was[i - dest + src]; }
    }
  }

  /** Bytes until the destination is aligned. */
  method CopyHead(mem: array<Byte>, dest: nat, src: nat, n: nat) returns (k: nat)
    requires dest + n <= mem.Length && src + n <= mem.Length && Disjoint(dest, src, n)
    modifies mem
    ensures k <= n && (k == n || (dest + k) % 4 == 0)
    ensures Copied(mem[..], old(mem[..]), dest, src, k)
  {
    ghost var was := mem[..];
    k := 0;
    while k != n && (dest + k) % 4 != 0
      invariant k <= n && Copied(mem[..], was, dest, src, k)
    {
      assert mem[..][src + k] == was[src + k];
      mem[dest + k] := mem[src + k];
      k := k + 1;
    }
  }

  method CopyWords(mem: array<Byte>, dest: nat, src: nat, words: nat)
    requires dest + 4 * words <= mem.Length && src + 4 * words <= mem.Length && Disjoint(dest, src, 4 * words)
    modifies mem
    ensures Copied(mem[..], old(mem[..]), dest, src, 4 * words)
  {
    ghost var was := mem[..];
    var edi: nat, esi: nat, ecx: nat := dest, src, words;
    while ecx != 0
      invariant edi + 4 * ecx == dest + 4 * words && dest <= edi && esi - src == edi - dest
      invariant Copied(mem[..], was, dest, src, edi - dest)
    {
      assert mem[..][esi] == was[esi] && mem[..][esi + 1] == was[esi + 1];
      assert mem[..][esi + 2] == was[esi + 2] && mem[..][esi + 3] == was[esi + 3];
      WordBytes(mem[esi], mem[esi + 1], mem[esi + 2], mem[esi + 3]);
      StoreWord(mem, edi, ReadWord(mem[..], esi));
      edi, esi, ecx := edi + 4, esi + 4, ecx - 1;
    }
  }

  method CopyTail(mem: array<Byte>, dest: nat, src: nat, n: nat)
    requires dest + n <= mem.Length && src + n <= mem.Length && Disjoint(dest, src, n)
    modifies mem
    ensures Copied(mem[..], old(mem[..]), dest, src, n)
  {
    ghost var was := mem[..];
    var k: nat := 0;
    while k != n
      invariant k <= n && Copied(mem[..], was, dest, src, k)
    {
      assert mem[..][src + k] == was[src + k];
      mem[dest + k] := mem[src + k];
      k := k + 1;
    }
  }

  /** The same three phases, aligned on the destination; the two ranges must not overlap. */
  method Memcpy(mem: array<Byte>, dest: nat, src: nat, n: nat)
    requires dest + n <= mem.Length && src + n <= mem.Length && Disjoint(dest, src, n)
    modifies mem
    ensures Copied(mem[..], old(mem[..]), dest, src, n)
  {
    hide Copied;
    ghost var was := mem[..];
    var k := CopyHead(mem, dest, src, n);
    ghost var mid := mem[..];
    var words := (n - k) / 4;
    var m := 4 * words;
    CopyWords(mem, dest + k, src + k, words);
    CopiedTwice(mem[..], mid, was, dest, src, k, m);
    mid := mem[..];
    CopyTail(mem, dest + k + m, src + k + m, n - k - m);
    CopiedTwice(mem[..], mid, was, dest, src, k + m, n - k - m);
  }

  /** Forwards when the source is not below the destination, backwards otherwise: right for every overlap. */
  method Memmove(mem: array<Byte>, dest: nat, src: nat, n: nat)
    requires dest + n <= mem.Length && src + n <= mem.Length
    modifies mem
    ensures Copied(mem[..], old(mem[..]), dest, src, n)
  {
    ghost var was := mem[..];
    var edi: int, esi: int, ecx: nat := dest, src, n;
    if src >= dest {
      while ecx != 0
        invariant edi + ecx == dest + n && dest <= edi && esi - src == edi - dest
        invariant Copied(mem[..], was, dest, src, edi - dest)
      {
        assert mem[..][esi] == was[esi];
        mem[edi] := mem[esi];
        edi, esi, ecx := edi + 1, esi + 1, ecx - 1;
      }
    } else {
      edi, esi := edi + ecx - 1, esi + ecx - 1;
      while ecx != 0
        invariant edi + 1 == dest + ecx && esi + 1 == src + ecx && ecx <= n
        invariant Copied(mem[..], was, dest + ecx, src + ecx, n - ecx)
      {
        assert mem[..][esi] == was[esi];
        mem[edi] := mem[esi];
        edi, esi, ecx := edi - 1, esi - 1, ecx - 1;
      }
    }
  }
}
