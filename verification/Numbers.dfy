/** Printing numbers: the digits written low to high, reversed in place, and read back. */
module Numbers {
  import opened Memory

  const TWO_32: nat := 0x1_0000_0000

  type Radix = r: int | 2 <= r <= 36 witness 2

  /** The entry of the lookup table for a digit, and its inverse. */
  function CharOf(d: nat): Byte
    requires d < 36
  {
    if d < 10 then 48 + d else 55 + d
  }

  function DigitOf(c: Byte): int { if 48 <= c < 58 then c - 48 else c - 55 }

  predicate IsDigit(c: Byte, radix: Radix) { (48 <= c < 58 || 65 <= c < 91) && DigitOf(c) < radix }

  /** The number a text of digits denotes, the last digit counting least. */
  function Decode(text: seq<Byte>, radix: Radix): int {
    if text == [] then 0 else Decode(text[..|text| - 1], radix) * radix + DigitOf(text[|text| - 1])
  }

  function LowFirst(text: seq<Byte>, radix: Radix): int {
    if text == [] then 0 else DigitOf(text[0]) + radix * LowFirst(text[1..], radix)
  }

  function Reversed(text: seq<Byte>): (r: seq<Byte>)
    ensures |r| == |text|
  {
    if text == [] then [] else Reversed(text[1..]) + [text[0]]
  }

  lemma {:induction false} ReversedAt(text: seq<Byte>, k: nat)
    requires k < |text|
    ensures Reversed(text)[k] == text[|text| - 1 - k]
  {
    if k < |text| - 1 {
      ReversedAt(text[1..], k);
    }
  }

  lemma {:induction false} DecodeAppend(text: seq<Byte>, c: Byte, radix: Radix)
    ensures Decode(text + [c], radix) == DigitOf(c) + radix * Decode(text, radix)
  {
    assert (text + [c])[..|text|] == text;
  }

  lemma {:induction false} DecodeReversed(text: seq<Byte>, radix: Radix)
    ensures Decode(Reversed(text), radix) == LowFirst(text, radix)
  {
    if text == [] {
    } else {
      DecodeReversed(text[1..], radix);
      DecodeAppend(Reversed(text[1..]), text[0], radix);
      hide Decode;
      assert Reversed(text) == Reversed(text[1..]) + [text[0]];
      hide Reversed;
      assert LowFirst(text, radix) == DigitOf(text[0]) + radix * LowFirst(text[1..], radix);
      hide LowFirst;
    }
  }

  /** The digits of `v`, least significant first; none for 0. */
  function LowDigits(v: nat, radix: Radix): (text: seq<Byte>)
    ensures forall i | 0 <= i < |text| :: IsDigit(text[i], radix)
    ensures v > 0 ==> |text| > 0 && DigitOf(text[|text| - 1]) > 0
  {
    if v == 0 then []
    else
      Smaller(v, radix);
      [CharOf(v % radix)] + LowDigits(v / radix, radix)
  }

  lemma {:induction false} DivMod(v: nat, radix: Radix)
    ensures v == radix * (v / radix) + v % radix && 0 <= v % radix < radix && 0 <= v / radix
  {
  }

  lemma {:induction false} AtLeastDouble(q: nat, radix: Radix)
    ensures radix * q >= 2 * q
  {
    assert radix * q == 2 * q + (radix - 2) * q;
  }

  lemma {:induction false} Smaller(v: nat, radix: Radix)
    ensures 0 <= v / radix && (v > 0 ==> v / radix < v) && v / radix <= v / 2
    ensures v / radix == 0 ==> v % radix == v
    ensures v == v % radix + radix * (v / radix)
  {
    DivMod(v, radix);
    AtLeastDouble(v / radix, radix);
  }

  lemma {:induction false} LowFirstCons(d: nat, text: seq<Byte>, radix: Radix)
    requires d < 36
    ensures LowFirst([CharOf(d)] + text, radix) == d + radix * LowFirst(text, radix)
  {
    assert ([CharOf(d)] + text)[1..] == text;
  }

  lemma {:induction false} LowDigitsDenote(v: nat, radix: Radix)
    ensures LowFirst(LowDigits(v, radix), radix) == v
    decreases v
  {
    if v == 0 {
    } else {
      Smaller(v, radix);
      LowDigitsDenote(v / radix, radix);
      LowFirstCons(v % radix, LowDigits(v / radix, radix), radix);
    }
  }

  function Power(base: nat, k: nat): nat { if k == 0 then 1 else base * Power(base, k - 1) }

  lemma {:induction false} AtMostDigits(v: nat, radix: Radix, k: nat)
    requires v < Power(2, k)
    ensures |LowDigits(v, radix)| <= k
  {
    if v == 0 {
    } else {
      Smaller(v, radix);
      AtMostDigits(v / radix, radix, k - 1);
    }
  }

  lemma {:induction false} AtMostHexDigits(v: nat, k: nat)
    requires v < Power(16, k)
    ensures |LowDigits(v, 16)| <= k
  {
    if v == 0 {
    } else {
      AtMostHexDigits(v / 16, k - 1);
    }
  }

  /** The text `itoa` leaves: the digits, or a single 0. */
  function Numeral(v: nat, radix: Radix): seq<Byte> {
    if v == 0 then [48] else Reversed(LowDigits(v, radix))
  }

  /** The text denotes the value, has no leading zero unless it is 0 itself, and fits in 32 digits. */
  lemma {:induction false} NumeralDenotes(v: nat, radix: Radix)
    requires v < TWO_32
    ensures var text := Numeral(v, radix);
            && Decode(text, radix) == v
            && 1 <= |text| <= 32 && (forall i | 0 <= i < |text| :: IsDigit(text[i], radix))
            && (text[0] == 48 <==> v == 0)
  {
    var text := Numeral(v, radix);
    if v == 0 {
      assert text[..0] == [];
      assert Decode(text, radix) == Decode([], radix) * radix + DigitOf(48);
    } else {
      var low := LowDigits(v, radix);
      DecodeReversed(low, radix);
      LowDigitsDenote(v, radix);
      TwoTo32();
      AtMostDigits(v, radix, 32);
      forall i | 0 <= i < |text| ensures IsDigit(text[i], radix) {
        ReversedAt(low, i);
      }
      ReversedAt(low, 0);
    }
  }

  lemma {:induction false} TwoTo32()
    ensures Power(2, 32) == TWO_32 == Power(16, 8)
  {
    assert Power(2, 8) == 0x100;
    assert Power(2, 16) == 0x1_0000;
    assert Power(2, 24) == 0x100_0000;
    assert Power(16, 4) == 0x1_0000;
  }

  // ----- the loops -----

  ghost predicate IsText(mem: seq<Byte>, at: nat, text: seq<Byte>) {
    at + |text| < |mem| && mem[at..at + |text|] == text && mem[at + |text|] == 0 && 0 !in text
  }

  method Strlen(mem: array<Byte>, at: nat, ghost text: seq<Byte>) returns (len: nat)
    requires IsText(mem[..], at, text)
    ensures len == |text|
  {
    len := 0;
    while mem[at + len] != 0
      invariant len <= |text|
      invariant len < |text| ==> mem[at + len] == text[len]
      decreases |text| - len
    {
      assert len + 1 < |text| ==> mem[at..at + |text|][len + 1] == text[len + 1];
      len := len + 1;
    }
  }

  /** The text at `at` once the `beg` outermost pairs have been swapped. */
  ghost predicate SwappedTo(mem: seq<Byte>, at: nat, text: seq<Byte>, beg: nat) {
    && at + |text| < |mem|
    && forall j | at <= j < at + |text| ::
         mem[j] == if j - at < beg || j - at >= |text| - beg then text[|text| - 1 - (j - at)] else text[j - at]
  }

  lemma {:induction false} SwappedNone(mem: seq<Byte>, at: nat, text: seq<Byte>)
    requires IsText(mem, at, text)
    ensures SwappedTo(mem, at, text, 0)
  {
    forall j | at <= j < at + |text| ensures mem[j] == text[j - at] {
      assert mem[at..at + |text|][j - at] == mem[j];
    }
  }

  lemma {:induction false} SwappedAll(mem: seq<Byte>, at: nat, text: seq<Byte>, beg: nat)
    requires SwappedTo(mem, at, text, beg) && 2 * beg + 1 >= |text| && mem[at + |text|] == 0 && 0 !in text
    ensures IsText(mem, at, Reversed(text))
  {
    var r, now := Reversed(text), mem[at..at + |text|];
    forall k | 0 <= k < |text| ensures now[k] == r[k] && r[k] != 0 {
      ReversedAt(text, k);
      assert mem[at + k] == text[|text| - 1 - k];
    }
    assert now == r;
  }

  /** `strrev`: swaps from both ends. */
  method Strrev(mem: array<Byte>, at: nat, ghost text: seq<Byte>)
    requires IsText(mem[..], at, text)
    modifies mem
    ensures IsText(mem[..], at, Reversed(text))
    ensures forall j | 0 <= j < mem.Length && !(at <= j < at + |text|) :: mem[j] == old(mem[j])
  {
    var len := Strlen(mem, at, text);
    SwappedNone(mem[..], at, text);
    var beg: nat, end: int := 0, len as int - 1;
    while beg < end
      invariant end == |text| - 1 - beg && beg <= end + 1
      invariant SwappedTo(mem[..], at, text, beg)
      invariant forall j | 0 <= j < mem.Length && !(at <= j < at + |text|) :: mem[j] == old(mem[j])
    {
      var tmp := mem[at + end];
      mem[at + end] := mem[at + beg];
      mem[at + beg] := tmp;
      beg := beg + 1;
      end := end - 1;
    }
    SwappedAll(mem[..], at, text, beg);
  }

  lemma {:induction false} AllDigits(v: nat, radix: Radix, end: nat)
    requires end == 0
    ensures LowDigits(end, radix) == [] && 0 !in LowDigits(v, radix)
  {
    assert forall i | 0 <= i < |LowDigits(v, radix)| :: IsDigit(LowDigits(v, radix)[i], radix);
  }

  lemma {:induction false} NextDigit(text: seq<Byte>, k: nat, v: nat, radix: Radix)
    requires k <= |text| && text[k..] == LowDigits(v, radix) && v > 0
    ensures 0 <= v / radix < v && 0 <= v % radix < 36
    ensures k < |text| && text[k] == CharOf(v % radix) && text[k + 1..] == LowDigits(v / radix, radix)
  {
    Smaller(v, radix);
    assert text[k] == text[k..][0] && text[k + 1..] == text[k..][1..];
  }

  /** The loop of `itoa`: the low digits, least significant first, and the terminator. */
  method WriteLow(value: nat, mem: array<Byte>, at: nat, radix: Radix)
    requires at + |LowDigits(value, radix)| < mem.Length
    modifies mem
    ensures IsText(mem[..], at, LowDigits(value, radix))
    ensures forall j | 0 <= j < at :: mem[j] == old(mem[j])
  {
    ghost var text := LowDigits(value, radix);
    hide LowDigits;
    var k: nat, newval: nat := 0, value;
    while newval > 0
      invariant k <= |text| && text[k..] == LowDigits(newval, radix)
      invariant forall j | 0 <= j < k :: mem[at + j] == text[j]
      invariant forall j | 0 <= j < at :: mem[j] == old(mem[j])
      decreases newval
    {
      NextDigit(text, k, newval, radix);
      var i := newval % radix;
      mem[at + k] := CharOf(i);
      k := k + 1;
      newval := newval / radix;
    }
    mem[at + k] := 0;
    AllDigits(value, radix, newval);
    assert mem[at..at + k] == text;
  }

  /** `itoa` at `at`: low digits first, then the reversal. */
  method Itoa(value: nat, mem: array<Byte>, at: nat, radix: Radix)
    requires value < TWO_32 && at + 32 < mem.Length
    modifies mem
    ensures IsText(mem[..], at, Numeral(value, radix))
    ensures forall j | 0 <= j < at :: mem[j] == old(mem[j])
  {
    if value == 0 {
      mem[at] := 48;
      mem[at + 1] := 0;
      return;
    }
    hide IsText;
    TwoTo32();
    AtMostDigits(value, radix, 32);
    WriteLow(value, mem, at, radix);
    Strrev(mem, at, LowDigits(value, radix));
  }

  /** `%#x`: the text starts as far before the digits as they are short of eight. */
  method HexAligned(value: nat) returns (out: seq<Byte>)
    requires value < TWO_32
    ensures |out| == 8 && Decode(out, 16) == value && forall i | 0 <= i < 8 :: IsDigit(out[i], 16)
  {
    var conv := new Byte[64];
    Itoa(value, conv, 8, 16);
    ghost var text := Numeral(value, 16);
    NumeralDenotes(value, 16);
    TwoTo32();
    AtMostHexDigits(value, 8);
    var start := Strlen(conv, 8, text);
    ghost var zeros := PadZeros(conv, start, text);
    var len := Strlen(conv, start, zeros + text);
    ZerosDecode(zeros, text);
    out := conv[start..start + len];
  }

  /** The loop that puts zeros between `start` and the digits at 8. */
  method PadZeros(conv: array<Byte>, start: nat, ghost text: seq<Byte>) returns (ghost zeros: seq<Byte>)
    requires conv.Length == 64 && start <= 8 && IsText(conv[..], 8, text)
    modifies conv
    ensures |zeros| == 8 - start && (forall i | 0 <= i < |zeros| :: zeros[i] == 48)
    ensures IsText(conv[..], start, zeros + text)
  {
    ghost var was := conv[..];
    var i := start;
    while i < 8
      invariant start <= i <= 8
      invariant forall j | start <= j < i :: conv[j] == 48
      invariant forall j | 8 <= j < 64 :: conv[j] == was[j]
    {
      conv[i] := 48;
      i := i + 1;
    }
    zeros := conv[start..8];
    assert conv[8..8 + |text|] == was[8..8 + |text|];
    assert conv[start..8 + |text|] == zeros + text;
  }

  lemma {:induction false} ZerosDecode(zeros: seq<Byte>, text: seq<Byte>)
    requires forall i | 0 <= i < |zeros| :: zeros[i] == 48
    ensures Decode(zeros + text, 16) == Decode(text, 16)
    decreases |zeros| + |text|
  {
    var all := zeros + text;
    if text == [] && zeros == [] {
    } else if text != [] {
      assert all[..|all| - 1] == zeros + text[..|text| - 1];
      ZerosDecode(zeros, text[..|text| - 1]);
    } else {
      assert all[..|all| - 1] == zeros[..|zeros| - 1] + text;
      ZerosDecode(zeros[..|zeros| - 1], text);
    }
  }
}
