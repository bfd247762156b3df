// Bytes as eight bits, and bitmaps as sequences of bytes.
module Bits {
  // A byte by its bits, the least significant first.
  datatype Byte = Byte(b0: bool, b1: bool, b2: bool, b3: bool, b4: bool, b5: bool, b6: bool, b7: bool)

  const ZERO := Byte(false, false, false, false, false, false, false, false)
  const FULL := Byte(true, true, true, true, true, true, true, true)

  // (b >> k) & 1
  predicate Bit(b: Byte, k: nat)
    requires k < 8
  {
    match k
    case 0 => b.b0
    case 1 => b.b1
    case 2 => b.b2
    case 3 => b.b3
    case 4 => b.b4
    case 5 => b.b5
    case 6 => b.b6
    case _ => b.b7
  }

  // b | 1 << k
  function SetBit(b: Byte, k: nat): (r: Byte)
    requires k < 8
    ensures forall j :: 0 <= j < 8 ==> (Bit(r, j) <==> j == k || Bit(b, j))
  {
    match k
    case 0 => b.(b0 := true)
    case 1 => b.(b1 := true)
    case 2 => b.(b2 := true)
    case 3 => b.(b3 := true)
    case 4 => b.(b4 := true)
    case 5 => b.(b5 := true)
    case 6 => b.(b6 := true)
    case _ => b.(b7 := true)
  }

  // b & ~(1 << k)
  function ClearBit(b: Byte, k: nat): (r: Byte)
    requires k < 8
    ensures forall j :: 0 <= j < 8 ==> (Bit(r, j) <==> j != k && Bit(b, j))
  {
    match k
    case 0 => b.(b0 := false)
    case 1 => b.(b1 := false)
    case 2 => b.(b2 := false)
    case 3 => b.(b3 := false)
    case 4 => b.(b4 := false)
    case 5 => b.(b5 := false)
    case 6 => b.(b6 := false)
    case _ => b.(b7 := false)
  }

  // b & (~0 << n)
  function ClearLow(b: Byte, n: nat): (r: Byte)
    requires n <= 8
    ensures forall j :: 0 <= j < 8 ==> (Bit(r, j) <==> j >= n && Bit(b, j))
  {
    if n == 0 then b else ClearBit(ClearLow(b, n - 1), n - 1)
  }

  lemma FullByte(b: Byte)
    ensures b == FULL <==> forall j :: 0 <= j < 8 ==> Bit(b, j)
  {
    if forall j :: 0 <= j < 8 ==> Bit(b, j) {
      assert Bit(b, 0) && Bit(b, 1) && Bit(b, 2) && Bit(b, 3) && Bit(b, 4) && Bit(b, 5) && Bit(b, 6) && Bit(b, 7);
    }
  }

  // A bitmap: bit g is bit g % 8 of byte g / 8.
  function Flat(m: seq<Byte>): (b: seq<bool>)
    ensures |b| == 8 * |m|
  {
    seq(8 * |m|, g requires 0 <= g < 8 * |m| => Bit(m[g / 8], g % 8))
  }

  // The bits from lo up to hi set, or cleared.
  function SetRange(b: seq<bool>, lo: int, hi: int): (r: seq<bool>)
    ensures |r| == |b|
  {
    seq(|b|, g requires 0 <= g < |b| => b[g] || lo <= g < hi)
  }

  function ClearRange(b: seq<bool>, lo: int, hi: int): (r: seq<bool>)
    ensures |r| == |b|
  {
    seq(|b|, g requires 0 <= g < |b| => b[g] && !(lo <= g < hi))
  }

  // The least clear bit; the length of the map when every bit is set.
  function FirstClear(b: seq<bool>): (f: nat)
    ensures f <= |b| && (forall g :: 0 <= g < f ==> b[g]) && (f < |b| ==> !b[f])
  {
    if b == [] || !b[0] then 0 else 1 + FirstClear(b[1..])
  }

  lemma FirstClearIs(b: seq<bool>, f: nat)
    requires f <= |b| && (forall g :: 0 <= g < f ==> b[g]) && (f < |b| ==> !b[f])
    ensures FirstClear(b) == f
  {
  }

  // The same, byte by byte: bit k of byte y is bit 8 * y + k of the map.
  predicate RangeSet(old_: seq<Byte>, new_: seq<Byte>, lo: int, hi: int) {
    && |old_| == |new_|
    && forall y, k :: 0 <= y < |new_| && 0 <= k < 8 ==>
      (Bit(new_[y], k) <==> Bit(old_[y], k) || lo <= 8 * y + k < hi)
  }

  predicate RangeCleared(old_: seq<Byte>, new_: seq<Byte>, lo: int, hi: int) {
    && |old_| == |new_|
    && forall y, k :: 0 <= y < |new_| && 0 <= k < 8 ==>
      (Bit(new_[y], k) <==> Bit(old_[y], k) && !(lo <= 8 * y + k < hi))
  }

  predicate FullBelow(m: seq<Byte>, hi: int) {
    forall y, k :: 0 <= y < |m| && 0 <= k < 8 && 8 * y + k < hi ==> Bit(m[y], k)
  }

  lemma FlatSet(old_: seq<Byte>, new_: seq<Byte>, lo: int, hi: int)
    requires RangeSet(old_, new_, lo, hi)
    ensures Flat(new_) == SetRange(Flat(old_), lo, hi)
  {
    forall g | 0 <= g < 8 * |new_| ensures Flat(new_)[g] == SetRange(Flat(old_), lo, hi)[g] {
      assert g == 8 * (g / 8) + g % 8;
    }
  }

  lemma FlatCleared(old_: seq<Byte>, new_: seq<Byte>, lo: int, hi: int)
    requires RangeCleared(old_, new_, lo, hi)
    ensures Flat(new_) == ClearRange(Flat(old_), lo, hi)
  {
    forall g | 0 <= g < 8 * |new_| ensures Flat(new_)[g] == ClearRange(Flat(old_), lo, hi)[g] {
      assert g == 8 * (g / 8) + g % 8;
    }
  }

  lemma FlatFirstClear(m: seq<Byte>, f: nat)
    requires f <= 8 * |m| && FullBelow(m, f) && (f < 8 * |m| ==> !Bit(m[f / 8], f % 8))
    ensures FirstClear(Flat(m)) == f
  {
    forall g | 0 <= g < f ensures Flat(m)[g] {
      assert g == 8 * (g / 8) + g % 8;
    }
    FirstClearIs(Flat(m), f);
  }

  // ------------------------------------------------- loops inside one byte

  // for(k = 0; (b >> k) & 1; k++){}
  method FindClear(b: Byte) returns (k: nat)
    requires b != FULL
    ensures k < 8 && !Bit(b, k) && forall j :: 0 <= j < k ==> Bit(b, j)
  {
    FullByte(b);
    k := 0;
    while Bit(b, k)
      invariant k < 8 && forall j :: 0 <= j < k ==> Bit(b, j)
      decreases 8 - k
    {
      k := k + 1;
    }
  }

  // for(; k < 8; k++){ b |= 1 << k; if(--left == 0) break; }
  method FillByte(b: Byte, from: nat, n: nat) returns (r: Byte, left: nat)
    requires from < 8 && n > 0
    ensures left == if n <= 8 - from then 0 else n - (8 - from)
    ensures forall j :: 0 <= j < 8 ==> (Bit(r, j) <==> Bit(b, j) || from <= j < from + n)
  {
    var k := from;
    r, left := b, n;
    while k < 8
      invariant from <= k <= 8 && left == n - (k - from) && left > 0
      invariant forall j :: 0 <= j < 8 ==> (Bit(r, j) <==> Bit(b, j) || from <= j < k)
    {
      r := SetBit(r, k);
      left := left - 1;
      if left == 0 {
        return;
      }
      k := k + 1;
    }
  }

  // for(j = from; j < 8 && left > 0; j++, left--) b &= ~(1 << j);
  method WipeByte(b: Byte, from: nat, n: nat) returns (r: Byte, left: nat)
    requires from <= 8
    ensures left == if n <= 8 - from then 0 else n - (8 - from)
    ensures forall j :: 0 <= j < 8 ==> (Bit(r, j) <==> Bit(b, j) && !(from <= j < from + n))
  {
    var k := from;
    r, left := b, n;
    while k < 8 && left > 0
      invariant from <= k <= 8 && left == n - (k - from)
      invariant forall j :: 0 <= j < 8 ==> (Bit(r, j) <==> Bit(b, j) && !(from <= j < k))
      decreases 8 - k
    {
      r := ClearBit(r, k);
      k, left := k + 1, left - 1;
    }
  }
}
