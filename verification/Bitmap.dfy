/** The frame bitmap of memory.c: eight frames to a byte, a set bit for a used frame. */
module Bitmap {
  import opened Basics

  /** `1 << b` for a bit of one byte. */
  function Mask(b: nat): bv8
    requires b < 8
  {
    if b == 0 then 1 else if b == 1 then 2 else if b == 2 then 4 else if b == 3 then 8
    else if b == 4 then 16 else if b == 5 then 32 else if b == 6 then 64 else 128
  }

  /** `x | (1 << b)` and `x & ~(1 << b)`. */
  function WithBit(x: bv8, b: nat): bv8
    requires b < 8
  {
    x | Mask(b)
  }

  function WithoutBit(x: bv8, b: nat): bv8
    requires b < 8
  {
    x & !Mask(b)
  }

  predicate Used(m: seq<bv8>, f: nat)
    requires f < 8 * |m|
  {
    m[f / 8] & Mask(f % 8) != 0
  }

  /** Bit `b` of a byte is the one that `1 << b` has. */
  lemma MaskIsShift(b: nat)
    requires b < 8
    ensures Mask(b) == (1 as bv8) << b
  {}

  /** Frame `f` is bit `f % 8` of byte `f / 8`. */
  lemma UsedIsBit(m: seq<bv8>, f: nat)
    requires f < 8 * |m|
    ensures Used(m, f) <==> m[f / 8] & ((1 as bv8) << (f % 8)) != 0
  {
    MaskIsShift(f % 8);
  }

  lemma SetBit(x: bv8, i: nat, j: nat)
    requires i < 8 && j < 8
    ensures WithBit(x, i) & Mask(j) != 0 <==> i == j || x & Mask(j) != 0
  {}

  lemma ClearBit(x: bv8, i: nat, j: nat)
    requires i < 8 && j < 8
    ensures WithoutBit(x, i) & Mask(j) != 0 <==> i != j && x & Mask(j) != 0
  {}

  /** A byte reads 0xFF exactly when all eight of its frames are used. */
  lemma FullByte(m: seq<bv8>, k: nat)
    requires k < |m|
    ensures m[k] == 0xFF <==> forall g | 8 * k <= g < 8 * k + 8 :: Used(m, g)
  {
    EightBits(m[k]);
    if forall g | 8 * k <= g < 8 * k + 8 :: Used(m, g) {
      forall b: nat | b < 8 ensures m[k] & Mask(b) != 0 { assert Used(m, 8 * k + b); }
    }
    hide Mask;
    forall g | 8 * k <= g < 8 * k + 8 && m[k] == 0xFF ensures Used(m, g) {
      assert g / 8 == k;
    }
  }

  lemma EightBits(x: bv8)
    ensures x == 0xFF <==> forall b: nat | b < 8 :: x & Mask(b) != 0
  {
    if forall b: nat | b < 8 :: x & Mask(b) != 0 {
      assert x & Mask(0) != 0 && x & Mask(1) != 0 && x & Mask(2) != 0 && x & Mask(3) != 0;
      assert x & Mask(4) != 0 && x & Mask(5) != 0 && x & Mask(6) != 0 && x & Mask(7) != 0;
    }
  }

  /** Marking a frame used changes that frame only. */
  lemma MarkUsed(m: seq<bv8>, n: seq<bv8>, f: nat)
    requires f < 8 * |m| && n == m[f / 8 := WithBit(m[f / 8], f % 8)]
    ensures forall g: nat | g < 8 * |m| :: Used(n, g) <==> g == f || Used(m, g)
  {
    forall g: nat | g < 8 * |m| ensures Used(n, g) <==> g == f || Used(m, g) {
      if g / 8 == f / 8 { SetBit(m[f / 8], f % 8, g % 8); }
    }
  }

  lemma MarkFree(m: seq<bv8>, n: seq<bv8>, f: nat)
    requires f < 8 * |m| && n == m[f / 8 := WithoutBit(m[f / 8], f % 8)]
    ensures forall g: nat | g < 8 * |m| :: Used(n, g) <==> g != f && Used(m, g)
  {
    forall g: nat | g < 8 * |m| ensures Used(n, g) <==> g != f && Used(m, g) {
      if g / 8 == f / 8 { ClearBit(m[f / 8], f % 8, g % 8); }
    }
  }

  /** The two loops of `alloc_page`: skip full bytes, then look at the bits of the first other byte. */
  method FindFree(bitmap: array<bv8>, total: nat) returns (f: Option<nat>)
    requires 8 * bitmap.Length <= total
    ensures f.Some? ==> f.value < 8 * bitmap.Length && !Used(bitmap[..], f.value)
                        && forall g: nat | g < f.value :: Used(bitmap[..], g)
    ensures f.None? ==> forall g: nat | g < 8 * bitmap.Length :: Used(bitmap[..], g)
  {
    var k := 0;
    while k < bitmap.Length
      invariant k <= bitmap.Length
      invariant forall g: nat | g < 8 * k :: Used(bitmap[..], g)
    {
      FullByte(bitmap[..], k);
      if bitmap[k] != 0xFF {
        var b := 0;
        while b < 8
          invariant b <= 8
          invariant forall g: nat | g < 8 * k + b :: Used(bitmap[..], g)
        {
          assert (8 * k + b) / 8 == k && (8 * k + b) % 8 == b;
          if bitmap[k] & Mask(b) == 0 {
            if 8 * k + b >= total { return None; }
            return Some(8 * k + b);
          }
          assert Used(bitmap[..], 8 * k + b);
          b := b + 1;
        }
        assert false;
      }
      k := k + 1;
    }
    return None;
  }
}
