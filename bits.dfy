/**
 * C's fixed-width unsigned integers and the bitwise operators the driver
 * uses on them: `&` and `|` defined on integers bit by bit, the shifts
 * `<<` and `>>` arithmetically, with the two facts its byte packing relies on: OR of non-overlapping
 * fields is their sum, and AND with a low mask is a remainder.
 */
module Bits {

  /** `uint8_t`, `uint16_t` and `uint32_t`. */
  type u8 = x: int | 0 <= x < 0x100
  type u16 = x: int | 0 <= x < 0x1_0000
  type u32 = x: int | 0 <= x < 0x1_0000_0000

  /** 2^k */
  function Pow2(k: nat): (p: nat)
    ensures p >= 1
  {
    if k == 0 then 1 else 2 * Pow2(k - 1)
  }

  /** The byte-multiple powers the driver shifts by. */
  lemma Pow2Bytes()
    ensures Pow2(8) == 0x100 && Pow2(16) == 0x1_0000
  {
    assert Pow2(4) == 0x10;
    assert Pow2(8) == 0x100;
    assert Pow2(12) == 0x1000;
  }

  /**
   * `x << k` on a `uint32_t`: bits moved past bit 31 are lost, so a shift
   * that moves no bit that far is a multiplication by 2^k.
   */
  function ShiftLeft(x: u32, k: nat): (y: u32)
    ensures x * Pow2(k) < 0x1_0000_0000 ==> y == x * Pow2(k)
  {
    if x * Pow2(k) < 0x1_0000_0000 then
      DivModUnique(x * Pow2(k), 0x1_0000_0000, 0, x * Pow2(k));
      (x * Pow2(k)) % 0x1_0000_0000
    else
      (x * Pow2(k)) % 0x1_0000_0000
  }

  /**
   * `x >> k`: the floor of x / 2^k. For a non-negative value this is C's
   * shift. For a negative `int` C leaves the result implementation-defined;
   * GCC on ARM shifts arithmetically, which is the same floor division, so
   * one definition serves both.
   */
  function ShiftRight(x: int, k: nat): (y: int)
    ensures y * Pow2(k) <= x < y * Pow2(k) + Pow2(k)
    ensures x >= 0 ==> y >= 0
  {
    assert x >= 0 ==> x / Pow2(k) >= 0 by {
      if x >= 0 {
        DivOfNatIsNat(x, Pow2(k));
      }
    }
    x / Pow2(k)
  }

  /** Bitwise AND, from the lowest bit up. */
  function BitAnd(x: nat, y: nat): (z: nat)
    ensures z <= x && z <= y
    decreases x
  {
    if x == 0 || y == 0 then 0
    else 2 * BitAnd(x / 2, y / 2) + (if x % 2 == 1 && y % 2 == 1 then 1 else 0)
  }

  /** Bitwise OR, from the lowest bit up. */
  function BitOr(x: nat, y: nat): (z: nat)
    ensures x <= z && y <= z && z <= x + y
    decreases x
  {
    if x == 0 then y
    else if y == 0 then x
    else 2 * BitOr(x / 2, y / 2) + (if x % 2 == 1 || y % 2 == 1 then 1 else 0)
  }

  /** A positive multiple of d is at least d. */
  lemma MulMono(d: int, e: int)
    requires d > 0 && e >= 1
    ensures d * e >= d
  {
    assert d * e == d * (e - 1) + d;
  }

  /** The only multiple of d strictly between -d and d is zero. */
  lemma SmallMultipleIsZero(d: int, e: int)
    requires d > 0 && -d < d * e < d
    ensures e == 0
  {
    if e >= 1 {
      MulMono(d, e);
    } else if e <= -1 {
      MulMono(d, -e);
    }
  }

  /** Dividing a natural number by a positive one gives a natural number. */
  lemma DivOfNatIsNat(x: nat, d: int)
    requires d > 0
    ensures x / d >= 0
  {
    var q := x / d;
    if q <= -1 {
      MulMono(d, -q);
    }
  }

  /** Quotient and remainder are the only pair that rebuild x. */
  lemma DivModUnique(x: int, d: int, q: int, r: int)
    requires d > 0 && x == d * q + r && 0 <= r < d
    ensures x / d == q && x % d == r
  {
    var q0, r0 := x / d, x % d;
    assert x == d * q0 + r0;
    assert d * (q - q0) == r0 - r;
    SmallMultipleIsZero(d, q - q0);
  }

  /** Splitting off the lowest bit of x modulo 2P. */
  lemma ModDouble(x: nat, p: nat)
    requires p >= 1
    ensures x % (2 * p) == 2 * ((x / 2) % p) + x % 2
  {
    var q, s := (x / 2) / p, (x / 2) % p;
    assert x / 2 == p * q + s;
    assert x == (2 * p) * q + (2 * s + x % 2);
    DivModUnique(x, 2 * p, q, 2 * s + x % 2);
  }

  /** A multiple of 2P halves to a multiple of P. */
  lemma HalfOfMultiple(x: nat, p: nat)
    requires p >= 1 && x % (2 * p) == 0
    ensures x % 2 == 0 && (x / 2) % p == 0
  {
    var t := x / (2 * p);
    assert x == 2 * (p * t);
    DivModUnique(x / 2, p, t, 0);
  }

  /** One step of AND with an odd mask 2p - 1: the low bit of x is kept. */
  lemma AndOddMask(x: nat, p: nat)
    requires x > 0 && p >= 1
    ensures BitAnd(x, 2 * p - 1) == 2 * BitAnd(x / 2, p - 1) + x % 2
  {
    var m := 2 * p - 1;
    DivModUnique(m, 2, p - 1, 1);
    assert m / 2 == p - 1 && m % 2 == 1;
    var lowBit := if x % 2 == 1 then 1 else 0;
    assert lowBit == x % 2;
  }

  /** AND with the mask 2^k - 1 keeps exactly the low k bits. */
  lemma {:induction false} AndLowMask(x: nat, k: nat)
    ensures BitAnd(x, Pow2(k) - 1) == x % Pow2(k)
  {
    if k > 0 && x > 0 {
      AndLowMask(x / 2, k - 1);
      AndLowMaskStep(x, k);
    } else {
      AndLowMaskBase(x, k);
    }
  }

  /** The low-mask fact for x carries over from x / 2, one bit down. */
  lemma AndLowMaskStep(x: nat, k: nat)
    requires k > 0 && x > 0
    requires BitAnd(x / 2, Pow2(k - 1) - 1) == (x / 2) % Pow2(k - 1)
    ensures BitAnd(x, Pow2(k) - 1) == x % Pow2(k)
  {
    var p := Pow2(k - 1);
    var h, low := BitAnd(x / 2, p - 1), x % 2;
    assert Pow2(k) - 1 == 2 * p - 1;
    assert BitAnd(x, 2 * p - 1) == 2 * h + low by {
      AndOddMask(x, p);
    }
    assert x % Pow2(k) == 2 * h + low by {
      ModDouble(x, p);
    }
  }

  /** The low-mask fact with an empty mask or a zero value. */
  lemma AndLowMaskBase(x: nat, k: nat)
    requires k == 0 || x == 0
    ensures BitAnd(x, Pow2(k) - 1) == x % Pow2(k)
  {
    if k == 0 {
      DivModUnique(x, Pow2(k), x, 0);
    } else {
      DivModUnique(x, Pow2(k), 0, 0);
    }
  }

  /** OR does not depend on the order of its operands. */
  lemma {:induction false} OrCommutes(x: nat, y: nat)
    ensures BitOr(x, y) == BitOr(y, x)
    decreases x
  {
    if x > 0 && y > 0 {
      OrCommutes(x / 2, y / 2);
    }
  }

  /**
   * OR of a value whose low k bits are clear with a value below 2^k is
   * their sum: the fields do not overlap.
   */
  lemma {:induction false} OrDisjoint(x: nat, y: nat, k: nat)
    requires x % Pow2(k) == 0 && y < Pow2(k)
    ensures BitOr(x, y) == x + y
  {
    if k > 0 && x > 0 && y > 0 {
      var p := Pow2(k - 1);
      HalfOfMultiple(x, p);
      OrDisjoint(x / 2, y / 2, k - 1);
    }
  }
}
