/** The kernel bitmap: an array of bits kept in an array of 32-bit elements, one bit of the map to each bit of an element
    (`pintos/src/lib/kernel/bitmap.c`).  The class is proved against the plain
    sequence of booleans returned by `Bits()`. */
module Bitmap {
  const ELEM_BITS := 32
  /** The all-ones `size_t` returned when no group of bits is found. */
  const BITMAP_ERROR: nat := 0xFFFF_FFFF

  function ElemIdx(bitIdx: nat): nat { bitIdx / ELEM_BITS }

  function ElemCnt(bitCnt: nat): nat { (bitCnt + ELEM_BITS - 1) / ELEM_BITS }

  /** One element, as its bits from the least significant one up; the bitwise
      operators work bit by bit. */
  type Elem = w: seq<bool> | |w| == ELEM_BITS witness seq(ELEM_BITS, _ => false)

  function Zero(): Elem { seq(ELEM_BITS, _ => false) }

  function BitMask(bitIdx: nat): Elem { Zero()[bitIdx % ELEM_BITS := true] }

  function Or(w: Elem, m: Elem): Elem { seq(ELEM_BITS, i requires 0 <= i < ELEM_BITS => w[i] || m[i]) }

  function And(w: Elem, m: Elem): Elem { seq(ELEM_BITS, i requires 0 <= i < ELEM_BITS => w[i] && m[i]) }

  function Not(m: Elem): Elem { seq(ELEM_BITS, i requires 0 <= i < ELEM_BITS => !m[i]) }

  /** The test `w & mask != 0` reads exactly the masked bit. */
  lemma MaskReadsBit(w: Elem, bitIdx: nat)
    ensures And(w, BitMask(bitIdx)) != Zero() <==> w[bitIdx % ELEM_BITS]
  {
    var k := bitIdx % ELEM_BITS;
    if w[k] {
      assert And(w, BitMask(bitIdx))[k] != Zero()[k];
    }
  }

  /** All of the `cnt` bits from `start` on have value `value`. */
  ghost predicate Group(bits: seq<bool>, start: nat, cnt: nat, value: bool) {
    start + cnt <= |bits| && forall i :: start <= i < start + cnt ==> bits[i] == value
  }

  /** `bits` with the `cnt` bits from `start` on set to `value`. */
  function SetGroup(bits: seq<bool>, start: nat, cnt: nat, value: bool): (r: seq<bool>)
    requires start + cnt <= |bits|
    ensures |r| == |bits| && Group(r, start, cnt, value)
    ensures forall i :: 0 <= i < |bits| && !(start <= i < start + cnt) ==> r[i] == bits[i]
  {
    bits[..start] + seq(cnt, _ => value) + bits[start + cnt..]
  }

  class Bitmap {
    const bitCnt: nat
    const elems: array<Elem>

    ghost predicate Valid()
      reads this
    {
      elems.Length == ElemCnt(bitCnt) && bitCnt < BITMAP_ERROR
    }

    ghost function Bits(): (s: seq<bool>)
      requires Valid()
      reads this, elems
      ensures |s| == bitCnt
    {
      seq(bitCnt, i requires 0 <= i < bitCnt && elems.Length == ElemCnt(bitCnt) reads elems => elems[ElemIdx(i)][i % ELEM_BITS])
    }

    /** `bitmap_create`: every bit starts false. */
    constructor (cnt: nat)
      requires cnt < BITMAP_ERROR
      ensures Valid() && bitCnt == cnt && fresh(elems)
      ensures Bits() == seq(cnt, _ => false)
    {
      bitCnt := cnt;
      elems := new Elem[ElemCnt(cnt)];
      new;
      SetMultiple(0, bitCnt, false);
    }

    method Mark(idx: nat)
      requires Valid() && idx < bitCnt
      modifies elems
      ensures Bits() == old(Bits())[idx := true]
    {
      var e := ElemIdx(idx);
      elems[e] := Or(elems[e], BitMask(idx));
    }

    method Reset(idx: nat)
      requires Valid() && idx < bitCnt
      modifies elems
      ensures Bits() == old(Bits())[idx := false]
    {
      var e := ElemIdx(idx);
      elems[e] := And(elems[e], Not(BitMask(idx)));
    }

    method Set(idx: nat, value: bool)
      requires Valid() && idx < bitCnt
      modifies elems
      ensures Bits() == old(Bits())[idx := value]
    {
      if value { Mark(idx); } else { Reset(idx); }
    }

    method Test(idx: nat) returns (b: bool)
      requires Valid() && idx < bitCnt
      ensures b == Bits()[idx]
    {
      b := And(elems[ElemIdx(idx)], BitMask(idx)) != Zero();
      MaskReadsBit(elems[ElemIdx(idx)], idx);
    }

    method SetMultiple(start: nat, cnt: nat, value: bool)
      requires Valid() && start + cnt <= bitCnt
      modifies elems
      ensures Bits() == SetGroup(old(Bits()), start, cnt, value)
    {
      var i := 0;
      while i < cnt
        invariant 0 <= i <= cnt
        invariant forall j :: 0 <= j < bitCnt ==> Bits()[j] == if start <= j < start + i then value else old(Bits())[j]
      {
        Set(start + i, value);
        i := i + 1;
      }
    }

    /** Is some bit of the group equal to `value`? */
    method Contains(start: nat, cnt: nat, value: bool) returns (b: bool)
      requires Valid() && start + cnt <= bitCnt
      ensures b <==> !Group(Bits(), start, cnt, !value)
    {
      var i := 0;
      while i < cnt
        invariant 0 <= i <= cnt
        invariant Group(Bits(), start, i, !value)
      {
        var t := Test(start + i);
        if t == value {
          return true;
        }
        i := i + 1;
      }
      return false;
    }

    /** The first group of `cnt` bits equal to `value` at or after `start`, or
        `BITMAP_ERROR` when there is none. */
    method Scan(start: nat, cnt: nat, value: bool) returns (idx: nat)
      requires Valid() && start <= bitCnt
      ensures idx != BITMAP_ERROR ==> start <= idx && Group(Bits(), idx, cnt, value)
      ensures forall i :: start <= i < idx ==> !Group(Bits(), i, cnt, value)
    {
      if cnt <= bitCnt {
        var last := bitCnt - cnt;
        var i := start;
        while i <= last
          invariant start <= i && i <= bitCnt + 1
          invariant forall j :: start <= j < i ==> !Group(Bits(), j, cnt, value)
        {
          var other := Contains(i, cnt, !value);
          if !other {
            return i;
          }
          i := i + 1;
        }
      }
      idx := BITMAP_ERROR;
    }

    method ScanAndFlip(start: nat, cnt: nat, value: bool) returns (idx: nat)
      requires Valid() && start <= bitCnt
      modifies elems
      ensures forall i :: start <= i < idx ==> !Group(old(Bits()), i, cnt, value)
      ensures idx == BITMAP_ERROR ==> Bits() == old(Bits())
      ensures idx != BITMAP_ERROR ==>
                && start <= idx && Group(old(Bits()), idx, cnt, value)
                && Bits() == SetGroup(old(Bits()), idx, cnt, !value)
    {
      ghost var was := Bits();
      idx := Scan(start, cnt, value);
      assert Bits() == was;
      if idx != BITMAP_ERROR {
        SetMultiple(idx, cnt, !value);
      }
    }
  }
}
