// The bitmap of source/kernel/tools/bitmap.c: a byte array that stands for a sequence of bits.
module Bitmaps {

  function ByteCount(bitCount: nat): nat {
    (bitCount + 8 - 1) / 8
  }

  // 1 << k
  function Mask(k: nat): bv8
    requires k < 8
  {
    if k == 0 then 0x01 else if k == 1 then 0x02 else if k == 2 then 0x04 else if k == 3 then 0x08
    else if k == 4 then 0x10 else if k == 5 then 0x20 else if k == 6 then 0x40 else 0x80
  }

  predicate BitOf(b: bv8, k: nat)
    requires k < 8
  {
    b & Mask(k) != 0
  }

  // x with bit k set to b
  function WithBit(x: bv8, k: nat, b: bool): bv8
    requires k < 8
  {
    if b then x | Mask(k) else x & !Mask(k)
  }

  lemma SetThenGet(x: bv8, a: nat, k: nat, b: bool)
    requires a < 8 && k < 8
    ensures BitOf(WithBit(x, a, b), k) == if a == k then b else BitOf(x, k)
  {
  }

  // C's bitwise complement of an int.
  function Complement(x: int): int {
    -1 - x
  }

  // The first n bits of a byte array, least significant bit first.
  function BitsOf(bytes: seq<bv8>, n: nat): (v: seq<bool>)
    requires ByteCount(n) <= |bytes|
    ensures |v| == n
  {
    seq(n, k requires 0 <= k < n => BitAt(bytes, k))
  }

  // Bit k of a row of bytes.
  predicate BitAt(bytes: seq<bv8>, k: nat)
    requires k < 8 * |bytes|
  {
    BitOf(bytes[k / 8], k % 8)
  }

  // In a byte the lowest bit comes first: bit k is the one that a shift to the right by k % 8 brings to the end.
  lemma BitIsShifted(bytes: seq<bv8>, k: nat)
    requires k < 8 * |bytes|
    ensures BitAt(bytes, k) <==> (bytes[k / 8] >> (k % 8)) & 1 == 1
  {
    var x, r := bytes[k / 8], k % 8;
    if r == 0 {
    } else if r == 1 {
    } else if r == 2 {
    } else if r == 3 {
    } else if r == 4 {
    } else if r == 5 {
    } else if r == 6 {
    } else {
    }
  }

  lemma BitAtUpdate(bytes: seq<bv8>, index: nat, b: bool, k: nat)
    requires index < 8 * |bytes| && k < 8 * |bytes|
    ensures BitAt(bytes[index / 8 := WithBit(bytes[index / 8], index % 8, b)], k)
         == if k == index then b else BitAt(bytes, k)
  {
    var q, r := index / 8, k % 8;
    SetThenGet(bytes[q], index % 8, r, b);
  }

  // The bits of v with the part of [index, index + count) that lies inside v set to b.
  function SetRange(v: seq<bool>, index: int, count: int, b: bool): (r: seq<bool>)
    ensures |r| == |v|
    ensures forall k :: 0 <= k < |v| ==> r[k] == if index <= k < index + count then b else v[k]
  {
    seq(|v|, k requires 0 <= k < |v| => if index <= k < index + count then b else v[k])
  }

  ghost predicate RunAt(v: seq<bool>, i: int, n: int, b: bool) {
    0 <= i && i + n <= |v| && forall k :: i <= k < i + n ==> v[k] == b
  }

  // How many bits AllocNbits really looks at. The look-ahead loop reads the first bit of the run a
  // second time, so a request for count >= 2 bits examines count - 1 of them.
  function Examined(count: int): (w: int)
    ensures w >= 1
  {
    if count <= 1 then 1 else count - 1
  }

  // r is the answer of AllocNbits on the bits v.
  ghost predicate FirstFit(v: seq<bool>, b: bool, count: int, r: int) {
    if r == -1 then
      forall i :: !RunAt(v, i, Examined(count), b)
    else
      RunAt(v, r, Examined(count), b) && forall i :: 0 <= i < r ==> !RunAt(v, i, Examined(count), b)
  }

  class Bitmap {
    const bitCount: nat
    const bits: array<bv8>

    ghost predicate Valid() {
      ByteCount(bitCount) <= bits.Length
    }

    ghost function View(): (v: seq<bool>)
      requires Valid()
      reads bits
      ensures |v| == bitCount
    {
      BitsOf(bits[..], bitCount)
    }

    // bitmap_init
    constructor (bits: array<bv8>, count: nat, initBit: int)
      requires ByteCount(count) <= bits.Length
      modifies bits
      ensures Valid() && this.bits == bits && bitCount == count
      ensures View() == seq(count, k => initBit != 0)
      ensures forall k :: (count + 7) / 8 <= k < bits.Length ==> bits[k] == old(bits[k])
    {
      this.bits := bits;
      this.bitCount := count;
      new;
      var bytes := ByteCount(count);
      var fill: bv8 := if initBit != 0 then 0xff else 0;
      for i := 0 to bytes
        invariant forall k :: 0 <= k < i ==> bits[k] == fill
        invariant forall k :: bytes <= k < bits.Length ==> bits[k] == old(bits[k])
      {
        bits[i] := fill;
      }
      forall k | 0 <= k < count
        ensures View()[k] == (initBit != 0)
      {
        assert bits[k / 8] == fill;
        AllOnes(k % 8);
      }
    }

    // bitmap_get_bit
    method GetBit(index: nat) returns (b: int)
      requires Valid() && index < bitCount
      ensures b == if View()[index] then 1 else 0
    {
      b := if BitOf(bits[index / 8], index % 8) then 1 else 0;
    }

    // One iteration of the loop of bitmap_set_bit.
    method SetOne(index: nat, bitValue: int)
      requires Valid() && index < bitCount
      modifies bits
      ensures View() == old(View())[index := bitValue != 0]
    {
      bits[index / 8] := WithBit(bits[index / 8], index % 8, bitValue != 0);
      assert bits[..] == old(bits[..])[index / 8 := bits[index / 8]];
      forall k | 0 <= k < bitCount
        ensures View()[k] == old(View())[index := bitValue != 0][k]
      {
        BitAtUpdate(old(bits[..]), index, bitValue != 0, k);
      }
    }

    // bitmap_set_bit
    method SetBit(index: nat, count: int, bitValue: int)
      requires Valid()
      modifies bits
      ensures View() == SetRange(old(View()), index, count, bitValue != 0)
    {
      var i, idx := 0, index;
      while i < count && idx < bitCount
        invariant 0 <= i && (i <= count || i == 0) && idx == index + i
        invariant View() == SetRange(old(View()), index, i, bitValue != 0)
      {
        SetOne(idx, bitValue);
        i, idx := i + 1, idx + 1;
      }
    }

    // bitmap_alloc_nbits, for any count and for bit = 0 or 1. The found run is set to 1 whatever bit is,
    // because the complement of 0 and that of 1 are both non-zero.
    method AllocNbits(bit: int, count: int) returns (r: int)
      requires Valid() && 0 <= bit <= 1
      modifies bits
      ensures -1 <= r < bitCount
      ensures FirstFit(old(View()), bit == 1, count, r)
      ensures View() == if r == -1 then old(View()) else SetRange(old(View()), r, count, true)
    {
      ghost var v, w, b := View(), Examined(count), bit == 1;
      var search := 0;
      while search < bitCount
        invariant 0 <= search <= bitCount && View() == v
        invariant forall i :: 0 <= i < search ==> !RunAt(v, i, w, b)
        decreases bitCount - search
      {
        var got := GetBit(search);
        if got != bit {
          assert forall i :: RunAt(v, i, w, b) ==> !(i <= search < i + w);
          search := search + 1;
          continue;
        }
        var ok := search;
        var i := 1;
        var miss := false;
        while !miss && i < count && search < bitCount
          invariant 1 <= i && ok <= search <= bitCount && View() == v
          invariant i <= count || i == 1
          invariant !miss ==> search == ok + i - 1 && forall k :: ok <= k < search ==> v[k] == b
          invariant miss ==> i < count && ok < search <= ok + i && v[search - 1] != b
          decreases !miss, bitCount - search
        {
          got := GetBit(search);
          search := search + 1;
          if got != bit {
            miss := true;
          } else {
            i := i + 1;
          }
        }
        if !miss && i >= count {
          SetBit(ok, count, Complement(bit));
          return ok;
        }
        forall j | ok <= j < search
          ensures !RunAt(v, j, w, b)
        {
          assert miss && j <= search - 1 < j + w ==> v[search - 1] != b;
        }
      }
      return -1;
    }
  }

  lemma AllOnes(k: nat)
    requires k < 8
    ensures BitOf(0xff, k) && !BitOf(0, k)
  {
  }

  // A request for one bit: the answer is the least index that holds b, and -1 iff there is none.
  lemma SingleBit(v: seq<bool>, b: bool, r: int)
    ensures FirstFit(v, b, 1, r) <==>
            if r == -1 then b !in v
            else 0 <= r < |v| && v[r] == b && forall i :: 0 <= i < r ==> v[i] != b
  {
    forall i
      ensures RunAt(v, i, Examined(1), b) <==> 0 <= i < |v| && v[i] == b
    {
    }
    if r == -1 && b in v {
      var i :| 0 <= i < |v| && v[i] == b;
      assert RunAt(v, i, Examined(1), b);
    }
  }

  // How many bits a request for count is for: at least one
  function Wanted(count: int): int {
    if count <= 1 then 1 else count
  }

  // r is the right answer: the first whole run of bits equal to b, or -1 when there is none.
  ghost predicate FirstWhole(v: seq<bool>, b: bool, count: int, r: int) {
    if r == -1 then
      forall i :: !RunAt(v, i, Wanted(count), b)
    else
      RunAt(v, r, Wanted(count), b) && forall i :: 0 <= i < r ==> !RunAt(v, i, Wanted(count), b)
  }

  // The first run of count - 1 bits equal to b, if there is any, is followed by one more.
  ghost predicate GoesOn(v: seq<bool>, b: bool, count: int) {
    var n := count - 1;
    n <= 0 ||
    forall i :: RunAt(v, i, n, b) && (forall k :: 0 <= k < i ==> !RunAt(v, k, n, b)) ==> i + n < |v| && v[i + n] == b
  }

  lemma ShorterRun(v: seq<bool>, i: int, n: int, n': int, b: bool)
    requires RunAt(v, i, n, b) && n' <= n
    ensures RunAt(v, i, n', b)
  {
  }

  // The answer is right, with no run missed and none broken, exactly when the first run of count - 1 bits, if
  // there is one, goes on: a matter of the bits alone. For one bit it always is.
  lemma RunIsWhole(v: seq<bool>, b: bool, count: int, r: int)
    requires FirstFit(v, b, count, r)
    ensures FirstWhole(v, b, count, r) <==> GoesOn(v, b, count)
    ensures count <= 1 ==> GoesOn(v, b, count)
  {
    var e, n := Examined(count), Wanted(count);
    assert e <= n;
    if r == -1 {
      forall i | RunAt(v, i, n, b)
        ensures false
      {
        ShorterRun(v, i, n, e, b);
      }
    } else {
      assert RunAt(v, r, e, b);
      forall i | 0 <= i < r
        ensures !RunAt(v, i, n, b)
      {
        if RunAt(v, i, n, b) {
          ShorterRun(v, i, n, e, b);
        }
      }
      forall i | RunAt(v, i, e, b) && forall k :: 0 <= k < i ==> !RunAt(v, k, e, b)
        ensures i == r
      {
      }
    }
  }

  // Two bits are asked for. A run with a bit in use is handed out, and the whole run behind it is missed.
  lemma LookAheadMissesLastBit()
    ensures FirstFit([false, true, false, false], false, 2, 0)
    ensures !RunAt([false, true, false, false], 0, 2, false) && FirstWhole([false, true, false, false], false, 2, 2)
  {
    var v := [false, true, false, false];
    assert v[1] && !v[0] && !v[2] && !v[3];
    assert RunAt(v, 0, 1, false) && RunAt(v, 2, 2, false);
  }
}
