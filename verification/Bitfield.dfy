/** BITFIELD: integers of any width at any bit offset of a string, most
    significant bit first, and increments under the three overflow modes. */
module Bitfield {
  import SlotBitmap
  import opened Wrappers
  import opened Decimal

  // ----- Bits of a byte string -----

  /** Bit `at` of a byte string; bits before its start and past its end read as 0. */
  function Bit(bytes: seq<bv8>, at: int): (r: nat)
    ensures r <= 1
  {
    if 0 <= at / 8 < |bytes| && bytes[at / 8] & (1 << (7 - at % 8)) != 0 then 1 else 0
  }

  /** The code's division and remainder by 8, which truncate. */
  function Quotient(at: int): int
  {
    if at >= 0 then at / 8 else 0 - (0 - at) / 8
  }

  function Remainder(at: int): int
  {
    at - 8 * Quotient(at)
  }

  /** A byte with bit k set; a shift past the byte leaves nothing. */
  function Mask(k: nat): bv8
  {
    if k < 8 then 1 << k else 0
  }

  /** One bit set or cleared through a mask. */
  function Masked(bytes: seq<bv8>, at: int, on: bool): seq<bv8>
    requires -8 < at && Quotient(at) < |bytes|
  {
    var x, mask := bytes[Quotient(at)], Mask(7 - Remainder(at));
    bytes[Quotient(at) := if on then x | mask else x & !mask]
  }

  /** No other bit changes, and none at all from a negative position. */
  lemma MaskedBits(bytes: seq<bv8>, at: int, on: bool)
    requires -8 < at && Quotient(at) < |bytes|
    ensures forall k: nat :: Bit(Masked(bytes, at, on), k) == if k == at then (if on then 1 else 0) else Bit(bytes, k)
  {
    forall k: nat
      ensures Bit(Masked(bytes, at, on), k) == if k == at then (if on then 1 else 0) else Bit(bytes, k)
    {
      if at >= 0 {
        MaskedBit(bytes, Masked(bytes, at, on), at, on, k);
      } else {
        EmptyMask(bytes[0]);
        assert Masked(bytes, at, on) == bytes;
      }
    }
  }

  lemma EmptyMask(x: bv8)
    ensures x | 0 == x && x & !(0 as bv8) == x
  {
  }

  lemma MaskedBit(before: seq<bv8>, after: seq<bv8>, at: nat, on: bool, k: nat)
    requires at / 8 < |before| && after == Masked(before, at, on)
    ensures Bit(after, k) == if k == at then (if on then 1 else 0) else Bit(before, k)
  {
    SlotBitmap.MaskBits(before[at / 8], 7 - at % 8, 7 - k % 8);
    if k / 8 == at / 8 && k % 8 == at % 8 {
      assert k == at;
    }
  }

  class BitMap {
    var bytes: seq<bv8>

    constructor (bytes: seq<bv8>)
      ensures this.bytes == bytes
    {
      this.bytes := bytes;
    }

    /** Crashes from eight bits before the string on. */
    method GetBit(at: int) returns (crashed: bool, r: bv8)
      ensures crashed <==> at <= -8
      ensures !crashed ==> r == if Bit(bytes, at) == 1 then 1 else 0
    {
      var byteIndex, bitOffset := Quotient(at), 7 - Remainder(at);
      if byteIndex >= |bytes| {
        return false, 0;
      }
      if byteIndex < 0 {
        return true, 0;
      }
      crashed, r := false, 0;
      if bitOffset < 8 {
        r := (bytes[byteIndex] >> bitOffset) & 1;
        BitIsBit(bytes[byteIndex], bitOffset);
      }
    }

    /** Zero bytes up to bitSize bits. */
    method Grow(bitSize: int)
      modifies this
      ensures |bytes| >= |old(bytes)| && 8 * |bytes| >= bitSize
      ensures |bytes| > |old(bytes)| ==> bitSize > 8 * |old(bytes)| || (-8 < bitSize < 0 && old(bytes) == [])
      ensures -8 < bitSize < 0 ==> bytes != []
      ensures bitSize == 0 ==> bytes == old(bytes)
      ensures forall k: nat :: Bit(bytes, k) == Bit(old(bytes), k)
    {
      var byteSize := if Remainder(bitSize) == 0 then Quotient(bitSize) else Quotient(bitSize) + 1;
      var gap := byteSize - |bytes|;
      if gap <= 0 {
        return;
      }
      bytes := bytes + seq(gap, _ => 0 as bv8);
      forall k: nat
        ensures Bit(bytes, k) == Bit(old(bytes), k)
      {
        ZeroBit(7 - k % 8);
      }
    }

    /** Crashes eight bits before the string, and one bit before an empty one,
        which then is not grown. */
    method SetBit(at: int, on: bool) returns (crashed: bool)
      modifies this
      ensures crashed <==> at <= -8 || (at == -1 && old(bytes) == [])
      ensures forall k: nat :: Bit(bytes, k) == if k == at then (if on then 1 else 0) else Bit(old(bytes), k)
      ensures |bytes| >= |old(bytes)|
      ensures at < 0 && !crashed ==> bytes != []
      ensures at > -8 && crashed ==> bytes == old(bytes)
    {
      Grow(at + 1);
      if Quotient(at) < 0 || Quotient(at) >= |bytes| {
        return true;
      }
      MaskedBits(bytes, at, on);
      bytes := Masked(bytes, at, on);
      crashed := false;
    }

    /** Reads a field of `bits` bits. */
    method Get(offset: int, bits: nat, signed: bool) returns (crashed: bool, val: int)
      requires 0 < bits <= 64
      ensures crashed <==> offset <= -8
      ensures !crashed ==> val == Interp(Field(bytes, offset, bits), bits, signed)
    {
      var u: nat := 0;
      for i := 0 to bits
        invariant offset <= -8 ==> i == 0
        invariant u == Field(bytes, offset, i) * Pow2(bits - i)
      {
        var bit;
        crashed, bit := GetBit(offset + i);
        if crashed {
          return true, 0;
        }
        FieldStep(bytes, offset, i, bits - 1 - i);
        if bit != 0 {
          u := u + Pow2(bits - 1 - i);
        }
      }
      FieldBound(bytes, offset, bits);
      crashed, val := false, Interp(u, bits, signed);
    }

    /** Writes the low `bits` bits of val; returns the field's old value. What
        would go before the string's start is lost. */
    method Set(offset: int, bits: nat, signed: bool, val: int) returns (crashed: bool, was: int)
      requires 0 < bits <= 64
      modifies this
      ensures crashed <==> WriteCrashes(old(bytes), offset)
      ensures crashed ==> bytes == old(bytes)
      ensures !crashed ==> was == Interp(Field(old(bytes), offset, bits), bits, signed)
      ensures !crashed ==> Field(bytes, offset, bits) == Stored(val, offset, bits)
      ensures SameOutside(old(bytes), bytes, offset, offset + bits)
    {
      crashed, was := Get(offset, bits, signed);
      if !crashed {
        crashed := Write(offset, bits, val % Pow2(bits));
      }
    }

    method Write(offset: int, bits: nat, v: nat) returns (crashed: bool)
      requires v < Pow2(bits) && offset > -8 && bits > 0
      modifies this
      ensures crashed <==> WriteCrashes(old(bytes), offset)
      ensures crashed ==> bytes == old(bytes)
      ensures !crashed ==> Field(bytes, offset, bits) == v % Pow2(Kept(offset, bits))
      ensures SameOutside(old(bytes), bytes, offset, offset + bits)
    {
      NoneWritten(v, offset, bits);
      for i := 0 to bits
        invariant i > 0 ==> !WriteCrashes(old(bytes), offset) && (offset < 0 ==> bytes != [])
        invariant i == 0 ==> bytes == old(bytes)
        invariant Field(bytes, offset, i) == Written(v, offset, bits, i)
        invariant SameOutside(old(bytes), bytes, offset, offset + i)
      {
        ghost var before := bytes;
        crashed := SetBit(offset + i, v / Pow2(bits - 1 - i) % 2 != 0);
        if crashed {
          return;
        }
        OneMoreWritten(old(bytes), before, bytes, offset, bits, i, v);
      }
      AllWritten(v, offset, bits);
      crashed := false;
    }

    /** Adds incr to a field; an overflow wraps, saturates, or is refused. The
        unsigned tests subtract incr from the maximum in 64 bits, so with a
        larger incr they miss the overflow, which is then stored wrapped. */
    method IncrBy(offset: int, bits: nat, signed: bool, incr: Int64, mode: Overflow)
      returns (crashed: bool, ret: int, overflowed: bool)
      requires 0 < bits <= (if signed then 64 else 63)
      modifies this
      ensures SameOutside(old(bytes), bytes, offset, offset + bits)
      ensures var sum := Interp(Field(old(bytes), offset, bits), bits, signed) + incr;
              var missed := !signed && incr > Max(bits, signed);
              var refused := mode.Fail? && !InRange(sum, bits, signed) && !missed;
              && (crashed <==> offset <= -8 || (WriteCrashes(old(bytes), offset) && !refused))
              && (crashed || refused ==> bytes == old(bytes))
              && (!crashed && mode.Wrap? ==> !overflowed && ret == Interp(sum % Pow2(bits), bits, signed))
              && (!crashed && !mode.Wrap? ==> (overflowed <==> !InRange(sum, bits, signed) && !missed))
              && (!crashed && mode.Sat? && !missed ==> ret == Clamp(sum, bits, signed))
              && (!crashed && refused ==> ret == 0)
              && (!crashed && mode.Fail? && !refused && !missed ==> ret == sum)
              && (!crashed && !mode.Wrap? && missed ==> ret == Wrap64(sum) != Clamp(sum, bits, signed))
              && (!crashed && !refused ==>
                    Field(bytes, offset, bits) == Stored(if mode.Sat? && overflowed then ret else sum, offset, bits))
    {
      var was;
      crashed, was := Get(offset, bits, signed);
      ret, overflowed := 0, false;
      if crashed {
        return;
      }
      FieldBound(bytes, offset, bits);
      InterpRange(Field(bytes, offset, bits), bits, signed);
      var newVal;
      newVal, overflowed := NewValue(was, bits, signed, incr, mode);
      if overflowed && mode.Fail? {
        return;
      }
      crashed, was := Set(offset, bits, signed, newVal);
      ret := newVal;
    }
  }

  /** A write reaches eight bits before the string, or one before an empty one. */
  predicate WriteCrashes(bytes: seq<bv8>, offset: int)
  {
    offset <= -8 || (offset == -1 && bytes == [])
  }

  /** How many of a field's bits lie in the string. */
  function Kept(offset: int, bits: nat): nat
  {
    if offset >= 0 then bits else if bits + offset > 0 then bits + offset else 0
  }

  /** The field a value leaves: its low bits, as far as they lie in the string. */
  function Stored(val: int, offset: int, bits: nat): nat
  {
    val % Pow2(bits) % Pow2(Kept(offset, bits))
  }

  /** A value set is the value got back exactly if the field starts in the
      string or the bits before it are 0. */
  lemma ReadBackIff(val: int, offset: int, bits: nat, signed: bool)
    requires bits > 0 && InRange(val, bits, signed)
    ensures Interp(Stored(val, offset, bits), bits, signed) == val <==>
            offset >= 0 || val % Pow2(bits) < Pow2(Kept(offset, bits))
  {
    var u, kept := val % Pow2(bits), Kept(offset, bits);
    StoredValue(val, bits, signed);
    PowMonotone(kept, bits);
    if u < Pow2(kept) {
      SmallMod(u, Pow2(kept));
    } else {
      InterpMod(u, bits, signed);
      InterpMod(u % Pow2(kept), bits, signed);
    }
  }

  /** 255 set one bit before the string reads back as 127. */
  lemma OneBitEarly()
    ensures Interp(Stored(255, -1, 8), 8, false) == 127
  {
    PowAdd(4, 4);
  }

  /** The field's first i bits once they are written. */
  ghost function Written(v: nat, offset: int, bits: nat, i: nat): int
    requires i <= bits
  {
    if i + offset <= 0 then 0 else v % Pow2(Kept(offset, bits)) / Pow2(bits - i)
  }

  lemma OneMoreWritten(orig: seq<bv8>, before: seq<bv8>, after: seq<bv8>, offset: int, bits: nat, i: nat, v: nat)
    requires i < bits && v < Pow2(bits) && SameOutside(orig, before, offset, offset + i)
    requires forall k: nat :: Bit(after, k) ==
               if k == offset + i then (if v / Pow2(bits - 1 - i) % 2 != 0 then 1 else 0) else Bit(before, k)
    requires Field(before, offset, i) == Written(v, offset, bits, i)
    ensures SameOutside(orig, after, offset, offset + i + 1)
    ensures Field(after, offset, i + 1) == Written(v, offset, bits, i + 1)
  {
    var kept := Kept(offset, bits);
    var low := v % Pow2(kept);
    if i + offset < 0 {
      SameField(before, after, offset, i);
    } else {
      DivUnique(low, Pow2(kept), 0, low);
      if offset >= 0 {
        SmallMod(v, Pow2(bits));
        FieldStart(before, v, offset, bits, i);
      } else {
        LowDigit(v, kept, bits - 1 - i);
      }
      OneMoreBit(orig, before, after, offset, i, low, bits - 1 - i);
    }
  }

  lemma FieldStart(bytes: seq<bv8>, v: nat, offset: nat, bits: nat, i: nat)
    requires i < bits && v < Pow2(bits) && Field(bytes, offset, i) == Written(v, offset, bits, i)
    ensures Field(bytes, offset, i) == v / Pow2(bits - i)
  {
    SmallMod(v, Pow2(bits));
    if i == 0 {
      DivUnique(v, Pow2(bits), 0, v);
    }
  }

  lemma NoneWritten(v: nat, offset: int, bits: nat)
    requires v < Pow2(bits)
    ensures Written(v, offset, bits, 0) == 0
  {
    if offset > 0 {
      SmallMod(v, Pow2(bits));
      DivUnique(v, Pow2(bits), 0, v);
    }
  }

  lemma AllWritten(v: nat, offset: int, bits: nat)
    ensures Written(v, offset, bits, bits) == v % Pow2(Kept(offset, bits))
  {
    var low := v % Pow2(Kept(offset, bits));
    DivUnique(low, 1, low, 0);
  }

  lemma LowDigit(v: nat, m: nat, n: nat)
    requires n < m
    ensures v % Pow2(m) / Pow2(n) % 2 == v / Pow2(n) % 2
  {
    PowAdd(n, m - n);
    PowAdd(m - n - 1, 1);
    DigitBelow(v, Pow2(m), Pow2(n), Pow2(m - n - 1));
  }

  lemma DigitBelow(v: nat, whole: nat, p: nat, k: nat)
    requires p > 0 && whole > 0 && whole == p * (2 * k)
    ensures v % whole / p % 2 == v / p % 2
  {
    var q, low := v / whole, v % whole;
    var y, d, r := q * k, low / p, low % p;
    assert y >= 0 by {
      Monotone(q, 0, k);
    }
    assert v == (2 * y + d) * p + r by {
      assert v == q * whole + low && low == d * p + r;
      Spread(q, k, p, d);
    }
    DivUnique(v, p, 2 * y + d, r);
    EvenPart(y, d);
  }

  lemma EvenPart(y: int, d: int)
    ensures (2 * y + d) % 2 == d % 2
  {
  }

  lemma Spread(q: int, k: int, p: int, d: int)
    ensures q * (p * (2 * k)) + d * p == (2 * (q * k) + d) * p
  {
    assert q * (p * (2 * k)) == 2 * (q * k) * p;
  }

  /** The value to store, and whether an overflow was seen. */
  method NewValue(was: Int64, bits: nat, signed: bool, incr: Int64, mode: Overflow) returns (newVal: int, overflowed: bool)
    requires 0 < bits <= (if signed then 64 else 63) && InRange(was, bits, signed)
    ensures var sum := was + incr;
            var missed := !signed && incr > Max(bits, signed);
            && (mode.Wrap? ==> !overflowed && newVal == Interp(sum % Pow2(bits), bits, signed))
            && (!mode.Wrap? ==> (overflowed <==> !InRange(sum, bits, signed) && !missed))
            && (!mode.Wrap? && !missed ==> newVal == Clamp(sum, bits, signed))
            && (!mode.Wrap? && missed ==> newVal == Wrap64(sum) != Clamp(sum, bits, signed))
            && (!overflowed ==> newVal % Pow2(bits) == sum % Pow2(bits))
  {
    newVal, overflowed := Wrap64(was + incr), false;
    Wrap64Mod(was + incr, bits);
    if mode.Wrap? {
      InterpMod((was + incr) % Pow2(bits), bits, signed);
      newVal := Interp(newVal % Pow2(bits), bits, signed);
      return;
    }
    PowBounds(bits, signed);
    OverflowTest(was, bits, signed, incr);
    if Overflows(was, bits, signed, incr) {
      newVal, overflowed := if incr > 0 then Max(bits, signed) else Min(bits, signed), true;
    } else if !signed && incr > Max(bits, signed) {
      MissedValue(was, incr, Max(bits, signed));
    } else {
      Wrap64Is(was + incr);
    }
  }

  datatype Overflow = Wrap | Sat | Fail

  /** The bits outside [lo, hi) are the same. */
  ghost predicate SameOutside(a: seq<bv8>, b: seq<bv8>, lo: int, hi: int)
  {
    forall k: nat :: k < lo || k >= hi ==> Bit(a, k) == Bit(b, k)
  }

  lemma OneMoreBit(orig: seq<bv8>, before: seq<bv8>, after: seq<bv8>, offset: int, i: nat, v: nat, n: nat)
    requires offset + i >= 0 && SameOutside(orig, before, offset, offset + i)
    requires forall k: nat :: Bit(after, k) == if k == offset + i then (if v / Pow2(n) % 2 != 0 then 1 else 0) else Bit(before, k)
    requires Field(before, offset, i) == v / Pow2(n + 1)
    ensures SameOutside(orig, after, offset, offset + i + 1)
    ensures Field(after, offset, i + 1) == v / Pow2(n)
  {
    SameField(before, after, offset, i);
    NextDigit(v, n);
  }

  // ----- Bytes -----

  lemma BitIsBit(x: bv8, k: nat)
    requires k < 8
    ensures (x >> k) & 1 == if x & (1 << k) != 0 then 1 else 0
  {
  }

  lemma ZeroBit(k: nat)
    requires k < 8
    ensures 0 as bv8 & (1 << k) == 0
  {
  }

  // ----- Fields as numbers -----

  function Pow2(n: nat): (p: nat)
    ensures p > 0
  {
    if n == 0 then 1 else 2 * Pow2(n - 1)
  }

  /** The n bits at `offset` as a number, the first one the most significant. */
  function Field(bytes: seq<bv8>, offset: int, n: nat): nat
  {
    if n == 0 then 0 else 2 * Field(bytes, offset, n - 1) + Bit(bytes, offset + n - 1)
  }

  /** The value of a field: two's complement if signed. */
  function Interp(u: nat, bits: nat, signed: bool): int
    requires bits > 0
  {
    if signed && u >= Pow2(bits - 1) then u - Pow2(bits) else u
  }

  lemma {:induction false} FieldBound(bytes: seq<bv8>, offset: int, n: nat)
    ensures Field(bytes, offset, n) < Pow2(n)
  {
    if n > 0 {
      FieldBound(bytes, offset, n - 1);
    }
  }

  lemma {:induction false} SameField(a: seq<bv8>, b: seq<bv8>, offset: int, n: nat)
    requires forall k: nat :: offset <= k < offset + n ==> Bit(a, k) == Bit(b, k)
    ensures Field(a, offset, n) == Field(b, offset, n)
  {
    if n > 0 {
      SameField(a, b, offset, n - 1);
    }
  }

  /** One more bit read, with n bits still to come. */
  lemma FieldStep(bytes: seq<bv8>, offset: int, i: nat, n: nat)
    ensures Field(bytes, offset, i + 1) * Pow2(n) ==
            Field(bytes, offset, i) * Pow2(n + 1) + if Bit(bytes, offset + i) == 1 then Pow2(n) else 0
  {
    OneMoreDigit(Field(bytes, offset, i), Bit(bytes, offset + i), Pow2(n));
  }

  lemma OneMoreDigit(f: nat, b: nat, p: nat)
    requires b <= 1
    ensures (2 * f + b) * p == f * (2 * p) + if b == 1 then p else 0
  {
  }

  lemma DivUnique(v: nat, d: nat, q: nat, r: nat)
    requires v == q * d + r && r < d
    ensures v / d == q
  {
    var x := v / d;
    assert x * d <= v < x * d + d;
    Monotone(x, q + 1, d);
    Monotone(q, x + 1, d);
  }

  lemma Monotone(a: int, b: int, d: nat)
    ensures a >= b ==> a * d >= b * d
  {
  }

  lemma NextDigit(v: nat, n: nat)
    ensures v / Pow2(n) == 2 * (v / Pow2(n + 1)) + v / Pow2(n) % 2
  {
    var p := Pow2(n);
    var q, r := v / p, v % p;
    var a, b := q / 2, q % 2;
    assert v == q * p + r;
    assert q * p == (2 * a + b) * p == a * (2 * p) + b * p;
    assert b * p + r < 2 * p by {
      assert b == 0 || b == 1;
    }
    DivUnique(v, 2 * p, a, b * p + r);
  }

  // ----- 64-bit arithmetic -----

  function Min(bits: nat, signed: bool): int
    requires bits > 0
  {
    if signed then 0 - Pow2(bits - 1) else 0
  }

  function Max(bits: nat, signed: bool): int
    requires bits > 0
  {
    if signed then Pow2(bits - 1) - 1 else Pow2(bits) - 1
  }

  predicate InRange(v: int, bits: nat, signed: bool)
    requires bits > 0
  {
    Min(bits, signed) <= v <= Max(bits, signed)
  }

  function Clamp(v: int, bits: nat, signed: bool): int
    requires bits > 0
  {
    if v < Min(bits, signed) then Min(bits, signed) else if v > Max(bits, signed) then Max(bits, signed) else v
  }

  /** int64 arithmetic wraps. */
  function Wrap64(v: int): Int64
  {
    var m := v % U64;
    if m > MAX_INT64 then m - U64 else m
  }

  /** The code's overflow tests, in int64 or, for unsigned fields, in uint64. */
  predicate Overflows(was: Int64, bits: nat, signed: bool, incr: Int64)
    requires bits > 0
  {
    if signed then
      || (incr > 0 && was > Wrap64(Max(bits, signed) - incr))
      || (incr < 0 && was < Wrap64(Min(bits, signed) - incr))
    else
      || (incr > 0 && was % U64 > (Max(bits, signed) % U64 - incr % U64) % U64)
      || (incr < 0 && was % U64 < Wrap64(0 - incr) % U64)
  }

  lemma {:induction false} PowAdd(a: nat, b: nat)
    ensures Pow2(a + b) == Pow2(a) * Pow2(b)
  {
    if b > 0 {
      PowAdd(a, b - 1);
      assert 2 * (Pow2(a) * Pow2(b - 1)) == Pow2(a) * (2 * Pow2(b - 1));
    }
  }

  lemma PowTop()
    ensures Pow2(63) == MAX_INT64 + 1 && Pow2(64) == U64
  {
    assert Pow2(8) == 256;
    PowAdd(8, 8);
    PowAdd(16, 16);
    PowAdd(32, 32);
  }

  lemma {:induction false} PowMonotone(a: nat, b: nat)
    requires a <= b
    ensures Pow2(a) <= Pow2(b)
  {
    if a < b {
      PowMonotone(a, b - 1);
    }
  }

  lemma PowBounds(bits: nat, signed: bool)
    requires 0 < bits <= (if signed then 64 else 63)
    ensures MIN_INT64 <= Min(bits, signed) <= 0 <= Max(bits, signed) <= MAX_INT64
  {
    PowTop();
    PowMonotone(if signed then bits - 1 else bits, 63);
  }

  lemma InterpRange(u: nat, bits: nat, signed: bool)
    requires 0 < bits <= (if signed then 64 else 63) && u < Pow2(bits)
    ensures InRange(Interp(u, bits, signed), bits, signed)
    ensures MIN_INT64 <= Interp(u, bits, signed) <= MAX_INT64
  {
    PowBounds(bits, signed);
  }

  lemma SmallMod(v: int, p: int)
    requires 0 <= v < p
    ensures v % p == v
  {
  }

  /** A field's value is its bits modulo 2^bits. */
  lemma InterpMod(u: nat, bits: nat, signed: bool)
    requires bits > 0 && u < Pow2(bits)
    ensures Interp(u, bits, signed) % Pow2(bits) == u
  {
    ShiftMod(u, -1, Pow2(bits));
    SmallMod(u, Pow2(bits));
  }

  /** A value in range is read back as it was stored. */
  lemma StoredValue(v: int, bits: nat, signed: bool)
    requires bits > 0 && InRange(v, bits, signed)
    ensures Interp(v % Pow2(bits), bits, signed) == v
  {
    ShiftMod(v, 1, Pow2(bits));
    SmallMod(if v < 0 then v + Pow2(bits) else v, Pow2(bits));
  }

  lemma Wrap64Mod(v: int, bits: nat)
    requires 0 < bits <= 64
    ensures Wrap64(v) % Pow2(bits) == v % Pow2(bits)
  {
    PowTop();
    PowAdd(bits, 64 - bits);
    var p, k: int, m := Pow2(bits), Pow2(64 - bits), v % U64;
    Multiples(v / U64, k, p);
    ShiftMod(m, v / U64 * k, p);
    ShiftMod(m, 0 - k, p);
  }

  lemma Multiples(q: int, k: int, p: int)
    ensures q * k * p == q * (p * k) && (0 - k) * p == 0 - p * k
  {
  }

  lemma ShiftMod(v: int, k: int, p: nat)
    requires p > 0
    ensures (v + k * p) % p == v % p
  {
    var q, r := v / p, v % p;
    assert v + k * p == (q + k) * p + r;
    IntDivUnique(v + k * p, p, q + k, r);
  }

  lemma IntDivUnique(v: int, d: int, q: int, r: int)
    requires d > 0 && v == q * d + r && 0 <= r < d
    ensures v % d == r
  {
    var x := v / d;
    assert v == x * d + v % d;
    Monotone(x, q + 1, d);
    Monotone(q, x + 1, d);
  }

  lemma Wrap64Is(v: int)
    ensures MIN_INT64 <= v <= MAX_INT64 ==> Wrap64(v) == v
    ensures Wrap64(v) % U64 == v % U64
  {
  }

  /** The tests are exact, except that an unsigned increment above the field's
      maximum is never seen to overflow. */
  lemma OverflowTest(was: Int64, bits: nat, signed: bool, incr: Int64)
    requires 0 < bits <= (if signed then 64 else 63) && InRange(was, bits, signed)
    ensures Overflows(was, bits, signed, incr) <==>
            !InRange(was + incr, bits, signed) && (signed || incr <= Max(bits, signed))
  {
    PowBounds(bits, signed);
    if signed {
      SignedTest(was, incr, Min(bits, signed), Max(bits, signed));
    } else {
      UnsignedTest(was, incr, Max(bits, signed));
    }
  }

  lemma SignedTest(was: Int64, incr: Int64, min: int, max: int)
    requires MIN_INT64 <= min <= was <= max <= MAX_INT64 && min < 0 <= max
    ensures (incr > 0 && was > Wrap64(max - incr)) || (incr < 0 && was < Wrap64(min - incr)) <==>
            !(min <= was + incr <= max)
  {
    if incr > 0 {
      Wrap64Is(max - incr);
    } else if incr < 0 {
      Wrap64Is(min - incr);
    }
  }

  lemma UnsignedTest(was: Int64, incr: Int64, max: int)
    requires 0 <= was <= max <= MAX_INT64
    ensures (incr > 0 && was % U64 > (max % U64 - incr % U64) % U64) || (incr < 0 && was % U64 < Wrap64(0 - incr) % U64) <==>
            !(0 <= was + incr <= max) && incr <= max
  {
    SmallMod(was, U64);
    SmallMod(max, U64);
    if incr > 0 {
      SmallMod(incr, U64);
      ShiftMod(max - incr, 1, U64);
      SmallMod(if incr <= max then max - incr else max - incr + U64, U64);
    } else if incr < 0 {
      Wrap64Is(0 - incr);
      SmallMod(0 - incr, U64);
    }
  }

  /** A missed overflow also returns a value out of range. */
  lemma MissedValue(was: Int64, incr: Int64, max: int)
    requires 0 <= was <= max < incr
    ensures Wrap64(was + incr) != max
  {
  }
}
