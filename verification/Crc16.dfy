/** 16-bit words as polynomials over GF(2), modulo x^16 + x^12 + x^5 + 1. */
module CrcWords {

  function Add(a: bv16, b: bv16): bv16
  {
    a ^ b
  }

  /** The bit that leaves at the top comes back as x^12 + x^5 + 1. */
  function TimesX(c: bv16): bv16
  {
    (c << 1) ^ (c >> 15) ^ ((c >> 15) << 5) ^ ((c >> 15) << 12)
  }

  /** The table generator's step. */
  lemma TimesXBranches(c: bv16)
    ensures c & 0x8000 != 0 ==> TimesX(c) == (c << 1) ^ 0x1021
    ensures c & 0x8000 == 0 ==> TimesX(c) == c << 1
  {
    if c & 0x8000 != 0 {
      assert c >> 15 == 1;
    } else {
      assert c >> 15 == 0;
    }
  }

  lemma TimesXAdds(a: bv16, b: bv16)
    ensures TimesX(a ^ b) == TimesX(a) ^ TimesX(b)
  {
  }

  lemma AddZero(a: bv16)
    ensures a ^ 0 == a
  {
  }

  lemma TimesXZero()
    ensures TimesX(0) == 0
  {
  }

  lemma ShiftNone()
    ensures (1 as bv16) << 0 == 1
  {
  }

  lemma ShiftOnce(n: nat)
    requires n < 15
    ensures TimesX((1 as bv16) << n) == (1 as bv16) << (n + 1)
  {
  }

  function TopBit(bit: bool): bv16
  {
    if bit then 0x8000 else 0
  }

  lemma ShiftTop()
    ensures (1 as bv16) << 15 == TopBit(true)
  {
  }

  // ----- Bytes in the upper half -----

  function Wide(b: bv8): bv16
  {
    (b as bv16) << 8
  }

  predicate Hi(b: bv8)
  {
    b & 0x80 != 0
  }

  function Up(b: bv8): bv8
  {
    b << 1
  }

  /** One bit of a byte: its top bit is fed in, the others move up. */
  lemma FeedBit(c: bv16, b: bv8)
    ensures TimesX(c ^ Wide(b)) == TimesX(c ^ TopBit(Hi(b))) ^ Wide(Up(b))
  {
  }

  lemma FeedWith(c: bv16, b: bv8, p: bv16)
    requires p == TopBit(Hi(b))
    ensures TimesX(Add(c, Wide(b))) == Add(TimesX(Add(c, p)), Wide(Up(b)))
  {
    FeedBit(c, b);
  }

  lemma ByteGone(b: bv8)
    ensures Wide(Up(Up(Up(Up(Up(Up(Up(Up(b))))))))) == 0
  {
  }

  /** A word is its upper byte and its lower byte. */
  lemma Halves(c: bv16, b: bv8)
    ensures c ^ Wide(b) == Wide(((c >> 8) as bv8) ^ b) ^ (c & 0xff)
    ensures (c & 0xff) << 8 == c << 8
  {
  }

  /** The lower byte climbs eight places without reduction. */
  lemma LowClimbs(c: bv16, n: nat)
    requires n < 8
    ensures TimesX((c & 0xff) << n) == (c & 0xff) << (n + 1)
  {
    if n < 4 {
      assert n == 0 || n == 1 || n == 2 || n == 3;
    } else {
      assert n == 4 || n == 5 || n == 6 || n == 7;
    }
  }

  lemma LowStart(c: bv16)
    ensures (c & 0xff) << 0 == c & 0xff
  {
  }

  lemma Swap(a: bv16, b: bv16)
    ensures a ^ b == b ^ a
  {
  }
}

/** Hash slots of keys: the table-driven CRC16, the polynomial division it
    computes, and hash tags. */
module Crc16 {
  import opened CrcWords

  // ----- Long division in a ring of remainders -----

  /** Remainders modulo a polynomial of degree 16 over GF(2): addition, and
      multiplication by x. */
  datatype Ring<!R> = Ring(add: (R, R) -> R, timesX: R -> R, zero: R, one: R)

  ghost predicate Lawful<R(!new)>(k: Ring<R>)
  {
    && (forall a, b :: k.timesX(k.add(a, b)) == k.add(k.timesX(a), k.timesX(b)))
    && (forall a :: k.add(a, k.zero) == a)
    && k.timesX(k.zero) == k.zero
  }

  /** c times x^n. */
  function Power<R>(k: Ring<R>, c: R, n: nat): R
  {
    if n == 0 then c else k.timesX(Power(k, c, n - 1))
  }

  function Constant<R>(k: Ring<R>, bit: bool): R
  {
    if bit then k.one else k.zero
  }

  /** Long division, bringing down one bit after the other: the remainder of
      the polynomial with these coefficients, the leading one first. */
  function Divide<R>(k: Ring<R>, bits: seq<bool>): R
  {
    if bits == [] then k.zero
    else k.add(k.timesX(Divide(k, bits[..|bits| - 1])), Constant(k, bits[|bits| - 1]))
  }

  function Zeros(n: nat): (r: seq<bool>)
    ensures |r| == n && forall i :: 0 <= i < n ==> !r[i]
  {
    if n == 0 then [] else Zeros(n - 1) + [false]
  }

  /** The serial form: each bit is added at the top, then multiplied by x. */
  function Serial<R>(k: Ring<R>, c: R, bits: seq<bool>): R
  {
    if bits == [] then c
    else k.timesX(k.add(Serial(k, c, bits[..|bits| - 1]), Power(k, Constant(k, bits[|bits| - 1]), 15)))
  }

  /** Bytes as polynomials: `wide` puts a byte at the top of a remainder, `up`
      shifts out the top bit `hi`. */
  datatype Bytes<!R, !B> = Bytes(wide: B -> R, hi: B -> bool, up: B -> B)

  function BitsOf<R, B>(t: Bytes<R, B>, b: B, n: nat): (r: seq<bool>)
    ensures |r| == n
  {
    if n == 0 then [] else BitsOf(t, b, n - 1) + [t.hi(Shifted(t, b, n - 1))]
  }

  function Shifted<R, B>(t: Bytes<R, B>, b: B, n: nat): B
  {
    if n == 0 then b else t.up(Shifted(t, b, n - 1))
  }

  /** A multiplication by x uses up one bit of the byte at the top. */
  ghost predicate Feeds<R(!new), B(!new)>(k: Ring<R>, t: Bytes<R, B>)
  {
    forall c, b :: k.timesX(k.add(c, t.wide(b))) ==
      k.add(k.timesX(k.add(c, Power(k, Constant(k, t.hi(b)), 15))), t.wide(t.up(b)))
  }

  /** Feeding n bits serially is feeding the byte at once and multiplying by
      x^n, up to the bits not yet used. */
  lemma {:induction false} FeedAtOnce<R(!new), B(!new)>(k: Ring<R>, t: Bytes<R, B>, c: R, b: B, n: nat)
    requires Feeds(k, t)
    ensures Power(k, k.add(c, t.wide(b)), n) == k.add(Serial(k, c, BitsOf(t, b, n)), t.wide(Shifted(t, b, n)))
  {
    if n > 0 {
      FeedAtOnce(k, t, c, b, n - 1);
      assert BitsOf(t, b, n)[..n - 1] == BitsOf(t, b, n - 1);
    }
  }

  /** A remainder split in two parts, one of which is only shifted. */
  lemma PowerOfSum<R(!new)>(k: Ring<R>, whole: R, hi: R, lo: R, shifted: R)
    requires Lawful(k) && whole == k.add(hi, lo) && Power(k, lo, 8) == shifted
    requires k.add(shifted, Power(k, hi, 8)) == k.add(Power(k, hi, 8), shifted)
    ensures k.add(shifted, Power(k, hi, 8)) == Power(k, whole, 8)
  {
    PowerAdds(k, hi, lo, 8);
  }

  lemma {:induction false} PowerAdds<R(!new)>(k: Ring<R>, a: R, b: R, n: nat)
    requires Lawful(k)
    ensures Power(k, k.add(a, b), n) == k.add(Power(k, a, n), Power(k, b, n))
  {
    if n > 0 {
      PowerAdds(k, a, b, n - 1);
    }
  }

  lemma {:induction false} PowerSwaps<R>(k: Ring<R>, c: R, n: nat)
    ensures Power(k, k.timesX(c), n) == k.timesX(Power(k, c, n))
  {
    if n > 0 {
      PowerSwaps(k, c, n - 1);
    }
  }

  lemma {:induction false} DivideZeros<R(!new)>(k: Ring<R>, bits: seq<bool>, n: nat)
    requires Lawful(k)
    ensures Divide(k, bits + Zeros(n)) == Power(k, Divide(k, bits), n)
  {
    if n == 0 {
      assert bits + Zeros(0) == bits;
    } else {
      DivideZeros(k, bits, n - 1);
      assert (bits + Zeros(n))[..|bits| + n - 1] == bits + Zeros(n - 1);
    }
  }

  /** The serial form computes the message times x^16, divided. */
  lemma {:induction false} SerialDivides<R(!new)>(k: Ring<R>, bits: seq<bool>)
    requires Lawful(k)
    ensures Serial(k, k.zero, bits) == Divide(k, bits + Zeros(16))
    decreases |bits|
  {
    if bits == [] {
      DivideZeros(k, [], 16);
      PowerZero(k, 16);
    } else {
      var front, last := bits[..|bits| - 1], Constant(k, bits[|bits| - 1]);
      SerialDivides(k, front);
      DivideZeros(k, front, 16);
      DivideZeros(k, bits, 16);
      PowerAdds(k, k.timesX(Divide(k, front)), last, 16);
      PowerSwaps(k, Divide(k, front), 16);
    }
  }

  lemma {:induction false} PowerZero<R(!new)>(k: Ring<R>, n: nat)
    requires Lawful(k)
    ensures Power(k, k.zero, n) == k.zero
  {
    if n > 0 {
      PowerZero(k, n - 1);
    }
  }

  // ----- The ring of x^16 + x^12 + x^5 + 1 on 16-bit words -----

  function Words(): Ring<bv16>
  {
    Ring(Add, TimesX, 0, 1)
  }

  lemma WordsLawful()
    ensures Lawful(Words())
  {
    var k := Words();
    forall a, b
      ensures k.timesX(k.add(a, b)) == k.add(k.timesX(a), k.timesX(b))
    {
      TimesXAdds(a, b);
    }
    forall a
      ensures k.add(a, k.zero) == a
    {
      AddZero(a);
    }
    TimesXZero();
  }

  // ----- Bytes -----

  function Octets(): Bytes<bv16, bv8>
  {
    Bytes(Wide, Hi, Up)
  }

  /** The bits of a message, the most significant bit of each byte first. */
  function MessageBits(buf: seq<bv8>): seq<bool>
  {
    if buf == [] then [] else MessageBits(buf[..|buf| - 1]) + BitsOf(Octets(), buf[|buf| - 1], 8)
  }

  /** The next table entry or byte: eight multiplications by x. */
  function Byte(c: bv16): bv16
  {
    Power(Words(), c, 8)
  }

  /** The checksum of a message, from its definition as a division. */
  function Crc(buf: seq<bv8>): bv16
  {
    Divide(Words(), MessageBits(buf) + Zeros(16))
  }

  lemma {:induction false} SerialConcat<R>(k: Ring<R>, c: R, a: seq<bool>, b: seq<bool>)
    ensures Serial(k, c, a + b) == Serial(k, Serial(k, c, a), b)
    decreases |b|
  {
    if b == [] {
      assert a + b == a;
    } else {
      assert (a + b)[..|a| + |b| - 1] == a + b[..|b| - 1];
      SerialConcat(k, c, a, b[..|b| - 1]);
    }
  }

  lemma {:induction false} Climb(n: nat)
    requires n <= 15
    ensures Power(Words(), 1, n) == (1 as bv16) << n
  {
    if n == 0 {
      ShiftNone();
    } else {
      Climb(n - 1);
      ShiftOnce(n - 1);
    }
  }

  lemma TopConstant(bit: bool)
    ensures Power(Words(), Constant(Words(), bit), 15) == TopBit(bit)
  {
    if bit {
      Climb(15);
      ShiftTop();
    } else {
      WordsLawful();
      PowerZero(Words(), 15);
    }
  }

  lemma OctetsFeed()
    ensures Feeds(Words(), Octets())
  {
    var k, t := Words(), Octets();
    forall c, b
      ensures k.timesX(k.add(c, t.wide(b))) ==
              k.add(k.timesX(k.add(c, Power(k, Constant(k, t.hi(b)), 15))), t.wide(t.up(b)))
    {
      OctetFeeds(c, b, Power(k, Constant(k, t.hi(b)), 15));
    }
  }

  lemma OctetFeeds(c: bv16, b: bv8, p: bv16)
    requires p == Power(Words(), Constant(Words(), Octets().hi(b)), 15)
    ensures Words().timesX(Words().add(c, Octets().wide(b))) ==
            Words().add(Words().timesX(Words().add(c, p)), Octets().wide(Octets().up(b)))
  {
    TopConstant(Hi(b));
    FeedWith(c, b, p);
  }

  lemma OctetGone(b: bv8)
    ensures Octets().wide(Shifted(Octets(), b, 8)) == Words().zero
  {
    var t := Octets();
    assert Shifted(t, b, 4) == Up(Up(Up(Up(b))));
    assert Shifted(t, b, 8) == Up(Up(Up(Up(Shifted(t, b, 4)))));
    ByteGone(b);
  }

  lemma FeedByte(c: bv16, b: bv8)
    ensures Serial(Words(), c, BitsOf(Octets(), b, 8)) == Byte(Words().add(c, Wide(b)))
  {
    OctetsFeed();
    WordsLawful();
    OctetGone(b);
    FeedAtOnce(Words(), Octets(), c, b, 8);
  }

  lemma {:induction false} LowByte(c: bv16, n: nat)
    requires n <= 8
    ensures Power(Words(), c & 0xff, n) == (c & 0xff) << n
  {
    if n == 0 {
      LowStart(c);
    } else {
      LowByte(c, n - 1);
      LowClimbs(c, n - 1);
    }
  }

  lemma LowPower(c: bv16)
    ensures Power(Words(), c & 0xff, 8) == c << 8
  {
    LowByte(c, 8);
    Halves(c, 0);
  }

  lemma WordsSplit(c: bv16, b: bv8)
    ensures Words().add(c, Wide(b)) == Words().add(Wide(((c >> 8) as bv8) ^ b), c & 0xff)
  {
    Halves(c, b);
  }

  lemma WordsSwap(a: bv16, b: bv16)
    ensures Words().add(a, b) == Words().add(b, a)
  {
    Swap(a, b);
  }

  /** The table look-up does the work of eight steps. */
  lemma TableStep(c: bv16, b: bv8)
    ensures Words().add(c << 8, Byte(Wide(((c >> 8) as bv8) ^ b))) == Byte(Words().add(c, Wide(b)))
  {
    var hi := Wide(((c >> 8) as bv8) ^ b);
    WordsSplit(c, b);
    WordsLawful();
    LowPower(c);
    WordsSwap(c << 8, Byte(hi));
    PowerOfSum(Words(), Words().add(c, Wide(b)), hi, c & 0xff, c << 8);
  }

  lemma CrcSerial(buf: seq<bv8>)
    ensures Crc(buf) == Serial(Words(), 0, MessageBits(buf))
  {
    WordsLawful();
    SerialDivides(Words(), MessageBits(buf));
  }

  // ----- The code -----

  /** What each byte contributes eight steps on. */
  ghost predicate IsTable(tab: seq<bv16>)
  {
    |tab| == 256 && forall i :: 0 <= i < 256 ==> tab[i] == Byte(Wide(i as bv8))
  }

  method InitTable() returns (tab: seq<bv16>)
    ensures IsTable(tab)
  {
    tab := [];
    for i := 0 to 256
      invariant |tab| == i && forall k :: 0 <= k < i ==> tab[k] == Byte(Wide(k as bv8))
    {
      var crc := Wide(i as bv8);
      for j := 0 to 8
        invariant crc == Power(Words(), Wide(i as bv8), j)
      {
        TimesXBranches(crc);
        if crc & 0x8000 != 0 {
          crc := (crc << 1) ^ 0x1021;
        } else {
          crc := crc << 1;
        }
      }
      tab := tab + [crc];
    }
  }

  /** The table-driven loop computes the remainder of the long division. */
  method Checksum(tab: seq<bv16>, buf: seq<bv8>) returns (crc: bv16)
    requires IsTable(tab)
    ensures crc == Crc(buf)
  {
    crc := 0;
    for n := 0 to |buf|
      invariant crc == Serial(Words(), 0, MessageBits(buf[..n]))
    {
      MessageMore(buf, n);
      crc := Update(tab, crc, buf[n]);
    }
    assert buf[..|buf|] == buf;
    CrcSerial(buf);
  }

  lemma MessageMore(buf: seq<bv8>, n: nat)
    requires n < |buf|
    ensures Serial(Words(), 0, MessageBits(buf[..n + 1])) ==
            Serial(Words(), Serial(Words(), 0, MessageBits(buf[..n])), BitsOf(Octets(), buf[n], 8))
  {
    assert buf[..n + 1][..n] == buf[..n];
    SerialConcat(Words(), 0, MessageBits(buf[..n]), BitsOf(Octets(), buf[n], 8));
  }

  method Update(tab: seq<bv16>, crc: bv16, b: bv8) returns (crc': bv16)
    requires IsTable(tab)
    ensures crc' == Serial(Words(), crc, BitsOf(Octets(), b, 8))
  {
    var entry := Lookup(tab, ((crc >> 8) as bv8) ^ b);
    UpdateFeeds(crc, b, entry);
    crc' := (crc << 8) ^ entry;
  }

  method Lookup(tab: seq<bv16>, index: bv8) returns (entry: bv16)
    requires IsTable(tab)
    ensures entry == Byte(Wide(index))
  {
    TableAt(tab, index);
    entry := tab[index as int];
  }

  lemma TableAt(tab: seq<bv16>, index: bv8)
    requires IsTable(tab)
    ensures 0 <= index as int < 256 && tab[index as int] == Byte(Wide(index))
  {
    ByteIndex(index);
  }

  lemma UpdateFeeds(crc: bv16, b: bv8, entry: bv16)
    requires entry == Byte(Wide(((crc >> 8) as bv8) ^ b))
    ensures (crc << 8) ^ entry == Serial(Words(), crc, BitsOf(Octets(), b, 8))
  {
    TableStep(crc, b);
    FeedByte(crc, b);
  }

  lemma ByteIndex(b: bv8)
    ensures 0 <= b as int < 256 && (b as int) as bv8 == b
  {
  }
}
