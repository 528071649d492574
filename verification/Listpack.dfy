/** The listpack: elements encoded one after the other in a byte buffer. */
module Listpack {
  import opened Wrappers
  import opened Decimal
  import opened Seqs

  datatype Elem = Str(s: Bytes) | Int(v: Int64)

  /** Bad: fewer than one whole element; Crash: a length that reads as negative. */
  datatype Decoded = Bad | Crash | Good(elem: Elem, used: nat)

  const ELEM_STR: Byte := 0
  const ELEM_INT: Byte := 1
  const MAX_VARINT_LEN: nat := 10

  // ----- Variable-length integers, as in Go's encoding/binary -----

  /** Seven bits a byte, low bits first, the high bit set on all but the last. */
  function Uvarint(n: nat): (s: Bytes)
    ensures |s| > 0
  {
    if n < 128 then [n] else [n % 128 + 128] + Uvarint(n / 128)
  }

  function Pow128(i: nat): nat
  {
    if i == 0 then 1 else 128 * Pow128(i - 1)
  }

  /** Reads on at byte i with x collected so far; None on overflow or too few bytes. */
  function ReadUvarint(d: Bytes, i: nat, x: nat): (r: Option<(nat, nat)>)
    decreases |d|
  {
    if d == [] || i >= MAX_VARINT_LEN then None
    else if d[0] < 128 then
      if d[0] < 0 || (i == MAX_VARINT_LEN - 1 && d[0] > 1) then None else Some((x + d[0] * Pow128(i), i + 1))
    else ReadUvarint(d[1..], i + 1, x + d[0] % 128 * Pow128(i))
  }

  lemma {:induction false} ReadUvarintBounds(d: Bytes, i: nat, x: nat)
    requires x < Pow128(i)
    ensures var r := ReadUvarint(d, i, x);
            r.Some? ==> i < r.value.1 <= i + |d| && r.value.1 <= MAX_VARINT_LEN && r.value.0 < U64
    decreases |d|
  {
    if d != [] && i < MAX_VARINT_LEN {
      PowBounds(i);
      if d[0] >= 128 {
        Below(d[0] % 128, Pow128(i), 127);
        ReadUvarintBounds(d[1..], i + 1, x + d[0] % 128 * Pow128(i));
      } else if 0 <= d[0] {
        Below(d[0], Pow128(i), if i == MAX_VARINT_LEN - 1 && d[0] <= 1 then 1 else 127);
      }
    }
  }

  lemma Below(b: nat, p: nat, top: nat)
    requires b <= top
    ensures b * p <= top * p
  {
  }

  lemma PowBounds(i: nat)
    requires i < MAX_VARINT_LEN
    ensures Pow128(i) <= U64 / 2 && (i < 9 ==> Pow128(i) * 128 <= U64 / 2)
  {
    assert Pow128(5) == 128 * 128 * 128 * 128 * 128;
    assert Pow128(9) == Pow128(5) * 128 * 128 * 128 * 128;
    PowMonotone(i, 9);
    if i < 9 {
      PowMonotone(i + 1, 9);
    }
  }

  lemma {:induction false} PowMonotone(i: nat, j: nat)
    requires i <= j
    ensures Pow128(i) <= Pow128(j)
    decreases j
  {
    if i < j {
      PowMonotone(i, j - 1);
    }
  }

  lemma {:induction false} PowGrows(i: nat)
    ensures i >= 9 ==> Pow128(i) >= U64 / 2
    ensures i >= 10 ==> Pow128(i) >= U64
  {
    assert Pow128(5) == 128 * 128 * 128 * 128 * 128;
    assert Pow128(9) == Pow128(5) * 128 * 128 * 128 * 128;
    if i > 9 {
      PowGrows(i - 1);
    }
  }

  /** Reading back what was written, whatever follows. */
  lemma {:induction false} UvarintRoundTrip(n: nat, rest: Bytes, i: nat, x: nat)
    requires n * Pow128(i) < U64 && (n == 0 ==> i == 0)
    ensures ReadUvarint(Uvarint(n) + rest, i, x) == Some((x + n * Pow128(i), i + |Uvarint(n)|))
    decreases n
  {
    PowGrows(i);
    AtMost(n, Pow128(i), i);
    if n < 128 {
      ReadLast(n, rest, i, x);
    } else {
      var q := n / 128;
      Carry(n, Pow128(i));
      assert Uvarint(n) + rest == [n % 128 + 128] + (Uvarint(q) + rest);
      ReadMore(n % 128 + 128, Uvarint(q) + rest, i, x);
      UvarintRoundTrip(q, rest, i + 1, x + n % 128 * Pow128(i));
    }
  }

  lemma ReadLast(b: int, rest: Bytes, i: nat, x: nat)
    requires 0 <= b < 128 && i < MAX_VARINT_LEN && (i == MAX_VARINT_LEN - 1 ==> b <= 1)
    ensures ReadUvarint([b] + rest, i, x) == Some((x + b * Pow128(i), i + 1))
  {
  }

  lemma ReadMore(b: int, rest: Bytes, i: nat, x: nat)
    requires 128 <= b < 256 && i < MAX_VARINT_LEN
    ensures ReadUvarint([b] + rest, i, x) == ReadUvarint(rest, i + 1, x + b % 128 * Pow128(i))
  {
    assert ([b] + rest)[1..] == rest;
  }

  lemma AtMost(n: nat, p: nat, i: nat)
    requires n * p < U64 && (i >= 9 ==> p >= U64 / 2) && (i >= 10 ==> p >= U64)
    ensures i >= 9 ==> n < 2
    ensures i >= 10 ==> n == 0
  {
    assert n >= 2 ==> n * p >= 2 * p;
    assert n >= 1 ==> n * p >= p;
  }

  lemma Carry(n: nat, p: nat)
    ensures n % 128 * p + n / 128 * (128 * p) == n * p && n % 128 * p >= 0
  {
    assert n == n / 128 * 128 + n % 128;
    assert n / 128 * (128 * p) == n / 128 * 128 * p;
  }

  function ZigZag(v: Int64): nat
  {
    if v >= 0 then 2 * v else -2 * v - 1
  }

  function UnZigZag(u: Uint64): Int64
  {
    if u % 2 == 0 then u / 2 else -(u / 2) - 1
  }

  // ----- Elements -----

  function Encode(e: Elem): (d: Bytes)
    ensures |d| > 1
  {
    match e
    case Str(s) => [ELEM_STR] + Uvarint(|s|) + s
    case Int(v) => [ELEM_INT] + Uvarint(ZigZag(v))
  }

  /** What follows the tag of a string element. A length that takes the end of
      the string past the int64 range wraps and makes the slice panic. */
  function DecodeStr(d: Bytes): Decoded
  {
    ReadUvarintBounds(d, 0, 0);
    match ReadUvarint(d, 0, 0)
    case None => Bad
    case Some(r) =>
      if 1 + r.1 + r.0 > MAX_INT64 then Crash
      else if r.1 + r.0 > |d| then Bad
      else Good(Str(d[r.1..r.1 + r.0]), 1 + r.1 + r.0)
  }

  function DecodeInt(d: Bytes): Decoded
  {
    ReadUvarintBounds(d, 0, 0);
    match ReadUvarint(d, 0, 0)
    case None => Bad
    case Some(r) => Good(Int(UnZigZag(r.0)), 1 + r.1)
  }

  function Decode(d: Bytes): Decoded
  {
    if d == [] then Bad
    else if d[0] == ELEM_STR then DecodeStr(d[1..])
    else if d[0] == ELEM_INT then DecodeInt(d[1..])
    else Bad
  }

  /** A string that with its tag and length still fits a byte slice. */
  const MAX_STR: int := MAX_INT64 - 1 - MAX_VARINT_LEN

  predicate Sized(e: Elem)
  {
    e.Str? ==> |e.s| <= MAX_STR
  }

  lemma StrRoundTrip(s: Bytes, rest: Bytes)
    requires |s| <= MAX_STR
    ensures DecodeStr(Uvarint(|s|) + (s + rest)) == Good(Str(s), 1 + |Uvarint(|s|)| + |s|)
  {
    var u := Uvarint(|s|);
    UvarintRoundTrip(|s|, s + rest, 0, 0);
    ReadUvarintBounds(u + (s + rest), 0, 0);
    Middle(u, s, rest);
    Cut(u + (s + rest), |u|, s);
  }

  lemma Cut(d: Bytes, k: nat, s: Bytes)
    requires |s| <= MAX_STR && k <= MAX_VARINT_LEN && ReadUvarint(d, 0, 0) == Some((|s|, k)) && k + |s| <= |d| && d[k..k + |s|] == s
    ensures DecodeStr(d) == Good(Str(s), 1 + k + |s|)
  {
  }

  lemma Middle(u: Bytes, s: Bytes, rest: Bytes)
    ensures (u + (s + rest))[|u|..|u| + |s|] == s
  {
  }

  lemma IntRoundTrip(v: Int64, rest: Bytes)
    ensures DecodeInt(Uvarint(ZigZag(v)) + rest) == Good(Int(v), 1 + |Uvarint(ZigZag(v))|)
  {
    UvarintRoundTrip(ZigZag(v), rest, 0, 0);
  }

  lemma Tagged(tag: Byte, a: Bytes, b: Bytes)
    ensures ([tag] + a + b)[0] == tag && ([tag] + a + b)[1..] == a + b
  {
  }

  /** Decoding undoes both encoders before any suffix. */
  lemma ElemRoundTrip(e: Elem, rest: Bytes)
    requires Sized(e)
    ensures Decode(Encode(e) + rest) == Good(e, |Encode(e)|)
  {
    match e
    case Str(s) =>
      var u := Uvarint(|s|);
      Regroup([ELEM_STR] + u, s, rest);
      Tagged(ELEM_STR, u, s + rest);
      StrRoundTrip(s, rest);
    case Int(v) =>
      Tagged(ELEM_INT, Uvarint(ZigZag(v)), rest);
      IntRoundTrip(v, rest);
  }

  lemma {:induction false} UvarintBytes(n: nat)
    ensures forall b :: b in Uvarint(n) ==> 0 <= b < 256
  {
    if n >= 128 {
      UvarintBytes(n / 128);
    }
  }

  /** What is written are bytes, if the string's are. */
  lemma EncodeBytes(e: Elem)
    requires e.Str? ==> forall b :: b in e.s ==> 0 <= b < 256
    ensures forall b :: b in Encode(e) ==> 0 <= b < 256
  {
    UvarintBytes(if e.Str? then |e.s| else ZigZag(e.v));
  }

  // ----- The buffer as a sequence -----

  /** The images of the elements end to end. */
  function FlatMap<A, B>(f: A -> seq<B>, s: seq<A>): seq<B>
  {
    if s == [] then [] else f(s[0]) + FlatMap(f, s[1..])
  }

  function Pack(es: seq<Elem>): Bytes
  {
    FlatMap(Encode, es)
  }

  lemma PackCons(es: seq<Elem>)
    requires es != []
    ensures Pack(es) == Encode(es[0]) + Pack(es[1..])
  {
  }

  lemma {:induction false} PackAppend(es: seq<Elem>, e: Elem)
    ensures Pack(es + [e]) == Pack(es) + Encode(e)
  {
    PackCons(es + [e]);
    if es == [] {
      assert [e][1..] == [];
    } else {
      PackCons(es);
      assert (es + [e])[1..] == es[1..] + [e];
      PackAppend(es[1..], e);
      Regroup(Encode(es[0]), Pack(es[1..]), Encode(e));
    }
  }

  /** The buffer's first element, and the buffer behind it. */
  lemma PackHead(es: seq<Elem>)
    requires es != [] && Sized(es[0])
    ensures Decode(Pack(es)) == Good(es[0], |Encode(es[0])|)
    ensures |Encode(es[0])| <= |Pack(es)| && Pack(es)[|Encode(es[0])|..] == Pack(es[1..])
  {
    PackCons(es);
    ElemRoundTrip(es[0], Pack(es[1..]));
  }

  lemma PackNext(buf: Bytes, pos: nat, es: seq<Elem>)
    requires es != [] && Sized(es[0]) && pos <= |buf| && buf[pos..] == Pack(es)
    ensures var d := Decode(buf[pos..]); d.Good? && pos + d.used <= |buf| && buf[pos + d.used..] == Pack(es[1..])
  {
    PackHead(es);
    var used := |Encode(es[0])|;
    assert buf[pos..][used..] == buf[pos + used..];
  }

  class Listpack {
    var buf: Bytes
    var num: nat
    ghost var elems: seq<Elem>

    ghost predicate Valid()
      reads this
    {
      buf == Pack(elems) && num == |elems| && forall e :: e in elems ==> Sized(e)
    }

    constructor ()
      ensures Valid() && elems == []
    {
      buf, num, elems := [], 0, [];
    }

    method Append(e: Elem)
      requires Valid() && Sized(e)
      modifies this
      ensures Valid() && elems == old(elems) + [e]
    {
      PackAppend(elems, e);
      buf := buf + Encode(e);
      num := num + 1;
      elems := elems + [e];
    }

    method Get(i: int) returns (r: Option<Elem>)
      requires Valid()
      ensures r == if 0 <= i < |elems| then Some(elems[i]) else None
    {
      if i < 0 || i >= num {
        return None;
      }
      var pos: nat := 0;
      for j := 0 to i
        invariant pos <= |buf| && buf[pos..] == Pack(elems[j..])
      {
        pos := Skip(pos, j);
      }
      PackHead(elems[i..]);
      return Some(Decode(buf[pos..]).elem);
    }

    /** The position behind the element at pos. */
    method Skip(pos: nat, ghost i: nat) returns (pos': nat)
      requires Valid() && i < |elems| && pos <= |buf| && buf[pos..] == Pack(elems[i..])
      ensures pos' <= |buf| && buf[pos'..] == Pack(elems[i + 1..])
    {
      PackNext(buf, pos, elems[i..]);
      assert elems[i..][1..] == elems[i + 1..];
      pos' := pos + Decode(buf[pos..]).used;
    }

    /** Every element in order, as a full iteration visits them. */
    method Elements() returns (es: seq<Elem>)
      requires Valid()
      ensures es == elems
    {
      es := [];
      var pos: nat := 0;
      for i := 0 to num
        invariant es == elems[..i] && pos <= |buf| && buf[pos..] == Pack(elems[i..])
      {
        PackHead(elems[i..]);
        es := es + [Decode(buf[pos..]).elem];
        pos := Skip(pos, i);
      }
    }
  }
}
