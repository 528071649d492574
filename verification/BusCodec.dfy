/** The cluster bus messages: a fixed header and a gossip section of fixed-size
    entries, written into byte buffers at offsets, little-endian. */
module BusCodec {
  import opened Wrappers
  import opened Decimal
  import opened Seqs

  const ID_LEN: nat := 40
  const IP_LEN: nat := 46
  const SLOT_BYTES: nat := 2048
  const HEADER_LEN: nat := 2130
  const ENTRY_LEN: nat := 98
  const SIGNATURE: Bytes := [0x52, 0x43, 0x6d, 0x62]
  const VERSION: nat := 1

  datatype Header = Header(totalLen: int, version: int, msgType: int, gossipCount: int, currentEpoch: int, configEpoch: int,
                           port: int, cport: int, flags: int, senderId: Bytes, slots: Bytes)

  datatype Entry = Entry(id: Bytes, ip: Bytes, port: int, cport: int, flags: int)

  // ----- Fields -----

  function Put16(v: int): (s: Bytes)
    ensures |s| == 2
  {
    [v % 256, v / 256 % 256]
  }

  function Put32(v: int): (s: Bytes)
    ensures |s| == 4
  {
    [v % 256, v / 256 % 256, v / 65536 % 256, v / 16777216 % 256]
  }

  function Put64(v: int): (s: Bytes)
    ensures |s| == 8
  {
    Put32(v % 0x1_0000_0000) + Put32(v / 0x1_0000_0000)
  }

  function Get16(s: Bytes): int
    requires |s| == 2
  {
    s[0] + 256 * s[1]
  }

  function Get32(s: Bytes): int
    requires |s| == 4
  {
    s[0] + 256 * s[1] + 65536 * s[2] + 16777216 * s[3]
  }

  function Get64(s: Bytes): int
    requires |s| == 8
  {
    Get32(s[..4]) + 0x1_0000_0000 * Get32(s[4..])
  }

  lemma RoundTrip16(v: int)
    requires 0 <= v < 0x1_0000
    ensures Get16(Put16(v)) == v
  {
  }

  lemma RoundTrip32(v: int)
    requires 0 <= v < 0x1_0000_0000
    ensures Get32(Put32(v)) == v
  {
    var a := v / 256;
    var b := a / 256;
    assert b == v / 65536 && b / 256 == v / 16777216;
  }

  lemma RoundTrip64(v: int)
    requires 0 <= v < U64
    ensures Get64(Put64(v)) == v
  {
    var lo, hi := v % 0x1_0000_0000, v / 0x1_0000_0000;
    RoundTrip32(lo);
    RoundTrip32(hi);
    assert Put64(v)[..4] == Put32(lo) && Put64(v)[4..] == Put32(hi);
  }

  /** The first n bytes, filled up with zeros. */
  function Padded(s: Bytes, n: nat): (r: Bytes)
    ensures |r| == n
  {
    if |s| >= n then s[..n] else s + seq(n - |s|, _ => 0)
  }

  /** Up to the first zero. */
  function UntilZero(s: Bytes): (r: Bytes)
    ensures |r| <= |s| && r == s[..|r|] && 0 !in r && (|r| < |s| ==> s[|r|] == 0)
  {
    if s == [] || s[0] == 0 then [] else [s[0]] + UntilZero(s[1..])
  }

  method GetId(src: Bytes) returns (id: Bytes)
    ensures id == UntilZero(src)
  {
    var n := 0;
    while n < |src| && src[n] != 0
      invariant 0 <= n <= |src| && 0 !in src[..n]
    {
      n := n + 1;
    }
    ZeroAt(src, n);
    return src[..n];
  }

  lemma {:induction false} ZeroAt(s: Bytes, n: nat)
    requires n <= |s| && 0 !in s[..n] && (n < |s| ==> s[n] == 0)
    ensures UntilZero(s) == s[..n]
  {
    if n > 0 {
      assert s[0] in s[..n] && forall x :: x in s[1..][..n - 1] ==> x in s[..n];
      ZeroAt(s[1..], n - 1);
    }
  }

  /** A text survives its field exactly if it fits and holds no zero byte. */
  lemma PaddedRoundTripIff(s: Bytes, n: nat)
    ensures UntilZero(Padded(s, n)) == s <==> |s| <= n && 0 !in s
  {
    if |s| <= n && 0 !in s {
      ZeroAt(Padded(s, n), |s|);
    }
  }

  // ----- Header -----

  predicate Fits(h: Header)
  {
    && 0 <= h.totalLen < 0x1_0000_0000 && 0 <= h.msgType < 0x1_0000 && 0 <= h.gossipCount < 0x1_0000
    && 0 <= h.currentEpoch < U64 && 0 <= h.configEpoch < U64 && |h.slots| == SLOT_BYTES
    && 0 <= h.port < 0x1_0000_0000 && 0 <= h.cport < 0x1_0000_0000 && 0 <= h.flags < 0x1_0000_0000
  }

  /** The header field by field; the version is always the current one. */
  function Fields(h: Header): (r: seq<Bytes>)
    requires |h.slots| == SLOT_BYTES
    ensures |r| == 12
  {
    [SIGNATURE, Put32(h.totalLen), Put16(VERSION), Put16(h.msgType), Put16(h.gossipCount),
     Put64(h.currentEpoch), Put64(h.configEpoch), Put32(h.port), Put32(h.cport), Put32(h.flags),
     Padded(h.senderId, ID_LEN), h.slots]
  }

  const OFFSETS: seq<nat> := [0, 4, 8, 10, 12, 14, 22, 30, 34, 38, 42, 82, 2130]

  function HeaderBytes(h: Header): Bytes
    requires |h.slots| == SLOT_BYTES
  {
    Flat(Fields(h))
  }

  /** Field i starts at its offset. */
  lemma {:induction false} FieldOffset(h: Header, i: nat)
    requires |h.slots| == SLOT_BYTES && i <= 12
    ensures |Flat(Fields(h)[..i])| == OFFSETS[i]
  {
    if i > 0 {
      FieldOffset(h, i - 1);
      FlatAt(Fields(h), i - 1);
    }
  }

  lemma FieldAt(h: Header, rest: Bytes, i: nat)
    requires |h.slots| == SLOT_BYTES && i < 12
    ensures |HeaderBytes(h)| == HEADER_LEN
    ensures (HeaderBytes(h) + rest)[OFFSETS[i]..OFFSETS[i + 1]] == Fields(h)[i]
  {
    var fs := Fields(h);
    FieldOffset(h, i);
    FieldOffset(h, i + 1);
    FieldOffset(h, 12);
    assert fs[..12] == fs;
    FlatAt(fs, i);
    Middle(Flat(fs[..i]), fs[i], Flat(fs[i + 1..]), rest);
  }

  lemma Middle(a: Bytes, m: Bytes, b: Bytes, rest: Bytes)
    ensures (a + m + b + rest)[|a|..|a| + |m|] == m
  {
  }

  function DecodeHeader(buf: Bytes): Option<Header>
  {
    if |buf| < HEADER_LEN || buf[0..4] != SIGNATURE then None
    else
      Some(Header(Get32(buf[4..8]), Get16(buf[8..10]), Get16(buf[10..12]), Get16(buf[12..14]),
                  Get64(buf[14..22]), Get64(buf[22..30]), Get32(buf[30..34]), Get32(buf[34..38]), Get32(buf[38..42]),
                  UntilZero(buf[42..82]), buf[82..HEADER_LEN]))
  }

  /** Decoding returns the header that was encoded, with the current version,
      exactly if the sender's id fits its field and holds no zero byte. */
  lemma HeaderRoundTripIff(h: Header, rest: Bytes)
    requires Fits(h)
    ensures DecodeHeader(HeaderBytes(h) + rest) == Some(h.(version := VERSION)) <==> |h.senderId| <= ID_LEN && 0 !in h.senderId
  {
    var buf := HeaderBytes(h) + rest;
    HeaderFields(h, rest, buf);
    PaddedRoundTripIff(h.senderId, ID_LEN);
  }

  lemma HeaderFields(h: Header, rest: Bytes, buf: Bytes)
    requires Fits(h) && buf == HeaderBytes(h) + rest
    ensures DecodeHeader(buf) == Some(h.(version := VERSION, senderId := UntilZero(Padded(h.senderId, ID_LEN))))
  {
    FieldAt(h, rest, 0);
    FieldAt(h, rest, 1);
    FieldAt(h, rest, 2);
    FieldAt(h, rest, 3);
    FieldAt(h, rest, 4);
    FieldAt(h, rest, 5);
    FieldAt(h, rest, 6);
    FieldAt(h, rest, 7);
    FieldAt(h, rest, 8);
    FieldAt(h, rest, 9);
    FieldAt(h, rest, 10);
    FieldAt(h, rest, 11);
    RoundTrip32(h.totalLen);
    RoundTrip16(VERSION);
    RoundTrip16(h.msgType);
    RoundTrip16(h.gossipCount);
    RoundTrip64(h.currentEpoch);
    RoundTrip64(h.configEpoch);
    RoundTrip32(h.port);
    RoundTrip32(h.cport);
    RoundTrip32(h.flags);
  }

  /** Copies data to buf[off..]. */
  method Put(buf: array<Byte>, off: nat, data: Bytes)
    requires off + |data| <= buf.Length
    modifies buf
    ensures buf[..off] == old(buf[..off]) && buf[off..off + |data|] == data
    ensures buf[off + |data|..] == old(buf[off + |data|..])
  {
    for i := 0 to |data|
      invariant buf[..off] == old(buf[..off]) && buf[off..off + i] == data[..i]
      invariant buf[off + i..] == old(buf[off + i..])
    {
      ghost var tail := buf[off + i..];
      assert tail[1..] == buf[off + i + 1..] == old(buf[off + i + 1..]);
      buf[off + i] := data[i];
    }
  }

  /** Fills in field i, behind the fields before it. */
  method PutField(buf: array<Byte>, ghost fs: seq<Bytes>, ghost i: nat, off: nat, data: Bytes)
    requires i < |fs| && data == fs[i] && off + |data| <= buf.Length
    requires buf[..off] == Flat(fs[..i])
    modifies buf
    ensures buf[..off + |data|] == Flat(fs[..i + 1])
    ensures buf[off + |data|..] == old(buf[off + |data|..])
  {
    Put(buf, off, data);
    FlatAt(fs, i);
    assert buf[..off + |data|] == buf[..off] + buf[off..off + |data|];
  }

  method EncodeHeader(h: Header) returns (buf: array<Byte>)
    requires |h.slots| == SLOT_BYTES
    ensures fresh(buf) && buf[..] == HeaderBytes(h)
  {
    buf := new Byte[HEADER_LEN];
    ghost var fs := Fields(h);
    PutField(buf, fs, 0, 0, SIGNATURE);
    PutField(buf, fs, 1, 4, Put32(h.totalLen));
    PutField(buf, fs, 2, 8, Put16(VERSION));
    PutField(buf, fs, 3, 10, Put16(h.msgType));
    PutField(buf, fs, 4, 12, Put16(h.gossipCount));
    PutField(buf, fs, 5, 14, Put64(h.currentEpoch));
    PutField(buf, fs, 6, 22, Put64(h.configEpoch));
    PutField(buf, fs, 7, 30, Put32(h.port));
    PutField(buf, fs, 8, 34, Put32(h.cport));
    PutField(buf, fs, 9, 38, Put32(h.flags));
    PutField(buf, fs, 10, 42, Padded(h.senderId, ID_LEN));
    PutField(buf, fs, 11, 82, h.slots);
    assert fs[..12] == fs && buf[..HEADER_LEN] == buf[..];
  }

  // ----- Gossip entries -----

  predicate EntryFits(e: Entry)
  {
    0 <= e.port < 0x1_0000_0000 && 0 <= e.cport < 0x1_0000_0000 && 0 <= e.flags < 0x1_0000_0000
  }

  /** The texts of an entry survive their fields. */
  predicate Clean(e: Entry)
  {
    |e.id| <= ID_LEN && 0 !in e.id && |e.ip| <= IP_LEN && 0 !in e.ip
  }

  function EntryFields(e: Entry): (r: seq<Bytes>)
    ensures |r| == 5
  {
    [Padded(e.id, ID_LEN), Padded(e.ip, IP_LEN), Put32(e.port), Put32(e.cport), Put32(e.flags)]
  }

  const ENTRY_OFFSETS: seq<nat> := [0, 40, 86, 90, 94, 98]

  function EntryBytes(e: Entry): Bytes
  {
    Flat(EntryFields(e))
  }

  lemma {:induction false} EntryOffset(e: Entry, i: nat)
    requires i <= 5
    ensures |Flat(EntryFields(e)[..i])| == ENTRY_OFFSETS[i]
  {
    if i > 0 {
      EntryOffset(e, i - 1);
      FlatAt(EntryFields(e), i - 1);
    }
  }

  lemma EntryFieldAt(e: Entry, rest: Bytes, i: nat)
    requires i < 5
    ensures |EntryBytes(e)| == ENTRY_LEN
    ensures (EntryBytes(e) + rest)[ENTRY_OFFSETS[i]..ENTRY_OFFSETS[i + 1]] == EntryFields(e)[i]
  {
    var fs := EntryFields(e);
    EntryOffset(e, i);
    EntryOffset(e, i + 1);
    EntryOffset(e, 5);
    assert fs[..5] == fs;
    FlatAt(fs, i);
    Middle(Flat(fs[..i]), fs[i], Flat(fs[i + 1..]), rest);
  }

  function DecodeEntry(buf: Bytes): Entry
    requires |buf| >= ENTRY_LEN
  {
    Entry(UntilZero(buf[0..40]), UntilZero(buf[40..86]), Get32(buf[86..90]), Get32(buf[90..94]), Get32(buf[94..98]))
  }

  lemma EntryRoundTripIff(e: Entry, rest: Bytes)
    requires EntryFits(e)
    ensures |EntryBytes(e)| == ENTRY_LEN
    ensures DecodeEntry(EntryBytes(e) + rest) == e <==> Clean(e)
  {
    EntryFieldAt(e, rest, 0);
    EntryFieldAt(e, rest, 1);
    EntryFieldAt(e, rest, 2);
    EntryFieldAt(e, rest, 3);
    EntryFieldAt(e, rest, 4);
    RoundTrip32(e.port);
    RoundTrip32(e.cport);
    RoundTrip32(e.flags);
    PaddedRoundTripIff(e.id, ID_LEN);
    PaddedRoundTripIff(e.ip, IP_LEN);
  }

  function GossipBytes(es: seq<Entry>): Bytes
  {
    if es == [] then [] else EntryBytes(es[0]) + GossipBytes(es[1..])
  }

  /** As many whole entries as the buffer holds, up to count. */
  function DecodeEntries(buf: Bytes, count: nat): seq<Entry>
    decreases count
  {
    if count == 0 || |buf| < ENTRY_LEN then [] else [DecodeEntry(buf)] + DecodeEntries(buf[ENTRY_LEN..], count - 1)
  }

  lemma {:induction false} GossipRoundTrip(es: seq<Entry>, rest: Bytes)
    requires forall e :: e in es ==> EntryFits(e) && Clean(e)
    ensures DecodeEntries(GossipBytes(es) + rest, |es|) == es
  {
    if es != [] {
      var tail := GossipBytes(es[1..]) + rest;
      assert es[0] in es;
      EntryRoundTripIff(es[0], tail);
      assert GossipBytes(es) + rest == EntryBytes(es[0]) + tail;
      assert (EntryBytes(es[0]) + tail)[ENTRY_LEN..] == tail;
      GossipRoundTrip(es[1..], rest);
    }
  }

  lemma EntriesStep(out: seq<Entry>, buf: Bytes, i: nat, count: nat)
    requires i < count && (i + 1) * ENTRY_LEN <= |buf|
    ensures out + DecodeEntries(buf[i * ENTRY_LEN..], count - i) ==
            out + [DecodeEntry(buf[i * ENTRY_LEN..])] + DecodeEntries(buf[(i + 1) * ENTRY_LEN..], count - (i + 1))
  {
    var off := i * ENTRY_LEN;
    assert buf[off..][ENTRY_LEN..] == buf[off + ENTRY_LEN..];
  }

  method DecodeGossip(buf: Bytes, count: nat) returns (out: seq<Entry>)
    ensures out == DecodeEntries(buf, count)
  {
    out := [];
    var i := 0;
    while i < count && (i + 1) * ENTRY_LEN <= |buf|
      invariant 0 <= i <= count && i * ENTRY_LEN <= |buf|
      invariant out + DecodeEntries(buf[i * ENTRY_LEN..], count - i) == DecodeEntries(buf, count)
    {
      EntriesStep(out, buf, i, count);
      out := out + [DecodeEntry(buf[i * ENTRY_LEN..])];
      i := i + 1;
    }
    assert out + [] == out;
  }

  lemma GossipStep(done: Bytes, es: seq<Entry>, i: nat)
    requires i < |es|
    ensures done + GossipBytes(es[i..]) == done + EntryBytes(es[i]) + GossipBytes(es[i + 1..])
  {
    assert es[i..][1..] == es[i + 1..];
  }

  method EncodeGossip(es: seq<Entry>) returns (buf: array<Byte>)
    ensures fresh(buf) && buf[..] == GossipBytes(es)
  {
    buf := new Byte[|es| * ENTRY_LEN];
    assert es[0..] == es;
    ghost var done: Bytes := [];
    for i := 0 to |es|
      invariant buf[..i * ENTRY_LEN] == done && done + GossipBytes(es[i..]) == GossipBytes(es)
    {
      GossipStep(done, es, i);
      PutEntry(buf, i * ENTRY_LEN, es[i]);
      done := done + EntryBytes(es[i]);
    }
    assert done + [] == done && buf[..|es| * ENTRY_LEN] == buf[..];
  }

  method PutEntry(buf: array<Byte>, off: nat, e: Entry)
    requires off + ENTRY_LEN <= buf.Length
    modifies buf
    ensures buf[..off + ENTRY_LEN] == old(buf[..off]) + EntryBytes(e)
  {
    EntryFieldAt(e, [], 0);
    Put(buf, off, EntryBytes(e));
    assert buf[..off + ENTRY_LEN] == buf[..off] + buf[off..off + ENTRY_LEN];
  }
}
