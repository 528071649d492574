/** The nodes.conf line of a node, written and parsed back. */
module NodesConf {
  import opened Wrappers
  import opened Decimal
  import opened SlotRanges

  const SPACE: Byte := 32
  const COMMA: Byte := 44
  const DASH: Byte := 45
  const COLON: Byte := 58
  const AT: Byte := 64
  const BRACKET: Byte := 91

  function Ascii(s: string): (r: Bytes)
    ensures |r| == |s| && forall i :: 0 <= i < |s| ==> r[i] == s[i] as int
  {
    seq(|s|, i requires 0 <= i < |s| => s[i] as int)
  }

  // ----- Words of a line -----

  predicate IsSpace(c: Byte)
  {
    c == SPACE || 9 <= c <= 13
  }

  /** Not empty, no white space. */
  predicate Word(s: Bytes)
  {
    s != [] && forall i :: 0 <= i < |s| ==> !IsSpace(s[i])
  }

  /** The length of the leading word. */
  function WordLen(s: Bytes): (n: nat)
    ensures n <= |s|
  {
    if s == [] || IsSpace(s[0]) then 0 else 1 + WordLen(s[1..])
  }

  function Words(s: Bytes): seq<Bytes>
    decreases |s|
  {
    if s == [] then []
    else if IsSpace(s[0]) then Words(s[1..])
    else [s[..WordLen(s)]] + Words(s[WordLen(s)..])
  }

  function Join(ws: seq<Bytes>, sep: Byte): Bytes
  {
    if ws == [] then [] else if |ws| == 1 then ws[0] else ws[0] + [sep] + Join(ws[1..], sep)
  }

  lemma {:induction false} WordLenOf(w: Bytes, rest: Bytes)
    requires (forall i :: 0 <= i < |w| ==> !IsSpace(w[i])) && (rest != [] ==> IsSpace(rest[0]))
    ensures WordLen(w + rest) == |w|
  {
    if w != [] {
      assert (w + rest)[1..] == w[1..] + rest;
      WordLenOf(w[1..], rest);
    } else {
      assert w + rest == rest;
    }
  }

  lemma {:induction false} WordsOfJoin(ws: seq<Bytes>)
    requires forall w :: w in ws ==> Word(w)
    ensures Words(Join(ws, SPACE)) == ws
  {
    if |ws| == 1 {
      assert ws[0] in ws;
      WordsCons(ws[0], []);
      assert ws[0] + [] == ws[0];
    } else if ws != [] {
      var w, rest := ws[0], Join(ws[1..], SPACE);
      assert w in ws;
      assert Join(ws, SPACE) == w + ([SPACE] + rest);
      WordsCons(w, [SPACE] + rest);
      WordsSkip(rest);
      WordsOfJoin(ws[1..]);
    }
  }

  lemma WordsCons(w: Bytes, rest: Bytes)
    requires Word(w) && (rest != [] ==> IsSpace(rest[0]))
    ensures Words(w + rest) == [w] + Words(rest)
  {
    WordLenOf(w, rest);
    assert (w + rest)[..|w|] == w && (w + rest)[|w|..] == rest;
  }

  lemma WordsSkip(rest: Bytes)
    ensures Words([SPACE] + rest) == Words(rest)
  {
    assert ([SPACE] + rest)[1..] == rest;
  }

  // ----- Splitting at a byte -----

  /** The first place of c, or the length. */
  function First(s: Bytes, c: Byte): (n: nat)
    ensures n <= |s| && (n < |s| ==> s[n] == c) && c !in s[..n]
  {
    if s == [] || s[0] == c then 0 else 1 + First(s[1..], c)
  }

  /** The last place of c, or -1. */
  function Last(s: Bytes, c: Byte): (n: int)
    ensures -1 <= n < |s| && (n >= 0 ==> s[n] == c) && c !in s[n + 1..]
  {
    if s == [] then -1 else if s[|s| - 1] == c then |s| - 1 else Last(s[..|s| - 1], c)
  }

  function Split(s: Bytes, c: Byte): seq<Bytes>
    decreases |s|
  {
    var n := First(s, c);
    if n == |s| then [s] else [s[..n]] + Split(s[n + 1..], c)
  }

  lemma {:induction false} FirstIs(a: Bytes, c: Byte, b: Bytes)
    requires c !in a
    ensures First(a + [c] + b, c) == |a|
  {
    if a != [] {
      assert (a + [c] + b)[1..] == a[1..] + [c] + b;
      FirstIs(a[1..], c, b);
    }
  }

  lemma {:induction false} LastIs(a: Bytes, c: Byte, b: Bytes)
    requires c !in b
    ensures Last(a + [c] + b, c) == |a|
  {
    if b != [] {
      var n := |b| - 1;
      assert (a + [c] + b)[..|a| + 1 + n] == a + [c] + b[..n];
      LastIs(a, c, b[..n]);
    } else {
      assert a + [c] + b == a + [c];
    }
  }

  lemma {:induction false} SplitOfJoin(ws: seq<Bytes>, c: Byte)
    requires ws != [] && forall w :: w in ws ==> c !in w
    ensures Split(Join(ws, c), c) == ws
  {
    assert ws[0] in ws;
    if |ws| == 1 {
      NoneFirst(ws[0], c);
    } else {
      var rest := Join(ws[1..], c);
      FirstIs(ws[0], c, rest);
      var s := ws[0] + [c] + rest;
      assert s[..|ws[0]|] == ws[0] && s[|ws[0]| + 1..] == rest;
      SplitOfJoin(ws[1..], c);
    }
  }

  lemma NoneFirst(s: Bytes, c: Byte)
    requires c !in s
    ensures First(s, c) == |s|
  {
  }

  // ----- Numbers -----

  /** strconv.Atoi and ParseInt with the error dropped: 0 if malformed, the
      nearest int64 if out of range. */
  function Number(s: Bytes): int
  {
    var u := Unsigned(s);
    if u == [] || !AllDigits(u) then 0
    else
      var v := if s[0] == MINUS then 0 - Value(u) else Value(u);
      if v > MAX_INT64 then MAX_INT64 else if v < MIN_INT64 then MIN_INT64 else v
  }

  function Unumber(s: Bytes): int
  {
    if s == [] || !AllDigits(s) then 0 else if Value(s) >= U64 then U64 - 1 else Value(s)
  }

  lemma FormatShape(v: int)
    ensures Word(Format(v)) && COLON !in Format(v) && AT !in Format(v) && COMMA !in Format(v) && BRACKET !in Format(v)
    ensures v >= 0 ==> AllDigits(Format(v)) && DASH !in Format(v)
  {
    FormatIsNumeral(v);
    CleanNumeral(Format(v), v < 0);
  }

  lemma CleanNumeral(s: Bytes, negative: bool)
    requires IsNumeral(s, negative)
    ensures Word(s) && COLON !in s && AT !in s && COMMA !in s && BRACKET !in s && (!negative ==> DASH !in s)
  {
  }

  lemma NumberOfFormat(v: int)
    ensures MIN_INT64 <= v <= MAX_INT64 ==> Number(Format(v)) == v
    ensures 0 <= v < U64 ==> Unumber(Format(v)) == v
  {
    DigitsValue(if v < 0 then -v else v);
    if v < 0 {
      assert Format(v)[1..] == Digits(-v);
    } else if v == 0 {
      assert Value([ZERO]) == 0;
    } else {
      assert Format(v)[0] != MINUS && Format(v)[0] != PLUS;
    }
  }

  // ----- Slots -----

  function RangeText(r: Range): Bytes
  {
    if r.lo == r.hi then Format(r.lo) else Format(r.lo) + [DASH] + Format(r.hi)
  }

  /** A token of the slot list: a migration note in brackets, one slot or a range. */
  datatype Token = Note | Single(slot: Bytes) | Dashed(lo: Bytes, hi: Bytes)

  function TokenOf(t: Bytes): Token
  {
    if t != [] && t[0] == BRACKET then Note
    else
      var dash := First(t, DASH);
      if dash < |t| then Dashed(t[..dash], t[dash + 1..]) else Single(t)
  }

  /** The slots a token names. */
  function TokenSlots(t: Bytes): seq<int>
  {
    match TokenOf(t)
    case Note => []
    case Single(s) => Wrapped([Number(s)])
    case Dashed(lo, hi) => Wrapped(Span(Number(lo), Number(hi) + 1))
  }

  /** Conversion to uint16. */
  function Wrapped(l: seq<int>): (r: seq<int>)
    ensures |r| == |l| && forall i :: 0 <= i < |l| ==> r[i] == l[i] % 0x1_0000
  {
    if l == [] then [] else Wrapped(l[..|l| - 1]) + [l[|l| - 1] % 0x1_0000]
  }

  lemma PlainToken(t: Bytes)
    requires t != [] && t[0] != BRACKET && DASH !in t
    ensures TokenOf(t) == Single(t)
  {
    NoneFirst(t, DASH);
  }

  lemma DashToken(a: Bytes, b: Bytes)
    requires a != [] && a[0] != BRACKET && DASH !in a
    ensures TokenOf(a + [DASH] + b) == Dashed(a, b)
  {
    FirstIs(a, DASH, b);
    Around(a, DASH, b);
  }

  lemma SmallSlots(lo: int, hi: int)
    requires 0 <= lo <= hi < 0x1_0000
    ensures Wrapped(Span(lo, hi + 1)) == Span(lo, hi + 1)
  {
  }

  lemma RangeRoundTrip(r: Range)
    requires 0 <= r.lo <= r.hi < 0x1_0000
    ensures TokenSlots(RangeText(r)) == Span(r.lo, r.hi + 1)
    ensures Word(RangeText(r))
  {
    SlotText(r.lo);
    SlotText(r.hi);
    RangeToken(Format(r.lo), Format(r.hi), r.lo, r.hi);
  }

  /** How a slot number is written. */
  ghost predicate IsSlotText(a: Bytes, slot: int)
  {
    Word(a) && a[0] != BRACKET && DASH !in a && Number(a) == slot
  }

  lemma SlotText(slot: int)
    requires 0 <= slot < 0x1_0000
    ensures IsSlotText(Format(slot), slot)
  {
    FormatShape(slot);
    NumberOfFormat(slot);
    assert Format(slot)[0] in Format(slot);
  }

  lemma RangeToken(a: Bytes, b: Bytes, lo: int, hi: int)
    requires IsSlotText(a, lo) && IsSlotText(b, hi) && 0 <= lo <= hi < 0x1_0000
    ensures var t := if lo == hi then a else a + [DASH] + b; TokenSlots(t) == Span(lo, hi + 1) && Word(t)
  {
    if lo == hi {
      PlainToken(a);
      assert Wrapped([lo]) == Span(lo, lo + 1);
    } else {
      DashToken(a, b);
      DashWord(a, b);
      SmallSlots(lo, hi);
    }
  }

  lemma DashWord(a: Bytes, b: Bytes)
    requires Word(a) && Word(b)
    ensures Word(a + [DASH] + b)
  {
  }

  function RangeTexts(rs: seq<Range>): (r: seq<Bytes>)
    ensures |r| == |rs|
  {
    if rs == [] then [] else RangeTexts(rs[..|rs| - 1]) + [RangeText(rs[|rs| - 1])]
  }

  function AllSlots(ts: seq<Bytes>): seq<int>
  {
    if ts == [] then [] else AllSlots(ts[..|ts| - 1]) + TokenSlots(ts[|ts| - 1])
  }

  lemma {:induction false} RangesRoundTrip(rs: seq<Range>)
    requires forall i :: 0 <= i < |rs| ==> 0 <= rs[i].lo <= rs[i].hi < 0x1_0000
    ensures AllSlots(RangeTexts(rs)) == Expand(rs)
    ensures forall t :: t in RangeTexts(rs) ==> Word(t)
  {
    if rs != [] {
      var n := |rs| - 1;
      RangesRoundTrip(rs[..n]);
      RangeRoundTrip(rs[n]);
      assert RangeTexts(rs)[..n] == RangeTexts(rs[..n]);
    }
  }

  method ParseSlots(ts: seq<Bytes>) returns (slots: seq<int>)
    ensures slots == AllSlots(ts)
  {
    slots := [];
    for i := 0 to |ts|
      invariant slots == AllSlots(ts[..i])
    {
      assert ts[..i + 1][..i] == ts[..i];
      slots := AddToken(slots, ts[i]);
    }
    assert ts[..|ts|] == ts;
  }

  method AddToken(slots: seq<int>, t: Bytes) returns (r: seq<int>)
    ensures r == slots + TokenSlots(t)
  {
    if t != [] && t[0] == BRACKET {
      return slots;
    }
    var dash := First(t, DASH);
    if dash == |t| {
      assert Wrapped([Number(t)]) == [Number(t) % 0x1_0000];
      return slots + [Number(t) % 0x1_0000];
    }
    r := AddSpan(slots, Number(t[..dash]), Number(t[dash + 1..]));
  }

  method AddSpan(slots: seq<int>, lo: int, hi: int) returns (r: seq<int>)
    ensures r == slots + Wrapped(Span(lo, hi + 1))
  {
    r := slots;
    if lo > hi {
      return;
    }
    for s := lo to hi + 1
      invariant r == slots + Wrapped(Span(lo, s))
    {
      SpanWraps(slots, lo, s);
      r := r + [s % 0x1_0000];
    }
  }

  lemma SpanWraps(slots: seq<int>, lo: int, s: int)
    requires lo <= s
    ensures slots + Wrapped(Span(lo, s + 1)) == slots + Wrapped(Span(lo, s)) + [s % 0x1_0000]
  {
    assert Span(lo, s + 1)[..s - lo] == Span(lo, s);
  }

  // ----- Flags -----

  const FLAGS: seq<Flag> := [Myself, Master, Slave, PFail, Fail, Handshake, NoAddr]

  function Name(f: Flag): Bytes
  {
    match f
    case Myself => Ascii("myself")
    case Master => Ascii("master")
    case Slave => Ascii("slave")
    case PFail => Ascii("fail?")
    case Fail => Ascii("fail")
    case Handshake => Ascii("handshake")
    case NoAddr => Ascii("noaddr")
  }

  /** The names of the flags set among the first n. */
  function Parts(fs: set<Flag>, n: nat): seq<Bytes>
    requires n <= |FLAGS|
  {
    if n == 0 then [] else if FLAGS[n - 1] in fs then Parts(fs, n - 1) + [Name(FLAGS[n - 1])] else Parts(fs, n - 1)
  }

  function FlagText(fs: set<Flag>): Bytes
  {
    var parts := Parts(fs, |FLAGS|);
    if parts == [] then Ascii("noflags") else Join(parts, COMMA)
  }

  /** Those of the first n flags whose names occur. */
  function Named(ws: seq<Bytes>, n: nat): set<Flag>
    requires n <= |FLAGS|
  {
    if n == 0 then {} else if Name(FLAGS[n - 1]) in ws then Named(ws, n - 1) + {FLAGS[n - 1]} else Named(ws, n - 1)
  }

  function ParseFlags(text: Bytes): set<Flag>
  {
    Named(Split(text, COMMA), |FLAGS|)
  }

  lemma {:induction false} NamedMeaning(ws: seq<Bytes>, n: nat, f: Flag)
    requires n <= |FLAGS|
    ensures f in Named(ws, n) <==> f in FLAGS[..n] && Name(f) in ws
  {
    if n > 0 {
      NamedMeaning(ws, n - 1, f);
      assert FLAGS[..n] == FLAGS[..n - 1] + [FLAGS[n - 1]];
    }
  }

  /** Names are words without commas, and differ. */
  lemma NameShape(f: Flag)
    ensures Word(Name(f)) && COMMA !in Name(f)
  {
  }

  lemma NamesDiffer(f: Flag, g: Flag)
    requires Name(f) == Name(g)
    ensures f == g
  {
    var a, b := Name(f), Name(g);
    assert |a| == |b| && a[0] == b[0] && a[1] == b[1];
  }

  lemma NoFlagsIsNoName(f: Flag)
    ensures Name(f) != Ascii("noflags")
  {
  }

  lemma {:induction false} PartsMeaning(fs: set<Flag>, n: nat, f: Flag)
    requires n <= |FLAGS|
    ensures Name(f) in Parts(fs, n) <==> f in fs && f in FLAGS[..n]
    ensures forall w :: w in Parts(fs, n) ==> Word(w) && COMMA !in w
  {
    if n > 0 {
      PartsMeaning(fs, n - 1, f);
      var g := FLAGS[n - 1];
      NameShape(g);
      assert FLAGS[..n] == FLAGS[..n - 1] + [g];
      if Name(f) == Name(g) {
        NamesDiffer(f, g);
      }
    }
  }

  lemma EveryFlag(f: Flag)
    ensures f in FLAGS[..|FLAGS|]
  {
    assert FLAGS[..|FLAGS|] == FLAGS;
    match f
    case Myself => assert FLAGS[0] == f;
    case Master => assert FLAGS[1] == f;
    case Slave => assert FLAGS[2] == f;
    case PFail => assert FLAGS[3] == f;
    case Fail => assert FLAGS[4] == f;
    case Handshake => assert FLAGS[5] == f;
    case NoAddr => assert FLAGS[6] == f;
  }

  lemma FlagsRoundTrip(fs: set<Flag>)
    ensures ParseFlags(FlagText(fs)) == fs && Word(FlagText(fs))
  {
    FlagWords(fs, Parts(fs, |FLAGS|));
    var ws := Split(FlagText(fs), COMMA);
    forall f: Flag
      ensures f in Named(ws, |FLAGS|) <==> f in fs
    {
      FlagReads(fs, ws, f);
    }
  }

  lemma FlagWords(fs: set<Flag>, parts: seq<Bytes>)
    requires parts == Parts(fs, |FLAGS|)
    ensures Split(FlagText(fs), COMMA) == if parts == [] then [Ascii("noflags")] else parts
    ensures Word(FlagText(fs))
  {
    if parts == [] {
      NoneFirst(Ascii("noflags"), COMMA);
    } else {
      PartsMeaning(fs, |FLAGS|, Myself);
      JoinWord(parts);
      SplitOfJoin(parts, COMMA);
    }
  }

  lemma FlagReads(fs: set<Flag>, ws: seq<Bytes>, f: Flag)
    requires var parts := Parts(fs, |FLAGS|); ws == if parts == [] then [Ascii("noflags")] else parts
    ensures f in Named(ws, |FLAGS|) <==> f in fs
  {
    PartsMeaning(fs, |FLAGS|, f);
    NamedMeaning(ws, |FLAGS|, f);
    EveryFlag(f);
    NoFlagsIsNoName(f);
  }

  lemma {:induction false} JoinWord(ws: seq<Bytes>)
    requires ws != [] && forall w :: w in ws ==> Word(w)
    ensures Word(Join(ws, COMMA))
  {
    assert ws[0] in ws;
    if |ws| > 1 {
      JoinWord(ws[1..]);
    }
  }

  // ----- Lines -----

  datatype Node = Node(id: Bytes, ip: Bytes, port: int, cport: int, flags: set<Flag>, masterId: Bytes,
                       pingSent: int, pongRecv: int, configEpoch: int, linkUp: bool)

  function Address(ip: Bytes, port: int, cport: int): Bytes
  {
    ip + [COLON] + Format(port) + [AT] + Format(cport)
  }

  function Link(up: bool): Bytes
  {
    if up then Ascii("connected") else Ascii("disconnected")
  }

  /** The eight fields in front of the slots. */
  function Head(n: Node): (r: seq<Bytes>)
    ensures |r| == 8
  {
    [n.id, Address(n.ip, n.port, n.cport), FlagText(n.flags), if n.masterId == [] then [DASH] else n.masterId,
     Format(n.pingSent), Format(n.pongRecv), Format(n.configEpoch), Link(n.linkUp)]
  }

  function Line(n: Node, rs: seq<Range>): Bytes
  {
    Join(Head(n) + RangeTexts(rs), SPACE)
  }

  /** The texts of ip, port and bus port; empty if missing. */
  function AddressTexts(addr: Bytes): (Bytes, Bytes, Bytes)
  {
    var at := First(addr, AT);
    var cport := if at < |addr| then addr[at + 1..] else [];
    var host := addr[..at];
    var c := Last(host, COLON);
    if c >= 0 then (host[..c], host[c + 1..], cport) else ([], [], cport)
  }

  function ParseAddress(addr: Bytes): (Bytes, int, int)
  {
    var (ip, port, cport) := AddressTexts(addr);
    (ip, Number(port), Number(cport))
  }

  function ParseWords(f: seq<Bytes>): Option<(Node, seq<int>, bool)>
  {
    if |f| < 8 then None
    else
      var (ip, port, cport) := ParseAddress(f[1]);
      var flags := ParseFlags(f[2]);
      Some((Node(f[0], ip, port, cport, flags, if f[3] == [DASH] then [] else f[3],
                 Number(f[4]), Number(f[5]), Unumber(f[6]), f[7] == Ascii("connected")),
            AllSlots(f[8..]), Myself in flags))
  }

  function ParseLine(line: Bytes): Option<(Node, seq<int>, bool)>
  {
    ParseWords(Words(line))
  }

  predicate IsInt64(v: int)
  {
    MIN_INT64 <= v <= MAX_INT64
  }

  /** What a node must look like for its line to be read back. */
  ghost predicate Printable(n: Node)
  {
    && Word(n.id) && (forall i :: 0 <= i < |n.ip| ==> !IsSpace(n.ip[i])) && AT !in n.ip
    && (n.masterId == [] || (Word(n.masterId) && n.masterId != [DASH]))
    && IsInt64(n.port) && IsInt64(n.cport) && IsInt64(n.pingSent) && IsInt64(n.pongRecv) && 0 <= n.configEpoch < U64
  }

  lemma AddressRoundTrip(ip: Bytes, port: int, cport: int)
    requires (forall i :: 0 <= i < |ip| ==> !IsSpace(ip[i])) && AT !in ip && IsInt64(port) && IsInt64(cport)
    ensures ParseAddress(Address(ip, port, cport)) == (ip, port, cport) && Word(Address(ip, port, cport))
  {
    FormatShape(port);
    FormatShape(cport);
    NumberOfFormat(port);
    NumberOfFormat(cport);
    SplitAddress(ip, Format(port), Format(cport));
  }

  lemma SplitAddress(ip: Bytes, p: Bytes, c: Bytes)
    requires (forall i :: 0 <= i < |ip| ==> !IsSpace(ip[i])) && AT !in ip
    requires Word(p) && AT !in p && COLON !in p && Word(c)
    ensures AddressTexts(ip + [COLON] + p + [AT] + c) == (ip, p, c) && Word(ip + [COLON] + p + [AT] + c)
  {
    HostTexts(ip + [COLON] + p, ip, p, c);
  }

  lemma HostTexts(host: Bytes, ip: Bytes, p: Bytes, c: Bytes)
    requires host == ip + [COLON] + p && AT !in host && COLON !in p
    ensures AddressTexts(host + [AT] + c) == (ip, p, c)
  {
    FirstIs(host, AT, c);
    Around(host, AT, c);
    LastIs(ip, COLON, p);
    Around(ip, COLON, p);
  }

  lemma Around(a: Bytes, x: Byte, b: Bytes)
    ensures (a + [x] + b)[..|a|] == a && (a + [x] + b)[|a| + 1..] == b
  {
  }

  lemma LinkReads(up: bool)
    ensures (Link(up) == Ascii("connected")) == up && Word(Link(up))
  {
    assert |Ascii("connected")| == 9 && |Ascii("disconnected")| == 12;
  }

  lemma HeadWords(n: Node)
    requires Printable(n)
    ensures forall w :: w in Head(n) ==> Word(w)
  {
    var h := Head(n);
    assert Word(h[1]) by { AddressRoundTrip(n.ip, n.port, n.cport); }
    assert Word(h[2]) by { FlagsRoundTrip(n.flags); }
    assert Word(h[4]) by { FormatShape(n.pingSent); }
    assert Word(h[5]) by { FormatShape(n.pongRecv); }
    assert Word(h[6]) by { FormatShape(n.configEpoch); }
    assert Word(h[7]) by { LinkReads(n.linkUp); }
    AllWords(h);
  }

  lemma AllWords(h: seq<Bytes>)
    requires |h| == 8 && Word(h[0]) && Word(h[1]) && Word(h[2]) && Word(h[3])
    requires Word(h[4]) && Word(h[5]) && Word(h[6]) && Word(h[7])
    ensures forall w :: w in h ==> Word(w)
  {
  }

  lemma HeadReads(n: Node, f: seq<Bytes>)
    requires Printable(n) && |f| >= 8 && f[..8] == Head(n)
    ensures ParseWords(f) == Some((n, AllSlots(f[8..]), Myself in n.flags))
  {
    var h := f[..8];
    assert f[0] == h[0] && f[1] == h[1] && f[2] == h[2] && f[3] == h[3] && f[4] == h[4] && f[5] == h[5] && f[6] == h[6] && f[7] == h[7];
    AddressRoundTrip(n.ip, n.port, n.cport);
    FlagsRoundTrip(n.flags);
    NumberOfFormat(n.pingSent);
    NumberOfFormat(n.pongRecv);
    NumberOfFormat(n.configEpoch);
    LinkReads(n.linkUp);
  }

  /** Parsing a node's line returns the node and the slots of its ranges. */
  lemma {:induction false} LineRoundTrip(n: Node, rs: seq<Range>)
    requires Printable(n) && forall i :: 0 <= i < |rs| ==> 0 <= rs[i].lo <= rs[i].hi < 0x1_0000
    ensures ParseLine(Line(n, rs)) == Some((n, Expand(rs), Myself in n.flags))
  {
    var ws := Head(n) + RangeTexts(rs);
    HeadWords(n);
    RangesRoundTrip(rs);
    WordsOfJoin(ws);
    assert ws[..8] == Head(n) && ws[8..] == RangeTexts(rs);
    HeadReads(n, ws);
  }
}
