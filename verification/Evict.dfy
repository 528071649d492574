/** Eviction under a memory limit: the running estimate stays exact, each victim
    is the best candidate of its sample unless the empty key gets in the way,
    and eviction stops only within the limit or when it is stuck. */
module Evict {
  import opened MapSum
  import opened Seqs

  type Key = string

  const CLOCK: nat := 0x100_0000     // 24-bit LRU clock
  const MINUTES: nat := 0x1_0000     // 16-bit LFU minute
  const MAX_LOOPS: nat := 100000

  datatype Kind = Lru | Lfu | Ttl | Random

  datatype Policy = NoEviction | AllKeys(kind: Kind) | Volatile(kind: Kind)

  /** Access metadata: an LRU clock, or an LFU minute and counter. */
  datatype Meta = Meta(clock: nat, minute: nat, counter: nat)

  /** Entities are known by their estimated sizes. */
  datatype DB = DB(data: map<Key, nat>, ttl: map<Key, int>, access: map<Key, Meta>)

  // ----- Scores -----

  /** Clock units since the access, across a wrap-around of the clock. */
  function IdleFor(now: nat, access: nat): int
  {
    if now >= access then now - access else CLOCK - 1 - access + now + 1
  }

  lemma IdleIsModular(now: nat, access: nat)
    requires now < CLOCK && access < CLOCK
    ensures IdleFor(now, access) == (now - access) % CLOCK
  {
  }

  function MinutesDiff(now: nat, then_: nat): int
  {
    if now >= then_ then now - then_ else MINUTES - 1 - then_ + now + 1
  }

  /** One off per minute elapsed, not below 0. */
  function Decayed(m: Meta, minute: nat): int
  {
    var periods := MinutesDiff(minute, m.minute);
    if m.counter <= periods then 0 else m.counter - periods
  }

  function Idle(db: DB, now: nat, k: Key): int
  {
    if k in db.access then IdleFor(now, db.access[k].clock) else CLOCK - 1
  }

  function Counter(db: DB, minute: nat, k: Key): int
  {
    if k in db.access then Decayed(db.access[k], minute) else 0
  }

  // ----- Candidates -----

  /** What the two clocks show when a candidate is looked for. */
  datatype Time = Time(clock: nat, minute: nat)

  predicate Eligible(db: DB, kind: Kind, k: Key)
  {
    kind.Ttl? ==> k in db.ttl
  }

  /** The lower a key's score, the sooner it should go: longest idle, least
      used, soonest to expire. */
  function Score(db: DB, kind: Kind, t: Time, k: Key): int
    requires Eligible(db, kind, k)
  {
    match kind
    case Lru => -Idle(db, t.clock, k)
    case Lfu => Counter(db, t.minute, k)
    case Ttl => db.ttl[k]
    case Random => 0
  }

  /** The victim a sample calls for. */
  ghost predicate Best(db: DB, sample: seq<Key>, kind: Kind, t: Time, best: Key)
  {
    best in sample &&
    if kind.Random? then best == sample[0]
    else forall k :: k in sample && Eligible(db, kind, k) ==>
           Eligible(db, kind, best) && Score(db, kind, t, best) <= Score(db, kind, t, k)
  }

  /** The key a pass is left with. The empty key doubles as "none yet": once it
      leads, the next eligible key replaces it, whatever its score. */
  ghost function Lead(db: DB, kind: Kind, t: Time, s: seq<Key>): (b: Key)
    ensures b == "" || (b in s && Eligible(db, kind, b))
  {
    if s == [] then ""
    else
      var k, b := s[|s| - 1], Lead(db, kind, t, s[..|s| - 1]);
      if !Eligible(db, kind, k) then b
      else if b == "" || Score(db, kind, t, k) < Score(db, kind, t, b) then k else b
  }

  /** The candidate of a sample, or the empty key for none. */
  ghost function Pick(db: DB, sample: seq<Key>, kind: Kind, t: Time): (best: Key)
    ensures best == "" || best in sample
  {
    if sample == [] then ""
    else if kind.Random? then sample[0]
    else
      var b := Lead(db, kind, t, sample);
      if b == "" && kind.Ttl? then sample[0] else b
  }

  method Candidate(db: DB, sample: seq<Key>, kind: Kind, t: Time) returns (best: Key)
    ensures best == Pick(db, sample, kind, t)
  {
    if |sample| == 0 {
      return "";
    }
    match kind
    case Random => best := sample[0];
    case Ttl =>
      best := Soonest(db, sample, t);
      if best == "" {
        best := sample[0];
      }
    case Lfu => best := LeastUsed(db, sample, t);
    case Lru => best := LongestIdle(db, sample, t);
  }

  method Soonest(db: DB, sample: seq<Key>, ghost t: Time) returns (best: Key)
    ensures best == Lead(db, Ttl, t, sample)
  {
    best := "";
    var bestAt := 0;
    for i := 0 to |sample|
      invariant best == Lead(db, Ttl, t, sample[..i]) && (best != "" ==> bestAt == db.ttl[best])
    {
      assert sample[..i + 1][..i] == sample[..i];
      var k := sample[i];
      if k in db.ttl {
        if best == "" || db.ttl[k] < bestAt {
          best, bestAt := k, db.ttl[k];
        }
      }
    }
    assert sample[..|sample|] == sample;
  }

  method LeastUsed(db: DB, sample: seq<Key>, t: Time) returns (best: Key)
    ensures best == Lead(db, Lfu, t, sample)
  {
    best := "";
    var bestCounter := 255;
    for i := 0 to |sample|
      invariant best == Lead(db, Lfu, t, sample[..i]) && (best != "" ==> bestCounter == Counter(db, t.minute, best))
    {
      assert sample[..i + 1][..i] == sample[..i];
      var c := Counter(db, t.minute, sample[i]);
      if best == "" || c < bestCounter {
        best, bestCounter := sample[i], c;
      }
    }
    assert sample[..|sample|] == sample;
  }

  method LongestIdle(db: DB, sample: seq<Key>, t: Time) returns (best: Key)
    ensures best == Lead(db, Lru, t, sample)
  {
    best := "";
    var bestIdle := 0;
    for i := 0 to |sample|
      invariant best == Lead(db, Lru, t, sample[..i]) && (best != "" ==> bestIdle == Idle(db, t.clock, best))
    {
      assert sample[..i + 1][..i] == sample[..i];
      var idle := Idle(db, t.clock, sample[i]);
      if best == "" || idle > bestIdle {
        best, bestIdle := sample[i], idle;
      }
    }
    assert sample[..|sample|] == sample;
  }

  /** A named key with the lowest score is not lost on the way. */
  lemma {:induction false} LeadIsLowest(db: DB, kind: Kind, t: Time, s: seq<Key>, low: Key)
    requires low in s && low != "" && Eligible(db, kind, low)
    requires forall k :: k in s && Eligible(db, kind, k) ==> Score(db, kind, t, low) <= Score(db, kind, t, k)
    ensures Lead(db, kind, t, s) != "" && Score(db, kind, t, Lead(db, kind, t, s)) <= Score(db, kind, t, low)
  {
    var n := |s| - 1;
    assert s == s[..n] + [s[n]];
    if low in s[..n] {
      LeadIsLowest(db, kind, t, s[..n], low);
    }
  }

  /** Without the empty key a pass ends at the lowest score. */
  lemma {:induction false} LeadOfNamed(db: DB, kind: Kind, t: Time, s: seq<Key>, k: Key)
    requires "" !in s && k in s && Eligible(db, kind, k)
    ensures Lead(db, kind, t, s) != "" && Score(db, kind, t, Lead(db, kind, t, s)) <= Score(db, kind, t, k)
  {
    var n := |s| - 1;
    assert s == s[..n] + [s[n]];
    if k in s[..n] {
      LeadOfNamed(db, kind, t, s[..n], k);
    }
  }

  /** A named eligible key behind the last empty one is enough to have a lead. */
  lemma {:induction false} LeadAfter(db: DB, kind: Kind, t: Time, s: seq<Key>, i: nat, j: nat)
    requires i <= j < |s| && "" !in s[i..] && Eligible(db, kind, s[j])
    ensures Lead(db, kind, t, s) != ""
    decreases |s|
  {
    var n := |s| - 1;
    assert s[n] in s[i..];
    if j < n {
      assert s[i..] == s[i..n] + [s[n]];
      LeadAfter(db, kind, t, s[..n], i, j);
    }
  }

  /** Some named key of the sample is the victim it calls for; the first key
      decides where nothing is compared. */
  ghost predicate HasVictim(db: DB, sample: seq<Key>, kind: Kind, t: Time)
    requires sample != []
  {
    if kind.Random? || forall k :: k in sample ==> !Eligible(db, kind, k) then sample[0] != ""
    else exists k :: k in sample && k != "" && Best(db, sample, kind, t, k)
  }

  /** The candidate is a named key and the one the sample calls for exactly if
      the empty key does not outdo all named ones. */
  lemma PickIsBestIff(db: DB, sample: seq<Key>, kind: Kind, t: Time)
    requires sample != []
    ensures var best := Pick(db, sample, kind, t);
            best != "" && Best(db, sample, kind, t, best) <==> HasVictim(db, sample, kind, t)
  {
    if !kind.Random? && exists k :: k in sample && Eligible(db, kind, k) {
      if HasVictim(db, sample, kind, t) {
        var low :| low in sample && low != "" && Best(db, sample, kind, t, low);
        LeadIsLowest(db, kind, t, sample, low);
      }
    }
  }

  /** When a sample yields no candidate although it has keys. */
  ghost predicate Passed(db: DB, sample: seq<Key>, kind: Kind, t: Time)
    requires sample != []
  {
    match kind
    case Random => sample[0] == ""
    case Ttl => sample[0] == "" && forall k :: k in sample && k in db.ttl ==> k == ""
    case _ => sample[|sample| - 1] == "" && forall k :: k in sample && k != "" ==> Score(db, kind, t, "") < Score(db, kind, t, k)
  }

  /** No candidate comes out exactly if the empty key, last, outdoes all others,
      or first, has nothing to be compared with. */
  lemma PickIsNoneIff(db: DB, sample: seq<Key>, kind: Kind, t: Time)
    requires NoDup(sample) && sample != []
    ensures Pick(db, sample, kind, t) == "" <==> Passed(db, sample, kind, t)
  {
    match kind
    case Random =>
    case Ttl =>
      if sample[0] == "" && !Passed(db, sample, kind, t) {
        var j :| 0 <= j < |sample| && sample[j] in db.ttl && sample[j] != "";
        LeadAfter(db, kind, t, sample, 1, j);
      }
    case _ => LastIsNoneIff(db, sample, kind, t);
  }

  lemma LastIsNoneIff(db: DB, sample: seq<Key>, kind: Kind, t: Time)
    requires NoDup(sample) && sample != [] && (kind.Lru? || kind.Lfu?)
    ensures Lead(db, kind, t, sample) == "" <==> Passed(db, sample, kind, t)
  {
    var n := |sample| - 1;
    var before := sample[..n];
    assert sample == before + [sample[n]];
    if sample[n] == "" {
      assert "" !in before;
      forall k | k in before
        ensures Lead(db, kind, t, before) != "" && Score(db, kind, t, Lead(db, kind, t, before)) <= Score(db, kind, t, k)
      {
        LeadOfNamed(db, kind, t, before, k);
      }
    }
  }

  /** The empty key at work: idle longest and sampled first, it hands its place
      to a key idle for less; sampled last, it leaves no candidate. */
  lemma EmptyKeyHides()
    ensures exists db: DB, t: Time ::
              && Pick(db, ["", "k"], Lru, t) == "k" && !Best(db, ["", "k"], Lru, t, "k")
              && Pick(db, ["k", ""], Lru, t) == ""
  {
    var db := DB(map["" := 1, "k" := 1], map[], map["" := Meta(0, 0, 0), "k" := Meta(5, 0, 0)]);
    var t := Time(9, 0);
    assert ["", "k"][..1] == [""] && ["k", ""][..1] == ["k"];
    assert [""][..0] == [] && ["k"][..0] == [];
    assert Lead(db, Lru, t, [""]) == "" && Lead(db, Lru, t, ["k"]) == "k";
    assert "" in ["", "k"] && Idle(db, 9, "") == 9 && Idle(db, 9, "k") == 4;
    assert Pick(db, ["", "k"], Lru, t) == "k" && Pick(db, ["k", ""], Lru, t) == "";
  }

  // ----- Accounting -----

  ghost function Used(dbs: seq<DB>): nat
  {
    if dbs == [] then 0 else Used(dbs[..|dbs| - 1]) + Sum(dbs[|dbs| - 1].data)
  }

  function Remove(db: DB, k: Key): DB
  {
    DB(db.data - {k}, db.ttl - {k}, db.access - {k})
  }

  lemma {:induction false} UsedAfter(dbs: seq<DB>, i: nat, k: Key)
    requires i < |dbs|
    ensures Used(dbs[i := Remove(dbs[i], k)]) == Used(dbs) - if k in dbs[i].data then dbs[i].data[k] else 0
    decreases |dbs|
  {
    var n := |dbs| - 1;
    var after := dbs[i := Remove(dbs[i], k)];
    if i < n {
      UsedAfter(dbs[..n], i, k);
      assert after[..n] == dbs[..n][i := Remove(dbs[i], k)];
    } else {
      assert after[..n] == dbs[..n];
      if k in dbs[i].data {
        SumSplit(dbs[i].data, k);
      } else {
        assert dbs[i].data - {k} == dbs[i].data;
      }
    }
  }

  /** Volatile policies draw from the keys with an expiry. */
  function Source(db: DB, policy: Policy): set<Key>
  {
    if policy.Volatile? then db.ttl.Keys else db.data.Keys
  }

  /** What evictions may do: keys disappear, and under a volatile policy only
      keys that had an expiry. */
  ghost predicate Evicted(before: DB, after: DB, policy: Policy)
  {
    && after.data.Keys <= before.data.Keys && after.ttl.Keys <= before.ttl.Keys
    && (forall k :: k in after.data ==> after.data[k] == before.data[k])
    && (policy.Volatile? ==> forall k :: k in before.data && k !in after.data ==> k in before.ttl)
    && (policy.NoEviction? ==> after == before)
  }

  ghost predicate AllEvicted(before: seq<DB>, after: seq<DB>, policy: Policy)
  {
    |before| == |after| && forall i :: 0 <= i < |before| ==> Evicted(before[i], after[i], policy)
  }

  // ----- Evictions -----

  function SampleSize(samples: int): (n: nat)
    ensures n > 0
  {
    if samples <= 0 then 5 else samples
  }

  /** What was drawn from one database, and when. */
  datatype Draw = Draw(sample: seq<Key>, time: Time)

  /** The dictionary behind a database: sharded, or one table. */
  datatype Engine = ShardMap | RedisDb

  datatype Sampling = Sampling(size: nat, engine: Engine)

  /** The keys with an expiry are always in a sharded dictionary. */
  predicate Sharded(policy: Policy, engine: Engine)
  {
    policy.Volatile? || engine.ShardMap?
  }

  /** A draw takes all keys if there are no more than n, else n distinct ones;
      a sharded dictionary then never draws the empty key. */
  ghost predicate IsSample(sample: seq<Key>, keys: set<Key>, n: nat, sharded: bool)
  {
    && NoDup(sample) && (forall k :: k in sample ==> k in keys)
    && |sample| == (if n < |keys| then n else |keys|) && (sharded && n < |keys| ==> "" !in sample)
  }

  ghost predicate Drawn(dbs: seq<DB>, draws: seq<Draw>, policy: Policy, s: Sampling)
  {
    |draws| <= |dbs| && forall i :: 0 <= i < |draws| ==> IsSample(draws[i].sample, Source(dbs[i], policy), s.size, Sharded(policy, s.engine))
  }

  ghost function VictimOf(db: DB, d: Draw, policy: Policy): Key
    requires !policy.NoEviction?
  {
    Pick(db, d.sample, policy.kind, d.time)
  }

  /** The databases drawn from before the last have no victim, the last has. */
  ghost predicate Picks(dbs: seq<DB>, draws: seq<Draw>, policy: Policy, s: Sampling)
    requires !policy.NoEviction?
  {
    && draws != [] && Drawn(dbs, draws, policy, s)
    && (forall i :: 0 <= i < |draws| ==> (VictimOf(dbs[i], draws[i], policy) == "" <==> i < |draws| - 1))
  }

  /** The victim is the key its sample calls for exactly if a named key is. */
  ghost predicate BestIfAny(db: DB, d: Draw, policy: Policy)
    requires !policy.NoEviction? && d.sample != []
  {
    Best(db, d.sample, policy.kind, d.time, VictimOf(db, d, policy)) <==> HasVictim(db, d.sample, policy.kind, d.time)
  }

  /** The databases drawn from so far have no victim. */
  ghost predicate AllPassed(dbs: seq<DB>, draws: seq<Draw>, policy: Policy, s: Sampling)
    requires !policy.NoEviction?
  {
    Drawn(dbs, draws, policy, s) && forall i :: 0 <= i < |draws| ==> VictimOf(dbs[i], draws[i], policy) == ""
  }

  /** No database has a victim. */
  ghost predicate Stuck(dbs: seq<DB>, draws: seq<Draw>, policy: Policy, s: Sampling)
    requires !policy.NoEviction?
  {
    |draws| == |dbs| && AllPassed(dbs, draws, policy, s)
  }

  ghost function AfterEviction(dbs: seq<DB>, draws: seq<Draw>, policy: Policy): seq<DB>
    requires !policy.NoEviction?
  {
    if draws == [] || |draws| > |dbs| then dbs
    else
      var at := |draws| - 1;
      dbs[at := Remove(dbs[at], VictimOf(dbs[at], draws[at], policy))]
  }

  ghost function AfterAll(dbs: seq<DB>, trace: seq<seq<Draw>>, policy: Policy): seq<DB>
    requires policy.NoEviction? ==> trace == []
  {
    if trace == [] then dbs
    else AfterEviction(AfterAll(dbs, trace[..|trace| - 1], policy), trace[|trace| - 1], policy)
  }

  /** Each eviction of the trace removes a victim while memory is over the limit. */
  ghost predicate Needed(dbs: seq<DB>, trace: seq<seq<Draw>>, policy: Policy, s: Sampling, limit: int)
  {
    trace != [] ==>
      var before := trace[..|trace| - 1];
      && !policy.NoEviction? && Needed(dbs, before, policy, s, limit)
      && Used(AfterAll(dbs, before, policy)) > limit
      && Picks(AfterAll(dbs, before, policy), trace[|trace| - 1], policy, s)
  }

  /** Eviction is stuck only where there is nothing to draw from, or where the
      empty key is; from a sharded dictionary only where all keys were drawn. */
  lemma StuckOnlyOnEmptyKey(dbs: seq<DB>, draws: seq<Draw>, policy: Policy, s: Sampling, i: nat)
    requires !policy.NoEviction? && s.size > 0 && Stuck(dbs, draws, policy, s) && i < |dbs|
    ensures Source(dbs[i], policy) == {} || ("" in Source(dbs[i], policy) && (Sharded(policy, s.engine) ==> |Source(dbs[i], policy)| <= s.size))
    ensures Source(dbs[i], policy) != {} ==> Passed(dbs[i], draws[i].sample, policy.kind, draws[i].time)
  {
    var src, d := Source(dbs[i], policy), draws[i];
    assert IsSample(d.sample, src, s.size, Sharded(policy, s.engine)) && VictimOf(dbs[i], d, policy) == "";
    if src != {} {
      PickIsNoneIff(dbs[i], d.sample, policy.kind, d.time);
      assert "" in d.sample;
    }
  }

  class Server {
    var dbs: seq<DB>
    const engine: Engine

    constructor (dbs: seq<DB>, engine: Engine)
      ensures this.dbs == dbs && this.engine == engine
    {
      this.dbs, this.engine := dbs, engine;
    }

    method UsedMemory() returns (total: nat)
      ensures total == Used(dbs)
    {
      total := 0;
      for i := 0 to |dbs|
        invariant total == Used(dbs[..i])
      {
        assert dbs[..i + 1][..i] == dbs[..i];
        var size := SizeOf(dbs[i].data);
        total := total + size;
      }
      assert dbs[..|dbs|] == dbs;
    }

    /** Evicts one key of the first database that has a candidate. */
    method EvictOne(policy: Policy, samples: int)
      returns (freed: nat, evicted: bool, ghost draws: seq<Draw>)
      requires !policy.NoEviction?
      modifies this
      ensures if evicted then Picks(old(dbs), draws, policy, Sampling(SampleSize(samples), engine)) && dbs == AfterEviction(old(dbs), draws, policy)
              else Stuck(old(dbs), draws, policy, Sampling(SampleSize(samples), engine)) && dbs == old(dbs)
      ensures AllEvicted(old(dbs), dbs, policy)
      ensures Used(dbs) == Used(old(dbs)) - freed
      ensures evicted ==> var db, d := old(dbs)[|draws| - 1], draws[|draws| - 1]; d.sample != [] && BestIfAny(db, d, policy)
    {
      dbs, freed, evicted, draws := RemoveOne(dbs, policy, Sampling(SampleSize(samples), engine));
      if evicted {
        VictimIsBestIff(old(dbs), draws, policy, Sampling(SampleSize(samples), engine));
      }
    }

    /** True exactly if the memory in use ends up within the limit. */
    method FreeMemoryIfNeeded(limit: int, policy: Policy, samples: int)
      returns (ok: bool, ghost trace: seq<seq<Draw>>, ghost last: seq<Draw>)
      modifies this
      ensures limit > 0 ==> (ok <==> Used(dbs) <= limit)
      ensures limit <= 0 ==> ok
      ensures limit <= 0 || policy.NoEviction? ==> trace == []
      ensures dbs == AfterAll(old(dbs), trace, policy) && Needed(old(dbs), trace, policy, Sampling(SampleSize(samples), engine), limit)
      ensures !ok && !policy.NoEviction? ==> |trace| == MAX_LOOPS || Stuck(dbs, last, policy, Sampling(SampleSize(samples), engine))
      ensures AllEvicted(old(dbs), dbs, policy)
    {
      trace, last := [], [];
      if limit <= 0 {
        return true, trace, last;
      }
      var current: int := UsedMemory();
      if policy.NoEviction? || current <= limit {
        return current <= limit, trace, last;
      }
      for loops := 0 to MAX_LOOPS
        invariant current == Used(dbs) && |trace| == loops
        invariant dbs == AfterAll(old(dbs), trace, policy) && Needed(old(dbs), trace, policy, Sampling(SampleSize(samples), engine), limit)
        invariant AllEvicted(old(dbs), dbs, policy)
      {
        if current <= limit {
          return true, trace, last;
        }
        ghost var before := dbs;
        var freed, evicted;
        freed, evicted, last := EvictOne(policy, samples);
        if !evicted {
          return false, trace, last;
        }
        AllEvictedTwice(old(dbs), before, dbs, policy);
        OneMore(old(dbs), trace, last, policy, Sampling(SampleSize(samples), engine), limit);
        current, trace := current - freed, trace + [last];
      }
      return current <= limit, trace, last;
    }
  }

  lemma DrawnMore(dbs: seq<DB>, draws: seq<Draw>, d: Draw, policy: Policy, s: Sampling)
    requires !policy.NoEviction? && AllPassed(dbs, draws, policy, s) && |draws| < |dbs|
    requires IsSample(d.sample, Source(dbs[|draws|], policy), s.size, Sharded(policy, s.engine))
    ensures VictimOf(dbs[|draws|], d, policy) == "" ==> AllPassed(dbs, draws + [d], policy, s)
    ensures VictimOf(dbs[|draws|], d, policy) != "" ==> Picks(dbs, draws + [d], policy, s)
  {
  }

  /** The first database with a victim, and the victim; none is the empty key. */
  method FindVictim(dbs: seq<DB>, policy: Policy, s: Sampling) returns (at: nat, best: Key, ghost draws: seq<Draw>)
    requires !policy.NoEviction? && s.size > 0
    ensures best == "" ==> Stuck(dbs, draws, policy, s)
    ensures best != "" ==> Picks(dbs, draws, policy, s) && at == |draws| - 1 && best == VictimOf(dbs[at], draws[at], policy)
  {
    draws := [];
    for i := 0 to |dbs|
      invariant |draws| == i && AllPassed(dbs, draws, policy, s)
    {
      var sample := RandomDistinctKeys(Source(dbs[i], policy), s.size, Sharded(policy, s.engine));
      var t: Time := *; // the clocks go on between looks
      best := Candidate(dbs[i], sample, policy.kind, t);
      DrawnMore(dbs, draws, Draw(sample, t), policy, s);
      draws := draws + [Draw(sample, t)];
      if best != "" {
        return i, best, draws;
      }
    }
    return 0, "", draws;
  }

  method RemoveOne(dbs: seq<DB>, policy: Policy, s: Sampling)
    returns (after: seq<DB>, freed: nat, evicted: bool, ghost draws: seq<Draw>)
    requires !policy.NoEviction? && s.size > 0
    ensures if evicted then Picks(dbs, draws, policy, s) && after == AfterEviction(dbs, draws, policy)
            else Stuck(dbs, draws, policy, s) && after == dbs
    ensures AllEvicted(dbs, after, policy) && Used(after) == Used(dbs) - freed
  {
    var at, best;
    at, best, draws := FindVictim(dbs, policy, s);
    if best == "" {
      return dbs, 0, false, draws;
    }
    EvictionEffect(dbs, draws, policy, s);
    var db := dbs[at];
    return dbs[at := Remove(db, best)], if best in db.data then db.data[best] else 0, true, draws;
  }

  /** What the eviction of a victim does to the databases and to the total. */
  lemma EvictionEffect(dbs: seq<DB>, draws: seq<Draw>, policy: Policy, s: Sampling)
    requires !policy.NoEviction? && s.size > 0 && Picks(dbs, draws, policy, s)
    ensures var at := |draws| - 1;
            var db, v := dbs[at], VictimOf(dbs[at], draws[at], policy);
            && Used(AfterEviction(dbs, draws, policy)) == Used(dbs) - (if v in db.data then db.data[v] else 0)
            && AllEvicted(dbs, AfterEviction(dbs, draws, policy), policy)
  {
    var at := |draws| - 1;
    var db, v := dbs[at], VictimOf(dbs[at], draws[at], policy);
    assert v in Source(db, policy);
    UsedAfter(dbs, at, v);
    assert Evicted(db, Remove(db, v), policy);
  }

  /** The key evicted is the one its sample calls for exactly if a named key is. */
  lemma VictimIsBestIff(dbs: seq<DB>, draws: seq<Draw>, policy: Policy, s: Sampling)
    requires !policy.NoEviction? && Picks(dbs, draws, policy, s)
    ensures var db, d := dbs[|draws| - 1], draws[|draws| - 1];
            d.sample != [] && BestIfAny(db, d, policy)
  {
    var db, d := dbs[|draws| - 1], draws[|draws| - 1];
    assert VictimOf(db, d, policy) != "";
    PickIsBestIff(db, d.sample, policy.kind, d.time);
  }

  lemma OneMore(dbs: seq<DB>, trace: seq<seq<Draw>>, draws: seq<Draw>, policy: Policy, s: Sampling, limit: int)
    requires !policy.NoEviction? && Needed(dbs, trace, policy, s, limit)
    requires var now := AfterAll(dbs, trace, policy); Used(now) > limit && Picks(now, draws, policy, s)
    ensures Needed(dbs, trace + [draws], policy, s, limit)
    ensures AfterAll(dbs, trace + [draws], policy) == AfterEviction(AfterAll(dbs, trace, policy), draws, policy)
  {
    assert (trace + [draws])[..|trace|] == trace;
  }

  lemma AllEvictedTwice(a: seq<DB>, b: seq<DB>, c: seq<DB>, policy: Policy)
    requires AllEvicted(a, b, policy) && AllEvicted(b, c, policy)
    ensures AllEvicted(a, c, policy)
  {
    forall i | 0 <= i < |a|
      ensures Evicted(a[i], c[i], policy)
    {
      assert Evicted(a[i], b[i], policy) && Evicted(b[i], c[i], policy);
    }
  }

  method SizeOf(m: map<Key, nat>) returns (total: nat)
    ensures total == Sum(m)
  {
    total := 0;
    var rest := m;
    while rest != map[]
      invariant total + Sum(rest) == Sum(m)
      decreases |rest|
    {
      var k :| k in rest;
      SumSplit(rest, k);
      total := total + rest[k];
      rest := rest - {k};
    }
  }

  /** Distinct keys in any order: all, or n if there are more, from a sharded
      dictionary n named ones. */
  method RandomDistinctKeys(keys: set<Key>, n: nat, sharded: bool) returns (sample: seq<Key>)
    requires n > 0
    ensures IsSample(sample, keys, n, sharded)
  {
    sample := [];
    var rest := if sharded && n < |keys| then keys - {""} else keys;
    ghost var pool := |rest|;
    while rest != {} && |sample| < n
      invariant |sample| + |rest| == pool && |sample| <= n && rest <= keys
      invariant sharded && n < |keys| ==> "" !in rest && "" !in sample
      invariant NoDup(sample) && forall k :: k in sample ==> k in keys && k !in rest
      decreases |rest|
    {
      var k :| k in rest;
      sample, rest := sample + [k], rest - {k};
    }
  }
}
