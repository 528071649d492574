/** An aborted transaction leaves no trace: undo logs taken before each command
    and replayed in reverse restore every key. */
module Rollback {
  import opened Wrappers
  import opened Decimal
  import opened Commands
  import opened Seqs

  /** Replaying a log, replies ignored; None if a command crashes. */
  ghost function Replay(db: DB, log: seq<CmdLine>): Option<DB>
    decreases |log|
  {
    if log == [] then Some(db)
    else
      match Exec(db, log[0])
      case Panic => None
      case Done(db', _) => Replay(db', log[1..])
  }

  ghost predicate StepsTo(db: DB, c: CmdLine, db': DB)
  {
    Exec(db, c).Done? && Exec(db, c).db == db'
  }

  /** The keyspace goes through `states` while `log` is replayed. */
  ghost predicate Chain(states: seq<DB>, log: seq<CmdLine>)
  {
    |states| == |log| + 1 && forall i :: 0 <= i < |log| ==> StepsTo(states[i], log[i], states[i + 1])
  }

  lemma {:induction false} ChainReplay(states: seq<DB>, log: seq<CmdLine>)
    requires Chain(states, log)
    ensures Replay(states[0], log) == Some(states[|log|])
    decreases |log|
  {
    if log != [] {
      assert StepsTo(states[0], log[0], states[1]);
      ChainReplay(states[1..], log[1..]);
    }
  }

  lemma ReplayOne(db: DB, c: CmdLine)
    ensures Replay(db, [c]) == if Exec(db, c).Panic? then None else Some(Exec(db, c).db)
  {
    assert [c][1..] == [];
  }

  // ----- Commands keep the keyspace free of empty containers -----

  lemma PutKeepsNonEmpty(db: DB, k: Key)
    requires NonEmpty(db)
    ensures forall l :: NonEmpty(PutList(db, k, l))
    ensures forall s :: NonEmpty(PutSet(db, k, s))
    ensures forall h :: NonEmpty(PutHash(db, k, h))
    ensures NonEmpty(db - {k})
  {
  }

  lemma ExecKeepsNonEmpty(db: DB, c: CmdLine)
    requires NonEmpty(db) && Exec(db, c).Done?
    ensures NonEmpty(Exec(db, c).db)
  {
    if ArityOk(c) {
      PutKeepsNonEmpty(db, c.args[0]);
      if c.name == RPopLPush && IsList(db, c.args[0]) && ListAt(db, c.args[0]) != [] {
        var l := ListAt(db, c.args[0]);
        PutKeepsNonEmpty(PutList(db, c.args[0], l[..|l| - 1]), c.args[1]);
      }
    }
  }

  /** A command that replies with an error has changed nothing. */
  lemma ErrorsChangeNothing(db: DB, c: CmdLine)
    requires Exec(db, c).Done? && Exec(db, c).reply == ErrReply
    ensures Exec(db, c).db == db
  {
  }

  // ----- Lists -----

  lemma PutListAgain(db: DB, k: Key, l: seq<Bytes>, l': seq<Bytes>)
    ensures PutList(PutList(db, k, l), k, l') == PutList(db, k, l')
    ensures IsList(PutList(db, k, l), k) && ListAt(PutList(db, k, l), k) == l
  {
  }

  lemma PutSetAgain(db: DB, k: Key, s: set<Bytes>, s': set<Bytes>)
    ensures PutSet(PutSet(db, k, s), k, s') == PutSet(db, k, s')
    ensures IsSet(PutSet(db, k, s), k) && SetAt(PutSet(db, k, s), k) == s
  {
  }

  lemma PutHashAgain(db: DB, k: Key, h: map<Bytes, Bytes>, h': map<Bytes, Bytes>)
    ensures PutHash(PutHash(db, k, h), k, h') == PutHash(db, k, h')
    ensures IsHash(PutHash(db, k, h), k) && HashAt(PutHash(db, k, h), k) == h
  {
  }

  ghost function PopCmd(k: Key, left: bool): CmdLine
  {
    CmdLine(if left then LPop else RPop, [k])
  }

  ghost function Popped(l: seq<Bytes>, n: nat, left: bool): seq<Bytes>
    requires n <= |l|
  {
    if left then l[n..] else l[..|l| - n]
  }

  lemma PopOnce(db: DB, k: Key, l: seq<Bytes>, left: bool)
    requires l != []
    ensures StepsTo(PutList(db, k, l), PopCmd(k, left), PutList(db, k, Popped(l, 1, left)))
  {
    PutListAgain(db, k, l, Popped(l, 1, left));
  }

  lemma ReplayPops(db: DB, k: Key, l: seq<Bytes>, n: nat, left: bool)
    requires n <= |l|
    ensures Replay(PutList(db, k, l), Repeat(PopCmd(k, left), n)) == Some(PutList(db, k, Popped(l, n, left)))
  {
    var states := seq(n + 1, i requires 0 <= i <= n => PutList(db, k, Popped(l, i, left)));
    forall i | 0 <= i < n
      ensures StepsTo(states[i], Repeat(PopCmd(k, left), n)[i], states[i + 1])
    {
      PopOnce(db, k, Popped(l, i, left), left);
      assert Popped(Popped(l, i, left), 1, left) == Popped(l, i + 1, left);
    }
    ChainReplay(states, Repeat(PopCmd(k, left), n));
    assert Popped(l, 0, left) == l;
  }

  lemma PutBack(db: DB, k: Key)
    requires NonEmpty(db)
    ensures IsList(db, k) ==> PutList(db, k, ListAt(db, k)) == db
    ensures IsSet(db, k) ==> PutSet(db, k, SetAt(db, k)) == db
    ensures IsHash(db, k) ==> PutHash(db, k, HashAt(db, k)) == db
  {
  }

  lemma UndoPush(db: DB, quick: set<Key>, c: CmdLine)
    requires NonEmpty(db) && ArityOk(c) && c.name in {LPush, RPush} && IsList(db, c.args[0])
    ensures Replay(Exec(db, c).db, GetUndoLogs(db, quick, c).value) == Some(db)
  {
    var k, vs := c.args[0], c.args[1..];
    var left := c.name == LPush;
    assert Exec(db, c).db == PutList(db, k, Pushed(ListAt(db, k), vs, left));
    assert GetUndoLogs(db, quick, c) == Some(Repeat(PopCmd(k, left), |vs|));
    PopsUndoPush(db, k, vs, left);
  }

  ghost function Pushed(l: seq<Bytes>, vs: seq<Bytes>, left: bool): seq<Bytes>
  {
    if left then Reversed(vs) + l else l + vs
  }

  lemma PopsUndoPush(db: DB, k: Key, vs: seq<Bytes>, left: bool)
    requires NonEmpty(db) && IsList(db, k)
    ensures Replay(PutList(db, k, Pushed(ListAt(db, k), vs, left)), Repeat(PopCmd(k, left), |vs|)) == Some(db)
  {
    var l := ListAt(db, k);
    PutBack(db, k);
    ReplayPops(db, k, Pushed(l, vs, left), |vs|, left);
    assert Popped(Pushed(l, vs, left), |vs|, left) == l;
  }

  lemma UndoPopRestores(db: DB, quick: set<Key>, c: CmdLine)
    requires NonEmpty(db) && ArityOk(c) && c.name in {LPop, RPop}
    requires GetUndoLogs(db, quick, c).Some? && Exec(db, c).Done? && Exec(db, c).reply != ErrReply
    ensures Replay(Exec(db, c).db, GetUndoLogs(db, quick, c).value) == Some(db)
  {
    var k, l := c.args[0], ListAt(db, c.args[0]);
    if l == [] {
      assert Exec(db, c).db == db && GetUndoLogs(db, quick, c) == Some([]);
    } else {
      var left := c.name == LPop;
      var n := if |c.args| != 2 then 1 else Min(ParseInt(c.args[1]).value, |l|);
      assert Exec(db, c).db == PutList(db, k, Popped(l, n, left));
      PopLog(db, quick, c, l, n);
      PushUndoesPops(db, k, l, n, left);
    }
  }

  lemma PopLog(db: DB, quick: set<Key>, c: CmdLine, l: seq<Bytes>, n: nat)
    requires ArityOk(c) && c.name in {LPop, RPop} && GetUndoLogs(db, quick, c).Some?
    requires IsList(db, c.args[0]) && l == ListAt(db, c.args[0]) != [] && n <= |l|
    requires if |c.args| != 2 then n == 1 else ParseInt(c.args[1]).Some? && n == Min(ParseInt(c.args[1]).value, |l|)
    ensures GetUndoLogs(db, quick, c) == Some([PushBackCmd(c.args[0], l, n, c.name == LPop)])
  {
    PushBackOne(c.args[0], l, c.name == LPop);
  }

  lemma PushBackOne(k: Key, l: seq<Bytes>, left: bool)
    requires l != []
    ensures PushBackCmd(k, l, 1, left) == if left then CmdLine(LPush, [k, l[0]]) else CmdLine(RPush, [k, l[|l| - 1]])
  {
    assert Reversed(l[..1]) == [l[0]] && l[|l| - 1..] == [l[|l| - 1]];
  }

  function PushBackCmd(k: Key, l: seq<Bytes>, n: nat, left: bool): CmdLine
    requires n <= |l|
  {
    if left then CmdLine(LPush, [k] + Reversed(l[..n])) else CmdLine(RPush, [k] + l[|l| - n..])
  }

  /** A count of zero pops nothing, and its undo fails its arity check. */
  lemma PushUndoesPops(db: DB, k: Key, l: seq<Bytes>, n: nat, left: bool)
    requires NonEmpty(db) && IsList(db, k) && l == ListAt(db, k) != [] && n <= |l|
    ensures Replay(PutList(db, k, Popped(l, n, left)), [PushBackCmd(k, l, n, left)]) == Some(db)
  {
    PutBack(db, k);
    var c := PushBackCmd(k, l, n, left);
    ReplayOne(PutList(db, k, Popped(l, n, left)), c);
    if n == 0 {
      assert Popped(l, 0, left) == l && !ArityOk(c);
    } else if left {
      PushBackLeft(db, k, l, n, c);
    } else {
      PushBackRight(db, k, l, n, c);
    }
  }

  lemma PushBackLeft(db: DB, k: Key, l: seq<Bytes>, n: nat, c: CmdLine)
    requires 0 < n <= |l| && c.name == LPush && c.args == [k] + Reversed(l[..n])
    ensures Exec(PutList(db, k, l[n..]), c) == Done(PutList(db, k, l), IntReply(|l|))
  {
    PutListAgain(db, k, l[n..], l);
    assert c.args[1..] == Reversed(l[..n]);
    assert Reversed(Reversed(l[..n])) + l[n..] == l;
  }

  lemma PushBackRight(db: DB, k: Key, l: seq<Bytes>, n: nat, c: CmdLine)
    requires 0 < n <= |l| && c.name == RPush && c.args == [k] + l[|l| - n..]
    ensures Exec(PutList(db, k, l[..|l| - n]), c) == Done(PutList(db, k, l), IntReply(|l|))
  {
    PutListAgain(db, k, l[..|l| - n], l);
    assert c.args[1..] == l[|l| - n..];
    assert l[..|l| - n] + l[|l| - n..] == l;
  }

  lemma UndoLSetRestores(db: DB, quick: set<Key>, c: CmdLine)
    requires NonEmpty(db) && ArityOk(c) && c.name == LSet
    requires Exec(db, c).Done? && Exec(db, c).reply != ErrReply
    ensures GetUndoLogs(db, quick, c).Some? && Replay(Exec(db, c).db, GetUndoLogs(db, quick, c).value) == Some(db)
  {
    var k, l := c.args[0], ListAt(db, c.args[0]);
    var i := Index(c.args[1], |l|).value;
    PutBack(db, k);
    var l' := l[i := c.args[2]];
    PutListAgain(db, k, l', l);
    var undo := CmdLine(LSet, [k, c.args[1], l[i]]);
    ReplayOne(PutList(db, k, l'), undo);
    assert l'[i := l[i]] == l;
  }

  lemma PushOnce(db: DB, k: Key, l: seq<Bytes>, v: Bytes)
    ensures StepsTo(PutList(db, k, l), CmdLine(RPush, [k, v]), PutList(db, k, l + [v]))
  {
    PutListAgain(db, k, l, l + [v]);
    assert [k, v][1..] == [v];
  }

  /** RPOPLPUSH within one list: rotate and rotate back. */
  lemma RotateBack(db: DB, k: Key, front: seq<Bytes>, v: Bytes)
    requires NonEmpty(db) && k in db && db[k] == ListVal(front + [v])
    ensures Replay(PutList(db, k, [v] + front), MoveBackCmds(k, k, v)) == Some(db)
  {
    var l1 := [v] + front;
    PushOnce(db, k, l1, v);
    PopOnce(db, k, l1 + [v], true);
    assert (l1 + [v])[1..] == front + [v];
    PutBack(db, k);
    ChainReplay([PutList(db, k, l1), PutList(db, k, l1 + [v]), db], [CmdLine(RPush, [k, v]), PopCmd(k, true)]);
  }

  /** RPOPLPUSH between two lists: give the element back. */
  lemma MoveBack(db: DB, src: Key, dst: Key, front: seq<Bytes>, v: Bytes, d: seq<Bytes>)
    requires NonEmpty(db) && src != dst && src in db && db[src] == ListVal(front + [v])
    requires IsList(db, dst) && ListAt(db, dst) == d
    ensures Replay(PutList(PutList(db, src, front), dst, [v] + d), MoveBackCmds(src, dst, v)) == Some(db)
  {
    var moved, db1 := PutList(PutList(db, src, front), dst, [v] + d), PutList(db, dst, [v] + d);
    assert moved == PutList(db1, src, front);
    PushOnce(db1, src, front, v);
    assert PutList(db1, src, front + [v]) == db1;
    PopOnce(db, dst, [v] + d, true);
    assert ([v] + d)[1..] == d;
    PutBack(db, dst);
    ChainReplay([moved, db1, db], [CmdLine(RPush, [src, v]), PopCmd(dst, true)]);
  }

  /** Source and destination may be the same list. */
  lemma UndoRPopLPushRestores(db: DB, quick: set<Key>, c: CmdLine)
    requires NonEmpty(db) && ArityOk(c) && c.name == RPopLPush
    requires Exec(db, c).Done? && Exec(db, c).reply != ErrReply
    ensures GetUndoLogs(db, quick, c).Some? && Replay(Exec(db, c).db, GetUndoLogs(db, quick, c).value) == Some(db)
  {
    var src, dst, l := c.args[0], c.args[1], ListAt(db, c.args[0]);
    if l == [] {
      assert Exec(db, c).db == db && GetUndoLogs(db, quick, c) == Some([]);
    } else {
      assert Exec(db, c) == ExecRPopLPush(db, src, dst);
      assert GetUndoLogs(db, quick, c) == Some(MoveBackCmds(src, dst, l[|l| - 1]));
      MoveIsUndone(db, src, dst);
    }
  }

  function MoveBackCmds(src: Key, dst: Key, v: Bytes): seq<CmdLine>
  {
    [CmdLine(RPush, [src, v]), CmdLine(LPop, [dst])]
  }

  lemma MoveIsUndone(db: DB, src: Key, dst: Key)
    requires NonEmpty(db) && IsList(db, src) && ListAt(db, src) != [] && IsList(db, dst)
    ensures var l := ListAt(db, src); Replay(ExecRPopLPush(db, src, dst).db, MoveBackCmds(src, dst, l[|l| - 1])) == Some(db)
  {
    var l := ListAt(db, src);
    var v, front := l[|l| - 1], l[..|l| - 1];
    assert front + [v] == l;
    if src == dst {
      PutListAgain(db, src, front, [v] + front);
      RotateBack(db, src, front, v);
    } else {
      MoveBack(db, src, dst, front, v, ListAt(db, dst));
    }
  }

  // ----- Sets and hashes -----

  /** The members once those listed are back to what they were in `s0`. */
  ghost function MembersBack(s: set<Bytes>, s0: set<Bytes>, ms: seq<Bytes>): set<Bytes>
  {
    (s - ToSet(ms)) + (s0 * ToSet(ms))
  }

  lemma RollbackMemberStep(db: DB, k: Key, s0: set<Bytes>, s1: set<Bytes>, m: Bytes, s2: set<Bytes>)
    requires s2 == if m in s0 then s1 + {m} else s1 - {m}
    ensures StepsTo(PutSet(db, k, s1), RollbackMember(k, s0, m), PutSet(db, k, s2))
  {
    PutSetAgain(db, k, s1, s2);
    assert [k, m][1..] == [m];
    assert ToSet([m]) == {m};
  }

  lemma OneMoreMember(s: set<Bytes>, s0: set<Bytes>, ms: seq<Bytes>, i: nat)
    requires i < |ms|
    ensures MembersBack(s, s0, ms[..i + 1]) ==
            var s1 := MembersBack(s, s0, ms[..i]); if ms[i] in s0 then s1 + {ms[i]} else s1 - {ms[i]}
  {
    assert ms[..i + 1] == ms[..i] + [ms[i]];
    assert ToSet(ms[..i + 1]) == ToSet(ms[..i]) + {ms[i]};
  }

  lemma MembersEnds(s: set<Bytes>, s0: set<Bytes>, ms: seq<Bytes>)
    ensures MembersBack(s, s0, ms[..0]) == s && ms[..|ms|] == ms
  {
    assert ToSet(ms[..0]) == {};
  }

  lemma ReplayMembers(db: DB, k: Key, s: set<Bytes>, s0: set<Bytes>, ms: seq<Bytes>)
    ensures Replay(PutSet(db, k, s), RollbackMembers(k, s0, ms)) == Some(PutSet(db, k, MembersBack(s, s0, ms)))
  {
    var states := seq(|ms| + 1, i requires 0 <= i <= |ms| => PutSet(db, k, MembersBack(s, s0, ms[..i])));
    forall i | 0 <= i < |ms|
      ensures StepsTo(states[i], RollbackMembers(k, s0, ms)[i], states[i + 1])
    {
      OneMoreMember(s, s0, ms, i);
      RollbackMemberStep(db, k, s0, MembersBack(s, s0, ms[..i]), ms[i], MembersBack(s, s0, ms[..i + 1]));
    }
    ChainReplay(states, RollbackMembers(k, s0, ms));
    MembersEnds(s, s0, ms);
  }

  /** Undoing a change to the members `ms` of the set at `k`. */
  lemma SetChangeRestores(db: DB, k: Key, s: set<Bytes>, ms: seq<Bytes>)
    requires NonEmpty(db) && IsSet(db, k) && s - ToSet(ms) == SetAt(db, k) - ToSet(ms)
    ensures Replay(PutSet(db, k, s), UndoSetChange(db, k, ms).value) == Some(db)
  {
    PutBack(db, k);
    if k in db {
      ReplayMembers(db, k, s, SetAt(db, k), ms);
      assert MembersBack(s, SetAt(db, k), ms) == SetAt(db, k);
    } else {
      ReplayDel(PutSet(db, k, s), k);
      assert PutSet(db, k, s) - {k} == db;
    }
  }

  lemma UndoSetRestores(db: DB, quick: set<Key>, c: CmdLine)
    requires NonEmpty(db) && ArityOk(c) && c.name in {SAdd, SRem} && IsSet(db, c.args[0])
    ensures GetUndoLogs(db, quick, c).Some? && Replay(Exec(db, c).db, GetUndoLogs(db, quick, c).value) == Some(db)
  {
    var k, ms, s0 := c.args[0], c.args[1..], SetAt(db, c.args[0]);
    var s := if c.name == SAdd then s0 + ToSet(ms) else s0 - ToSet(ms);
    assert Exec(db, c).db == PutSet(db, k, s) && GetUndoLogs(db, quick, c) == UndoSetChange(db, k, ms);
    SetChangeRestores(db, k, s, ms);
  }

  lemma ReplayDel(db: DB, k: Key)
    ensures Replay(db, [CmdLine(Del, [k])]) == Some(db - {k})
  {
    ReplayOne(db, CmdLine(Del, [k]));
    assert ToSet([k]) == {k};
  }

  ghost function FieldsBack(h: map<Bytes, Bytes>, h0: map<Bytes, Bytes>, fs: seq<Bytes>): map<Bytes, Bytes>
  {
    BackOn(h, h0, ToSet(fs))
  }

  /** `h` with the fields of `fs` as in `h0`. */
  ghost function BackOn(h: map<Bytes, Bytes>, h0: map<Bytes, Bytes>, fs: set<Bytes>): map<Bytes, Bytes>
  {
    map f | f in (h.Keys - fs) + (h0.Keys * fs) :: if f in fs then h0[f] else h[f]
  }

  lemma HSetOne(db: DB, k: Key, h: map<Bytes, Bytes>, f: Bytes, v: Bytes)
    ensures StepsTo(PutHash(db, k, h), CmdLine(HSet, [k, f, v]), PutHash(db, k, h[f := v]))
  {
    PutHashAgain(db, k, h, h[f := v]);
    assert [k, f, v][1..] == [f, v] && [f, v][2..] == [];
    assert SetPairs(h, [f, v]) == h[f := v];
  }

  lemma HDelOne(db: DB, k: Key, h: map<Bytes, Bytes>, f: Bytes)
    ensures StepsTo(PutHash(db, k, h), CmdLine(HDel, [k, f]), PutHash(db, k, h - {f}))
  {
    PutHashAgain(db, k, h, h - {f});
    assert [k, f][1..] == [f] && ToSet([f]) == {f};
  }

  lemma RollbackFieldStep(db: DB, k: Key, h0: map<Bytes, Bytes>, h1: map<Bytes, Bytes>, f: Bytes, h2: map<Bytes, Bytes>)
    requires h2 == if f in h0 then h1[f := h0[f]] else h1 - {f}
    ensures StepsTo(PutHash(db, k, h1), RollbackField(k, h0, f), PutHash(db, k, h2))
  {
    if f in h0 {
      HSetOne(db, k, h1, f, h0[f]);
    } else {
      HDelOne(db, k, h1, f);
    }
  }

  lemma OneMoreField(h: map<Bytes, Bytes>, h0: map<Bytes, Bytes>, fs: seq<Bytes>, i: nat)
    requires i < |fs|
    ensures FieldsBack(h, h0, fs[..i + 1]) ==
            var h1 := FieldsBack(h, h0, fs[..i]); if fs[i] in h0 then h1[fs[i] := h0[fs[i]]] else h1 - {fs[i]}
  {
    assert ToSet(fs[..i + 1]) == ToSet(fs[..i]) + {fs[i]} by {
      assert fs[..i + 1] == fs[..i] + [fs[i]];
    }
    OneMoreBack(h, h0, ToSet(fs[..i]), fs[i]);
  }

  lemma OneMoreBack(h: map<Bytes, Bytes>, h0: map<Bytes, Bytes>, fs: set<Bytes>, f: Bytes)
    ensures BackOn(h, h0, fs + {f}) ==
            var h1 := BackOn(h, h0, fs); if f in h0 then h1[f := h0[f]] else h1 - {f}
  {
    if f in h0 {
      assert BackOn(h, h0, fs + {f}) == BackOn(h, h0, fs)[f := h0[f]];
    }
  }

  lemma FieldsEnds(h: map<Bytes, Bytes>, h0: map<Bytes, Bytes>, fs: seq<Bytes>)
    ensures FieldsBack(h, h0, fs[..0]) == h && fs[..|fs|] == fs
  {
    assert ToSet(fs[..0]) == {};
  }

  lemma ReplayFields(db: DB, k: Key, h: map<Bytes, Bytes>, h0: map<Bytes, Bytes>, fs: seq<Bytes>)
    ensures Replay(PutHash(db, k, h), RollbackFields(k, h0, fs)) == Some(PutHash(db, k, FieldsBack(h, h0, fs)))
  {
    var states := seq(|fs| + 1, i requires 0 <= i <= |fs| => PutHash(db, k, FieldsBack(h, h0, fs[..i])));
    forall i | 0 <= i < |fs|
      ensures StepsTo(states[i], RollbackFields(k, h0, fs)[i], states[i + 1])
    {
      OneMoreField(h, h0, fs, i);
      RollbackFieldStep(db, k, h0, FieldsBack(h, h0, fs[..i]), fs[i], FieldsBack(h, h0, fs[..i + 1]));
    }
    ChainReplay(states, RollbackFields(k, h0, fs));
    FieldsEnds(h, h0, fs);
  }

  /** Setting pairs touches only the named fields. */
  lemma {:induction false} SetPairsTouches(h: map<Bytes, Bytes>, pairs: seq<Bytes>)
    ensures SetPairs(h, pairs).Keys == h.Keys + ToSet(FieldNames(pairs))
    ensures forall f :: f in h && f !in FieldNames(pairs) ==> SetPairs(h, pairs)[f] == h[f]
    decreases |pairs|
  {
    if |pairs| >= 2 {
      SetPairsTouches(h[pairs[0] := pairs[1]], pairs[2..]);
    }
  }

  lemma AllBack(h: map<Bytes, Bytes>, h0: map<Bytes, Bytes>, fs: seq<Bytes>)
    requires h.Keys - ToSet(fs) == h0.Keys - ToSet(fs)
    requires forall f :: f in h && f in h0 && f !in fs ==> h[f] == h0[f]
    ensures FieldsBack(h, h0, fs) == h0
  {
  }

  /** Undoing a change to the fields `fs` of the hash at `k`. */
  lemma HashChangeRestores(db: DB, k: Key, h: map<Bytes, Bytes>, fs: seq<Bytes>)
    requires NonEmpty(db) && IsHash(db, k)
    requires h.Keys - ToSet(fs) == HashAt(db, k).Keys - ToSet(fs)
    requires forall f :: f in h && f in HashAt(db, k) && f !in fs ==> h[f] == HashAt(db, k)[f]
    ensures Replay(PutHash(db, k, h), UndoHashChange(db, k, fs).value) == Some(db)
  {
    PutBack(db, k);
    if k in db {
      var h0 := db[k].fields;
      ReplayFields(db, k, h, h0, fs);
      AllBack(h, h0, fs);
    } else {
      DelRestores(db, k, h);
    }
  }

  lemma DelRestores(db: DB, k: Key, h: map<Bytes, Bytes>)
    requires k !in db
    ensures Replay(PutHash(db, k, h), [CmdLine(Del, [k])]) == Some(db)
  {
    ReplayDel(PutHash(db, k, h), k);
    PutThenGone(db, k, h);
  }

  lemma PutThenGone(db: DB, k: Key, h: map<Bytes, Bytes>)
    requires k !in db
    ensures PutHash(db, k, h) - {k} == db
  {
  }

  lemma UndoHSetRestores(db: DB, args: seq<Bytes>)
    requires NonEmpty(db) && |args| >= 3 && |args| % 2 == 1 && IsHash(db, args[0])
    ensures Replay(ExecHSet(db, args).db, UndoHashChange(db, args[0], FieldNames(args[1..])).value) == Some(db)
  {
    SetPairsTouches(HashAt(db, args[0]), args[1..]);
    HashChangeRestores(db, args[0], SetPairs(HashAt(db, args[0]), args[1..]), FieldNames(args[1..]));
  }

  lemma UndoHDelRestores(db: DB, k: Key, fs: seq<Bytes>)
    requires NonEmpty(db) && IsHash(db, k)
    ensures Replay(ExecHDel(db, k, fs).db, UndoHashChange(db, k, fs).value) == Some(db)
  {
    HashChangeRestores(db, k, HashAt(db, k) - ToSet(fs), fs);
  }

  lemma UndoHashRestores(db: DB, quick: set<Key>, c: CmdLine)
    requires NonEmpty(db) && ArityOk(c) && c.name in {HSet, HDel, HIncrBy}
    requires Exec(db, c).Done? && Exec(db, c).reply != ErrReply
    ensures GetUndoLogs(db, quick, c).Some? && Replay(Exec(db, c).db, GetUndoLogs(db, quick, c).value) == Some(db)
  {
    match c.name
    case HSet => UndoHSetRestores(db, c.args);
    case HDel => UndoHDelRestores(db, c.args[0], c.args[1..]);
    case HIncrBy => UndoHIncrByRestores(db, c.args[0], c.args[1], c.args[2]);
  }

  lemma UndoHIncrByRestores(db: DB, k: Key, f: Bytes, rawDelta: Bytes)
    requires NonEmpty(db) && ExecHIncrBy(db, k, f, rawDelta).reply != ErrReply
    ensures Replay(ExecHIncrBy(db, k, f, rawDelta).db, UndoHashChange(db, k, [f]).value) == Some(db)
  {
    var h0 := HashAt(db, k);
    var value := if f !in h0 then rawDelta else Format(AddInt64(ParseInt(h0[f]).value, ParseInt(rawDelta).value));
    assert ToSet([f]) == {f};
    HashChangeRestores(db, k, h0[f := value], [f]);
  }

  // ----- Transactions -----

  /** One command and its undo log are inverse. */
  lemma UndoRestores(db: DB, quick: set<Key>, c: CmdLine)
    requires NonEmpty(db) && ArityOk(c) && c.name != Del
    requires GetUndoLogs(db, quick, c).Some? && Exec(db, c).Done? && Exec(db, c).reply != ErrReply
    ensures Replay(Exec(db, c).db, GetUndoLogs(db, quick, c).value) == Some(db)
  {
    match c.name
    case LPush => UndoPush(db, quick, c);
    case RPush => UndoPush(db, quick, c);
    case LPop => UndoPopRestores(db, quick, c);
    case RPop => UndoPopRestores(db, quick, c);
    case LSet => UndoLSetRestores(db, quick, c);
    case RPopLPush => UndoRPopLPushRestores(db, quick, c);
    case SAdd => UndoSetRestores(db, quick, c);
    case SRem => UndoSetRestores(db, quick, c);
    case _ => UndoHashRestores(db, quick, c);
  }

  ghost predicate Queueable(cmds: seq<CmdLine>)
  {
    forall c :: c in cmds ==> ArityOk(c) && c.name != Del
  }

  /** Replaying logs[n-1], ..., logs[0]. */
  ghost function ReplayReverse(db: DB, logs: seq<seq<CmdLine>>): Option<DB>
    decreases |logs|
  {
    if logs == [] then Some(db)
    else
      match Replay(db, logs[|logs| - 1])
      case None => None
      case Some(db') => ReplayReverse(db', logs[..|logs| - 1])
  }
}
