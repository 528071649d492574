/** What EXEC amounts to on every keyspace and queue: all commands, none, or a
    crash on the way, and exactly which queues crash where. */
module Transactions {
  import opened Wrappers
  import opened Decimal
  import opened Commands
  import opened Rollback
  import opened Seqs

  /** The keyspace and the keys whose lists are quicklists. */
  datatype State = State(db: DB, quick: set<Key>)

  /** A crash leaves the keyspace that the commands before it have made. */
  datatype Verdict = Commits(st: State, replies: seq<Reply>) | Aborts | Crashes(st: State)

  // ----- Commands that crash -----

  /** A nonempty list is to be popped `args[1]` times. */
  predicate PopsByCount(db: DB, c: CmdLine)
  {
    && (c.name == LPop || c.name == RPop) && |c.args| == 2
    && IsList(db, c.args[0]) && ListAt(db, c.args[0]) != [] && ParseInt(c.args[1]).Some?
  }

  predicate NegativePop(db: DB, c: CmdLine)
  {
    PopsByCount(db, c) && ParseInt(c.args[1]).value < 0
  }

  predicate ZeroPop(st: State, c: CmdLine)
  {
    PopsByCount(st.db, c) && c.name == RPop && c.args[0] in st.quick && ParseInt(c.args[1]).value == 0
  }

  predicate Breaks(st: State, c: CmdLine)
  {
    NegativePop(st.db, c) || ZeroPop(st, c)
  }

  lemma PanicIff(db: DB, c: CmdLine)
    ensures Exec(db, c).Panic? <==> NegativePop(db, c)
  {
  }

  lemma UndoCrashIff(st: State, c: CmdLine)
    requires ArityOk(c) && c.name != Del
    ensures GetUndoLogs(st.db, st.quick, c).None? <==> Breaks(st, c)
  {
  }

  /** A pop with a count that crashes on some keyspace. */
  predicate RiskyCount(c: CmdLine)
  {
    && (c.name == LPop || c.name == RPop) && |c.args| == 2 && ParseInt(c.args[1]).Some?
    && (ParseInt(c.args[1]).value < 0 || (c.name == RPop && ParseInt(c.args[1]).value == 0))
  }

  /** The counts to refuse are exactly the negative ones, and 0 for RPOP. */
  lemma RiskyCountIff(c: CmdLine)
    ensures RiskyCount(c) <==> exists st: State :: NonEmpty(st.db) && Breaks(st, c)
  {
    if RiskyCount(c) {
      var k := c.args[0];
      var st := State(map[k := ListVal([[]])], {k});
      assert NonEmpty(st.db) && Breaks(st, c);
    }
  }

  // ----- EXEC -----

  function StepOf(st: State, max: int, c: CmdLine): State
    requires Exec(st.db, c).Done?
  {
    var x := Exec(st.db, c);
    State(x.db, QuickAfter(x.db, x.reply, st.quick, max, c))
  }

  ghost function VerdictOf(st: State, max: int, cmds: seq<CmdLine>): Verdict
    requires Queueable(cmds)
    decreases |cmds|
  {
    if cmds == [] then Commits(st, [])
    else if GetUndoLogs(st.db, st.quick, cmds[0]).None? || Exec(st.db, cmds[0]).Panic? then Crashes(st)
    else
      var reply := Exec(st.db, cmds[0]).reply;
      if reply == ErrReply then Aborts
      else
        match VerdictOf(StepOf(st, max, cmds[0]), max, cmds[1..])
        case Commits(st', replies) => Commits(st', [reply] + replies)
        case v => v
  }

  /** A verdict once `replies` have been collected. */
  ghost function After(replies: seq<Reply>, v: Verdict): Verdict
  {
    match v
    case Commits(st, more) => Commits(st, replies + more)
    case _ => v
  }

  lemma VerdictNext(st: State, max: int, cmds: seq<CmdLine>, i: nat, replies: seq<Reply>)
    requires Queueable(cmds) && i < |cmds|
    ensures var v := After(replies, VerdictOf(st, max, cmds[i..]));
            var u, x := GetUndoLogs(st.db, st.quick, cmds[i]), Exec(st.db, cmds[i]);
            && (u.None? || x.Panic? ==> v == Crashes(st))
            && (u.Some? && x.Done? && x.reply == ErrReply ==> v == Aborts)
            && (u.Some? && x.Done? && x.reply != ErrReply ==>
                  v == After(replies + [x.reply], VerdictOf(StepOf(st, max, cmds[i]), max, cmds[i + 1..])))
  {
    assert cmds[i..][0] == cmds[i] && cmds[i..][1..] == cmds[i + 1..];
    var x := Exec(st.db, cmds[i]);
    if x.Done? {
      var v := VerdictOf(StepOf(st, max, cmds[i]), max, cmds[i + 1..]);
      assert v.Commits? ==> replies + ([x.reply] + v.replies) == replies + [x.reply] + v.replies;
    }
  }

  // ----- Which queues crash -----

  /** The state before command n if all commands before it run without error. */
  ghost function StateAt(st: State, max: int, cmds: seq<CmdLine>, n: nat): Option<State>
    requires Queueable(cmds) && n <= |cmds|
  {
    match VerdictOf(st, max, cmds[..n])
    case Commits(st', _) => Some(st')
    case _ => None
  }

  /** Command n is reached, and crashes. */
  ghost predicate CrashesAt(st: State, max: int, cmds: seq<CmdLine>, n: nat)
    requires Queueable(cmds) && n < |cmds|
  {
    var s := StateAt(st, max, cmds, n);
    s.Some? && Breaks(s.value, cmds[n])
  }

  /** A queue whose first part commits goes on from there. */
  lemma {:induction false} VerdictConcat(st: State, max: int, a: seq<CmdLine>, b: seq<CmdLine>)
    requires Queueable(a) && Queueable(b) && VerdictOf(st, max, a).Commits?
    ensures Queueable(a + b)
    ensures var v := VerdictOf(st, max, a); VerdictOf(st, max, a + b) == After(v.replies, VerdictOf(v.st, max, b))
    decreases |a|
  {
    if a == [] {
      assert a + b == b;
      AfterNothing(VerdictOf(st, max, b));
    } else {
      assert (a + b)[0] == a[0] && (a + b)[1..] == a[1..] + b;
      var st' := StepOf(st, max, a[0]);
      VerdictConcat(st', max, a[1..], b);
      var v := VerdictOf(st', max, a[1..]);
      AfterTwice([Exec(st.db, a[0]).reply], v.replies, VerdictOf(v.st, max, b));
    }
  }

  lemma AfterNothing(v: Verdict)
    ensures After([], v) == v
  {
    assert v.Commits? ==> [] + v.replies == v.replies;
  }

  lemma AfterTwice(a: seq<Reply>, b: seq<Reply>, v: Verdict)
    ensures After(a, After(b, v)) == After(a + b, v)
  {
    if v.Commits? {
      Regroup(a, b, v.replies);
    }
  }

  /** A command that breaks decides the verdict of what it leads. */
  lemma BreaksFirst(st: State, max: int, cmds: seq<CmdLine>)
    requires Queueable(cmds) && cmds != [] && Breaks(st, cmds[0])
    ensures VerdictOf(st, max, cmds) == Crashes(st)
  {
    assert cmds[0] in cmds;
    UndoCrashIff(st, cmds[0]);
  }

  /** A crashing command that is reached decides the verdict. */
  lemma CrashDecides(st: State, max: int, cmds: seq<CmdLine>, n: nat)
    requires Queueable(cmds) && n < |cmds| && CrashesAt(st, max, cmds, n)
    ensures VerdictOf(st, max, cmds) == Crashes(StateAt(st, max, cmds, n).value)
  {
    assert cmds == cmds[..n] + cmds[n..];
    VerdictConcat(st, max, cmds[..n], cmds[n..]);
    BreaksFirst(StateAt(st, max, cmds, n).value, max, cmds[n..]);
  }

  /** The commands before a crash have committed, and the next one breaks. */
  lemma {:induction false} CrashIsReached(st: State, max: int, cmds: seq<CmdLine>) returns (n: nat)
    requires Queueable(cmds) && VerdictOf(st, max, cmds).Crashes?
    ensures n < |cmds| && CrashesAt(st, max, cmds, n)
    decreases |cmds|
  {
    assert cmds[0] in cmds;
    UndoCrashIff(st, cmds[0]);
    PanicIff(st.db, cmds[0]);
    if Breaks(st, cmds[0]) {
      n := 0;
    } else {
      var st' := StepOf(st, max, cmds[0]);
      var m := CrashIsReached(st', max, cmds[1..]);
      n := m + 1;
      assert cmds[..n][0] == cmds[0] && cmds[..n][1..] == cmds[1..][..m];
    }
  }

  /** EXEC crashes exactly if a crashing command is reached before the first
      error; the keyspace is then what the commands before it have made. */
  lemma CrashIff(st: State, max: int, cmds: seq<CmdLine>)
    requires Queueable(cmds)
    ensures VerdictOf(st, max, cmds).Crashes? <==> exists n :: 0 <= n < |cmds| && CrashesAt(st, max, cmds, n)
    ensures forall n :: 0 <= n < |cmds| && CrashesAt(st, max, cmds, n) ==>
              VerdictOf(st, max, cmds) == Crashes(StateAt(st, max, cmds, n).value)
  {
    if VerdictOf(st, max, cmds).Crashes? {
      var n := CrashIsReached(st, max, cmds);
    }
    forall n | 0 <= n < |cmds| && CrashesAt(st, max, cmds, n)
      ensures VerdictOf(st, max, cmds) == Crashes(StateAt(st, max, cmds, n).value)
    {
      CrashDecides(st, max, cmds, n);
    }
  }

  /** The contents EXEC leaves behind. */
  ghost function Left(st: State, max: int, cmds: seq<CmdLine>): DB
    requires Queueable(cmds)
  {
    match VerdictOf(st, max, cmds)
    case Commits(st', _) => st'.db
    case Aborts => st.db
    case Crashes(st') => st'.db
  }

  /** EXEC takes effect as a whole or not at all exactly if no crashing command
      is reached after another one has changed something. */
  lemma AllOrNothingIff(st: State, max: int, cmds: seq<CmdLine>)
    requires Queueable(cmds)
    ensures (VerdictOf(st, max, cmds).Commits? || Left(st, max, cmds) == st.db) <==>
            forall n :: 0 <= n < |cmds| && CrashesAt(st, max, cmds, n) ==> StateAt(st, max, cmds, n).value.db == st.db
  {
    CrashIff(st, max, cmds);
  }

  /** A queue without such counts never crashes, on whatever keyspace. */
  lemma {:induction false} SafeCountsNeverCrash(st: State, max: int, cmds: seq<CmdLine>)
    requires Queueable(cmds) && forall c :: c in cmds ==> !RiskyCount(c)
    ensures !VerdictOf(st, max, cmds).Crashes?
  {
    CrashIff(st, max, cmds);
    forall n | 0 <= n < |cmds|
      ensures !CrashesAt(st, max, cmds, n)
    {
      assert !RiskyCount(cmds[n]);
    }
  }

  lemma CrashAfterOne(st: State, max: int, first: CmdLine, second: CmdLine)
    requires Queueable([first, second]) && !Breaks(st, first) && Exec(st.db, first).Done? && Exec(st.db, first).reply != ErrReply
    requires Breaks(StepOf(st, max, first), second)
    ensures VerdictOf(st, max, [first, second]) == Crashes(StepOf(st, max, first))
  {
    assert [first, second][1..] == [second] && [first, second][1] == second;
    assert first in [first, second] && second in [first, second];
    UndoCrashIff(st, first);
    BreaksFirst(StepOf(st, max, first), max, [second]);
  }

  lemma PushesOne(db: DB, quick: set<Key>, max: int, a: Key, x: Bytes)
    requires a !in db && a !in quick && max >= 1 && forall k :: k in quick ==> k in db && db[k].ListVal?
    ensures Exec(db, CmdLine(RPush, [a, x])).Done? && Exec(db, CmdLine(RPush, [a, x])).reply != ErrReply
    ensures StepOf(State(db, quick), max, CmdLine(RPush, [a, x])) == State(db[a := ListVal([x])], quick)
  {
    assert [a, x][1..] == [x] && [] + [x] == [x];
  }

  /** RPUSH a x; LPOP a -1 on an empty keyspace, or any negative count, leaves
      the list [x] behind. */
  lemma NegativeCountLeavesHalf(a: Key, x: Bytes, count: Bytes, max: int)
    requires max >= 1 && ParseInt(count).Some? && ParseInt(count).value < 0
    ensures var cmds := [CmdLine(RPush, [a, x]), CmdLine(LPop, [a, count])];
            Queueable(cmds) && VerdictOf(State(map[], {}), max, cmds) == Crashes(State(map[a := ListVal([x])], {}))
  {
    PushesOne(map[], {}, max, a, x);
    CrashAfterOne(State(map[], {}), max, CmdLine(RPush, [a, x]), CmdLine(LPop, [a, count]));
  }

  /** RPUSH a x; RPOP k 0 does the same when k holds a quicklist. */
  lemma ZeroCountLeavesHalf(k: Key, items: seq<Bytes>, a: Key, x: Bytes, count: Bytes, max: int)
    requires items != [] && a != k && max >= 1 && ParseInt(count) == Some(0)
    ensures var cmds, db := [CmdLine(RPush, [a, x]), CmdLine(RPop, [k, count])], map[k := ListVal(items)];
            Queueable(cmds) && VerdictOf(State(db, {k}), max, cmds) == Crashes(State(db[a := ListVal([x])], {k}))
  {
    var db := map[k := ListVal(items)];
    PushesOne(db, {k}, max, a, x);
    CrashAfterOne(State(db, {k}), max, CmdLine(RPush, [a, x]), CmdLine(RPop, [k, count]));
  }

  /** Such counts can be written down. */
  lemma CountsExist()
    ensures ParseInt(Format(-1)) == Some(-1) && ParseInt(Format(0)) == Some(0)
  {
    ParseIntOfFormat(-1);
    ParseIntOfFormat(0);
  }
}
