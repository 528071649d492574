/** The keyspace object: command executors and undo builders as loops over the
    stored containers, and EXEC with its abort path. */
module Database {
  import opened Wrappers
  import opened Decimal
  import opened Commands
  import opened Seqs
  import opened Rollback
  import opened Transactions

  lemma ReplayPush(before: DB, db: DB, undo: seq<seq<CmdLine>>, log: seq<CmdLine>)
    requires Replay(db, log) == Some(before)
    ensures ReplayReverse(db, undo + [log]) == ReplayReverse(before, undo)
  {
    assert (undo + [log])[..|undo|] == undo;
  }

  class Database {
    var data: DB
    var quick: set<Key>
    const max: int // the longest list kept as a listpack

    constructor (data: DB, quick: set<Key>, max: int)
      ensures View() == State(data, quick) && this.max == max
    {
      this.data, this.quick, this.max := data, quick, max;
    }

    ghost function View(): State
      reads this
    {
      State(data, quick)
    }

    // ----- Executors -----

    method ExecLPush(key: Key, values: seq<Bytes>) returns (reply: Reply)
      requires values != []
      modifies `data
      ensures Done(data, reply) == Commands.ExecLPush(old(data), key, values)
    {
      if !IsList(data, key) {
        return ErrReply;
      }
      var l := PushLeft(ListAt(data, key), values);
      data := data[key := ListVal(l)];
      return IntReply(|l|);
    }

    method ExecRPush(key: Key, values: seq<Bytes>) returns (reply: Reply)
      requires values != []
      modifies `data
      ensures Done(data, reply) == Commands.ExecRPush(old(data), key, values)
    {
      if !IsList(data, key) {
        return ErrReply;
      }
      var l := PushRight(ListAt(data, key), values);
      data := data[key := ListVal(l)];
      return IntReply(|l|);
    }

    /** LPOP (`left`) or RPOP. */
    method ExecPop(args: seq<Bytes>, left: bool) returns (reply: Reply, crashed: bool)
      requires NonEmpty(data) && |args| >= 1
      modifies `data
      ensures (if crashed then Panic else Done(data, reply)) ==
              if left then ExecLPop(old(data), args) else ExecRPop(old(data), args)
      ensures crashed ==> data == old(data)
    {
      var key := args[0];
      if key !in data {
        return NullReply, false;
      }
      if !data[key].ListVal? {
        return ErrReply, false;
      }
      if |args| == 2 {
        reply, crashed := PopByCount(key, data[key].items, args[1], left);
        return;
      }
      reply := PopOne(key, data[key].items, left);
      return reply, false;
    }

    method PopOne(key: Key, l: seq<Bytes>, left: bool) returns (reply: Reply)
      requires l != []
      modifies `data
      ensures data == PutList(old(data), key, if left then l[1..] else l[..|l| - 1])
      ensures reply == BulkReply(if left then l[0] else l[|l| - 1])
    {
      StoreList(key, if left then l[1..] else l[..|l| - 1]);
      return BulkReply(if left then l[0] else l[|l| - 1]);
    }

    method PopByCount(key: Key, l: seq<Bytes>, text: Bytes, left: bool) returns (reply: Reply, crashed: bool)
      modifies `data
      ensures ParseInt(text).None? ==> !crashed && reply == ErrReply && data == old(data)
      ensures ParseInt(text).Some? ==>
                var count := Min(ParseInt(text).value, |l|);
                if count < 0 then crashed && data == old(data)
                else
                  && !crashed && data == PutList(old(data), key, if left then l[count..] else l[..|l| - count])
                  && reply == MultiBulkReply(if left then l[..count] else Reversed(l[|l| - count..]))
    {
      var n := ParseInt(text);
      if n.None? {
        return ErrReply, false;
      }
      var count := if n.value > |l| then |l| else n.value;
      if count < 0 {
        return ErrReply, true;
      }
      reply := PopCounted(key, l, count, left);
      return reply, false;
    }

    method PopCounted(key: Key, l: seq<Bytes>, count: nat, left: bool) returns (reply: Reply)
      requires count <= |l|
      modifies `data
      ensures data == PutList(old(data), key, if left then l[count..] else l[..|l| - count])
      ensures reply == MultiBulkReply(if left then l[..count] else Reversed(l[|l| - count..]))
    {
      var rest, vals := PopMany(l, count, left);
      StoreList(key, rest);
      return MultiBulkReply(vals);
    }

    method ExecLSet(key: Key, index: Bytes, value: Bytes) returns (reply: Reply)
      requires NonEmpty(data)
      modifies `data
      ensures Done(data, reply) == Commands.ExecLSet(old(data), key, index, value)
    {
      var n := ParseInt(index);
      if n.None? || key !in data || !data[key].ListVal? {
        return ErrReply;
      }
      var i, size := n.value, |data[key].items|;
      if i < -1 * size {
        return ErrReply;
      } else if i < 0 {
        i := size + i;
      } else if i >= size {
        return ErrReply;
      }
      data := data[key := ListVal(data[key].items[i := value])];
      return OkReply;
    }

    method ExecRPopLPush(src: Key, dst: Key) returns (reply: Reply)
      requires NonEmpty(data)
      modifies `data
      ensures Done(data, reply) == Commands.ExecRPopLPush(old(data), src, dst)
    {
      if !IsList(data, src) {
        return ErrReply;
      }
      if src !in data {
        return NullReply;
      }
      if !IsList(data, dst) {
        return ErrReply;
      }
      var l := data[src].items;
      var v := l[|l| - 1];
      StoreList(src, l[..|l| - 1]);
      StoreList(dst, [v] + ListAt(data, dst));
      return BulkReply(v);
    }

    method ExecSAdd(key: Key, members: seq<Bytes>) returns (reply: Reply)
      requires members != []
      modifies `data
      ensures Done(data, reply) == Commands.ExecSAdd(old(data), key, members)
    {
      if !IsSet(data, key) {
        return ErrReply;
      }
      var s, counter := AddMembers(SetAt(data, key), members);
      assert members[0] in s;
      data := data[key := SetVal(s)];
      return IntReply(counter);
    }

    method ExecSRem(key: Key, members: seq<Bytes>) returns (reply: Reply)
      modifies `data
      ensures Done(data, reply) == Commands.ExecSRem(old(data), key, members)
    {
      if !IsSet(data, key) {
        return ErrReply;
      }
      var s, counter := RemoveMembers(SetAt(data, key), members);
      data := if s == {} then data - {key} else data[key := SetVal(s)];
      return IntReply(counter);
    }

    method ExecHSet(args: seq<Bytes>) returns (reply: Reply)
      requires |args| >= 1
      modifies `data
      ensures Done(data, reply) == Commands.ExecHSet(old(data), args)
    {
      if |args| < 3 || |args| % 2 != 1 || !IsHash(data, args[0]) {
        return ErrReply;
      }
      var h, result := SetFields(HashAt(data, args[0]), args[1..]);
      data := data[args[0] := HashVal(h)];
      return IntReply(result);
    }

    method ExecHDel(key: Key, fields: seq<Bytes>) returns (reply: Reply)
      modifies `data
      ensures Done(data, reply) == Commands.ExecHDel(old(data), key, fields)
    {
      if !IsHash(data, key) {
        return ErrReply;
      }
      var h, deleted := RemoveKeys(HashAt(data, key), fields);
      data := if h == map[] then data - {key} else data[key := HashVal(h)];
      return IntReply(deleted);
    }

    method ExecHIncrBy(key: Key, field: Bytes, rawDelta: Bytes) returns (reply: Reply)
      modifies `data
      ensures Done(data, reply) == Commands.ExecHIncrBy(old(data), key, field, rawDelta)
    {
      var delta := ParseInt(rawDelta);
      if delta.None? || !IsHash(data, key) {
        return ErrReply;
      }
      var h := HashAt(data, key);
      if field !in h {
        assert field in h[field := rawDelta];
        data := data[key := HashVal(h[field := rawDelta])];
        return IntReply(delta.value);
      }
      var val := ParseInt(h[field]);
      if val.None? {
        return ErrReply;
      }
      var sum := AddInt64(val.value, delta.value);
      assert field in h[field := Format(sum)];
      data := data[key := HashVal(h[field := Format(sum)])];
      return IntReply(sum);
    }

    method ExecDel(keys: seq<Key>) returns (reply: Reply)
      modifies `data
      ensures Done(data, reply) == Commands.ExecDel(old(data), keys)
    {
      var rest, deleted := RemoveKeys(data, keys);
      data := rest;
      return IntReply(deleted);
    }

    /** A list is removed with its last element. */
    method StoreList(key: Key, l: seq<Bytes>)
      modifies `data
      ensures data == PutList(old(data), key, l)
    {
      data := if l == [] then data - {key} else data[key := ListVal(l)];
    }

    /** Arity check and dispatch. */
    method Dispatch(c: CmdLine) returns (reply: Reply, crashed: bool)
      requires NonEmpty(data)
      modifies `data
      ensures (if crashed then Panic else Done(data, reply)) == Exec(old(data), c)
      ensures NonEmpty(data) && (crashed ==> data == old(data))
    {
      if Exec(data, c).Done? {
        ExecKeepsNonEmpty(data, c);
      }
      crashed := false;
      if !ArityOk(c) {
        return ErrReply, false;
      }
      var a := c.args;
      match c.name
      case LPush => reply := ExecLPush(a[0], a[1..]);
      case RPush => reply := ExecRPush(a[0], a[1..]);
      case LPop => reply, crashed := ExecPop(a, true);
      case RPop => reply, crashed := ExecPop(a, false);
      case LSet => reply := ExecLSet(a[0], a[1], a[2]);
      case RPopLPush => reply := ExecRPopLPush(a[0], a[1]);
      case SAdd => reply := ExecSAdd(a[0], a[1..]);
      case SRem => reply := ExecSRem(a[0], a[1..]);
      case HSet => reply := ExecHSet(a);
      case HDel => reply := ExecHDel(a[0], a[1..]);
      case HIncrBy => reply := ExecHIncrBy(a[0], a[1], a[2]);
      case Del => reply := ExecDel(a);
    }

    /** Runs a command; the lists it has appended to may change their encoding. */
    method ExecWithLock(c: CmdLine) returns (reply: Reply, crashed: bool)
      requires NonEmpty(data)
      modifies this
      ensures (if crashed then Panic else Done(data, reply)) == Exec(old(data), c)
      ensures NonEmpty(data) && View() == if crashed then old(View()) else StepOf(old(View()), max, c)
    {
      reply, crashed := Dispatch(c);
      if !crashed {
        quick := QuickAfter(data, reply, quick, max, c);
      }
    }

    // ----- EXEC -----

    /** The undo log of a queued command, taken before it runs. */
    method UndoLogs(c: CmdLine) returns (log: seq<CmdLine>, crashed: bool)
      requires ArityOk(c) && c.name != Del
      ensures (if crashed then None else Some(log)) == GetUndoLogs(data, quick, c)
    {
      var a := c.args;
      var key := a[0];
      crashed := false;
      match c.name
      case LPush => log := Copies(CmdLine(LPop, [key]), |a| - 1);
      case RPush => log := Copies(CmdLine(RPop, [key]), |a| - 1);
      case LPop => log, crashed := UndoPops(a, true);
      case RPop => log, crashed := UndoPops(a, false);
      case LSet => log := UndoSet(key, a[1]);
      case RPopLPush => log := UndoMove(key, a[1]);
      case SAdd => log := UndoMembers(key, a[1..]);
      case SRem => log := UndoMembers(key, a[1..]);
      case HSet =>
        var names := Fields(a[1..]);
        log := UndoFields(key, names);
      case HDel => log := UndoFields(key, a[1..]);
      case HIncrBy => log := UndoFields(key, [a[1]]);
    }

    method UndoPops(args: seq<Bytes>, left: bool) returns (log: seq<CmdLine>, crashed: bool)
      requires |args| >= 1
      ensures (if crashed then None else Some(log)) == UndoPop(data, quick, args, left)
    {
      var key := args[0];
      if !IsList(data, key) || ListAt(data, key) == [] {
        return [], false;
      }
      var l := ListAt(data, key);
      if |args| != 2 {
        return [if left then CmdLine(LPush, [key, l[0]]) else CmdLine(RPush, [key, l[|l| - 1]])], false;
      }
      var n := ParseInt(args[1]);
      if n.None? {
        return [], false;
      }
      var count := if n.value > |l| then |l| else n.value;
      if count < 0 {
        return [], true;
      }
      if count == 0 && !left && key in quick {
        return [], true; // the read starts past the last element
      }
      crashed := false;
      if left {
        var elements := PushLeft([], l[..count]);
        assert elements == Reversed(l[..count]);
        log := [CmdLine(LPush, [key] + elements)];
      } else {
        var elements := PushRight([], l[|l| - count..]);
        assert elements == l[|l| - count..];
        log := [CmdLine(RPush, [key] + elements)];
      }
    }

    method UndoSet(key: Key, index: Bytes) returns (log: seq<CmdLine>)
      ensures UndoLSet(data, key, index) == Some(log)
    {
      var n := ParseInt(index);
      if n.None? || key !in data || !data[key].ListVal? {
        return [];
      }
      var l := data[key].items;
      var i := n.value;
      if i < -|l| {
        return [];
      } else if i < 0 {
        i := |l| + i;
      } else if i >= |l| {
        return [];
      }
      return [CmdLine(LSet, [key, index, l[i]])];
    }

    method UndoMove(src: Key, dst: Key) returns (log: seq<CmdLine>)
      ensures UndoRPopLPush(data, src, dst) == Some(log)
    {
      if src !in data || !data[src].ListVal? || |data[src].items| == 0 {
        return [];
      }
      var l := data[src].items;
      return [CmdLine(RPush, [src, l[|l| - 1]]), CmdLine(LPop, [dst])];
    }

    method UndoMembers(key: Key, ms: seq<Bytes>) returns (log: seq<CmdLine>)
      ensures UndoSetChange(data, key, ms) == Some(log)
    {
      if !IsSet(data, key) {
        return [];
      }
      if key !in data {
        return [CmdLine(Del, [key])];
      }
      log := [];
      for i := 0 to |ms|
        invariant log == RollbackMembers(key, data[key].members, ms)[..i]
      {
        log := log + [CmdLine(if ms[i] in data[key].members then SAdd else SRem, [key, ms[i]])];
      }
      assert log == RollbackMembers(key, data[key].members, ms);
    }

    method UndoFields(key: Key, fs: seq<Bytes>) returns (log: seq<CmdLine>)
      ensures UndoHashChange(data, key, fs) == Some(log)
    {
      if !IsHash(data, key) {
        return [];
      }
      if key !in data {
        return [CmdLine(Del, [key])];
      }
      log := [];
      var h := data[key].fields;
      for i := 0 to |fs|
        invariant log == RollbackFields(key, h, fs)[..i]
      {
        log := log + [if fs[i] in h then CmdLine(HSet, [key, fs[i], h[fs[i]]]) else CmdLine(HDel, [key, fs[i]])];
      }
      assert log == RollbackFields(key, h, fs);
    }

    /** Runs the queued commands in order. At the first error the undo logs of
        the commands before it run in reverse order. */
    method ExecMulti(cmds: seq<CmdLine>) returns (replies: seq<Reply>, aborted: bool, crashed: bool)
      requires NonEmpty(data) && Queueable(cmds)
      modifies this
      ensures match VerdictOf(old(View()), max, cmds)
              case Commits(st, rs) => !crashed && !aborted && View() == st && replies == rs
              case Aborts => !crashed && aborted && data == old(data)
              case Crashes(st) => crashed && View() == st
      ensures NonEmpty(data)
    {
      var undo;
      replies, undo, aborted, crashed := RunAll(cmds);
      if !crashed && aborted {
        RunUndo(undo);
      }
    }

    /** Runs the commands up to the first error, collecting replies and undo logs. */
    method RunAll(cmds: seq<CmdLine>) returns (replies: seq<Reply>, undo: seq<seq<CmdLine>>, aborted: bool, crashed: bool)
      requires NonEmpty(data) && Queueable(cmds)
      modifies this
      ensures VerdictOf(old(View()), max, cmds) ==
              if crashed then Crashes(View()) else if aborted then Aborts else Commits(View(), replies)
      ensures NonEmpty(data)
      ensures !crashed ==> ReplayReverse(data, undo) == Some(old(data))
    {
      replies, undo, aborted, crashed := [], [], false, false;
      var i := 0;
      assert cmds[0..] == cmds;
      while i < |cmds|
        invariant 0 <= i <= |cmds|
        invariant NonEmpty(data)
        invariant VerdictOf(old(View()), max, cmds) == After(replies, VerdictOf(View(), max, cmds[i..]))
        invariant ReplayReverse(data, undo) == Some(old(data))
      {
        ghost var before := data;
        var log, reply, broken := RunQueued(cmds, i, replies);
        if broken {
          return replies, undo, false, true;
        }
        if reply == ErrReply {
          return replies, undo, true, false;
        }
        ReplayPush(before, data, undo, log);
        undo, replies, i := undo + [log], replies + [reply], i + 1;
      }
    }

    /** Takes the undo log of command i, then runs the command. */
    method RunQueued(cmds: seq<CmdLine>, i: nat, ghost replies: seq<Reply>)
      returns (log: seq<CmdLine>, reply: Reply, broken: bool)
      requires NonEmpty(data) && Queueable(cmds) && i < |cmds|
      modifies this
      ensures var v := After(replies, VerdictOf(old(View()), max, cmds[i..]));
              if broken then v == Crashes(View())
              else if reply == ErrReply then v == Aborts
              else v == After(replies + [reply], VerdictOf(View(), max, cmds[i + 1..]))
      ensures NonEmpty(data)
      ensures !broken && reply == ErrReply ==> data == old(data)
      ensures !broken && reply != ErrReply ==> Replay(data, log) == Some(old(data))
    {
      var c := cmds[i];
      assert c in cmds;
      VerdictNext(View(), max, cmds, i, replies);
      log, broken := UndoLogs(c);
      if broken {
        return [], ErrReply, true;
      }
      reply, broken := ExecWithLock(c);
      if !broken {
        if reply == ErrReply {
          ErrorsChangeNothing(old(data), c);
        } else {
          UndoRestores(old(data), old(quick), c);
        }
      }
    }

    method RunUndo(undo: seq<seq<CmdLine>>)
      requires NonEmpty(data) && ReplayReverse(data, undo).Some?
      modifies this
      ensures NonEmpty(data) && ReplayReverse(old(data), undo) == Some(data)
    {
      var i := |undo|;
      assert undo[..i] == undo;
      while i > 0
        invariant 0 <= i <= |undo|
        invariant NonEmpty(data) && ReplayReverse(data, undo[..i]) == ReplayReverse(old(data), undo)
      {
        assert undo[..i][..i - 1] == undo[..i - 1];
        ghost var target := Replay(data, undo[i - 1]);
        for j := 0 to |undo[i - 1]|
          invariant NonEmpty(data) && Replay(data, undo[i - 1][j..]) == target
        {
          assert undo[i - 1][j..][1..] == undo[i - 1][j + 1..];
          var _, _ := ExecWithLock(undo[i - 1][j]);
        }
        i := i - 1;
      }
    }
  }

  // ----- The loops over one container -----

  method PushLeft(l0: seq<Bytes>, values: seq<Bytes>) returns (l: seq<Bytes>)
    ensures l == Reversed(values) + l0
  {
    l := l0;
    for i := 0 to |values|
      invariant l == Reversed(values[..i]) + l0
    {
      l := [values[i]] + l;
    }
    assert values[..|values|] == values;
  }

  method PushRight(l0: seq<Bytes>, values: seq<Bytes>) returns (l: seq<Bytes>)
    ensures l == l0 + values
  {
    l := l0;
    for i := 0 to |values|
      invariant l == l0 + values[..i]
    {
      l := l + [values[i]];
    }
  }

  method Copies(c: CmdLine, n: nat) returns (r: seq<CmdLine>)
    ensures r == Repeat(c, n)
  {
    r := [];
    for i := 0 to n
      invariant r == Repeat(c, i)
    {
      r := r + [c];
    }
  }

  method Fields(pairs: seq<Bytes>) returns (names: seq<Bytes>)
    ensures names == FieldNames(pairs)
  {
    names := [];
    var i := 0;
    while i + 1 < |pairs|
      invariant 0 <= i <= |pairs|
      invariant names + FieldNames(pairs[i..]) == FieldNames(pairs)
    {
      assert pairs[i..][2..] == pairs[i + 2..];
      names, i := names + [pairs[i]], i + 2;
    }
  }

  method PopMany(l0: seq<Bytes>, count: nat, left: bool) returns (l: seq<Bytes>, vals: seq<Bytes>)
    requires count <= |l0|
    ensures l == Popped(l0, count, left)
    ensures vals == if left then l0[..count] else Reversed(l0[|l0| - count..])
  {
    l, vals := l0, [];
    for i := 0 to count
      invariant l == Popped(l0, i, left)
      invariant vals == if left then l0[..i] else Reversed(l0[|l0| - i..])
    {
      if left {
        l, vals := l[1..], vals + [l[0]];
      } else {
        l, vals := l[..|l| - 1], vals + [l[|l| - 1]];
      }
    }
  }

  method AddMembers<T(==)>(s0: set<T>, members: seq<T>) returns (s: set<T>, counter: nat)
    ensures s == s0 + ToSet(members)
    ensures counter == |ToSet(members) - s0|
  {
    s, counter := s0, 0;
    for i := 0 to |members|
      invariant s == s0 + ToSet(members[..i])
      invariant |s| == |s0| + counter
    {
      ToSetMore(members, i);
      if members[i] !in s {
        s, counter := s + {members[i]}, counter + 1;
      }
    }
    assert members[..|members|] == members;
    CountAdded(s0, ToSet(members));
  }

  method RemoveMembers<T(==)>(s0: set<T>, members: seq<T>) returns (s: set<T>, counter: nat)
    ensures s == s0 - ToSet(members)
    ensures counter == |ToSet(members) * s0|
  {
    s, counter := s0, 0;
    for i := 0 to |members|
      invariant s == s0 - ToSet(members[..i])
      invariant |s| == |s0| - counter
    {
      ToSetMore(members, i);
      if members[i] in s {
        s, counter := s - {members[i]}, counter + 1;
      }
    }
    assert members[..|members|] == members;
    CountRemoved(s0, ToSet(members));
  }

  method RemoveKeys<T(==), V>(m0: map<T, V>, keys: seq<T>) returns (m: map<T, V>, counter: nat)
    ensures m == m0 - ToSet(keys)
    ensures counter == |ToSet(keys) * m0.Keys|
  {
    m, counter := m0, 0;
    for i := 0 to |keys|
      invariant m == m0 - ToSet(keys[..i])
      invariant |m| == |m0| - counter
    {
      ToSetMore(keys, i);
      MinusMinus(m0, ToSet(keys[..i]), {keys[i]});
      if keys[i] in m {
        counter := counter + 1;
      }
      CountRemoved(m.Keys, {keys[i]});
      m := m - {keys[i]};
    }
    assert keys[..|keys|] == keys;
    CountRemoved(m0.Keys, ToSet(keys));
  }

  method SetFields(h0: map<Bytes, Bytes>, pairs: seq<Bytes>) returns (h: map<Bytes, Bytes>, created: int)
    requires pairs != [] && |pairs| % 2 == 0
    ensures h == SetPairs(h0, pairs) && h != map[]
    ensures created == |h| - |h0|
  {
    h, created := h0, 0;
    var i := 0;
    while i < |pairs|
      invariant 0 <= i <= |pairs| && i % 2 == 0
      invariant SetPairs(h, pairs[i..]) == SetPairs(h0, pairs)
      invariant |h| == |h0| + created
      invariant i > 0 ==> h != map[]
    {
      if pairs[i] !in h {
        created := created + 1;
      }
      assert pairs[i..][2..] == pairs[i + 2..];
      h := h[pairs[i] := pairs[i + 1]];
      i := i + 2;
    }
  }

  lemma MinusMinus<T, V>(m: map<T, V>, a: set<T>, b: set<T>)
    ensures m - (a + b) == m - a - b
  {
  }

  lemma CountAdded<T>(s: set<T>, more: set<T>)
    ensures |s + more| == |s| + |more - s|
  {
    assert s + more == s + (more - s);
  }

  lemma CountRemoved<T>(s: set<T>, less: set<T>)
    ensures |s - less| == |s| - |less * s|
  {
    assert s == (s - less) + less * s;
  }

  lemma ToSetMore<T>(s: seq<T>, i: nat)
    requires i < |s|
    ensures ToSet(s[..i + 1]) == ToSet(s[..i]) + {s[i]}
  {
    assert s[..i + 1] == s[..i] + [s[i]];
  }
}
