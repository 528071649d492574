/** Replication from the master's side, at the granularity of its critical
    sections: appends, resyncs, sends and disconnections interleave freely,
    and still every online replica has received one unbroken stretch of the
    stream. */
module Replication {
  import opened Wrappers
  import opened ReplBacklog

  type ReplicaId = nat

  /** Where a replica's connection stands. */
  datatype Phase =
    | Connected
    | SendingRDB(snapOffset: int)               // FULLRESYNC header sent
    | Pending(bytes: seq<Byte>, upTo: int)      // backlog snapshot taken, not yet written
    | Written(upTo: int)                        // backlog written, not yet online
    | Online

  /** `base` is the offset the replica was told (or told us) it starts from,
      `received` what has been written to it since. */
  datatype Replica = Replica(phase: Phase, base: int, received: seq<Byte>, sendOffset: int)

  /** A run of the send loop: its snapshot and the replicas still to serve. */
  datatype Sending = Sending(beginOffset: int, buf: seq<Byte>, currentOffset: int, todo: set<ReplicaId>)

  /** The id of a former master, good up to an offset; an offset that is not
      positive means there is none. */
  datatype SecondId = SecondId(id: string, offset: int)

  datatype Master = Master(
    stream: seq<Byte>,
    window: Window,
    replId: string,
    second: SecondId,
    rdbSnapshotOffset: int,
    replicas: map<ReplicaId, Replica>,
    seen: set<ReplicaId>,
    sending: Option<Sending>)

  datatype Step =
    | AppendStep(bin: seq<Byte>)
    | SaveStep
    | AttachStep(id: ReplicaId)
    | FullHeader(id: ReplicaId)
    | FullSnapshot(id: ReplicaId)
    | PartialSync(id: ReplicaId, replId: string, offset: int)
    | WriteBacklog(id: ReplicaId)
    | SetOnline(id: ReplicaId)
    | SendBegin
    | SendOne(id: ReplicaId)
    | SendEnd
    | Remove(id: ReplicaId)

  ghost predicate Init(m: Master)
  {
    && m.stream == [] && m.window == EmptyWindow(m.window.limit)
    && m.rdbSnapshotOffset == 0 && m.replicas == map[] && m.seen == {} && m.sending == None
  }

  /** A step is taken by the goroutine that is at that point; a connection
      starts one resync at a time, and not while it is online. */
  ghost predicate Enabled(m: Master, step: Step)
  {
    match step
    case AppendStep(_) => true
    case SaveStep => true
    case AttachStep(id) => id !in m.seen
    case FullHeader(id) => id in m.replicas && m.replicas[id].phase.Connected? && IsValidOffset(m.window, m.rdbSnapshotOffset)
    case FullSnapshot(id) => id in m.replicas && m.replicas[id].phase.SendingRDB?
    case PartialSync(id, _, _) => id in m.replicas && m.replicas[id].phase.Connected?
    case WriteBacklog(id) => id in m.replicas && m.replicas[id].phase.Pending?
    case SetOnline(id) => id in m.replicas && m.replicas[id].phase.Written?
    case SendBegin => m.sending.None?
    case SendOne(id) => m.sending.Some? && id in m.sending.value.todo
    case SendEnd => m.sending.Some? && m.sending.value.todo == {}
    case Remove(id) => id in m.replicas
  }

  /** The slice the send loop takes of its snapshot; the program panics if the
      replica is ahead of the snapshot. */
  ghost predicate SliceInRange(s: Sending, r: Replica)
  {
    r.sendOffset - s.beginOffset <= |s.buf|
  }

  ghost function OnlineIds(m: Master): set<ReplicaId>
  {
    set id | id in m.replicas && m.replicas[id].phase.Online?
  }

  ghost function Next(m: Master, step: Step): Master
    requires Enabled(m, step)
  {
    match step
    case AppendStep(bin) => m.(stream := m.stream + bin, window := Append(m.window, bin))
    case SaveStep => m.(rdbSnapshotOffset := m.window.beginOffset)
    case AttachStep(id) =>
      m.(replicas := m.replicas[id := Replica(Connected, 0, [], 0)], seen := m.seen + {id})
    case FullHeader(id) =>
      m.(replicas := m.replicas[id := Replica(SendingRDB(m.rdbSnapshotOffset), m.rdbSnapshotOffset, [], 0)])
    case FullSnapshot(id) =>
      var r := m.replicas[id];
      if !IsValidOffset(m.window, r.phase.snapOffset) then m.(replicas := m.replicas - {id})
      else m.(replicas := m.replicas[id := r.(phase := Pending(m.window.buf, m.window.currentOffset))])
    case PartialSync(id, replId, offset) =>
      if !Accepts(m, replId, offset) then m
      else m.(replicas := m.replicas[id := Replica(Pending(SnapshotAfter(m.window, offset), m.window.currentOffset), offset, [], 0)])
    case WriteBacklog(id) =>
      var r := m.replicas[id];
      m.(replicas := m.replicas[id := r.(phase := Written(r.phase.upTo), received := r.received + r.phase.bytes)])
    case SetOnline(id) =>
      var r := m.replicas[id];
      m.(replicas := m.replicas[id := r.(phase := Online, sendOffset := r.phase.upTo)])
    case SendBegin =>
      m.(sending := Some(Sending(m.window.beginOffset, m.window.buf, m.window.currentOffset, OnlineIds(m))))
    case SendOne(id) =>
      var s := m.sending.value;
      var m' := m.(sending := Some(s.(todo := s.todo - {id})));
      if id !in m.replicas then m'
      else m'.(replicas := ServeOne(m.replicas, s, id))
    case SendEnd => m.(sending := None)
    case Remove(id) => m.(replicas := m.replicas - {id})
  }

  /** A partial resync is possible: a known id, an offset that is good for it
      and is covered. */
  predicate Accepts(m: Master, replId: string, offset: int)
  {
    && (replId == m.replId || (replId == m.second.id && 0 < m.second.offset && offset <= m.second.offset))
    && IsValidOffset(m.window, offset)
  }

  /** The bytes of the window from a valid offset on. */
  ghost function SnapshotAfter(w: Window, offset: int): seq<Byte>
    requires IsValidOffset(w, offset)
  {
    if offset >= w.currentOffset || offset - w.beginOffset > |w.buf| then [] else w.buf[offset - w.beginOffset..]
  }

  /** Send the rest of the snapshot to one replica, or drop it if the snapshot
      starts after the replica's position. */
  ghost function ServeOne(replicas: map<ReplicaId, Replica>, s: Sending, id: ReplicaId): map<ReplicaId, Replica>
    requires id in replicas
  {
    var r := replicas[id];
    var d := r.sendOffset - s.beginOffset;
    if d < 0 then replicas - {id}
    else if d > |s.buf| then replicas
    else replicas[id := r.(received := r.received + s.buf[d..], sendOffset := s.currentOffset)]
  }

  ghost predicate Run(m: Master, steps: seq<Step>, m': Master)
    decreases |steps|
  {
    if steps == [] then m' == m
    else Enabled(m, steps[0]) && Run(Next(m, steps[0]), steps[1..], m')
  }

  // ----- Invariant -----

  /** What `r` has, or is about to have, is the stream from its base on. */
  ghost predicate ReplicaOk(stream: seq<Byte>, r: Replica)
  {
    match r.phase
    case Connected => true
    case SendingRDB(snap) => r.base == snap && r.received == []
    case Pending(bytes, upTo) => 0 <= r.base <= upTo <= |stream| && r.received == [] && bytes == stream[r.base..upTo]
    case Written(upTo) => 0 <= r.base <= upTo <= |stream| && r.received == stream[r.base..upTo]
    case Online => 0 <= r.base <= r.sendOffset <= |stream| && r.received == stream[r.base..r.sendOffset]
  }

  ghost predicate SendingOk(m: Master)
  {
    m.sending.Some? ==>
      var s := m.sending.value;
      && 0 <= s.beginOffset <= s.currentOffset <= |m.stream|
      && s.buf == m.stream[s.beginOffset..s.currentOffset]
      && s.todo <= m.seen
      && (forall id :: id in s.todo && id in m.replicas ==>
            m.replicas[id].phase.Online? && m.replicas[id].sendOffset <= s.currentOffset)
  }

  ghost predicate Inv(m: Master)
  {
    && Holds(m.window, m.stream)
    && m.rdbSnapshotOffset <= m.window.beginOffset
    && m.replicas.Keys <= m.seen
    && (forall id :: id in m.replicas ==> ReplicaOk(m.stream, m.replicas[id]))
    && (forall id :: id in m.replicas && m.replicas[id].phase.SendingRDB? ==> m.replicas[id].base <= m.window.beginOffset)
    && SendingOk(m)
  }

  lemma AppendKeepsReplica(stream: seq<Byte>, bin: seq<Byte>, r: Replica)
    requires ReplicaOk(stream, r)
    ensures ReplicaOk(stream + bin, r)
  {
    forall i, j | 0 <= i <= j <= |stream|
      ensures (stream + bin)[i..j] == stream[i..j]
    {
    }
  }

  /** The stream grows at its end and the window moves forward only. */
  lemma AppendKeepsInv(m: Master, bin: seq<Byte>)
    requires Inv(m)
    ensures Inv(Next(m, AppendStep(bin)))
  {
    var m' := Next(m, AppendStep(bin));
    AppendHolds(m.window, m.stream, bin);
    forall id | id in m.replicas
      ensures ReplicaOk(m'.stream, m.replicas[id])
    {
      AppendKeepsReplica(m.stream, bin, m.replicas[id]);
    }
    if m.sending.Some? {
      var s := m.sending.value;
      assert m'.stream[s.beginOffset..s.currentOffset] == m.stream[s.beginOffset..s.currentOffset];
    }
  }

  /** A resync step replaces one replica that is not online. */
  lemma ReplaceKeepsInv(m: Master, id: ReplicaId, r: Replica)
    requires Inv(m) && id in m.replicas && !m.replicas[id].phase.Online?
    requires ReplicaOk(m.stream, r) && (r.phase.SendingRDB? ==> r.base <= m.window.beginOffset)
    ensures Inv(m.(replicas := m.replicas[id := r]))
  {
  }

  lemma RemoveKeepsInv(m: Master, id: ReplicaId)
    requires Inv(m)
    ensures Inv(m.(replicas := m.replicas - {id}))
  {
  }

  lemma ResyncKeepsInv(m: Master, step: Step)
    requires Inv(m) && Enabled(m, step)
    requires step.FullHeader? || step.FullSnapshot? || step.PartialSync? || step.WriteBacklog? || step.SetOnline?
    ensures Inv(Next(m, step))
  {
    var id, m' := step.id, Next(m, step);
    assert ReplicaOk(m.stream, m.replicas[id]);
    match step
    case FullHeader(_) => ReplaceKeepsInv(m, id, m'.replicas[id]);
    case FullSnapshot(_) =>
      if IsValidOffset(m.window, m.replicas[id].phase.snapOffset) {
        assert m.window.buf == m.stream[m.replicas[id].base..|m.stream|];
        ReplaceKeepsInv(m, id, m'.replicas[id]);
      } else {
        RemoveKeepsInv(m, id);
      }
    case PartialSync(_, replId, offset) =>
      if Accepts(m, replId, offset) {
        assert SnapshotAfter(m.window, offset) == m.stream[offset..|m.stream|];
        ReplaceKeepsInv(m, id, m'.replicas[id]);
      }
    case WriteBacklog(_) => ReplaceKeepsInv(m, id, m'.replicas[id]);
    case SetOnline(_) => ReplaceKeepsInv(m, id, m'.replicas[id]);
  }

  lemma StepKeepsInv(m: Master, step: Step)
    requires Inv(m) && Enabled(m, step)
    ensures Inv(Next(m, step))
  {
    match step
    case AppendStep(bin) => AppendKeepsInv(m, bin);
    case SaveStep =>
    case AttachStep(_) =>
    case SendBegin => assert m.window.buf == m.stream[m.window.beginOffset..|m.stream|];
    case SendOne(id) => SendOneKeepsInv(m, id);
    case SendEnd =>
    case Remove(id) => RemoveKeepsInv(m, id);
    case _ => ResyncKeepsInv(m, step);
  }

  /** Sending resumes exactly where the replica stopped. */
  lemma SendOneKeepsInv(m: Master, id: ReplicaId)
    requires Inv(m) && Enabled(m, SendOne(id))
    ensures Inv(Next(m, SendOne(id)))
  {
    if id in m.replicas {
      var s, r := m.sending.value, m.replicas[id];
      if r.sendOffset >= s.beginOffset {
        var more := s.buf[r.sendOffset - s.beginOffset..];
        assert more == m.stream[r.sendOffset..s.currentOffset];
        assert r.received + more == m.stream[r.base..s.currentOffset];
      }
    }
  }

  lemma {:induction false} RunKeepsInv(m: Master, steps: seq<Step>, m': Master)
    requires Inv(m) && Run(m, steps, m')
    ensures Inv(m')
    decreases |steps|
  {
    if steps != [] {
      StepKeepsInv(m, steps[0]);
      RunKeepsInv(Next(m, steps[0]), steps[1..], m');
    }
  }

  /** In every run: the backlog is the end of the stream within its limit, and
      each online replica has received the stream from its sync offset to its
      send offset, no byte missing and none twice. */
  lemma StreamIntegrity(init: Master, steps: seq<Step>, m: Master)
    requires Init(init) && Run(init, steps, m)
    ensures Holds(m.window, m.stream)
    ensures forall id :: id in m.replicas && m.replicas[id].phase.Online? ==>
              var r := m.replicas[id];
              0 <= r.base <= r.sendOffset <= |m.stream| && r.received == m.stream[r.base..r.sendOffset]
  {
    RunKeepsInv(init, steps, m);
    forall id | id in m.replicas && m.replicas[id].phase.Online?
      ensures ReplicaOk(m.stream, m.replicas[id])
    {
    }
  }

  /** The send loop never slices past its snapshot, and drops a replica exactly
      when bytes it still needs have been trimmed. */
  lemma SendIsInRange(init: Master, steps: seq<Step>, m: Master, id: ReplicaId)
    requires Init(init) && Run(init, steps, m) && Enabled(m, SendOne(id)) && id in m.replicas
    ensures SliceInRange(m.sending.value, m.replicas[id])
    ensures id !in Next(m, SendOne(id)).replicas <==> m.replicas[id].sendOffset < m.sending.value.beginOffset
    ensures id in Next(m, SendOne(id)).replicas ==>
              && 0 <= m.replicas[id].base <= m.sending.value.currentOffset <= |m.stream|
              && Next(m, SendOne(id)).replicas[id].received == m.stream[m.replicas[id].base..m.sending.value.currentOffset]
  {
    RunKeepsInv(init, steps, m);
    SendOneKeepsInv(m, id);
    var m' := Next(m, SendOne(id));
    if id in m'.replicas {
      assert ReplicaOk(m'.stream, m'.replicas[id]);
    }
  }

  /** A full resync promises the offset it delivers from: at the moment the
      backlog is taken, a covered snapshot offset is the window's start. */
  lemma FullResyncDeliversFromHeader(init: Master, steps: seq<Step>, m: Master, id: ReplicaId)
    requires Init(init) && Run(init, steps, m) && Enabled(m, FullSnapshot(id))
    requires IsValidOffset(m.window, m.replicas[id].phase.snapOffset)
    ensures 0 <= m.replicas[id].phase.snapOffset == m.window.beginOffset <= |m.stream|
    ensures Next(m, FullSnapshot(id)).replicas[id].phase == Pending(m.stream[m.replicas[id].phase.snapOffset..], |m.stream|)
  {
    RunKeepsInv(init, steps, m);
    assert ReplicaOk(m.stream, m.replicas[id]);
  }

  // ----- The master's methods -----

  /** The replicas once the send loop has served those of `done`. */
  ghost function ServeSome(replicas: map<ReplicaId, Replica>, s: Sending, done: set<ReplicaId>): map<ReplicaId, Replica>
  {
    map id | id in replicas && !(id in done && replicas[id].sendOffset < s.beginOffset) ::
      var r := replicas[id];
      var d := r.sendOffset - s.beginOffset;
      if id in done && 0 <= d <= |s.buf| then r.(received := r.received + s.buf[d..], sendOffset := s.currentOffset) else r
  }

  lemma ServeOneMore(replicas: map<ReplicaId, Replica>, s: Sending, done: set<ReplicaId>, id: ReplicaId)
    requires id in replicas && id !in done
    ensures id in ServeSome(replicas, s, done) && ServeSome(replicas, s, done)[id] == replicas[id]
    ensures ServeSome(replicas, s, done + {id}) == ServeOne(ServeSome(replicas, s, done), s, id)
  {
  }

  class MasterStatus {
    const replId: string
    const second: SecondId
    const backlog: Backlog
    var rdbSnapshotOffset: int
    var replicas: map<ReplicaId, Replica>
    ghost var stream: seq<Byte>
    ghost var seen: set<ReplicaId>

    ghost function View(): Master
      reads this, backlog
    {
      Master.Master(stream, backlog.View(), replId, second, rdbSnapshotOffset, replicas, seen, None)
    }

    constructor (replId: string, second: SecondId, limit: int)
      ensures Init(View()) && Inv(View()) && fresh(backlog)
    {
      this.replId, this.second := replId, second;
      backlog := new Backlog(limit);
      rdbSnapshotOffset := 0;
      replicas := map[];
      stream, seen := [], {};
    }

    method Feed(bin: seq<Byte>)
      requires Inv(View())
      modifies this`stream, backlog
      ensures Inv(View()) && View() == Next(old(View()), AppendStep(bin))
    {
      StepKeepsInv(View(), AppendStep(bin));
      backlog.AppendBytes(bin);
      stream := stream + bin;
    }

    /** Answer PSYNC from the backlog if the stream id matches and the offset
        is still in the window; on success the replica is online. */
    method TryPartialSync(id: ReplicaId, slaveReplId: string, slaveOffset: int) returns (ok: bool)
      requires Inv(View()) && id in replicas && replicas[id].phase.Connected?
      modifies this`replicas
      ensures Inv(View())
      ensures ok == Accepts(old(View()), slaveReplId, slaveOffset)
      ensures !ok ==> replicas == old(replicas)
      ensures ok ==> 0 <= slaveOffset <= |stream| &&
                     replicas == old(replicas)[id := Replica(Online, slaveOffset, stream[slaveOffset..], |stream|)]
    {
      if slaveReplId != replId {
        if slaveReplId != second.id || second.offset <= 0 || slaveOffset > second.offset {
          return false;
        }
      }
      if !(backlog.beginOffset <= slaveOffset <= backlog.currentOffset) {
        return false;
      }
      var bytes, upTo := backlog.GetSnapshotAfter(slaveOffset, stream);
      replicas := replicas[id := Replica(Online, slaveOffset, bytes, upTo)];
      assert stream[slaveOffset..] == stream[slaveOffset..|stream|];
      return true;
    }

    /** Full resync from the saved snapshot: the replica starts at the snapshot
        offset and is given the whole window. Refused when the window no longer
        covers the snapshot. */
    method FullReSync(id: ReplicaId) returns (ok: bool)
      requires Inv(View()) && id in replicas && replicas[id].phase.Connected?
      modifies this`replicas
      ensures Inv(View())
      ensures ok == IsValidOffset(backlog.View(), rdbSnapshotOffset)
      ensures !ok ==> replicas == old(replicas)
      ensures ok ==> 0 <= rdbSnapshotOffset <= |stream| &&
                     replicas == old(replicas)[id := Replica(Online, rdbSnapshotOffset, stream[rdbSnapshotOffset..], |stream|)]
    {
      if !(backlog.beginOffset <= rdbSnapshotOffset <= backlog.currentOffset) {
        return false;
      }
      replicas := replicas[id := Replica(Online, rdbSnapshotOffset, backlog.buf, backlog.currentOffset)];
      assert stream[rdbSnapshotOffset..] == stream[rdbSnapshotOffset..|stream|];
      return true;
    }

    /** Sends one replica what it lacks, or drops it. */
    method Serve(id: ReplicaId, fails: bool)
      requires id in replicas && replicas[id].sendOffset - backlog.beginOffset <= |backlog.buf|
      modifies this`replicas
      ensures replicas == if fails then old(replicas) - {id}
                          else ServeOne(old(replicas), Sending(backlog.beginOffset, backlog.buf, backlog.currentOffset, {}), id)
    {
      var r := replicas[id];
      var d := r.sendOffset - backlog.beginOffset;
      if d < 0 || fails {
        replicas := replicas - {id};
      } else {
        replicas := replicas[id := r.(received := r.received + backlog.buf[d..], sendOffset := backlog.currentOffset)];
      }
    }

    /** `broken`: the replicas to which writing fails. */
    method SendUpdates(broken: set<ReplicaId>)
      requires Inv(View())
      modifies this`replicas
      ensures Inv(View())
      ensures replicas == ServeSome(old(replicas),
                Sending(backlog.beginOffset, backlog.buf, backlog.currentOffset, {}), OnlineIds(old(View()))) -
                broken * OnlineIds(old(View()))
      ensures forall id :: id in replicas && replicas[id].phase.Online? ==> replicas[id].sendOffset == |stream|
    {
      ghost var s := Sending(backlog.beginOffset, backlog.buf, backlog.currentOffset, {});
      var todo := set id | id in replicas && replicas[id].phase.Online?;
      ghost var all, done := todo, {};
      assert replicas == ServeSome(replicas, s, {}) - broken * {};
      while todo != {}
        invariant todo !! done && todo + done == all == OnlineIds(old(View()))
        invariant replicas == ServeSome(old(replicas), s, done) - broken * done
        decreases todo
      {
        var id :| id in todo;
        ServeOneMore(old(replicas), s, done, id);
        assert ReplicaOk(stream, old(replicas)[id]) && replicas[id] == old(replicas)[id];
        Serve(id, id in broken);
        WithoutBroken(ServeSome(old(replicas), s, done), s, id, broken, done);
        todo := todo - {id};
        done := done + {id};
      }
      ServeSomeOk(old(View()), replicas, broken * OnlineIds(old(View())));
    }
  }

  /** Serving one more replica, or dropping it because writing to it fails. */
  lemma WithoutBroken(replicas: map<ReplicaId, Replica>, s: Sending, id: ReplicaId, broken: set<ReplicaId>, done: set<ReplicaId>)
    requires id in replicas && id !in done
    ensures ServeOne(replicas, s, id) - broken * (done + {id}) ==
            if id in broken then replicas - broken * done - {id} else ServeOne(replicas - broken * done, s, id)
  {
  }

  lemma ServeSomeOk(m: Master, replicas': map<ReplicaId, Replica>, broken: set<ReplicaId>)
    requires Inv(m) && m.sending == None
    requires replicas' ==
             ServeSome(m.replicas, Sending(m.window.beginOffset, m.window.buf, m.window.currentOffset, {}), OnlineIds(m)) - broken
    ensures Inv(m.(replicas := replicas'))
    ensures forall id :: id in replicas' && replicas'[id].phase.Online? ==> replicas'[id].sendOffset == |m.stream|
  {
    forall id | id in replicas' && id in OnlineIds(m)
      ensures ReplicaOk(m.stream, replicas'[id]) && replicas'[id].sendOffset == |m.stream|
    {
      var r := m.replicas[id];
      assert ReplicaOk(m.stream, r);
      var more := m.window.buf[r.sendOffset - m.window.beginOffset..];
      assert more == m.stream[r.sendOffset..|m.stream|];
      assert r.received + more == m.stream[r.base..|m.stream|];
    }
  }
}
