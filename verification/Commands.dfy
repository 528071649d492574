/** The list, set and hash commands a transaction can roll back, on the
    contents of the keyspace. Of encodings only the keys kept as quicklists are
    known; expiry times are not part of it. */
module Commands {
  import opened Wrappers
  import opened Decimal
  import opened Seqs

  type Key = Bytes

  /** Other stands for values of types these commands only refuse. */
  datatype Value =
    | ListVal(items: seq<Bytes>)
    | SetVal(members: set<Bytes>)
    | HashVal(fields: map<Bytes, Bytes>)
    | Other(data: Bytes)

  type DB = map<Key, Value>

  datatype Reply = ErrReply | NullReply | OkReply | IntReply(n: int) | BulkReply(v: Bytes) | MultiBulkReply(vs: seq<Bytes>)

  /** Running a command: a reply and the keyspace after it, or a crash of the
      goroutine (a negative pop count sizes a buffer). */
  datatype Outcome = Done(db: DB, reply: Reply) | Panic

  datatype Name = LPush | RPush | LPop | RPop | LSet | RPopLPush | SAdd | SRem | HSet | HDel | HIncrBy | Del

  datatype CmdLine = CmdLine(name: Name, args: seq<Bytes>)

  /** Keys never hold empty containers. */
  ghost predicate NonEmpty(db: DB)
  {
    forall k :: k in db ==>
      match db[k]
      case ListVal(l) => l != []
      case SetVal(s) => s != {}
      case HashVal(h) => h != map[]
      case Other(_) => true
  }

  // ----- Containers by key; an absent key is an empty container -----

  predicate IsList(db: DB, k: Key) { k !in db || db[k].ListVal? }
  predicate IsSet(db: DB, k: Key) { k !in db || db[k].SetVal? }
  predicate IsHash(db: DB, k: Key) { k !in db || db[k].HashVal? }

  function ListAt(db: DB, k: Key): seq<Bytes>
    requires IsList(db, k)
  {
    if k in db then db[k].items else []
  }

  function SetAt(db: DB, k: Key): set<Bytes>
    requires IsSet(db, k)
  {
    if k in db then db[k].members else {}
  }

  function HashAt(db: DB, k: Key): map<Bytes, Bytes>
    requires IsHash(db, k)
  {
    if k in db then db[k].fields else map[]
  }

  function PutList(db: DB, k: Key, l: seq<Bytes>): DB
  {
    if l == [] then db - {k} else db[k := ListVal(l)]
  }

  function PutSet(db: DB, k: Key, s: set<Bytes>): DB
  {
    if s == {} then db - {k} else db[k := SetVal(s)]
  }

  function PutHash(db: DB, k: Key, h: map<Bytes, Bytes>): DB
  {
    if h == map[] then db - {k} else db[k := HashVal(h)]
  }

  function ToSet<T(==)>(s: seq<T>): set<T>
  {
    set x | x in s
  }

  // ----- Arity, counted without the command name -----

  function MinArgs(name: Name): nat
  {
    match name
    case LPop => 1 case RPop => 1 case Del => 1
    case LPush => 2 case RPush => 2 case SAdd => 2 case SRem => 2 case HDel => 2 case RPopLPush => 2
    case LSet => 3 case HSet => 3 case HIncrBy => 3
  }

  predicate ExactArgs(name: Name)
  {
    name == LSet || name == RPopLPush || name == HIncrBy
  }

  predicate ArityOk(c: CmdLine)
  {
    if ExactArgs(c.name) then |c.args| == MinArgs(c.name) else |c.args| >= MinArgs(c.name)
  }

  // ----- Lists -----

  function ExecLPush(db: DB, key: Key, values: seq<Bytes>): Outcome
  {
    if !IsList(db, key) then Done(db, ErrReply)
    else
      var l := Reversed(values) + ListAt(db, key);
      Done(PutList(db, key, l), IntReply(|l|))
  }

  function ExecRPush(db: DB, key: Key, values: seq<Bytes>): Outcome
  {
    if !IsList(db, key) then Done(db, ErrReply)
    else
      var l := ListAt(db, key) + values;
      Done(PutList(db, key, l), IntReply(|l|))
  }

  function Min(a: int, b: int): int
  {
    if a < b then a else b
  }

  function ExecLPop(db: DB, args: seq<Bytes>): Outcome
    requires |args| >= 1
  {
    var key := args[0];
    if !IsList(db, key) then Done(db, ErrReply)
    else
      var l := ListAt(db, key);
      if l == [] then Done(db, NullReply)
      else if |args| != 2 then Done(PutList(db, key, l[1..]), BulkReply(l[0]))
      else
        match ParseInt(args[1])
        case None => Done(db, ErrReply)
        case Some(n) =>
          var count := Min(n, |l|);
          if count < 0 then Panic else Done(PutList(db, key, l[count..]), MultiBulkReply(l[..count]))
  }

  function ExecRPop(db: DB, args: seq<Bytes>): Outcome
    requires |args| >= 1
  {
    var key := args[0];
    if !IsList(db, key) then Done(db, ErrReply)
    else
      var l := ListAt(db, key);
      if l == [] then Done(db, NullReply)
      else if |args| != 2 then Done(PutList(db, key, l[..|l| - 1]), BulkReply(l[|l| - 1]))
      else
        match ParseInt(args[1])
        case None => Done(db, ErrReply)
        case Some(n) =>
          var count := Min(n, |l|);
          if count < 0 then Panic
          else Done(PutList(db, key, l[..|l| - count]), MultiBulkReply(Reversed(l[|l| - count..])))
  }

  /** A list index counted from the end when negative; None if out of range. */
  function Index(text: Bytes, size: nat): (r: Option<nat>)
    ensures r.Some? ==> r.value < size
  {
    match ParseInt(text)
    case None => None
    case Some(i) =>
      if i < 0 - size then None else if i < 0 then Some(size + i) else if i >= size then None else Some(i)
  }

  function ExecLSet(db: DB, key: Key, index: Bytes, value: Bytes): Outcome
  {
    if !IsList(db, key) || ListAt(db, key) == [] then Done(db, ErrReply)
    else
      match Index(index, |ListAt(db, key)|)
      case None => Done(db, ErrReply)
      case Some(i) => Done(PutList(db, key, ListAt(db, key)[i := value]), OkReply)
  }

  function ExecRPopLPush(db: DB, src: Key, dst: Key): Outcome
  {
    if !IsList(db, src) then Done(db, ErrReply)
    else
      var l := ListAt(db, src);
      if l == [] then Done(db, NullReply)
      else if !IsList(db, dst) then Done(db, ErrReply)
      else
        var v := l[|l| - 1];
        var db1 := PutList(db, src, l[..|l| - 1]);
        Done(PutList(db1, dst, [v] + ListAt(db1, dst)), BulkReply(v))
  }

  // ----- Sets -----

  function ExecSAdd(db: DB, key: Key, members: seq<Bytes>): Outcome
  {
    if !IsSet(db, key) then Done(db, ErrReply)
    else Done(PutSet(db, key, SetAt(db, key) + ToSet(members)), IntReply(|ToSet(members) - SetAt(db, key)|))
  }

  function ExecSRem(db: DB, key: Key, members: seq<Bytes>): Outcome
  {
    if !IsSet(db, key) then Done(db, ErrReply)
    else Done(PutSet(db, key, SetAt(db, key) - ToSet(members)), IntReply(|ToSet(members) * SetAt(db, key)|))
  }

  // ----- Hashes -----

  /** The fields after setting pairs[0] := pairs[1], pairs[2] := pairs[3], ... */
  function SetPairs(h: map<Bytes, Bytes>, pairs: seq<Bytes>): map<Bytes, Bytes>
    decreases |pairs|
  {
    if |pairs| < 2 then h else SetPairs(h[pairs[0] := pairs[1]], pairs[2..])
  }

  function ExecHSet(db: DB, args: seq<Bytes>): Outcome
    requires |args| >= 1
  {
    var key := args[0];
    if |args| < 3 || |args| % 2 != 1 || !IsHash(db, key) then Done(db, ErrReply)
    else
      var h := SetPairs(HashAt(db, key), args[1..]);
      Done(PutHash(db, key, h), IntReply(|h| - |HashAt(db, key)|))
  }

  function ExecHDel(db: DB, key: Key, fields: seq<Bytes>): Outcome
  {
    if !IsHash(db, key) then Done(db, ErrReply)
    else Done(PutHash(db, key, HashAt(db, key) - ToSet(fields)), IntReply(|ToSet(fields) * HashAt(db, key).Keys|))
  }

  /** int64 addition wraps. */
  function AddInt64(a: Int64, b: Int64): Int64
  {
    var s := a + b;
    if s > MAX_INT64 then s - U64 else if s < MIN_INT64 then s + U64 else s
  }

  function ExecHIncrBy(db: DB, key: Key, field: Bytes, rawDelta: Bytes): Outcome
  {
    match ParseInt(rawDelta)
    case None => Done(db, ErrReply)
    case Some(delta) =>
      if !IsHash(db, key) then Done(db, ErrReply)
      else
        var h := HashAt(db, key);
        if field !in h then Done(PutHash(db, key, h[field := rawDelta]), IntReply(delta))
        else
          match ParseInt(h[field])
          case None => Done(db, ErrReply)
          case Some(val) =>
            var sum := AddInt64(val, delta);
            Done(PutHash(db, key, h[field := Format(sum)]), IntReply(sum))
  }

  // ----- Dispatch -----

  function ExecDel(db: DB, keys: seq<Key>): Outcome
  {
    Done(db - ToSet(keys), IntReply(|ToSet(keys) * db.Keys|))
  }

  /** execWithLock: refuse a wrong arity, then run the command. */
  function Exec(db: DB, c: CmdLine): Outcome
  {
    var a := c.args;
    if !ArityOk(c) then Done(db, ErrReply)
    else
      match c.name
      case LPush => ExecLPush(db, a[0], a[1..])
      case RPush => ExecRPush(db, a[0], a[1..])
      case LPop => ExecLPop(db, a)
      case RPop => ExecRPop(db, a)
      case LSet => ExecLSet(db, a[0], a[1], a[2])
      case RPopLPush => ExecRPopLPush(db, a[0], a[1])
      case SAdd => ExecSAdd(db, a[0], a[1..])
      case SRem => ExecSRem(db, a[0], a[1..])
      case HSet => ExecHSet(db, a)
      case HDel => ExecHDel(db, a[0], a[1..])
      case HIncrBy => ExecHIncrBy(db, a[0], a[1], a[2])
      case Del => ExecDel(db, a)
  }

  // ----- List encodings -----

  /** The list this command appends to, if it is one that appends. */
  predicate GrowsList(c: CmdLine, k: Key)
  {
    || ((c.name == LPush || c.name == RPush) && |c.args| > 0 && k == c.args[0])
    || (c.name == RPopLPush && |c.args| > 1 && k == c.args[1])
  }

  /** The keys kept as quicklists after a command has replied: a list turns into
      one when it outgrows `max`, and stays one while its key exists. */
  function QuickAfter(db: DB, reply: Reply, quick: set<Key>, max: int, c: CmdLine): set<Key>
  {
    set k | k in db && db[k].ListVal? && (k in quick || (reply !in {ErrReply, NullReply} && GrowsList(c, k) && |db[k].items| > max))
  }

  // ----- Undo logs, taken before the command runs -----

  /** None when building the log crashes. Reading no element off the end of a
      quicklist does, which is what undoing RPOP with count 0 amounts to. */
  type Undo = Option<seq<CmdLine>>

  function Repeat(c: CmdLine, n: nat): (r: seq<CmdLine>)
  {
    seq(n, _ => c)
  }

  function UndoPop(db: DB, quick: set<Key>, args: seq<Bytes>, left: bool): Undo
    requires |args| >= 1
  {
    var key := args[0];
    if !IsList(db, key) || ListAt(db, key) == [] then Some([])
    else
      var l := ListAt(db, key);
      if |args| != 2 then
        Some([if left then CmdLine(LPush, [key, l[0]]) else CmdLine(RPush, [key, l[|l| - 1]])])
      else
        match ParseInt(args[1])
        case None => Some([])
        case Some(n) =>
          var count := Min(n, |l|);
          if count < 0 || (count == 0 && !left && key in quick) then None
          else Some([if left then CmdLine(LPush, [key] + Reversed(l[..count])) else CmdLine(RPush, [key] + l[|l| - count..])])
  }

  function UndoLSet(db: DB, key: Key, index: Bytes): Undo
  {
    if !IsList(db, key) then Some([])
    else
      match Index(index, |ListAt(db, key)|)
      case None => Some([])
      case Some(i) => Some([CmdLine(LSet, [key, index, ListAt(db, key)[i]])])
  }

  function UndoRPopLPush(db: DB, src: Key, dst: Key): Undo
  {
    if !IsList(db, src) || ListAt(db, src) == [] then Some([])
    else
      var l := ListAt(db, src);
      Some([CmdLine(RPush, [src, l[|l| - 1]]), CmdLine(LPop, [dst])])
  }

  function RollbackMember(key: Key, members: set<Bytes>, m: Bytes): CmdLine
  {
    CmdLine(if m in members then SAdd else SRem, [key, m])
  }

  function RollbackMembers(key: Key, members: set<Bytes>, ms: seq<Bytes>): (r: seq<CmdLine>)
  {
    seq(|ms|, i requires 0 <= i < |ms| => RollbackMember(key, members, ms[i]))
  }

  function UndoSetChange(db: DB, key: Key, ms: seq<Bytes>): Undo
  {
    if !IsSet(db, key) then Some([])
    else if key !in db then Some([CmdLine(Del, [key])])
    else Some(RollbackMembers(key, db[key].members, ms))
  }

  function RollbackField(key: Key, fields: map<Bytes, Bytes>, f: Bytes): CmdLine
  {
    if f in fields then CmdLine(HSet, [key, f, fields[f]]) else CmdLine(HDel, [key, f])
  }

  function RollbackFields(key: Key, fields: map<Bytes, Bytes>, fs: seq<Bytes>): (r: seq<CmdLine>)
  {
    seq(|fs|, i requires 0 <= i < |fs| => RollbackField(key, fields, fs[i]))
  }

  function UndoHashChange(db: DB, key: Key, fs: seq<Bytes>): Undo
  {
    if !IsHash(db, key) then Some([])
    else if key !in db then Some([CmdLine(Del, [key])])
    else Some(RollbackFields(key, db[key].fields, fs))
  }

  /** The field names of a field-value list. */
  function FieldNames(pairs: seq<Bytes>): seq<Bytes>
    decreases |pairs|
  {
    if |pairs| < 2 then [] else [pairs[0]] + FieldNames(pairs[2..])
  }

  /** GetUndoLogs for the commands a client may queue; DEL's own undo
      re-creates values by type and is not modelled. */
  function GetUndoLogs(db: DB, quick: set<Key>, c: CmdLine): Undo
    requires ArityOk(c) && c.name != Del
  {
    var a := c.args;
    match c.name
    case LPush => Some(Repeat(CmdLine(LPop, [a[0]]), |a| - 1))
    case RPush => Some(Repeat(CmdLine(RPop, [a[0]]), |a| - 1))
    case LPop => UndoPop(db, quick, a, true)
    case RPop => UndoPop(db, quick, a, false)
    case LSet => UndoLSet(db, a[0], a[1])
    case RPopLPush => UndoRPopLPush(db, a[0], a[1])
    case SAdd => UndoSetChange(db, a[0], a[1..])
    case SRem => UndoSetChange(db, a[0], a[1..])
    case HSet => UndoHashChange(db, a[0], FieldNames(a[1..]))
    case HDel => UndoHashChange(db, a[0], a[1..])
    case HIncrBy => UndoHashChange(db, a[0], [a[1]])
  }
}
