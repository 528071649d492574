/** The replication backlog: a trimmed window over the replication stream. */
module ReplBacklog {

  type Byte = bv8

  /** Offsets count stream bytes; `limit` 0 means unbounded. */
  datatype Window = Window(buf: seq<Byte>, beginOffset: int, currentOffset: int, limit: int, totalProduced: int)

  function EmptyWindow(limit: int): Window
  {
    Window([], 0, 0, limit, 0)
  }

  /** The window holds the end of `stream`, and no more than its limit. */
  ghost predicate Holds(w: Window, stream: seq<Byte>)
  {
    && 0 <= w.beginOffset <= w.currentOffset == |stream|
    && w.buf == stream[w.beginOffset..]
    && (w.limit > 0 ==> |w.buf| <= w.limit)
  }

  function Append(w: Window, bin: seq<Byte>): Window
  {
    var buf := w.buf + bin;
    var drop := if w.limit > 0 && |buf| > w.limit then |buf| - w.limit else 0;
    Window(buf[drop..], w.beginOffset + drop, w.currentOffset + |bin|, w.limit, w.totalProduced + |bin|)
  }

  predicate IsValidOffset(w: Window, offset: int)
  {
    w.beginOffset <= offset <= w.currentOffset
  }

  /** Appending keeps the window on the stream; it never moves backwards. */
  lemma AppendHolds(w: Window, stream: seq<Byte>, bin: seq<Byte>)
    requires Holds(w, stream)
    ensures Holds(Append(w, bin), stream + bin)
    ensures w.beginOffset <= Append(w, bin).beginOffset
  {
    var buf, w' := w.buf + bin, Append(w, bin);
    assert buf == (stream + bin)[w.beginOffset..];
    assert w'.buf == (stream + bin)[w'.beginOffset..];
  }

  class Backlog {
    var buf: seq<Byte>
    var beginOffset: int
    var currentOffset: int
    var limit: int
    var totalProduced: int

    ghost function View(): Window
      reads this
    {
      Window(buf, beginOffset, currentOffset, limit, totalProduced)
    }

    constructor (limit: int)
      ensures View() == EmptyWindow(limit)
    {
      buf := [];
      beginOffset, currentOffset, totalProduced := 0, 0, 0;
      this.limit := limit;
    }

    method AppendBytes(bin: seq<Byte>)
      modifies this
      ensures View() == Append(old(View()), bin)
    {
      buf := buf + bin;
      currentOffset := currentOffset + |bin|;
      totalProduced := totalProduced + |bin|;
      if limit > 0 && |buf| > limit {
        var drop := |buf| - limit;
        buf := buf[drop..];
        beginOffset := beginOffset + drop;
      }
    }

    /** The bytes from `offset` on, clamped at the start of the window, and the
        offset just past them. */
    method GetSnapshotAfter(offset: int, ghost stream: seq<Byte>) returns (bytes: seq<Byte>, upTo: int)
      requires Holds(View(), stream)
      ensures upTo == |stream|
      ensures IsValidOffset(View(), offset) ==> bytes == stream[offset..]
      ensures offset < beginOffset ==> bytes == stream[beginOffset..]
      ensures offset > currentOffset ==> bytes == []
    {
      if offset >= currentOffset {
        return [], currentOffset;
      }
      var beg := offset - beginOffset;
      if beg < 0 {
        beg := 0;
      }
      return buf[beg..], currentOffset;
    }
  }

  // ----- The rewrite hook -----

  /** What the RDB rewrite installs when the old window ends at `offset`: the
      hook moves beginOffset only. */
  function Rewritten(offset: int, limit: int): Window
  {
    EmptyWindow(limit).(beginOffset := offset)
  }

  function AppendAll(w: Window, bins: seq<seq<Byte>>): Window
    decreases |bins|
  {
    if bins == [] then w else AppendAll(Append(w, bins[0]), bins[1..])
  }

  function TotalLen(bins: seq<seq<Byte>>): nat
  {
    if bins == [] then 0 else |bins[0]| + TotalLen(bins[1..])
  }

  /** The rewritten window is on the stream only if nothing had been streamed. */
  lemma RewriteHoldsIff(stream: seq<Byte>, limit: int)
    ensures Holds(Rewritten(|stream|, limit), stream) <==> stream == []
  {
  }

  /** What the limit cuts off once `len` bytes are in the buffer. */
  function Excess(limit: int, len: nat): nat
  {
    if limit > 0 && len > limit then len - limit else 0
  }

  /** However the bytes arrive, only their total decides the offsets. */
  lemma {:induction false} AppendAllOffsets(w: Window, bins: seq<seq<Byte>>)
    requires w.limit > 0 ==> |w.buf| <= w.limit
    ensures AppendAll(w, bins).currentOffset == w.currentOffset + TotalLen(bins)
    ensures AppendAll(w, bins).beginOffset == w.beginOffset + Excess(w.limit, |w.buf| + TotalLen(bins))
    decreases |bins|
  {
    if bins != [] {
      AppendAllOffsets(Append(w, bins[0]), bins[1..]);
    }
  }

  /** After a rewrite at offset `c` the window accepts a full resync at the new
      snapshot only once another `c` bytes have been streamed, and no longer
      once they have outgrown the limit. */
  lemma RewriteAcceptsSnapshotIff(c: nat, limit: int, bins: seq<seq<Byte>>)
    ensures IsValidOffset(AppendAll(Rewritten(c, limit), bins), c) <==>
            c <= TotalLen(bins) && (limit > 0 ==> TotalLen(bins) <= limit)
  {
    AppendAllOffsets(Rewritten(c, limit), bins);
  }
}
