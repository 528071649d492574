/** Which slot a key belongs to: its hash tag if it has one, else the whole key. */
module KeySlot {
  import opened Crc16
  import SlotBitmap

  const OPEN: bv8 := 0x7b
  const CLOSE: bv8 := 0x7d

  /** The first place at or after `from` that holds c, or the length. */
  function IndexOf(key: seq<bv8>, c: bv8, from: nat): (r: nat)
    requires from <= |key|
    ensures from <= r <= |key|
    ensures r < |key| ==> key[r] == c
    ensures forall i :: from <= i < r ==> key[i] != c
    decreases |key| - from
  {
    if from == |key| || key[from] == c then from else IndexOf(key, c, from + 1)
  }

  /** What lies between the first `{` and the first `}` behind it, unless that
      is nothing. */
  function Tag(key: seq<bv8>): seq<bv8>
  {
    var open := IndexOf(key, OPEN, 0);
    if open == |key| then key
    else
      var close := IndexOf(key, CLOSE, open + 1);
      if close == |key| || close == open + 1 then key else key[open + 1..close]
  }

  method HashTag(key: seq<bv8>) returns (tag: seq<bv8>)
    ensures tag == Tag(key)
  {
    var open := -1;
    var i := 0;
    while i < |key|
      invariant 0 <= i <= |key| && open == -1 && IndexOf(key, OPEN, 0) == IndexOf(key, OPEN, i)
    {
      if key[i] == OPEN {
        open := i;
        break;
      }
      i := i + 1;
    }
    if open < 0 {
      return key;
    }
    for j := open + 1 to |key|
      invariant IndexOf(key, CLOSE, open + 1) == IndexOf(key, CLOSE, j)
    {
      if key[j] == CLOSE {
        if j == open + 1 {
          return key;
        }
        return key[open + 1..j];
      }
    }
    return key;
  }

  /** Hashing a tag hashes that tag. */
  lemma TagIdempotent(key: seq<bv8>)
    ensures Tag(Tag(key)) == Tag(key)
  {
    var open := IndexOf(key, OPEN, 0);
    if open < |key| {
      var close := IndexOf(key, CLOSE, open + 1);
      if close < |key| && close != open + 1 {
        NoClose(key[open + 1..close]);
      }
    }
  }

  lemma NoClose(t: seq<bv8>)
    requires CLOSE !in t
    ensures Tag(t) == t
  {
  }

  /** The tag of p{t}q is t, for a tag without `}` behind a part without `{`. */
  lemma TagOf(p: seq<bv8>, t: seq<bv8>, q: seq<bv8>)
    requires OPEN !in p && t != [] && CLOSE !in t
    ensures Tag(p + [OPEN] + t + [CLOSE] + q) == t
  {
    var key := p + [OPEN] + t + [CLOSE] + q;
    FirstIs(key, OPEN, 0, |p|);
    FirstIs(key, CLOSE, |p| + 1, |p| + 1 + |t|);
    assert key[|p| + 1..|p| + 1 + |t|] == t;
  }

  lemma FirstIs(key: seq<bv8>, c: bv8, from: nat, at: nat)
    requires from <= at < |key| && key[at] == c && forall i :: from <= i < at ==> key[i] != c
    ensures IndexOf(key, c, from) == at
  {
  }

  function Slot(key: seq<bv8>): nat
  {
    (Crc(Tag(key)) as int) % SlotBitmap.SLOT_COUNT
  }

  method Key2Slot(tab: seq<bv16>, key: seq<bv8>) returns (slot: nat)
    requires IsTable(tab)
    ensures slot == Slot(key) < SlotBitmap.SLOT_COUNT
  {
    var tag := HashTag(key);
    var crc := Checksum(tab, tag);
    return (crc as int) % SlotBitmap.SLOT_COUNT;
  }

  /** Keys with the same tag live in the same slot: the slot of the bare tag. */
  lemma SameTagSameSlot(p: seq<bv8>, t: seq<bv8>, q: seq<bv8>)
    requires OPEN !in p && t != [] && CLOSE !in t
    ensures Slot(p + [OPEN] + t + [CLOSE] + q) == Slot(t) < SlotBitmap.SLOT_COUNT
  {
    TagOf(p, t, q);
    NoClose(t);
  }
}
