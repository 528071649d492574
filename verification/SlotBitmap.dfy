/** The per-node slot bitmap: 2048 bytes, one bit per hash slot, least
    significant bit first inside each byte. */
module SlotBitmap {

  const SLOT_COUNT: nat := 16384

  const BITMAP_LEN: nat := 2048

  type Slot = s: nat | s < SLOT_COUNT

  type Bitmap = b: seq<bv8> | |b| == BITMAP_LEN witness seq(BITMAP_LEN, _ => 0)

  function EmptyBitmap(): Bitmap
  {
    seq(BITMAP_LEN, _ => 0)
  }

  function Mask(slot: Slot): bv8
  {
    1 << (slot % 8)
  }

  predicate HasSlot(b: Bitmap, slot: Slot)
  {
    b[slot / 8] & Mask(slot) != 0
  }

  function AddSlot(b: Bitmap, slot: Slot): Bitmap
  {
    b[slot / 8 := b[slot / 8] | Mask(slot)]
  }

  function DelSlot(b: Bitmap, slot: Slot): Bitmap
  {
    b[slot / 8 := b[slot / 8] & !Mask(slot)]
  }

  /** The slots whose bit is set. */
  function Owned(b: Bitmap): set<Slot>
  {
    set s: Slot | 0 <= s < SLOT_COUNT && HasSlot(b, s)
  }

  lemma MaskBits(x: bv8, i: nat, j: nat)
    requires i < 8 && j < 8
    ensures (x | (1 << i)) & (1 << j) != 0 <==> i == j || x & (1 << j) != 0
    ensures (x & !(1 << i)) & (1 << j) != 0 <==> i != j && x & (1 << j) != 0
  {
  }

  /** Setting a bit adds exactly that slot. */
  lemma AddSlotOwned(b: Bitmap, slot: Slot)
    ensures Owned(AddSlot(b, slot)) == Owned(b) + {slot}
  {
    var r := AddSlot(b, slot);
    forall s: Slot
      ensures HasSlot(r, s) <==> s == slot || HasSlot(b, s)
    {
      MaskBits(b[slot / 8], slot % 8, s % 8);
      if s / 8 == slot / 8 && s % 8 == slot % 8 {
        assert s == slot;
      }
    }
  }

  /** Clearing a bit removes exactly that slot. */
  lemma DelSlotOwned(b: Bitmap, slot: Slot)
    ensures Owned(DelSlot(b, slot)) == Owned(b) - {slot}
  {
    var r := DelSlot(b, slot);
    forall s: Slot
      ensures HasSlot(r, s) <==> s != slot && HasSlot(b, s)
    {
      MaskBits(b[slot / 8], slot % 8, s % 8);
      if s / 8 == slot / 8 && s % 8 == slot % 8 {
        assert s == slot;
      }
    }
  }

  lemma EmptyOwned()
    ensures Owned(EmptyBitmap()) == {}
  {
    forall s: Slot
      ensures !HasSlot(EmptyBitmap(), s)
    {
      assert EmptyBitmap()[s / 8] == 0;
    }
  }
}
