/** Tuple visibility under a snapshot (src/executor/heap.rs). */
module Visibility {
  import opened ByteCodec

  datatype HeapTuple = HeapTuple(
    slots: seq<nat>, data: Bytes, xmin: nat, xmax: nat, cmin: nat, cmax: nat, xvac: nat)

  datatype Snapshot = Snapshot(xid: nat, active: seq<nat>)

  /** Had `x` ended when the snapshot was taken, as far as the snapshot can tell? */
  predicate Past(x: nat, s: Snapshot) {
    x !in s.active && x < s.xid
  }

  /** Stored transaction numbers are 64 bits wide and are cut down to 32. */
  predicate IsVisible(t: HeapTuple, s: Snapshot) {
    t.xmin != 0 && Past(t.xmin % U32, s) && (t.xmax != 0 ==> !Past(t.xmax % U32, s))
  }

  /** A tuple is seen when its writer, cut to 32 bits, lies below the snapshot's own number and was not
      running, unless its deleter does and was not; a tuple without a writer is never seen. */
  lemma VisibleWhen(t: HeapTuple, s: Snapshot)
    ensures IsVisible(t, s) <==>
      var (writer, deleter) := (t.xmin % 0x1_0000_0000, t.xmax % 0x1_0000_0000);
      && t.xmin != 0 && writer < s.xid && writer !in s.active
      && (t.xmax == 0 || deleter >= s.xid || deleter in s.active)
  {}
}
