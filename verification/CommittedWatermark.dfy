/** The committed-LSN watermark under out-of-order commits. */
module CommittedWatermark {

  /** `w` is the largest LSN such that every LSN after `base` and up to `w` is in `marked`. */
  predicate IsWatermark(base: nat, marked: set<nat>, w: nat) {
    && base <= w
    && (forall l :: base < l <= w ==> l in marked)
    && w + 1 !in marked
  }

  /** Marking more never moves the watermark back. */
  lemma WatermarkMonotone(base: nat, marked: set<nat>, more: set<nat>, v: nat, w: nat)
    requires IsWatermark(base, marked, v) && IsWatermark(base, more, w) && marked <= more
    ensures v <= w
  {
    assert w + 1 !in marked;
  }

  class Watermark {
    var contiguous: nat
    var pending: set<nat>
    ghost var base: nat
    /** Every LSN above `base` marked so far. */
    ghost var marked: set<nat>

    ghost predicate Valid()
      reads this
    {
      && IsWatermark(base, marked, contiguous)
      && (forall l :: l in pending <==> l in marked && l > contiguous)
    }

    constructor (base: nat)
      ensures Valid() && this.base == base && marked == {} && contiguous == base
    {
      contiguous, pending := base, {};
      this.base := base;
      marked := {};
    }

    /** Marks `lsn` and moves the contiguous prefix as far as it closes. */
    method MarkCommitted(lsn: nat)
      requires Valid()
      modifies this
      ensures Valid() && base == old(base)
      ensures marked == if lsn <= base then old(marked) else old(marked) + {lsn}
      ensures old(contiguous) <= contiguous
    {
      var cur := contiguous;
      if lsn <= cur {
        assert base < lsn ==> lsn in marked;
        return;
      }
      pending := pending + {lsn};
      marked := marked + {lsn};
      while cur + 1 in pending
        invariant contiguous <= cur && base == old(base) && contiguous == old(contiguous)
        invariant marked == old(marked) + {lsn}
        invariant forall l :: base < l <= cur ==> l in marked
        invariant forall l :: l in pending <==> l in marked && l > cur
        decreases pending
      {
        pending := pending - {cur + 1};
        cur := cur + 1;
      }
      contiguous := cur;
    }
  }
}
