/**
 * The fixed schedule of distance rings used by the geo bucketer
 * (milli/src/search/criteria/geo.rs, `geo_point`).
 *
 * Ring `i` is the half-open interval [Lower(i), Upper(i)) of rounded
 * distances in meters.  The table holds the upper bounds; the first ring
 * starts at `usize::MIN` and every later ring starts where the previous one
 * ends, exactly as the `scan` over the table builds them.
 */
module RingSchedule {
  import opened Options

  /** `usize::MAX` on a 64-bit target. */
  const USIZE_MAX: nat := 0xFFFF_FFFF_FFFF_FFFF

  const KM: nat := 1000

  /** The upper bounds of the thirteen rings, in meters. */
  const Thickness: seq<nat> := [
    100,
    500,
    1 * KM,
    10 * KM,
    20 * KM,
    50 * KM,
    100 * KM,
    200 * KM,
    500 * KM,
    1000 * KM,
    3000 * KM,
    10000 * KM,
    USIZE_MAX
  ]

  function Lower(i: nat): nat
    requires i < |Thickness|
  {
    if i == 0 then 0 else Thickness[i - 1]
  }

  function Upper(i: nat): nat
    requires i < |Thickness|
  {
    Thickness[i]
  }

  /** `range.contains(&distance)` for ring `i`. */
  predicate InRing(i: nat, d: nat)
    requires i < |Thickness|
  {
    Lower(i) <= d < Upper(i)
  }

  /** The schedule is 13 contiguous, non-empty half-open rings covering [0, usize::MAX). */
  lemma ScheduleShape()
    ensures |Thickness| == 13
    ensures Lower(0) == 0 && Upper(|Thickness| - 1) == USIZE_MAX
    ensures forall i :: 0 <= i < |Thickness| - 1 ==> Upper(i) == Lower(i + 1)
    ensures forall i :: 0 <= i < |Thickness| ==> Lower(i) < Upper(i)
  {
  }

  /**
   * The first ring at index `from` or later that contains `d`: what
   * `thickness.find(|current| current.contains(&distance))` yields when the
   * range iterator stands at index `from`.
   */
  function FirstRing(from: nat, d: nat): (r: Option<nat>)
    requires from <= |Thickness|
    ensures r.Some? ==> from <= r.value < |Thickness| && InRing(r.value, d)
    ensures r.Some? ==> forall j :: from <= j < r.value ==> !InRing(j, d)
    ensures r.None? ==> forall j :: from <= j < |Thickness| ==> !InRing(j, d)
    decreases |Thickness| - from
  {
    if from == |Thickness| then None
    else if InRing(from, d) then Some(from)
    else FirstRing(from + 1, d)
  }

  /**
   * The rings from `from` onwards cover every distance from Lower(from) up
   * to, but excluding, usize::MAX, so the search from `from` succeeds.
   */
  lemma {:induction false} Covered(from: nat, d: nat)
    requires from < |Thickness|
    requires Lower(from) <= d < USIZE_MAX
    ensures FirstRing(from, d).Some?
    decreases |Thickness| - from
  {
    if !InRing(from, d) {
      assert from + 1 < |Thickness|;
      Covered(from + 1, d);
    }
  }

  /**
   * A distance at or past the start of the current ring but outside it lies
   * in a strictly later ring, and the forward search finds that ring.
   */
  lemma TransitionFindsRing(current: nat, d: nat)
    requires current < |Thickness|
    requires Lower(current) <= d < USIZE_MAX
    requires !InRing(current, d)
    ensures FirstRing(current + 1, d).Some?
    ensures current < FirstRing(current + 1, d).value
    ensures InRing(FirstRing(current + 1, d).value, d)
  {
    assert current + 1 < |Thickness|;
    Covered(current + 1, d);
  }

  /** Rings are laid out in increasing order: every later ring starts at or past the end of an earlier one. */
  lemma {:induction false} LaterRingsAbove(k: nat, j: nat)
    requires k < j < |Thickness|
    ensures Upper(k) <= Lower(j)
    decreases j - k
  {
    ScheduleShape();
    if j > k + 1 {
      LaterRingsAbove(k, j - 1);
    }
  }

  /**
   * The index of the ring a distance falls in, or |Thickness| for a
   * distance no ring contains (usize::MAX and beyond).
   */
  function RingOf(d: nat): (r: nat)
    ensures r <= |Thickness|
    ensures r < |Thickness| <==> d < USIZE_MAX
    ensures r < |Thickness| ==> InRing(r, d)
  {
    if d < USIZE_MAX then Covered(0, d); FirstRing(0, d).value else |Thickness|
  }

  /** Rings do not overlap: the one ring containing a distance is `RingOf` of it. */
  lemma RingOfUnique(i: nat, d: nat)
    requires i < |Thickness| && InRing(i, d)
    ensures RingOf(d) == i
  {
    var r := RingOf(d);
    assert r < |Thickness| && InRing(r, d);
    if r < i {
      LaterRingsAbove(r, i);
    } else if i < r {
      LaterRingsAbove(i, r);
    }
  }

  /** No ring contains usize::MAX itself: the table's last range is half-open. */
  lemma MaxIsInNoRing(from: nat)
    requires from <= |Thickness|
    ensures FirstRing(from, USIZE_MAX).None?
  {
  }

  /**
   * The search over the range iterator, as a loop: the iterator stands at
   * `from` and is advanced one range at a time until a range contains `d`.
   */
  method FindRing(from: nat, d: nat) returns (found: bool, k: nat)
    requires from <= |Thickness|
    ensures found ==> from <= k < |Thickness| && InRing(k, d)
    ensures found ==> forall j :: from <= j < k ==> !InRing(j, d)
    ensures !found ==> forall j :: from <= j < |Thickness| ==> !InRing(j, d)
    ensures FirstRing(from, d) == if found then Some(k) else None
  {
    k := from;
    while k < |Thickness|
      invariant from <= k <= |Thickness|
      invariant forall j :: from <= j < k ==> !InRing(j, d)
      invariant FirstRing(from, d) == FirstRing(k, d)
    {
      if InRing(k, d) {
        found := true;
        return;
      }
      k := k + 1;
    }
    found := false;
  }
}
