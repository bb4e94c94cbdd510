/** Buffer growth by doubling, and the policy that gives idle capacity back. */
module CapacityPolicy {
  function Doubled(capacity: nat, required: nat): (r: nat)
    requires capacity >= 1
    ensures r >= capacity && r >= required
    decreases required - capacity
  {
    if capacity >= required then capacity else Doubled(2 * capacity, required)
  }

  /** The capacity bought for a required length, growing from one. */
  function NextCapacity(required: nat): (r: nat)
    ensures r >= 1 && r >= required
  {
    Doubled(1, required)
  }

  /** The loop both buffer growers share; the I/O buffers start at 64. */
  method GrowCapacity(start: nat, required: nat) returns (capacity: nat)
    requires start >= 1
    ensures capacity == Doubled(start, required)
  {
    capacity := start;
    while capacity < required
      invariant capacity >= 1
      invariant Doubled(capacity, required) == Doubled(start, required)
      decreases required - capacity
    {
      capacity := capacity * 2;
    }
  }

  function PowerOfTwo(k: nat): (p: nat)
    ensures p >= 1
  {
    if k == 0 then 1 else 2 * PowerOfTwo(k - 1)
  }

  lemma {:induction false} PowersAscend(j: nat, k: nat)
    requires j <= k
    ensures PowerOfTwo(j) <= PowerOfTwo(k)
  {
    if j < k {
      PowersAscend(j, k - 1);
    }
  }

  /** Doubling stops at the least power of two (times the start) that suffices. */
  lemma {:induction false} DoublingIsLeast(start: nat, i: nat, required: nat) returns (k: nat)
    requires start >= 1
    ensures i <= k
    ensures Doubled(start * PowerOfTwo(i), required) == start * PowerOfTwo(k) >= required
    ensures i < k ==> start * PowerOfTwo(k - 1) < required
    decreases required - start * PowerOfTwo(i)
  {
    if start * PowerOfTwo(i) >= required {
      k := i;
    } else {
      assert start * PowerOfTwo(i + 1) == 2 * (start * PowerOfTwo(i));
      k := DoublingIsLeast(start, i + 1, required);
    }
  }

  /** Every sufficient power of two is at least the capacity chosen. */
  lemma NextCapacityIsLeast(required: nat, j: nat)
    requires PowerOfTwo(j) >= required
    ensures exists k :: NextCapacity(required) == PowerOfTwo(k)
    ensures NextCapacity(required) <= PowerOfTwo(j)
    ensures required >= 1 ==> NextCapacity(required) < 2 * required
  {
    var k := DoublingIsLeast(1, 0, required);
    assert NextCapacity(required) == PowerOfTwo(k);
    if k > 0 {
      if j <= k - 1 {
        PowersAscend(j, k - 1);
      }
      PowersAscend(if k <= j then k else j, j);
    } else {
      PowersAscend(0, j);
    }
  }

  lemma NextCapacityIsTight(required: nat)
    requires required >= 1
    ensures required <= NextCapacity(required) < 2 * required
  {
    var k := DoublingIsLeast(1, 0, required);
    NextCapacityIsLeast(required, k);
  }

  datatype IdleInput = IdleInput(
    now: real,
    allocatedBytes: int,
    targetBytes: int,
    inFlight: int,
    queued: int,
    lastActivityAt: real,
    lastResizeAt: real)

  const IDLE_MS := 30000.0
  const COOLDOWN_MS := 60000.0
  const MINIMUM_RECLAIM_BYTES := 1024 * 1024
  const SHRINK_RATIO := 4

  predicate ShouldReclaimIdleCapacity(input: IdleInput) {
    if input.inFlight > 0 || input.queued > 0 then false
    else if input.allocatedBytes <= input.targetBytes then false
    else if input.now - input.lastActivityAt < IDLE_MS then false
    else if input.now - input.lastResizeAt < COOLDOWN_MS then false
    else if input.allocatedBytes < input.targetBytes * SHRINK_RATIO then false
    else input.allocatedBytes - input.targetBytes >= MINIMUM_RECLAIM_BYTES
  }

  /**
    Capacity is given back exactly where nothing is in flight or queued, half a
    minute without activity and a minute without a resize have passed, at least
    a mebibyte is freed, and no more than a quarter stays.
    */
  lemma ReclaimsIff(input: IdleInput)
    ensures ShouldReclaimIdleCapacity(input) <==>
              && input.inFlight <= 0 && input.queued <= 0
              && input.lastActivityAt + 30.0 * 1000.0 <= input.now && input.lastResizeAt + 60.0 * 1000.0 <= input.now
              && input.targetBytes + 1_048_576 <= input.allocatedBytes
              && 4 * input.targetBytes <= input.allocatedBytes
  {
  }
}
