/**
  The update builder: up to three slots, leased in turn, each lease a set of
  views into its slot's own buffers. Building writes only buffers of a slot that
  nobody holds.
  */
module RenderUpdateBuilder {
  import opened Options
  import opened RenderModel
  import opened PackedUpdate
  import opened CapacityPolicy
  import opened UpdateSlot
  import R = LeaseRing

  datatype Lease = Lease(slotId: nat, leaseToken: nat, update: RenderUpdate)

  /** Bytes of an element: rows, flags, offsets, lengths, two colors, styles, text. */
  const ELEMENT_SIZES: seq<nat> := [4, 1, 4, 4, 4, 4, 2, 1]

  /** A returned storage block and its reading as a typed array. */
  datatype Returned = Returned(byteLength: nat, view: array<nat>)

  datatype ReturnedBuffers = ReturnedBuffers(
    dirtyRows: Returned,
    rowFlags: Returned,
    graphemeOffsets: Returned,
    graphemeLengths: Returned,
    foregrounds: Returned,
    backgrounds: Returned,
    styles: Returned,
    graphemes: Returned)
  {
    predicate Valid() {
      && dirtyRows.byteLength > 0 && rowFlags.byteLength > 0 && graphemeOffsets.byteLength > 0
      && graphemeLengths.byteLength > 0 && foregrounds.byteLength > 0 && backgrounds.byteLength > 0
      && styles.byteLength > 0 && graphemes.byteLength > 0
      && dirtyRows.byteLength % 4 == 0 && graphemeOffsets.byteLength % 4 == 0
      && graphemeLengths.byteLength % 4 == 0 && foregrounds.byteLength % 4 == 0
      && backgrounds.byteLength % 4 == 0 && styles.byteLength % 2 == 0
    }

    function ByteLengths(): (lengths: seq<nat>)
      ensures |lengths| == 8
    {
      [dirtyRows.byteLength, rowFlags.byteLength, graphemeOffsets.byteLength, graphemeLengths.byteLength,
       foregrounds.byteLength, backgrounds.byteLength, styles.byteLength, graphemes.byteLength]
    }

    /** Usable are blocks that are not empty and divide into whole elements, of the type each array has. */
    lemma ValidIff()
      ensures Valid() <==>
                forall k | 0 <= k < 8 :: ByteLengths()[k] > 0 && ByteLengths()[k] % ELEMENT_SIZES[k] == 0
    {
      var n := ByteLengths();
      assert n[0] == dirtyRows.byteLength && n[1] == rowFlags.byteLength && n[2] == graphemeOffsets.byteLength;
      assert n[3] == graphemeLengths.byteLength && n[4] == foregrounds.byteLength && n[5] == backgrounds.byteLength;
      assert n[6] == styles.byteLength && n[7] == graphemes.byteLength;
    }

    function Buffers(): seq<array<nat>> {
      [dirtyRows.view, rowFlags.view, graphemeOffsets.view, graphemeLengths.view,
       foregrounds.view, backgrounds.view, styles.view, graphemes.view]
    }

    /** The bytes a slot has that takes these over. */
    function Bytes(): nat {
      dirtyRows.view.Length * 4 + rowFlags.view.Length + graphemeOffsets.view.Length * 4
      + graphemeLengths.view.Length * 4 + foregrounds.view.Length * 4 + backgrounds.view.Length * 4
      + styles.view.Length * 2 + graphemes.view.Length
    }
  }

  /** Capacity of the first `n` slots. */
  function TotalBytes(slots: seq<Slot>, n: nat): nat
    requires n <= |slots|
    reads slots
  {
    if n == 0 then 0 else TotalBytes(slots, n - 1) + slots[n - 1].Bytes()
  }

  /** Capacity the first `n` slots would be trimmed to. */
  function TotalTargets(slots: seq<Slot>, n: nat): nat
    requires n <= |slots|
    reads slots
  {
    if n == 0 then 0 else TotalTargets(slots, n - 1) + slots[n - 1].TargetBytes()
  }

  /** What the last builds of the first `n` slots used. */
  function TotalUsed(slots: seq<Slot>, n: nat): nat
    requires n <= |slots|
    reads slots
  {
    if n == 0 then 0 else TotalUsed(slots, n - 1) + slots[n - 1].UsedBytes()
  }

  lemma {:induction false} UsedAtMostTotal(slots: seq<Slot>, n: nat)
    requires n <= |slots| && forall j | 0 <= j < n :: slots[j].UsedBytes() <= slots[j].Bytes()
    ensures TotalUsed(slots, n) <= TotalBytes(slots, n)
  {
    if n > 0 {
      UsedAtMostTotal(slots, n - 1);
    }
  }

  /** The sum of the first `n` numbers. */
  function Sum(s: seq<nat>, n: nat): nat
    requires n <= |s|
  {
    if n == 0 then 0 else Sum(s, n - 1) + s[n - 1]
  }

  lemma {:induction false} SumUpdate(s: seq<nat>, i: nat, v: nat, n: nat)
    requires i < |s| && n <= |s|
    ensures Sum(s[i := v], n) == Sum(s, n) + if i < n then v - s[i] else 0
  {
    if n > 0 {
      SumUpdate(s, i, v, n - 1);
    }
  }

  ghost predicate Capacities(slots: seq<Slot>, bytes: seq<nat>)
    reads slots
  {
    |bytes| == |slots| && forall j | 0 <= j < |slots| :: bytes[j] == slots[j].Bytes()
  }

  lemma {:induction false} TotalIsSum(slots: seq<Slot>, bytes: seq<nat>, n: nat)
    requires n <= |slots| && Capacities(slots, bytes)
    ensures TotalBytes(slots, n) == Sum(bytes, n)
  {
    if n > 0 {
      TotalIsSum(slots, bytes, n - 1);
    }
  }

  /** The capacities of all slots, in a list. */
  lemma ListCapacities(slots: seq<Slot>) returns (bytes: seq<nat>)
    ensures Capacities(slots, bytes) && TotalBytes(slots, |slots|) == Sum(bytes, |slots|)
  {
    bytes := [];
    for n := 0 to |slots|
      invariant |bytes| == n && forall j | 0 <= j < n :: bytes[j] == slots[j].Bytes()
    {
      bytes := bytes + [slots[n].Bytes()];
    }
    TotalIsSum(slots, bytes, |slots|);
  }

  /** From capacities that differ in slot `i` alone, the total differs by that much. */
  lemma TotalShifts(slots: seq<Slot>, before: seq<nat>, i: nat)
    requires |before| == |slots| && i < |slots|
    requires forall j | 0 <= j < |slots| && j != i :: before[j] == slots[j].Bytes()
    ensures TotalBytes(slots, |slots|) == Sum(before, |slots|) - before[i] + slots[i].Bytes()
  {
    SumUpdate(before, i, slots[i].Bytes(), |slots|);
    TotalIsSum(slots, before[i := slots[i].Bytes()], |slots|);
  }

  ghost predicate IsNew(slot: Slot, id: nat)
    reads slot
  {
    slot.id == id && !slot.inFlight && slot.leaseToken == 0 && slot.Separate() && slot.UsedBytes() <= slot.Bytes() == 24
  }

  /** Which slot a buffer belongs to. */
  type Ownership = map<array<nat>, nat>

  /** Slot `i` owns the first `n` of these buffers. */
  ghost predicate Owns(owner: Ownership, buffers: seq<array<nat>>, n: nat, i: nat)
    requires n <= |buffers|
  {
    n == 0 || (Owns(owner, buffers, n - 1, i) && buffers[n - 1] in owner && owner[buffers[n - 1]] == i)
  }

  lemma {:induction false} OwnsEach(owner: Ownership, buffers: seq<array<nat>>, n: nat, i: nat)
    requires n <= |buffers|
    ensures Owns(owner, buffers, n, i) <==> forall k | 0 <= k < n :: buffers[k] in owner && owner[buffers[k]] == i
  {
    if n > 0 {
      OwnsEach(owner, buffers, n - 1, i);
    }
  }

  /** No slot but `i` has any of the first `n` of these buffers. */
  ghost predicate Unclaimed(owner: Ownership, buffers: seq<array<nat>>, n: nat, i: nat)
    requires n <= |buffers|
  {
    n == 0 || (Unclaimed(owner, buffers, n - 1, i) && (buffers[n - 1] in owner ==> owner[buffers[n - 1]] == i))
  }

  lemma {:induction false} UnclaimedEach(owner: Ownership, buffers: seq<array<nat>>, n: nat, i: nat)
    requires n <= |buffers|
    ensures Unclaimed(owner, buffers, n, i) <==>
            forall k | 0 <= k < n :: buffers[k] in owner ==> owner[buffers[k]] == i
  {
    if n > 0 {
      UnclaimedEach(owner, buffers, n - 1, i);
    }
  }

  /** Slot `i` owns its eight buffers, so no other slot has any of them. */
  ghost predicate OwnsBuffers(owner: Ownership, slot: Slot, i: nat)
    reads slot
  {
    Owns(owner, slot.Buffers(), 8, i)
  }

  /** No slot but `i` has any of these buffers. */
  ghost predicate Claimable(owner: Ownership, buffers: seq<array<nat>>, i: nat) {
    Unclaimed(owner, buffers, |buffers|, i)
  }

  /** The ownership after slot `i` got these buffers; those it had before are its no more. */
  ghost function Claim(owner: Ownership, buffers: seq<array<nat>>, i: nat): (claimed: Ownership) {
    (map b | b in owner && owner[b] != i :: owner[b]) + map b | b in buffers :: i
  }

  lemma Claimed(owner: Ownership, buffers: seq<array<nat>>, i: nat)
    ensures Owns(Claim(owner, buffers, i), buffers, |buffers|, i)
  {
    OwnsEach(Claim(owner, buffers, i), buffers, |buffers|, i);
  }

  /** None of the other buffers is among these. */
  ghost predicate Foreign(buffers: seq<array<nat>>, others: seq<array<nat>>) {
    forall b | b in others :: b !in buffers
  }

  lemma ClaimKeeps(owner: Ownership, buffers: seq<array<nat>>, i: nat, others: seq<array<nat>>, j: nat)
    requires i != j && Foreign(buffers, others) && Owns(owner, others, |others|, j)
    ensures Owns(Claim(owner, buffers, i), others, |others|, j)
  {
    OwnsEach(owner, others, |others|, j);
    OwnsEach(Claim(owner, buffers, i), others, |others|, j);
  }

  lemma ClaimableIsForeign(owner: Ownership, buffers: seq<array<nat>>, i: nat, others: seq<array<nat>>, j: nat)
    requires i != j && Claimable(owner, buffers, i) && Owns(owner, others, |others|, j)
    ensures Foreign(buffers, others)
  {
    OwnsEach(owner, others, |others|, j);
    UnclaimedEach(owner, buffers, |buffers|, i);
  }

  /** Each slot carries its own position, so they are different slots. */
  ghost predicate Numbered(slots: seq<Slot>) {
    forall i | 0 <= i < |slots| :: slots[i].id == i
  }

  /** One more slot, with buffers of its own. */
  method AddSlot(slots: seq<Slot>, ghost owner: Ownership) returns (more: seq<Slot>, ghost claimed: Ownership)
    requires forall i | 0 <= i < |slots| :: IsNew(slots[i], i) && OwnsBuffers(owner, slots[i], i)
    ensures |more| == |slots| + 1 && more[..|slots|] == slots && fresh(more[|slots|])
    ensures forall i | 0 <= i < |more| :: IsNew(more[i], i) && OwnsBuffers(claimed, more[i], i)
    ensures forall b | b in claimed :: b in owner || fresh(b)
  {
    var slot := new Slot(|slots|);
    claimed := Claim(owner, slot.Buffers(), |slots|);
    Claimed(owner, slot.Buffers(), |slots|);
    UnclaimedEach(owner, slot.Buffers(), 8, |slots|);
    more := slots + [slot];
    forall i | 0 <= i < |slots| ensures IsNew(more[i], i) && OwnsBuffers(claimed, more[i], i) {
      ClaimableIsForeign(owner, slot.Buffers(), |slots|, slots[i].Buffers(), i);
      ClaimKeeps(owner, slot.Buffers(), |slots|, slots[i].Buffers(), i);
    }
  }

  method MakeSlots(count: nat) returns (slots: seq<Slot>, ghost owner: Ownership)
    ensures |slots| == count
    ensures forall i | 0 <= i < count :: IsNew(slots[i], i) && OwnsBuffers(owner, slots[i], i)
    ensures forall i | 0 <= i < count :: fresh(slots[i])
    ensures forall b | b in owner :: fresh(b)
  {
    slots, owner := [], map[];
    for id := 0 to count
      invariant |slots| == id
      invariant forall i | 0 <= i < id :: IsNew(slots[i], i) && OwnsBuffers(owner, slots[i], i)
      invariant forall i | 0 <= i < id :: fresh(slots[i])
      invariant forall b | b in owner :: fresh(b)
    {
      slots, owner := AddSlot(slots, owner);
    }
  }

  /** The update's views are into the slot's present buffers, none of which is empty. */
  ghost predicate Views(update: RenderUpdate, slot: Slot)
    reads slot
  {
    update.Buffers() == slot.Buffers() && forall k | 0 <= k < 8 :: update.Buffers()[k].Length >= 1
  }

  ghost function Holder(held: map<nat, RenderUpdate>, i: nat): Option<RenderUpdate> {
    if i in held then Some(held[i]) else None
  }

  /** An ownership record names a past or current lease; a current one names the held update. */
  ghost predicate LeaseOk(u: RenderUpdate, lease: Lease, states: seq<R.SlotState>, held: map<nat, RenderUpdate>) {
    && lease.update == u && lease.slotId < |states| && lease.leaseToken <= states[lease.slotId].token
    && (lease.slotId in held && lease.leaseToken == states[lease.slotId].token ==> held[lease.slotId] == u)
  }

  /** Ring, holders and ownership records fit together. */
  ghost predicate TablesOk(owners: map<RenderUpdate, Lease>, ring: R.Ring, held: map<nat, RenderUpdate>) {
    && 1 <= |ring.slots| <= 3 && R.CountsOk(ring)
    && (forall i | i in held :: i < |ring.slots| && held[i].Fits())
    && (forall u | u in owners :: LeaseOk(u, owners[u], ring.slots, held))
  }

  /** Slot `i` owns its buffers, is in the recorded state, and is held by views into them when in flight. */
  ghost predicate SlotOk(slot: Slot, i: nat, owner: Ownership, state: R.SlotState, holder: Option<RenderUpdate>)
    reads slot
  {
    && slot.Separate() && OwnsBuffers(owner, slot, i)
    && state == R.SlotState(slot.inFlight, slot.leaseToken)
    && (holder.Some? <==> slot.inFlight) && (holder.Some? ==> Views(holder.value, slot))
  }

  ghost predicate SlotsOk(slots: seq<Slot>, owner: Ownership, states: seq<R.SlotState>, held: map<nat, RenderUpdate>)
    reads slots
  {
    |states| == |slots| && forall i | 0 <= i < |slots| :: SlotOk(slots[i], i, owner, states[i], Holder(held, i))
  }

  /** The first slot from `from` on that is not in flight, or the slot count. */
  function FindFree(slots: seq<Slot>, from: nat): (i: nat)
    requires from <= |slots|
    reads slots
    ensures from <= i <= |slots| && (i < |slots| ==> !slots[i].inFlight)
    decreases |slots| - from
  {
    if from == |slots| || !slots[from].inFlight then from else FindFree(slots, from + 1)
  }

  lemma {:induction false} FindFreeIsFirst(slots: seq<Slot>, states: seq<R.SlotState>, from: nat)
    requires from <= |slots| == |states| && forall i | 0 <= i < |slots| :: states[i].inFlight == slots[i].inFlight
    ensures FindFree(slots, from) == R.FreeFrom(states, from)
    decreases |slots| - from
  {
    if from < |slots| && slots[from].inFlight {
      FindFreeIsFirst(slots, states, from + 1);
    }
  }

  /** How many of the first `n` slots are in flight. */
  function CountInFlight(slots: seq<Slot>, n: nat): nat
    requires n <= |slots|
    reads slots
  {
    if n == 0 then 0 else CountInFlight(slots, n - 1) + if slots[n - 1].inFlight then 1 else 0
  }

  lemma {:induction false} CountIsRings(slots: seq<Slot>, states: seq<R.SlotState>, n: nat)
    requires n <= |slots| == |states| && forall i | 0 <= i < |slots| :: states[i].inFlight == slots[i].inFlight
    ensures CountInFlight(slots, n) == R.CountInFlight(states, n)
  {
    if n > 0 {
      CountIsRings(slots, states, n - 1);
    }
  }

  /** Slots in order share no buffer, within one or between two; storage that is shared lets no ownership be. */
  lemma BuffersApart(slots: seq<Slot>, owner: Ownership, states: seq<R.SlotState>, held: map<nat, RenderUpdate>,
                     i: nat, j: nat, k: nat, l: nat)
    requires SlotsOk(slots, owner, states, held) && i < |slots| && j < |slots| && k < 8 && l < 8 && (i != j || k != l)
    ensures slots[i].Buffers()[k] != slots[j].Buffers()[l]
  {
    assert SlotOk(slots[i], i, owner, states[i], Holder(held, i));
    assert SlotOk(slots[j], j, owner, states[j], Holder(held, j));
    OwnsEach(owner, slots[i].Buffers(), 8, i);
    OwnsEach(owner, slots[j].Buffers(), 8, j);
    DistinctPairs(slots[i].Buffers(), 8);
  }

  /** All slots but one. */
  ghost predicate OthersOk(slots: seq<Slot>, owner: Ownership, states: seq<R.SlotState>, held: map<nat, RenderUpdate>,
                           but: nat)
    reads slots
  {
    && |states| == |slots|
    && forall i | 0 <= i < |slots| && i != but :: SlotOk(slots[i], i, owner, states[i], Holder(held, i))
  }

  /** Leasing a free slot under its next token keeps the tables. */
  lemma TablesAfterLease(owners: map<RenderUpdate, Lease>, ring: R.Ring, held: map<nat, RenderUpdate>,
                         update: RenderUpdate)
    requires TablesOk(owners, ring, held) && update.Fits() && update !in owners
    requires R.FirstFree(ring.slots) < |ring.slots| && R.FirstFree(ring.slots) !in held
    ensures var i := R.FirstFree(ring.slots);
            var next := R.Acquire(ring).1;
            TablesOk(owners[update := Lease(i, next.slots[i].token, update)], next, held[i := update])
  {
    R.CountsKept(ring, 0, 0, false);
  }

  /** Taking a lease back keeps the tables, whatever records are dropped. */
  lemma TablesAfterReturn(owners: map<RenderUpdate, Lease>, kept: map<RenderUpdate, Lease>, ring: R.Ring,
                          held: map<nat, RenderUpdate>, slotId: int, token: int, buffersOk: bool)
    requires TablesOk(owners, ring, held)
    requires kept.Keys <= owners.Keys && forall u | u in kept :: kept[u] == owners[u]
    ensures TablesOk(kept, R.Return(ring, slotId, token, buffersOk).1, held)
    ensures R.Accepts(ring, slotId, token, buffersOk) ==>
              TablesOk(kept, R.Return(ring, slotId, token, buffersOk).1, held - {slotId})
  {
    R.CountsKept(ring, slotId, token, buffersOk);
  }

  /** No other slot has any of slot `i`'s buffers. */
  ghost predicate OthersForeign(slots: seq<Slot>, i: nat, buffers: seq<array<nat>>)
    reads slots
  {
    forall j | 0 <= j < |slots| && j != i :: Foreign(buffers, slots[j].Buffers())
  }

  lemma ClaimableAreForeign(slots: seq<Slot>, owner: Ownership, states: seq<R.SlotState>, held: map<nat, RenderUpdate>,
                            i: nat)
    requires i < |slots| && OthersOk(slots, owner, states, held, i) && Claimable(owner, slots[i].Buffers(), i)
    ensures OthersForeign(slots, i, slots[i].Buffers())
  {
    forall j | 0 <= j < |slots| && j != i ensures Foreign(slots[i].Buffers(), slots[j].Buffers()) {
      assert SlotOk(slots[j], j, owner, states[j], Holder(held, j));
      ClaimableIsForeign(owner, slots[i].Buffers(), i, slots[j].Buffers(), j);
    }
  }

  /** Slot `i`'s present buffers can become its own if they are no other slot's. */
  lemma ClaimBuffers(slots: seq<Slot>, owner: Ownership, states: seq<R.SlotState>, held: map<nat, RenderUpdate>, i: nat)
    returns (claimed: Ownership)
    requires i < |slots| && OthersOk(slots, owner, states, held, i) && OthersForeign(slots, i, slots[i].Buffers())
    ensures OthersOk(slots, claimed, states, held, i) && OwnsBuffers(claimed, slots[i], i)
  {
    claimed := Claim(owner, slots[i].Buffers(), i);
    Claimed(owner, slots[i].Buffers(), i);
    forall j | 0 <= j < |slots| && j != i ensures SlotOk(slots[j], j, claimed, states[j], Holder(held, j)) {
      ClaimKeeps(owner, slots[i].Buffers(), i, slots[j].Buffers(), j);
    }
  }

  lemma SlotsWith(slots: seq<Slot>, owner: Ownership, states: seq<R.SlotState>, held: map<nat, RenderUpdate>,
                  i: nat, state: R.SlotState, after: map<nat, RenderUpdate>)
    requires i < |slots| && OthersOk(slots, owner, states, held, i)
    requires forall j | j != i :: Holder(after, j) == Holder(held, j)
    requires SlotOk(slots[i], i, owner, state, Holder(after, i))
    ensures SlotsOk(slots, owner, states[i := state], after)
  {
  }

  /** Tables and slots after the lease of the newly built slot `i`. */
  lemma LeaseTables(slots: seq<Slot>, owner: Ownership, owners: map<RenderUpdate, Lease>, ring: R.Ring,
                    held: map<nat, RenderUpdate>, i: nat, update: RenderUpdate) returns (claimed: Ownership)
    requires TablesOk(owners, ring, held)
    requires |ring.slots| == |slots| && i == R.FirstFree(ring.slots) < |slots| && i !in held
    requires OthersOk(slots, owner, ring.slots, held, i) && Claimable(owner, slots[i].Buffers(), i)
    requires update !in owners && update.Fits() && Views(update, slots[i])
    requires slots[i].Separate() && slots[i].inFlight
    requires slots[i].leaseToken == ring.slots[i].token + 1
    ensures var next := R.Acquire(ring).1;
            && TablesOk(owners[update := Lease(i, slots[i].leaseToken, update)], next, held[i := update])
            && SlotsOk(slots, claimed, next.slots, held[i := update])
    ensures forall j | 0 <= j < |slots| :: R.Acquire(ring).1.slots[j].inFlight == slots[j].inFlight
  {
    ClaimableAreForeign(slots, owner, ring.slots, held, i);
    claimed := ClaimBuffers(slots, owner, ring.slots, held, i);
    SlotsWith(slots, claimed, ring.slots, held, i, R.SlotState(true, slots[i].leaseToken), held[i := update]);
    TablesAfterLease(owners, ring, held, update);
    var next := R.Acquire(ring).1;
    forall j | 0 <= j < |slots| ensures next.slots[j].inFlight == slots[j].inFlight {
      assert SlotOk(slots[j], j, claimed, next.slots[j], Holder(held[i := update], j));
    }
  }

  function Storage(buffer: array<nat>, elementSize: nat, detached: set<array<nat>>): Returned {
    Returned(if buffer in detached then 0 else buffer.Length * elementSize, buffer)
  }

  /** The target sizes of all slots, in a list. */
  lemma ListTargets(slots: seq<Slot>) returns (targets: seq<nat>)
    ensures |targets| == |slots| && forall j | 0 <= j < |slots| :: targets[j] == slots[j].TargetBytes()
    ensures TotalTargets(slots, |slots|) == Sum(targets, |slots|)
  {
    targets := [];
    for n := 0 to |slots|
      invariant |targets| == n && forall j | 0 <= j < n :: targets[j] == slots[j].TargetBytes()
    {
      targets := targets + [slots[n].TargetBytes()];
    }
    TargetsAreSum(slots, targets, |slots|);
  }

  lemma {:induction false} TargetsAreSum(slots: seq<Slot>, targets: seq<nat>, n: nat)
    requires n <= |slots| == |targets| && forall j | 0 <= j < |slots| :: targets[j] == slots[j].TargetBytes()
    ensures TotalTargets(slots, n) == Sum(targets, n)
  {
    if n > 0 {
      TargetsAreSum(slots, targets, n - 1);
    }
  }

  /** Slots at their target sizes are not trimmed, however long they idle. */
  lemma TrimmedStaysTrimmed(slots: seq<Slot>, input: IdleInput)
    requires forall j | 0 <= j < |slots| :: slots[j].Bytes() == slots[j].TargetBytes()
    requires input.allocatedBytes == TotalBytes(slots, |slots|) && input.targetBytes == TotalTargets(slots, |slots|)
    ensures !ShouldReclaimIdleCapacity(input)
  {
    var targets := ListTargets(slots);
    TotalIsSum(slots, targets, |slots|);
  }

  /** The capacity side of the counters: bytes, the last change, regrowths after a trim, whether one is due, trims. */
  datatype Growth = Growth(bytes: int, changedAt: real, regrows: nat, trimmed: bool, trims: nat, freed: int)

  /** After a build that grew its slot by so much: growth restarts the idle clock and ends the time after a trim. */
  function Grown(g: Growth, growth: int, now: real): Growth {
    if growth <= 0 then g.(bytes := g.bytes + growth)
    else g.(bytes := g.bytes + growth, changedAt := now, regrows := g.regrows + (if g.trimmed then 1 else 0),
            trimmed := false)
  }

  lemma {:induction false} NoneCounted(slots: seq<Slot>, n: nat, i: nat)
    requires i < n <= |slots| && CountInFlight(slots, n) == 0
    ensures !slots[i].inFlight
  {
    if i < n - 1 {
      NoneCounted(slots, n - 1, i);
    }
  }

  class GhosttyRenderUpdateBuilder {
    const slots: seq<Slot>
    var owners: map<RenderUpdate, Lease>
    var leasesBuilt: nat
    var leasesReclaimed: nat
    var reclaimRejected: nat
    var noFreeSlot: nat
    var maxInFlight: nat
    var backingBytesAllocated: int
    var idleTrims: nat
    var idleBytesReclaimed: int
    var idleRegrows: nat
    var lastCapacityChangeAt: real
    var trimmedSinceGrowth: bool

    /** The lease protocol state this builder is in. */
    ghost var ring: R.Ring

    /** The updates in flight, by slot. */
    ghost var held: map<nat, RenderUpdate>

    /** Every buffer of every slot, with the slot it belongs to. */
    ghost var owner: Ownership

    ghost function GrowthState(): Growth
      reads this
    {
      Growth(backingBytesAllocated, lastCapacityChangeAt, idleRegrows, trimmedSinceGrowth, idleTrims,
             idleBytesReclaimed)
    }

    /** The counters are those of the protocol, and each regrowth answers a trim of its own. */
    ghost predicate CountersOk()
      reads this
    {
      && idleRegrows + (if trimmedSinceGrowth then 1 else 0) <= idleTrims
      && ring.leasesBuilt == leasesBuilt && ring.leasesReclaimed == leasesReclaimed
      && ring.reclaimRejected == reclaimRejected && ring.noFreeSlot == noFreeSlot && ring.maxInFlight == maxInFlight
    }

    ghost predicate Valid()
      reads this, slots
    {
      && Numbered(slots) && CountersOk() && TablesOk(owners, ring, held)
      && SlotsOk(slots, owner, ring.slots, held)
    }

    /** The byte counter is the sum of the slots' capacities, and each slot covers its last build. */
    ghost predicate Accounted()
      reads `backingBytesAllocated, slots
    {
      && backingBytesAllocated == TotalBytes(slots, |slots|)
      && forall j | 0 <= j < |slots| :: slots[j].UsedBytes() <= slots[j].Bytes()
    }

    ghost function OwnedBuffers(i: nat): set<array<nat>>
      reads this
    {
      set b | b in owner && owner[b] == i
    }

    /** All buffers of slots nobody holds. */
    ghost function FreeBuffers(): set<array<nat>>
      reads this, slots
    {
      set b | b in owner && owner[b] < |slots| && !slots[owner[b]].inFlight
    }

    /** Updates in flight share no buffer, within one or between two, and none has a buffer that may be written. */
    lemma HeldApart(i: nat, j: nat, k: nat, l: nat)
      requires Valid() && i in held && j in held && k < 8 && l < 8 && (i != j || k != l)
      ensures held[i].Buffers()[k] != held[j].Buffers()[l]
      ensures held[i].Buffers()[k] !in FreeBuffers()
    {
      assert SlotOk(slots[i], i, owner, ring.slots[i], Holder(held, i));
      assert SlotOk(slots[j], j, owner, ring.slots[j], Holder(held, j));
      OwnsEach(owner, held[i].Buffers(), 8, i);
      BuffersApart(slots, owner, ring.slots, held, i, j, k, l);
    }

    /** The builder's byte counter bounds what its last builds used. */
    lemma UsedIsBacked()
      requires Accounted()
      ensures TotalUsed(slots, |slots|) <= backingBytesAllocated
    {
      UsedAtMostTotal(slots, |slots|);
    }

    constructor (slotCount: int)
      ensures Valid() && Accounted() && ring == R.NewRing(|slots|) && held == map[] && owners == map[]
      ensures |slots| == if slotCount < 1 then 1 else if slotCount > 3 then 3 else slotCount
      ensures (forall i | 0 <= i < |slots| :: fresh(slots[i])) && forall b | b in owner :: fresh(b)
    {
      var count := if slotCount < 1 then 1 else if slotCount > 3 then 3 else slotCount;
      ghost var tags;
      var made;
      hide IsNew, OwnsBuffers, SlotsOk, Slot.UsedBytes, Slot.Bytes;
      made, tags := MakeSlots(count);
      NewSlotsOk(made, tags);
      slots, owner := made, tags;
      owners := map[];
      leasesBuilt, leasesReclaimed, reclaimRejected, noFreeSlot, maxInFlight := 0, 0, 0, 0, 0;
      backingBytesAllocated := count * 24;
      idleTrims, idleBytesReclaimed, idleRegrows := 0, 0, 0;
      lastCapacityChangeAt, trimmedSinceGrowth := 0.0, false;
      held, ring := map[], R.NewRing(count);
      R.NothingInFlight(count);
    }

    lemma FindFirst()
      requires SlotsOk(slots, owner, ring.slots, held)
      ensures var i := FindFree(slots, 0);
              i == R.FirstFree(ring.slots) && (i < |slots| ==> i !in held)
    {
      assert forall i | 0 <= i < |slots| :: SlotOk(slots[i], i, owner, ring.slots[i], Holder(held, i));
      FindFreeIsFirst(slots, ring.slots, 0);
    }

    /** Pack into slot `i`'s own buffers; what others hold is out of reach. */
    method BuildIn(i: nat, s: Snapshot, frameId: int, generation: int, full: bool) returns (update: RenderUpdate)
      requires Numbered(slots) && SlotsOk(slots, owner, ring.slots, held) && i < |slots| && !slots[i].inFlight
      requires forall j | j in held :: j < |slots| && held[j].Fits()
      modifies slots[i], OwnedBuffers(i)
      ensures slots[i].Separate()
      ensures slots[i].inFlight && slots[i].leaseToken == old(slots[i].leaseToken) + 1
      ensures slots[i].UsedBytes() <= slots[i].Bytes() && slots[i].Bytes() >= old(slots[i].Bytes())
      ensures fresh(update) && update.Fits() && Views(update, slots[i])
      ensures update.Contents() == Pack(s, frameId, generation, full)
      ensures OthersOk(slots, owner, ring.slots, held, i)
      ensures Claimable(owner, slots[i].Buffers(), i)
    {
      assert forall j | 0 <= j < |slots| :: SlotOk(slots[j], j, owner, ring.slots[j], Holder(held, j));
      update := FillSlot(slots[i], i, owner, s, frameId, generation, full);
    }

    /** Make a lease and the state it leads to the builder's own. */
    method Commit(lease: Lease, inFlight: nat, ghost next: R.Ring, ghost claimed: Ownership)
      requires Numbered(slots) && CountersOk()
      requires next.leasesBuilt == leasesBuilt + 1 && next.maxInFlight == R.Max(maxInFlight, inFlight)
      requires next.leasesReclaimed == leasesReclaimed
      requires next.reclaimRejected == reclaimRejected && next.noFreeSlot == noFreeSlot
      requires TablesOk(owners[lease.update := lease], next, held[lease.slotId := lease.update])
      requires SlotsOk(slots, claimed, next.slots, held[lease.slotId := lease.update])
      modifies this`leasesBuilt, this`maxInFlight, this`ring, this`owners, this`held, this`owner
      ensures Valid() && ring == next && owner == claimed
      ensures held == old(held)[lease.slotId := lease.update] && owners == old(owners)[lease.update := lease]
    {
      hide TablesOk, SlotsOk;
      leasesBuilt, maxInFlight, owners := leasesBuilt + 1, R.Max(maxInFlight, inFlight), owners[lease.update := lease];
      held, ring, owner := held[lease.slotId := lease.update], next, claimed;
    }

    /** Enter the lease of the newly built slot `i` into tables and counters. */
    method NoteLease(i: nat, update: RenderUpdate)
      requires Numbered(slots) && CountersOk() && TablesOk(owners, ring, held)
      requires |ring.slots| == |slots| && i == R.FirstFree(ring.slots) < |slots| && i !in held
      requires OthersOk(slots, owner, ring.slots, held, i)
      requires update !in owners && update.Fits() && Views(update, slots[i])
      requires slots[i].Separate() && slots[i].inFlight
      requires slots[i].leaseToken == ring.slots[i].token + 1
      requires Claimable(owner, slots[i].Buffers(), i)
      modifies this`leasesBuilt, this`maxInFlight, this`ring, this`owners, this`held, this`owner
      ensures Valid() && ring == R.Acquire(old(ring)).1
      ensures held == old(held)[i := update]
      ensures owners == old(owners)[update := Lease(i, slots[i].leaseToken, update)]
    {
      ghost var claimed := LeaseTables(slots, owner, owners, ring, held, i, update);
      CountIsRings(slots, R.Acquire(ring).1.slots, |slots|);
      var inFlight := CountInFlight(slots, |slots|);
      Commit(Lease(i, slots[i].leaseToken, update), inFlight, R.Acquire(ring).1, claimed);
    }

    /** Count what a slot grew by. */
    method CountGrowth(growth: nat, now: real)
      requires CountersOk()
      modifies this`backingBytesAllocated, this`idleRegrows, this`trimmedSinceGrowth, this`lastCapacityChangeAt
      ensures CountersOk() && GrowthState() == Grown(old(GrowthState()), growth, now)
    {
      backingBytesAllocated := backingBytesAllocated + growth;
      if growth > 0 {
        if trimmedSinceGrowth {
          idleRegrows := idleRegrows + 1;
          trimmedSinceGrowth := false;
        }
        lastCapacityChangeAt := now;
      }
    }

    /** All bookkeeping for the newly built slot `i`. */
    method Enter(i: nat, update: RenderUpdate, growth: nat, now: real)
      requires Numbered(slots) && CountersOk() && TablesOk(owners, ring, held)
      requires |ring.slots| == |slots| && i == R.FirstFree(ring.slots) < |slots| && i !in held
      requires OthersOk(slots, owner, ring.slots, held, i)
      requires update !in owners && update.Fits() && Views(update, slots[i])
      requires slots[i].Separate() && slots[i].inFlight
      requires slots[i].leaseToken == ring.slots[i].token + 1
      requires Claimable(owner, slots[i].Buffers(), i)
      modifies this
      ensures Valid() && ring == R.Acquire(old(ring)).1
      ensures held == old(held)[i := update]
      ensures owners == old(owners)[update := Lease(i, slots[i].leaseToken, update)]
      ensures GrowthState() == Grown(old(GrowthState()), growth, now)
      ensures update.Contents() == old(update.Contents())
    {
      CountGrowth(growth, now);
      NoteLease(i, update);
    }

    /** Lease slot `i` for the snapshot and fill it. */
    method LeaseSlot(i: nat, s: Snapshot, frameId: int, generation: int, full: bool, now: real)
      returns (update: RenderUpdate)
      requires Valid() && i == R.FirstFree(ring.slots) < |slots| && !slots[i].inFlight && i !in held
      modifies this, slots[i], OwnedBuffers(i)
      ensures Valid() && ring == R.Acquire(old(ring)).1
      ensures fresh(update) && held == old(held)[i := update] && update.Fits()
      ensures update.Contents() == Pack(s, frameId, generation, full)
      ensures owners == old(owners)[update := Lease(i, slots[i].leaseToken, update)]
      ensures slots[i].leaseToken == old(slots[i].leaseToken) + 1
      ensures GrowthState() == Grown(old(GrowthState()), slots[i].Bytes() - old(slots[i].Bytes()), now)
      ensures slots[i].UsedBytes() <= slots[i].Bytes() && slots[i].Bytes() >= old(slots[i].Bytes())
    {
      hide CountersOk, R.Acquire, Pack, RenderUpdate.Contents, Slot.Bytes, Slot.UsedBytes, Grown;
      var capacity := slots[i].Bytes();
      update := BuildIn(i, s, frameId, generation, full);
      Enter(i, update, slots[i].Bytes() - capacity, now);
    }

    /** The lease keeps the byte accounting exact. */
    method LeaseCounted(i: nat, s: Snapshot, frameId: int, generation: int, full: bool, now: real)
      returns (update: RenderUpdate)
      requires Valid() && i == R.FirstFree(ring.slots) < |slots| && !slots[i].inFlight && i !in held
      modifies this, slots[i], OwnedBuffers(i)
      ensures Valid() && ring == R.Acquire(old(ring)).1
      ensures fresh(update) && held == old(held)[i := update] && update.Fits()
      ensures update.Contents() == Pack(s, frameId, generation, full)
      ensures owners == old(owners)[update := Lease(i, slots[i].leaseToken, update)]
      ensures slots[i].leaseToken == old(slots[i].leaseToken) + 1
      ensures GrowthState() == Grown(old(GrowthState()), backingBytesAllocated - old(backingBytesAllocated), now)
      ensures backingBytesAllocated >= old(backingBytesAllocated)
      ensures old(Accounted()) ==> Accounted()
    {
      hide TablesOk, SlotsOk, CountersOk, R.Acquire, R.FirstFree, Pack;
      hide RenderUpdate.Contents, RenderUpdate.Fits, Slot.Bytes, Slot.UsedBytes;
      ghost var before := ListCapacities(slots);
      update := LeaseSlot(i, s, frameId, generation, full, now);
      forall j | 0 <= j < |slots| && j != i
        ensures slots[j].Bytes() == before[j] && slots[j].UsedBytes() == old(slots[j].UsedBytes())
      {
        assert slots[j].id == j && slots[j] != slots[i];
        assert before[j] == old(slots[j].Bytes());
      }
      TotalShifts(slots, before, i);
    }

    /** What is already out reads as before. */
    method LeaseFree(i: nat, s: Snapshot, frameId: int, generation: int, full: bool, now: real)
      returns (update: RenderUpdate)
      requires Valid() && i == R.FirstFree(ring.slots) < |slots| && !slots[i].inFlight && i !in held
      modifies this, slots[i], OwnedBuffers(i)
      ensures Valid() && ring == R.Acquire(old(ring)).1
      ensures fresh(update) && held == old(held)[i := update] && update.Fits()
      ensures update.Contents() == Pack(s, frameId, generation, full)
      ensures forall j | j in old(held) :: old(held)[j].Contents() == old(held[j].Contents())
      ensures owners == old(owners)[update := Lease(i, slots[i].leaseToken, update)]
      ensures slots[i].leaseToken == old(slots[i].leaseToken) + 1
      ensures GrowthState() == Grown(old(GrowthState()), backingBytesAllocated - old(backingBytesAllocated), now)
      ensures backingBytesAllocated >= old(backingBytesAllocated)
      ensures old(Accounted()) ==> Accounted()
    {
      hide CountersOk, R.Acquire, R.FirstFree, Pack, Accounted, Grown;
      hide RenderUpdate.Contents, Slot.Bytes, Slot.UsedBytes, R.CountsOk;
      assert forall j | 0 <= j < |slots| :: SlotOk(slots[j], j, owner, ring.slots[j], Holder(held, j));
      hide SlotsOk;
      update := LeaseCounted(i, s, frameId, generation, full, now);
      forall j | j in old(held) ensures old(held)[j].Contents() == old(held[j].Contents()) {
        assert old(SlotOk(slots[j], j, owner, ring.slots[j], Holder(held, j)));
        OwnsEach(old(owner), old(held)[j].Buffers(), 8, j);
        SameContents(old(held)[j]);
      }
    }

    /** Count a refusal; nothing else moves. */
    method Refuse()
      requires Valid() && R.FirstFree(ring.slots) == |ring.slots|
      modifies this
      ensures Valid() && ring == R.Acquire(old(ring)).1
      ensures held == old(held) && owners == old(owners) && unchanged(slots)
      ensures GrowthState() == old(GrowthState())
      ensures old(Accounted()) ==> Accounted()
      ensures forall j | j in held :: held[j].Contents() == old(held[j].Contents())
    {
      hide SlotsOk, Slot.Bytes, Slot.UsedBytes, RenderUpdate.Contents;
      noFreeSlot, ring := noFreeSlot + 1, R.Acquire(ring).1;
      forall j | j in held ensures held[j].Contents() == old(held[j].Contents()) {
        SameContents(held[j]);
      }
    }

    /**
      Build an update in the first free slot, or count the refusal. Updates in
      flight keep their contents, and refusal touches nothing but its counter.
      Growth is counted, and for a minute after it nothing is trimmed.
      */
    method TryBuild(s: Snapshot, frameId: int, generation: int, full: bool, now: real) returns (lease: Option<Lease>)
      requires Valid()
      modifies this, slots, FreeBuffers()
      ensures Valid() && ring == R.Acquire(old(ring)).1
      ensures old(Accounted()) ==> Accounted()
      ensures GrowthState() == Grown(old(GrowthState()), backingBytesAllocated - old(backingBytesAllocated), now)
      ensures backingBytesAllocated >= old(backingBytesAllocated)
      ensures var grew := backingBytesAllocated > old(backingBytesAllocated);
              && lastCapacityChangeAt == (if grew then now else old(lastCapacityChangeAt))
              && idleRegrows == old(idleRegrows) + (if grew && old(trimmedSinceGrowth) then 1 else 0)
              && trimmedSinceGrowth == (old(trimmedSinceGrowth) && !grew)
              && idleTrims == old(idleTrims) && idleBytesReclaimed == old(idleBytesReclaimed)
      ensures backingBytesAllocated > old(backingBytesAllocated) ==>
                forall lastActivityAt, later | later - now < COOLDOWN_MS ::
                  !ShouldReclaimIdleCapacity(IdleQuestion(lastActivityAt, later))
      ensures lease.None? <==> R.FirstFree(old(ring).slots) == |slots|
      ensures lease.None? ==>
                held == old(held) && owners == old(owners) && unchanged(slots) && unchanged(old(FreeBuffers()))
      ensures lease.Some? ==>
                var l := lease.value;
                && R.Acquire(old(ring)).0 == Some((l.slotId, l.leaseToken))
                && fresh(l.update) && l.update.Fits() && l.update.Contents() == Pack(s, frameId, generation, full)
                && held == old(held)[l.slotId := l.update] && l.slotId !in old(held)
                && owners == old(owners)[l.update := l]
      ensures forall j | j in old(held) :: old(held)[j].Contents() == old(held[j].Contents())
    {
      hide TablesOk, CountersOk, Accounted, Slot.Bytes, Slot.UsedBytes, RenderUpdate.Contents, Pack, RenderUpdate.Fits;
      var i := FindFree(slots, 0);
      assert i == R.FirstFree(ring.slots) && (i < |slots| ==> i !in held) by { FindFirst(); }
      if i == |slots| {
        Refuse();
        lease := None;
      } else {
        var update := LeaseFree(i, s, frameId, generation, full, now);
        lease := Some(Lease(i, slots[i].leaseToken, update));
      }
    }

    /** Eight different blocks, none of which another slot has. */
    ghost predicate Isolated(i: int, buffers: ReturnedBuffers)
      reads slots
    {
      0 <= i && Distinct(buffers.Buffers()) && OthersForeign(slots, i, buffers.Buffers())
    }

    /** Put slot `i` back into the ring with the storage it came back with. */
    method TakeIn(i: nat, buffers: ReturnedBuffers)
      requires Numbered(slots) && SlotsOk(slots, owner, ring.slots, held) && i < |slots|
      modifies slots[i]
      ensures !slots[i].inFlight && slots[i].leaseToken == old(slots[i].leaseToken) == ring.slots[i].token
      ensures slots[i].Buffers() == buffers.Buffers() && slots[i].Bytes() == buffers.Bytes()
      ensures slots[i].UsedBytes() == old(slots[i].UsedBytes())
      ensures OthersOk(slots, owner, ring.slots, held, i)
      ensures Isolated(i, buffers) == old(Isolated(i, buffers))
    {
      assert forall j | 0 <= j < |slots| :: SlotOk(slots[j], j, owner, ring.slots[j], Holder(held, j));
      StoreReturned(slots[i], buffers);
    }

    /** Make a return and the state it leads to the builder's own. */
    method CommitReturn(i: nat, ghost next: R.Ring, ghost claimed: Ownership)
      requires CountersOk()
      requires next.leasesReclaimed == leasesReclaimed + 1 && next.leasesBuilt == leasesBuilt
      requires next.reclaimRejected == reclaimRejected && next.noFreeSlot == noFreeSlot
               && next.maxInFlight == maxInFlight
      modifies this
      ensures owners == old(owners) && GrowthState() == old(GrowthState())
      ensures CountersOk() && ring == next && held == old(held) - {i} && owner == claimed
    {
      leasesReclaimed, held, ring, owner := leasesReclaimed + 1, held - {i}, next, claimed;
    }

    /** The ownership a return leaves: the slot's new buffers are its own if they can be. */
    lemma Claims(i: nat) returns (claimed: Ownership)
      requires i < |slots| && OthersOk(slots, owner, ring.slots, held, i)
      requires !slots[i].inFlight && slots[i].leaseToken == ring.slots[i].token
      ensures slots[i].Separate() && OthersForeign(slots, i, slots[i].Buffers()) ==>
                SlotsOk(slots, claimed, ring.slots[i := R.SlotState(false, slots[i].leaseToken)], held - {i})
    {
      claimed := owner;
      if slots[i].Separate() && OthersForeign(slots, i, slots[i].Buffers()) {
        claimed := ClaimBuffers(slots, owner, ring.slots, held, i);
        SlotsWith(slots, claimed, ring.slots, held, i, R.SlotState(false, slots[i].leaseToken), held - {i});
      }
    }

    /** In a builder in order, a slot's buffers are different ones and no other slot's. */
    lemma OrderIsIsolation(i: nat, buffers: ReturnedBuffers)
      requires Valid() && i < |slots| && slots[i].Buffers() == buffers.Buffers()
      ensures Isolated(i, buffers)
    {
      assert SlotOk(slots[i], i, owner, ring.slots[i], Holder(held, i));
      forall j | 0 <= j < |slots| && j != i ensures Foreign(buffers.Buffers(), slots[j].Buffers()) {
        forall b | b in slots[j].Buffers() ensures b !in buffers.Buffers() {
          if b in buffers.Buffers() {
            var k :| 0 <= k < 8 && buffers.Buffers()[k] == b;
            var l :| 0 <= l < 8 && slots[j].Buffers()[l] == b;
            BuffersApart(slots, owner, ring.slots, held, i, j, k, l);
          }
        }
      }
    }

    /** Slot `i` comes back under its current token. */
    method TakeBack(i: nat, buffers: ReturnedBuffers)
      requires Valid() && i < |slots| && slots[i].inFlight
      modifies this, slots[i]
      ensures owners == old(owners) && GrowthState() == old(GrowthState())
      ensures CountersOk() && TablesOk(owners, ring, held)
      ensures old(Isolated(i, buffers)) ==> Valid()
      ensures Isolated(i, buffers) == old(Isolated(i, buffers))
      ensures ring == R.Return(old(ring), i, old(slots[i].leaseToken), true).1 && held == old(held) - {i}
      ensures slots[i].Buffers() == buffers.Buffers() && !slots[i].inFlight
      ensures slots[i].Bytes() == buffers.Bytes() && slots[i].UsedBytes() == old(slots[i].UsedBytes())
    {
      assert SlotOk(slots[i], i, owner, ring.slots[i], Holder(held, i));
      hide Slot.Bytes, Slot.UsedBytes, ReturnedBuffers.Bytes, TablesOk, SlotsOk, OthersOk;
      TakeIn(i, buffers);
      ghost var next := R.Return(ring, i, slots[i].leaseToken, true).1;
      ghost var claimed := Claims(i);
      TablesAfterReturn(owners, owners, ring, held, i, slots[i].leaseToken, true);
      CommitReturn(i, next, claimed);
    }

    /** The builder is in order afterwards exactly if the storage is isolated. */
    method TakeOrdered(i: nat, buffers: ReturnedBuffers)
      requires Valid() && i < |slots| && slots[i].inFlight
      modifies this, slots[i]
      ensures owners == old(owners) && GrowthState() == old(GrowthState())
      ensures CountersOk() && TablesOk(owners, ring, held)
      ensures Valid() <==> old(Isolated(i, buffers))
      ensures ring == R.Return(old(ring), i, old(slots[i].leaseToken), true).1 && held == old(held) - {i}
      ensures slots[i].Buffers() == buffers.Buffers() && !slots[i].inFlight
      ensures slots[i].Bytes() == buffers.Bytes() && slots[i].UsedBytes() == old(slots[i].UsedBytes())
    {
      hide TablesOk, SlotsOk, CountersOk, Slot.Bytes, Slot.UsedBytes, R.Return, ReturnedBuffers.Bytes, Isolated;
      TakeBack(i, buffers);
      if Valid() {
        OrderIsIsolation(i, buffers);
      }
    }

    /** The accounting stays exact exactly if the storage is as large as the slot's was. */
    method Accept(i: nat, buffers: ReturnedBuffers)
      requires Valid() && i < |slots| && slots[i].inFlight
      modifies this, slots[i]
      ensures owners == old(owners) && GrowthState() == old(GrowthState())
      ensures CountersOk() && TablesOk(owners, ring, held)
      ensures Valid() <==> old(Isolated(i, buffers))
      ensures ring == R.Return(old(ring), i, old(slots[i].leaseToken), true).1 && held == old(held) - {i}
      ensures slots[i].Buffers() == buffers.Buffers() && slots[i].Bytes() == buffers.Bytes() && !slots[i].inFlight
      ensures old(Accounted()) ==> (Accounted() <==> slots[i].Bytes() == old(slots[i].Bytes()))
    {
      hide TablesOk, SlotsOk, CountersOk, Slot.Bytes, Slot.UsedBytes, R.Return, ReturnedBuffers.Bytes, Isolated;
      ghost var before := ListCapacities(slots);
      TakeOrdered(i, buffers);
      forall j | 0 <= j < |slots| && j != i
        ensures slots[j].Bytes() == before[j] && slots[j].UsedBytes() == old(slots[j].UsedBytes())
      {
        assert slots[j].id == j && slots[j] != slots[i];
        assert before[j] == old(slots[j].Bytes());
      }
      TotalShifts(slots, before, i);
    }

    /** Count a return that is not accepted; nothing else moves. */
    method Reject(slotId: int, token: int, buffersOk: bool)
      requires Valid() && !R.Accepts(ring, slotId, token, buffersOk)
      modifies this`reclaimRejected, this`ring
      ensures GrowthState() == old(GrowthState())
      ensures Valid() && ring == R.Return(old(ring), slotId, token, buffersOk).1
      ensures old(Accounted()) ==> Accounted()
    {
      TablesAfterReturn(owners, owners, ring, held, slotId, token, buffersOk);
      reclaimRejected, ring := reclaimRejected + 1, R.Return(ring, slotId, token, buffersOk).1;
    }

    /**
      Take a lease back. Exactly the current lease of a slot in flight, with
      storage of the right shape, is accepted; anything else changes no slot.
      After an accepted return the builder is in order if and only if the eight
      blocks are different ones and no other slot's, and its accounting is exact
      if and only if they are as large as the slot's own were. The code checks
      neither.
      */
    method Reclaim(slotId: int, token: int, buffers: ReturnedBuffers) returns (ok: bool)
      requires Valid()
      modifies this, slots
      ensures CountersOk() && TablesOk(owners, ring, held)
      ensures if ok then Valid() <==> old(Isolated(slotId, buffers)) else Valid()
      ensures ring == R.Return(old(ring), slotId, token, buffers.Valid()).1
      ensures ok == R.Accepts(old(ring), slotId, token, buffers.Valid())
      ensures owners == old(owners) && held == if ok then old(held) - {slotId} else old(held)
      ensures GrowthState() == old(GrowthState())
      ensures !ok ==> unchanged(slots) && (old(Accounted()) ==> Accounted())
      ensures ok ==> slots[slotId].Buffers() == buffers.Buffers() && slots[slotId].Bytes() == buffers.Bytes()
      ensures ok ==> !slots[slotId].inFlight
      ensures ok ==> forall j | 0 <= j < |slots| && j != slotId :: unchanged(slots[j])
      ensures ok && old(Accounted()) ==> (Accounted() <==> slots[slotId].Bytes() == old(slots[slotId].Bytes()))
    {
      hide Accounted, Isolated, Slot.Bytes, Slot.UsedBytes, TablesOk, ReturnedBuffers.Bytes;
      assert forall j | 0 <= j < |slots| :: SlotOk(slots[j], j, owner, ring.slots[j], Holder(held, j));
      if !(0 <= slotId < |slots|) || !slots[slotId].inFlight || slots[slotId].leaseToken != token || !buffers.Valid() {
        Reject(slotId, token, buffers.Valid());
        ok := false;
      } else {
        Accept(slotId, buffers);
        ok := true;
      }
    }

    /** The storage of an update; blocks transferred elsewhere read as empty. */
    function ReturnOf(update: RenderUpdate, detached: set<array<nat>>): ReturnedBuffers {
      ReturnedBuffers(
        Storage(update.dirtyRows.buffer, 4, detached), Storage(update.rowFlags.buffer, 1, detached),
        Storage(update.graphemeOffsets.buffer, 4, detached), Storage(update.graphemeLengths.buffer, 4, detached),
        Storage(update.foregrounds.buffer, 4, detached), Storage(update.backgrounds.buffer, 4, detached),
        Storage(update.styles.buffer, 2, detached), Storage(update.graphemes.buffer, 1, detached))
    }

    /** Storage of an update is usable exactly if none of its blocks has been transferred. */
    lemma UsableIff(u: RenderUpdate, detached: set<array<nat>>)
      requires forall k | 0 <= k < 8 :: u.Buffers()[k].Length >= 1
      ensures ReturnOf(u, detached).Valid() <==> forall k | 0 <= k < 8 :: u.Buffers()[k] !in detached
    {
      var b := u.Buffers();
      assert b[0] == u.dirtyRows.buffer && b[1] == u.rowFlags.buffer && b[2] == u.graphemeOffsets.buffer;
      assert b[3] == u.graphemeLengths.buffer && b[4] == u.foregrounds.buffer && b[5] == u.backgrounds.buffer;
      assert b[6] == u.styles.buffer && b[7] == u.graphemes.buffer;
    }

    /** Slot and token of a lease are those its slot is in flight under. */
    ghost predicate IsCurrent(l: Lease)
      reads this
    {
      R.Accepts(ring, l.slotId, l.leaseToken, true)
    }

    /** A current lease comes back with the slot's own storage, and is accepted unless some of it is gone. */
    lemma OwnStorage(u: RenderUpdate, detached: set<array<nat>>)
      requires Valid() && u in owners
      ensures R.Accepts(ring, owners[u].slotId, owners[u].leaseToken, ReturnOf(u, detached).Valid()) <==>
                IsCurrent(owners[u]) && forall k | 0 <= k < 8 :: u.Buffers()[k] !in detached
      ensures var l := owners[u];
              R.Accepts(ring, l.slotId, l.leaseToken, ReturnOf(u, detached).Valid()) ==>
                && ReturnOf(u, detached).Buffers() == slots[l.slotId].Buffers()
                && Isolated(l.slotId, ReturnOf(u, detached))
                && ReturnOf(u, detached).Bytes() == slots[l.slotId].Bytes()
    {
      var l := owners[u];
      assert LeaseOk(u, l, ring.slots, held);
      if IsCurrent(l) {
        assert SlotOk(slots[l.slotId], l.slotId, owner, ring.slots[l.slotId], Holder(held, l.slotId));
        UsableIff(u, detached);
      }
      if R.Accepts(ring, l.slotId, l.leaseToken, ReturnOf(u, detached).Valid()) {
        ViewsAreOwn(u, slots[l.slotId], detached);
        OrderIsIsolation(l.slotId, ReturnOf(u, detached));
      }
    }

    /** The storage of an update that views a slot's buffers is the slot's. */
    lemma ViewsAreOwn(u: RenderUpdate, slot: Slot, detached: set<array<nat>>)
      requires Views(u, slot)
      ensures ReturnOf(u, detached).Buffers() == slot.Buffers() && ReturnOf(u, detached).Bytes() == slot.Bytes()
    {
      var b, c := u.Buffers(), slot.Buffers();
      assert b[0] == c[0] && b[1] == c[1] && b[2] == c[2] && b[3] == c[3];
      assert b[4] == c[4] && b[5] == c[5] && b[6] == c[6] && b[7] == c[7];
    }

    /** Forget the ownership record of an update. */
    method Disown(update: RenderUpdate)
      requires Valid()
      modifies this`owners
      ensures Valid() && owners == old(owners) - {update}
      ensures old(Accounted()) ==> Accounted()
    {
      owners := owners - {update};
    }

    /**
      Give an update back. Without an ownership record nothing happens; with one
      the record goes, and the slot comes back exactly when the lease is current
      and its storage is still here.
      */
    method Release(update: RenderUpdate, detached: set<array<nat>>)
      requires Valid()
      modifies this, slots
      ensures Valid() && owners == old(owners) - {update} && GrowthState() == old(GrowthState())
      ensures update !in old(owners) ==> unchanged(this) && unchanged(slots)
      ensures update in old(owners) ==>
                var l := old(owners)[update];
                var ok := old(IsCurrent(l)) && forall k | 0 <= k < 8 :: update.Buffers()[k] !in detached;
                && ring == R.Return(old(ring), l.slotId, l.leaseToken, ReturnOf(update, detached).Valid()).1
                && held == (if ok then old(held) - {l.slotId} else old(held))
                && (!ok ==> unchanged(slots))
      ensures old(Accounted()) ==> Accounted()
    {
      hide Accounted, Isolated, SlotsOk, ReturnedBuffers.Valid, ReturnedBuffers.Bytes, Slot.Bytes;
      if update in owners {
        var l := owners[update];
        OwnStorage(update, detached);
        Disown(update);
        var _ := Reclaim(l.slotId, l.leaseToken, ReturnOf(update, detached));
      }
    }

    /** New buffers for slot `k`: nobody else's, and the other slots are as before. */
    method Renew(k: nat)
      requires Numbered(slots) && SlotsOk(slots, owner, ring.slots, held) && k < |slots|
      modifies slots[k]
      ensures slots[k].Separate() && slots[k].inFlight == old(slots[k].inFlight)
      ensures slots[k].leaseToken == old(slots[k].leaseToken)
      ensures slots[k].Bytes() == slots[k].TargetBytes() == old(slots[k].TargetBytes())
      ensures OthersOk(slots, owner, ring.slots, held, k) && Claimable(owner, slots[k].Buffers(), k)
    {
      assert forall j | 0 <= j < |slots| :: SlotOk(slots[j], j, owner, ring.slots[j], Holder(held, j));
      slots[k].Trim();
      UnclaimedEach(owner, slots[k].Buffers(), 8, k);
    }

    /** Replace the buffers of slot `k`, which nobody holds. */
    method TrimSlot(k: nat)
      requires Numbered(slots) && SlotsOk(slots, owner, ring.slots, held) && held == map[] && k < |slots|
      modifies slots[k], this`owner
      ensures SlotsOk(slots, owner, ring.slots, held)
      ensures slots[k].Bytes() == slots[k].TargetBytes() == old(slots[k].TargetBytes())
    {
      assert SlotOk(slots[k], k, owner, ring.slots[k], Holder(held, k));
      Renew(k);
      ClaimableAreForeign(slots, owner, ring.slots, held, k);
      owner := ClaimBuffers(slots, owner, ring.slots, held, k);
      SlotsWith(slots, owner, ring.slots, held, k, ring.slots[k], held);
    }

    /** Replace the buffers of every slot by ones of the given target sizes. */
    method TrimSlots(ghost targets: seq<nat>)
      requires Numbered(slots) && SlotsOk(slots, owner, ring.slots, held) && held == map[]
      requires |targets| == |slots| && forall j | 0 <= j < |slots| :: slots[j].TargetBytes() == targets[j]
      modifies slots, this`owner
      ensures SlotsOk(slots, owner, ring.slots, held)
      ensures forall j | 0 <= j < |slots| :: slots[j].Bytes() == slots[j].TargetBytes() == targets[j]
    {
      hide OwnsBuffers, Slot.Bytes, Slot.TargetBytes, Slot.Separate;
      for k := 0 to |slots|
        invariant SlotsOk(slots, owner, ring.slots, held)
        invariant forall j | 0 <= j < |slots| :: slots[j].TargetBytes() == targets[j]
        invariant forall j | 0 <= j < k :: slots[j].Bytes() == targets[j]
      {
        label L:
        TrimSlot(k);
        forall j | 0 <= j < |slots| && j != k
          ensures slots[j].TargetBytes() == targets[j] && slots[j].Bytes() == old@L(slots[j].Bytes())
        {
          assert slots[j].id == j && slots[j] != slots[k];
        }
      }
    }

    /** Every slot ends at the size its last build calls for. */
    method TrimAll()
      requires Valid() && held == map[]
      modifies slots, this`owner
      ensures Valid() && TotalBytes(slots, |slots|) == old(TotalTargets(slots, |slots|))
      ensures forall j | 0 <= j < |slots| :: slots[j].Bytes() == slots[j].TargetBytes()
    {
      hide TablesOk, Slot.Bytes, Slot.TargetBytes, OwnsBuffers, Slot.Separate;
      ghost var targets := ListTargets(slots);
      TrimSlots(targets);
      TotalIsSum(slots, targets, |slots|);
    }

    /** Count a trim; it starts the idle clock over. */
    method NoteTrim(freed: int, now: real)
      requires Valid()
      modifies this`backingBytesAllocated, this`idleTrims, this`idleBytesReclaimed
      modifies this`lastCapacityChangeAt, this`trimmedSinceGrowth
      ensures Valid() && backingBytesAllocated == old(backingBytesAllocated) - freed
      ensures idleTrims == old(idleTrims) + 1 && idleBytesReclaimed == old(idleBytesReclaimed) + freed
      ensures lastCapacityChangeAt == now && trimmedSinceGrowth
    {
      hide TablesOk, SlotsOk;
      backingBytesAllocated, idleTrims, idleBytesReclaimed :=
        backingBytesAllocated - freed, idleTrims + 1, idleBytesReclaimed + freed;
      lastCapacityChangeAt, trimmedSinceGrowth := now, true;
    }

    /** Trim every slot and count what that freed. */
    method TrimNow(allocatedBytes: int, now: real)
      requires Valid() && held == map[]
      modifies this, slots
      ensures Valid() && ring == old(ring) && held == old(held) && owners == old(owners)
      ensures TotalBytes(slots, |slots|) == old(TotalTargets(slots, |slots|))
      ensures forall j | 0 <= j < |slots| :: slots[j].Bytes() == slots[j].TargetBytes()
      ensures var freed := allocatedBytes - TotalBytes(slots, |slots|);
              && idleTrims == old(idleTrims) + 1 && idleBytesReclaimed == old(idleBytesReclaimed) + freed
              && backingBytesAllocated == old(backingBytesAllocated) - freed
              && lastCapacityChangeAt == now && trimmedSinceGrowth && idleRegrows == old(idleRegrows)
    {
      hide TablesOk, SlotsOk, Slot.Bytes, Slot.TargetBytes;
      TrimAll();
      NoteTrim(allocatedBytes - TotalBytes(slots, |slots|), now);
    }

    /** What the idle policy is asked about this builder. */
    ghost function IdleQuestion(lastActivityAt: real, now: real): IdleInput
      reads this, slots
    {
      IdleInput(now, TotalBytes(slots, |slots|), TotalTargets(slots, |slots|), CountInFlight(slots, |slots|), 0,
                lastActivityAt, lastCapacityChangeAt)
    }

    /** With none in flight nobody holds an update. */
    lemma NobodyHolds()
      requires Valid() && CountInFlight(slots, |slots|) == 0
      ensures held == map[]
    {
      forall i | i in held ensures false {
        assert SlotOk(slots[i], i, owner, ring.slots[i], Holder(held, i));
        NoneCounted(slots, |slots|, i);
      }
    }

    /**
      Give idle capacity back if the policy says so. Nothing is in flight then;
      every slot ends at the size its last build calls for, at least a mebibyte
      is freed, and at most a quarter stays.
      */
    method TrimIdle(lastActivityAt: real, now: real) returns (trimmed: bool)
      requires Valid()
      modifies this, slots
      ensures Valid() && ring == old(ring) && held == old(held) && owners == old(owners)
      ensures trimmed == old(ShouldReclaimIdleCapacity(IdleQuestion(lastActivityAt, now)))
      ensures trimmed ==> lastActivityAt + 30_000.0 <= now && old(lastCapacityChangeAt) + 60_000.0 <= now
      ensures !trimmed ==> unchanged(this) && unchanged(slots)
      ensures trimmed ==> held == map[] && TotalBytes(slots, |slots|) == old(TotalTargets(slots, |slots|))
      ensures trimmed ==> forall j | 0 <= j < |slots| :: slots[j].Bytes() == slots[j].TargetBytes()
      ensures trimmed ==>
                var freed := old(TotalBytes(slots, |slots|)) - TotalBytes(slots, |slots|);
                && freed >= MINIMUM_RECLAIM_BYTES && 4 * TotalBytes(slots, |slots|) <= old(TotalBytes(slots, |slots|))
                && idleTrims == old(idleTrims) + 1 && idleBytesReclaimed == old(idleBytesReclaimed) + freed
                && backingBytesAllocated == old(backingBytesAllocated) - freed
                && lastCapacityChangeAt == now && trimmedSinceGrowth && idleRegrows == old(idleRegrows)
      ensures old(Accounted()) ==> Accounted()
    {
      var allocatedBytes, targetBytes := TotalBytes(slots, |slots|), TotalTargets(slots, |slots|);
      var inFlight := CountInFlight(slots, |slots|);
      trimmed := ShouldReclaimIdleCapacity(
        IdleInput(now, allocatedBytes, targetBytes, inFlight, 0, lastActivityAt, lastCapacityChangeAt));
      if trimmed {
        NobodyHolds();
        TrimNow(allocatedBytes, now);
      }
    }
  }

  /** Typed arrays over the returned storage become the slot's own. */
  method StoreReturned(slot: Slot, buffers: ReturnedBuffers)
    modifies slot
    ensures !slot.inFlight && slot.leaseToken == old(slot.leaseToken)
    ensures slot.Buffers() == buffers.Buffers() && slot.Bytes() == buffers.Bytes()
    ensures slot.UsedBytes() == old(slot.UsedBytes())
  {
    slot.dirtyRows, slot.rowFlags := buffers.dirtyRows.view, buffers.rowFlags.view;
    slot.graphemeOffsets, slot.graphemeLengths := buffers.graphemeOffsets.view, buffers.graphemeLengths.view;
    slot.foregrounds, slot.backgrounds := buffers.foregrounds.view, buffers.backgrounds.view;
    slot.styles, slot.graphemes := buffers.styles.view, buffers.graphemes.view;
    slot.inFlight := false;
    assert slot.Buffers() == buffers.Buffers();
  }

  /** Pack into the slot's own buffers. */
  method FillSlot(slot: Slot, i: nat, ghost owner: Ownership, s: Snapshot, frameId: int, generation: int, full: bool)
    returns (update: RenderUpdate)
    requires slot.Separate() && OwnsBuffers(owner, slot, i)
    modifies slot, set b | b in owner && owner[b] == i
    ensures slot.Separate() && Claimable(owner, slot.Buffers(), i)
    ensures slot.inFlight && slot.leaseToken == old(slot.leaseToken) + 1
    ensures slot.UsedBytes() <= slot.Bytes() && slot.Bytes() >= old(slot.Bytes())
    ensures fresh(update) && update.Fits() && Views(update, slot)
    ensures update.Contents() == Pack(s, frameId, generation, full)
  {
    hide UsedBy, KeptOrBought, Pack, RenderUpdate.Contents;
    ghost var own := slot.Buffers();
    OwnsEach(owner, own, 8, i);
    assert own[0] == slot.dirtyRows && own[1] == slot.rowFlags && own[2] == slot.graphemeOffsets;
    assert own[3] == slot.graphemeLengths && own[4] == slot.foregrounds && own[5] == slot.backgrounds;
    assert own[6] == slot.styles && own[7] == slot.graphemes;
    update := slot.Build(s, frameId, generation, full);
    slot.NoneEmpty();
    slot.EachOwnOrFresh();
    UnclaimedEach(owner, slot.Buffers(), 8, i);
  }

  /** Views into unchanged buffers read the same. */
  twostate lemma SameContents(update: RenderUpdate)
    requires update.Fits() && forall k | 0 <= k < 8 :: update.Buffers()[k][..] == old(update.Buffers()[k][..])
    ensures update.Contents() == old(update.Contents())
  {
    var b := update.Buffers();
    assert b[0] == update.dirtyRows.buffer && b[1] == update.rowFlags.buffer;
    assert b[2] == update.graphemeOffsets.buffer && b[3] == update.graphemeLengths.buffer;
    assert b[4] == update.foregrounds.buffer && b[5] == update.backgrounds.buffer;
    assert b[6] == update.styles.buffer && b[7] == update.graphemes.buffer;
  }

  lemma {:induction false} NewTotal(slots: seq<Slot>, n: nat)
    requires n <= |slots| && forall j | 0 <= j < |slots| :: IsNew(slots[j], j)
    ensures TotalBytes(slots, n) == 24 * n
  {
    if n > 0 {
      NewTotal(slots, n - 1);
    }
  }

  /** New slots are in order, with nothing in flight and every byte counted. */
  lemma NewSlotsOk(slots: seq<Slot>, owner: Ownership)
    requires forall i | 0 <= i < |slots| :: IsNew(slots[i], i) && OwnsBuffers(owner, slots[i], i)
    ensures Numbered(slots) && SlotsOk(slots, owner, R.NewRing(|slots|).slots, map[])
    ensures TotalBytes(slots, |slots|) == 24 * |slots|
    ensures forall i | 0 <= i < |slots| :: slots[i].UsedBytes() <= slots[i].Bytes()
  {
    forall i | 0 <= i < |slots|
      ensures SlotOk(slots[i], i, owner, R.SlotState(false, 0), None) && slots[i].UsedBytes() <= slots[i].Bytes()
    {
      assert IsNew(slots[i], i);
    }
    NewTotal(slots, |slots|);
  }
}
