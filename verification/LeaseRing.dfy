/**
  The ownership protocol of the update ring: at most three slots, each leased
  under a fresh token, each token given back at most once.
  */
module LeaseRing {
  import opened Bytes
  import opened Options

  datatype SlotState = SlotState(inFlight: bool, token: nat)

  datatype Ring = Ring(
    slots: seq<SlotState>,
    leasesBuilt: nat,
    leasesReclaimed: nat,
    reclaimRejected: nat,
    noFreeSlot: nat,
    maxInFlight: nat)

  /** A slot number with the token it was leased under. */
  type Ticket = (nat, nat)

  /** The first slot from `from` on that is not in flight, or the slot count. */
  function FreeFrom(slots: seq<SlotState>, from: nat): (i: nat)
    requires from <= |slots|
    ensures from <= i <= |slots|
    ensures i < |slots| ==> !slots[i].inFlight
    ensures forall k | from <= k < i :: slots[k].inFlight
    decreases |slots| - from
  {
    if from == |slots| || !slots[from].inFlight then from else FreeFrom(slots, from + 1)
  }

  function FirstFree(slots: seq<SlotState>): (i: nat)
    ensures i <= |slots|
    ensures i < |slots| ==> !slots[i].inFlight
    ensures forall k | 0 <= k < i :: slots[k].inFlight
  {
    FreeFrom(slots, 0)
  }

  /** How many of the first `n` slots are in flight. */
  function CountInFlight(slots: seq<SlotState>, n: nat): (count: nat)
    requires n <= |slots|
    ensures count <= n
  {
    if n == 0 then 0 else CountInFlight(slots, n - 1) + if slots[n - 1].inFlight then 1 else 0
  }

  function InFlight(slots: seq<SlotState>): (count: nat)
    ensures count <= |slots|
  {
    CountInFlight(slots, |slots|)
  }

  function Max(a: nat, b: nat): nat {
    if a >= b then a else b
  }

  /** Lease the first free slot under its next token, or count the refusal. */
  function Acquire(ring: Ring): (Option<Ticket>, Ring) {
    var i := FirstFree(ring.slots);
    if i == |ring.slots| then (None, ring.(noFreeSlot := ring.noFreeSlot + 1))
    else
      var slots := ring.slots[i := SlotState(true, ring.slots[i].token + 1)];
      (Some((i, slots[i].token)),
       ring.(slots := slots, leasesBuilt := ring.leasesBuilt + 1,
             maxInFlight := Max(ring.maxInFlight, InFlight(slots))))
  }

  predicate Accepts(ring: Ring, slotId: int, token: int, buffersOk: bool) {
    && 0 <= slotId < |ring.slots|
    && ring.slots[slotId].inFlight && ring.slots[slotId].token == token && buffersOk
  }

  /** Take a lease back; anything stale, repeated or malformed is only counted. */
  function Return(ring: Ring, slotId: int, token: int, buffersOk: bool): (bool, Ring) {
    if Accepts(ring, slotId, token, buffersOk) then
      (true, ring.(slots := ring.slots[slotId := ring.slots[slotId].(inFlight := false)],
                   leasesReclaimed := ring.leasesReclaimed + 1))
    else (false, ring.(reclaimRejected := ring.reclaimRejected + 1))
  }

  datatype Op = Lease | GiveBack(slotId: int, token: int, buffersOk: bool)

  /** A ring together with every ticket it has issued and taken back so far. */
  datatype History = History(ring: Ring, issued: seq<Ticket>, accepted: seq<Ticket>)

  function Apply(h: History, op: Op): History {
    match op
    case Lease =>
      var (ticket, ring) := Acquire(h.ring);
      History(ring, if ticket.Some? then h.issued + [ticket.value] else h.issued, h.accepted)
    case GiveBack(slotId, token, buffersOk) =>
      var (ok, ring) := Return(h.ring, slotId, token, buffersOk);
      History(ring, h.issued, if ok then h.accepted + [(slotId, token)] else h.accepted)
  }

  function Run(h: History, ops: seq<Op>): History {
    if ops == [] then h else Apply(Run(h, ops[..|ops| - 1]), ops[|ops| - 1])
  }

  function NewRing(count: nat): Ring {
    Ring(seq(count, _ => SlotState(false, 0)), 0, 0, 0, 0, 0)
  }

  /** An accepted ticket can never be accepted again. */
  predicate Spent(ring: Ring, ticket: Ticket) {
    && ticket.0 < |ring.slots|
    && (ticket.1 < ring.slots[ticket.0].token
        || (ticket.1 == ring.slots[ticket.0].token && !ring.slots[ticket.0].inFlight))
  }

  predicate Distinct(tickets: seq<Ticket>) {
    forall i, j | 0 <= i < j < |tickets| :: tickets[i] != tickets[j]
  }

  ghost predicate CountsOk(ring: Ring) {
    && ring.leasesBuilt == ring.leasesReclaimed + InFlight(ring.slots)
    && InFlight(ring.slots) <= ring.maxInFlight <= |ring.slots|
  }

  ghost predicate TicketsOk(h: History) {
    && |h.issued| == h.ring.leasesBuilt && |h.accepted| == h.ring.leasesReclaimed
    && Distinct(h.issued) && Distinct(h.accepted)
    && (forall t | t in h.issued :: t.0 < |h.ring.slots| && t.1 <= h.ring.slots[t.0].token)
    && (forall t | t in h.accepted :: Spent(h.ring, t) && t in h.issued)
    && (forall i | 0 <= i < |h.ring.slots| && h.ring.slots[i].inFlight :: (i, h.ring.slots[i].token) in h.issued)
  }

  ghost predicate Inv(h: History) {
    CountsOk(h.ring) && TicketsOk(h)
  }

  lemma {:induction false} CountUpdate(slots: seq<SlotState>, i: nat, state: SlotState, n: nat)
    requires i < |slots| && n <= |slots|
    ensures CountInFlight(slots[i := state], n)
            == CountInFlight(slots, n) + if i < n then Bit(state.inFlight) - Bit(slots[i].inFlight) else 0
  {
    if n > 0 {
      CountUpdate(slots, i, state, n - 1);
    }
  }

  lemma {:induction false} InFlightUpdate(slots: seq<SlotState>, i: nat, state: SlotState)
    requires i < |slots|
    ensures InFlight(slots[i := state]) == InFlight(slots) + Bit(state.inFlight) - Bit(slots[i].inFlight)
  {
    CountUpdate(slots, i, state, |slots|);
  }

  lemma {:induction false} NoneInFlight(slots: seq<SlotState>, n: nat)
    requires n <= |slots| && forall i | 0 <= i < |slots| :: !slots[i].inFlight
    ensures CountInFlight(slots, n) == 0
  {
    if n > 0 {
      NoneInFlight(slots, n - 1);
    }
  }

  lemma NothingInFlight(count: nat)
    ensures InFlight(NewRing(count).slots) == 0
  {
    NoneInFlight(NewRing(count).slots, count);
  }

  lemma CountsKept(ring: Ring, slotId: int, token: int, buffersOk: bool)
    requires CountsOk(ring)
    ensures CountsOk(Acquire(ring).1) && CountsOk(Return(ring, slotId, token, buffersOk).1)
  {
    var i := FirstFree(ring.slots);
    if i < |ring.slots| {
      InFlightUpdate(ring.slots, i, SlotState(true, ring.slots[i].token + 1));
    }
    if Accepts(ring, slotId, token, buffersOk) {
      InFlightUpdate(ring.slots, slotId, ring.slots[slotId].(inFlight := false));
    }
  }

  lemma DistinctSnoc(tickets: seq<Ticket>, ticket: Ticket)
    requires Distinct(tickets) && ticket !in tickets
    ensures Distinct(tickets + [ticket])
  {
    assert forall k | 0 <= k < |tickets| :: tickets[k] in tickets;
  }

  lemma LeaseTickets(h: History)
    requires TicketsOk(h)
    ensures TicketsOk(Apply(h, Lease))
  {
    var i := FirstFree(h.ring.slots);
    if i < |h.ring.slots| {
      var ticket := (i, h.ring.slots[i].token + 1);
      var next := Apply(h, Lease);
      assert next.issued == h.issued + [ticket] && next.accepted == h.accepted;
      DistinctSnoc(h.issued, ticket);
      forall t | t in next.issued ensures t.0 < |next.ring.slots| && t.1 <= next.ring.slots[t.0].token {
        assert t == ticket || t in h.issued;
      }
      forall t | t in next.accepted ensures Spent(next.ring, t) && t in next.issued {
        assert Spent(h.ring, t) && t in h.issued;
      }
    }
  }

  lemma GiveBackTickets(h: History, slotId: int, token: int, buffersOk: bool)
    requires TicketsOk(h)
    ensures TicketsOk(Apply(h, GiveBack(slotId, token, buffersOk)))
  {
    if Accepts(h.ring, slotId, token, buffersOk) {
      assert !Spent(h.ring, (slotId, token));
      DistinctSnoc(h.accepted, (slotId, token));
    }
  }

  lemma {:induction false} RunKeeps(count: nat, ops: seq<Op>)
    ensures var h := Run(History(NewRing(count), [], []), ops);
            Inv(h) && |h.ring.slots| == count
  {
    NothingInFlight(count);
    if ops != [] {
      RunKeeps(count, ops[..|ops| - 1]);
      var h := Run(History(NewRing(count), [], []), ops[..|ops| - 1]);
      match ops[|ops| - 1]
      case Lease =>
        CountsKept(h.ring, 0, 0, false);
        LeaseTickets(h);
      case GiveBack(slotId, token, buffersOk) =>
        CountsKept(h.ring, slotId, token, buffersOk);
        GiveBackTickets(h, slotId, token, buffersOk);
    }
  }

  /**
    Lease linearity over every run: nothing is lost between built and reclaimed,
    never more than the slots are out, no ticket is issued twice or accepted
    twice, and only issued tickets are accepted.
    */
  lemma LeasesAreLinear(count: nat, ops: seq<Op>)
    ensures var h := Run(History(NewRing(count), [], []), ops);
            && h.ring.leasesBuilt == h.ring.leasesReclaimed + InFlight(h.ring.slots)
            && InFlight(h.ring.slots) <= h.ring.maxInFlight <= count
            && Distinct(h.issued) && Distinct(h.accepted)
            && (forall t | t in h.accepted :: t in h.issued)
            && |h.issued| == h.ring.leasesBuilt && |h.accepted| == h.ring.leasesReclaimed
  {
    RunKeeps(count, ops);
  }

  /** A spent ticket stays spent and is refused without touching any slot. */
  lemma SpentIsRefused(ring: Ring, ticket: Ticket, buffersOk: bool, op: Op)
    requires Spent(ring, ticket)
    ensures var (ok, after) := Return(ring, ticket.0, ticket.1, buffersOk);
            !ok && after.slots == ring.slots && after.leasesReclaimed == ring.leasesReclaimed
    ensures Spent(Apply(History(ring, [], []), op).ring, ticket)
  {
  }

  /** A lease is refused exactly if every slot is in flight; else the first free one goes out under its next token. */
  lemma LeasesFirstFree(ring: Ring)
    ensures var (ticket, after) := Acquire(ring);
            if forall i | 0 <= i < |ring.slots| :: ring.slots[i].inFlight then ticket.None? && after.slots == ring.slots
            else
              && ticket.Some?
              && var (i, token) := ticket.value;
                 && i < |ring.slots| && !ring.slots[i].inFlight && token == ring.slots[i].token + 1
                 && (forall k | 0 <= k < i :: ring.slots[k].inFlight)
                 && after.slots == ring.slots[i := SlotState(true, token)]
  {
  }

  /** A return is accepted exactly for a slot in flight under that token, with usable storage, and frees it alone. */
  lemma ReturnsCurrent(ring: Ring, slotId: int, token: int, buffersOk: bool)
    ensures var (ok, after) := Return(ring, slotId, token, buffersOk);
            && (ok <==> && buffersOk && 0 <= slotId < |ring.slots|
                        && ring.slots[slotId].inFlight && ring.slots[slotId].token == token)
            && |after.slots| == |ring.slots|
            && forall i | 0 <= i < |ring.slots| ::
                 && after.slots[i].token == ring.slots[i].token
                 && after.slots[i].inFlight == (ring.slots[i].inFlight && !(ok && i == slotId))
  {
  }

  /** How many of the operations ask for a lease. */
  function Leases(ops: seq<Op>): nat {
    if ops == [] then 0 else Leases(ops[..|ops| - 1]) + if ops[|ops| - 1].Lease? then 1 else 0
  }

  /** Each request is counted as a lease or as a refusal, each return as taken or as rejected. */
  lemma {:induction false} CallsAreCounted(count: nat, ops: seq<Op>)
    ensures var ring := Run(History(NewRing(count), [], []), ops).ring;
            && ring.leasesBuilt + ring.noFreeSlot == Leases(ops)
            && ring.leasesReclaimed + ring.reclaimRejected == |ops| - Leases(ops)
  {
    if ops != [] {
      CallsAreCounted(count, ops[..|ops| - 1]);
    }
  }

  lemma PeakStep(h: History, op: Op)
    requires Inv(h)
    ensures var after := Apply(h, op).ring;
            && (after.maxInFlight == h.ring.maxInFlight || after.maxInFlight == InFlight(after.slots))
            && h.ring.maxInFlight <= after.maxInFlight && InFlight(after.slots) <= after.maxInFlight
  {
    match op
    case Lease => CountsKept(h.ring, 0, 0, false);
    case GiveBack(slotId, token, buffersOk) => CountsKept(h.ring, slotId, token, buffersOk);
  }

  /** In flight after the first `k` operations. */
  function InFlightAfter(count: nat, ops: seq<Op>, k: nat): nat
    requires k <= |ops|
  {
    InFlight(Run(History(NewRing(count), [], []), ops[..k]).ring.slots)
  }

  /** The highest count is the most that were in flight at any time, and were at some time. */
  lemma {:induction false} PeakIsReached(count: nat, ops: seq<Op>) returns (at: nat)
    ensures var peak := Run(History(NewRing(count), [], []), ops).ring.maxInFlight;
            && at <= |ops| && peak == InFlightAfter(count, ops, at)
            && forall k | 0 <= k <= |ops| :: InFlightAfter(count, ops, k) <= peak
  {
    hide Apply, InFlight, Inv;
    NothingInFlight(count);
    if ops == [] {
      at := 0;
      assert ops[..0] == [];
    } else {
      var front := ops[..|ops| - 1];
      RunKeeps(count, front);
      at := PeakIsReached(count, front);
      PeakStep(Run(History(NewRing(count), [], []), front), ops[|ops| - 1]);
      assert ops[..|ops|] == ops;
      forall k | 0 <= k <= |front| ensures InFlightAfter(count, ops, k) == InFlightAfter(count, front, k) {
        assert ops[..k] == front[..k];
      }
      hide InFlightAfter;
      if Run(History(NewRing(count), [], []), ops).ring.maxInFlight != InFlightAfter(count, ops, at) {
        at := |ops|;
      }
    }
  }
}
