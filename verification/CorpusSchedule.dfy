/**
  The event schedule of a corpus fixture: writes that must cover the byte file
  exactly, in order, and observations that must be named, distinct and preceded
  by output. Numbers come from JSON and need not be whole.
  */
module CorpusSchedule {
  import opened Bytes

  const MAX_OBSERVATIONS := 128
  const MAX_CELL_PIXELS := 4096

  datatype Rgb = Rgb(r: real, g: real, b: real)

  datatype Event =
    | Write(offset: real, length: real)
    | Resize(columns: real, rows: real, cellWidth: real, cellHeight: real)
    | Reset
    | Theme(foreground: Rgb, background: Rgb, cursor: Rgb)
    | Scroll
    | Observe(id: string)

  datatype Limits = Limits(maxFixtureBytes: nat, maxColumns: nat, maxRows: nat, maxEvents: nat)

  datatype Fixture = Fixture(length: real, events: seq<Event>)

  datatype Verdict =
    | Accepted
    | BadLength
    | BadEventCount
    | BadEvent(index: nat)
    | NotCovered
    | BadObservationCount

  /** A safe whole number within bounds. */
  predicate Whole(value: real, minimum: int, maximum: int) {
    && value == value.Floor as real
    && -MAX_SAFE_INTEGER <= value.Floor <= MAX_SAFE_INTEGER
    && minimum <= value.Floor <= maximum
  }

  predicate ChannelsOk(color: Rgb) {
    Whole(color.r, 0, 255) && Whole(color.g, 0, 255) && Whole(color.b, 0, 255)
  }

  predicate IsAlphanumeric(c: char) {
    'a' <= c <= 'z' || '0' <= c <= '9'
  }

  /** The rest of an identifier: groups of letters and digits, joined by single hyphens. */
  predicate Groups(id: string, inGroup: bool) {
    if id == "" then inGroup
    else if IsAlphanumeric(id[0]) then Groups(id[1..], true)
    else id[0] == '-' && inGroup && Groups(id[1..], false)
  }

  predicate ValidId(id: string) {
    Groups(id, false)
  }

  /** A hyphen stands after a letter or digit. */
  predicate HyphenOk(id: string, inGroup: bool, i: nat)
    requires i < |id|
  {
    IsAlphanumeric(id[i]) || (id[i] == '-' && if i == 0 then inGroup else id[i - 1] != '-')
  }

  /** The pattern in words: no other characters, no hyphen at an end or next to another. */
  lemma {:induction false} GroupsIff(id: string, inGroup: bool)
    ensures Groups(id, inGroup) <==>
              && (forall i | 0 <= i < |id| :: HyphenOk(id, inGroup, i))
              && (if id == "" then inGroup else id[|id| - 1] != '-')
  {
    if id != "" {
      var rest, after := id[1..], IsAlphanumeric(id[0]);
      GroupsIff(rest, after);
      if HyphenOk(id, inGroup, 0) {
        forall i | 0 <= i < |rest| ensures HyphenOk(rest, after, i) <==> HyphenOk(id, inGroup, i + 1) {
        }
        assert (forall i | 0 <= i < |id| :: HyphenOk(id, inGroup, i)) ==>
                 forall i | 0 <= i < |rest| :: HyphenOk(rest, after, i);
        if forall i | 0 <= i < |rest| :: HyphenOk(rest, after, i) {
          forall i | 0 <= i < |id| ensures HyphenOk(id, inGroup, i) {
            if i > 0 {
              assert HyphenOk(rest, after, i - 1);
            }
          }
        }
      }
    }
  }

  predicate IsLetterOrDigit(c: char) {
    c in "abcdefghijklmnopqrstuvwxyz0123456789"
  }

  lemma AlphanumericIff(c: char)
    ensures IsAlphanumeric(c) <==> IsLetterOrDigit(c)
  {
  }

  lemma HyphensOkIff(id: string)
    ensures (forall i | 0 <= i < |id| :: HyphenOk(id, false, i)) <==>
              && (id != "" ==> id[0] != '-')
              && (forall i | 0 <= i < |id| :: id[i] == '-' || IsAlphanumeric(id[i]))
              && (forall i | 0 < i < |id| :: id[i] == '-' ==> id[i - 1] != '-')
  {
    if forall i | 0 <= i < |id| :: HyphenOk(id, false, i) {
      assert id != "" ==> HyphenOk(id, false, 0);
      forall i | 0 < i < |id| && id[i] == '-' ensures id[i - 1] != '-' {
        assert HyphenOk(id, false, i);
      }
      forall i | 0 <= i < |id| ensures id[i] == '-' || IsAlphanumeric(id[i]) {
        assert HyphenOk(id, false, i);
      }
    }
  }

  /** An identifier: small letters, digits and hyphens, with no hyphen at an end or beside another. */
  lemma IdentifierIff(id: string)
    ensures ValidId(id) <==>
              && id != "" && id[0] != '-' && id[|id| - 1] != '-'
              && (forall i | 0 <= i < |id| :: id[i] == '-' || IsLetterOrDigit(id[i]))
              && (forall i | 0 < i < |id| :: id[i] == '-' ==> id[i - 1] != '-')
  {
    GroupsIff(id, false);
    HyphensOkIff(id);
    hide Groups, HyphenOk, IsAlphanumeric, IsLetterOrDigit;
    forall c: char ensures IsAlphanumeric(c) <==> IsLetterOrDigit(c) {
      AlphanumericIff(c);
    }
  }

  /** Bytes written by the first `n` events. */
  function Written(events: seq<Event>, n: nat): int
    requires n <= |events|
  {
    if n == 0 then 0
    else Written(events, n - 1) + if events[n - 1].Write? then events[n - 1].length.Floor else 0
  }

  /** Observations among the first `n` events. */
  function Observed(events: seq<Event>, n: nat): nat
    requires n <= |events|
  {
    if n == 0 then 0 else Observed(events, n - 1) + if events[n - 1].Observe? then 1 else 0
  }

  /** The numbers of an event are whole and in range. */
  predicate NumbersOk(event: Event, limits: Limits, length: int) {
    match event
    case Write(offset, size) => Whole(offset, 0, length) && Whole(size, 1, length)
    case Resize(columns, rows, cellWidth, cellHeight) =>
      && Whole(columns, 1, limits.maxColumns) && Whole(rows, 1, limits.maxRows)
      && Whole(cellWidth, 1, MAX_CELL_PIXELS) && Whole(cellHeight, 1, MAX_CELL_PIXELS)
    case Theme(foreground, background, cursor) => ChannelsOk(foreground) && ChannelsOk(background) && ChannelsOk(cursor)
    case _ => true
  }

  predicate IsInteger(value: real, n: int) {
    value == n as real
  }

  /** A number as it comes from JSON is one of `minimum..=maximum`, and an integer that doubles hold exactly. */
  ghost predicate IsIn(value: real, minimum: int, maximum: int) {
    exists n :: IsInteger(value, n) && minimum <= n <= maximum && -0x1F_FFFF_FFFF_FFFF <= n <= 0x1F_FFFF_FFFF_FFFF
  }

  lemma WholeIff(value: real, minimum: int, maximum: int)
    ensures Whole(value, minimum, maximum) <==> IsIn(value, minimum, maximum)
  {
    assert IsInteger(value, value.Floor) <==> exists n :: IsInteger(value, n);
  }

  /** Sizes lie within their own limits, writes within the file, colors within a byte a channel. */
  lemma NumbersIff(event: Event, limits: Limits, length: int)
    ensures event.Resize? ==>
              (NumbersOk(event, limits, length) <==>
                 && IsIn(event.columns, 1, limits.maxColumns) && IsIn(event.rows, 1, limits.maxRows)
                 && IsIn(event.cellWidth, 1, 4096) && IsIn(event.cellHeight, 1, 4096))
    ensures event.Write? ==>
              (NumbersOk(event, limits, length) <==>
                 IsIn(event.offset, 0, length) && IsIn(event.length, 1, length))
    ensures event.Theme? ==>
              (NumbersOk(event, limits, length) <==>
                 forall color | color in {event.foreground, event.background, event.cursor} ::
                   IsIn(color.r, 0, 255) && IsIn(color.g, 0, 255) && IsIn(color.b, 0, 255))
    ensures event.Reset? || event.Scroll? || event.Observe? ==> NumbersOk(event, limits, length)
  {
    hide Whole, IsIn;
    match event
    case Resize(columns, rows, cellWidth, cellHeight) =>
      WholeIff(columns, 1, limits.maxColumns);
      WholeIff(rows, 1, limits.maxRows);
      WholeIff(cellWidth, 1, MAX_CELL_PIXELS);
      WholeIff(cellHeight, 1, MAX_CELL_PIXELS);
    case Write(offset, size) =>
      WholeIff(offset, 0, length);
      WholeIff(size, 1, length);
    case Theme(foreground, background, cursor) =>
      forall color: Rgb
        ensures ChannelsOk(color) <==> IsIn(color.r, 0, 255) && IsIn(color.g, 0, 255) && IsIn(color.b, 0, 255)
      {
        WholeIff(color.r, 0, 255);
        WholeIff(color.g, 0, 255);
        WholeIff(color.b, 0, 255);
      }
    case _ =>
  }

  /** Event `i` goes on where the writes so far ended, or observes something new after some output. */
  predicate EventFits(events: seq<Event>, i: nat, limits: Limits, length: int)
    requires i < |events|
  {
    && NumbersOk(events[i], limits, length)
    && match events[i]
       case Write(offset, size) => offset.Floor == Written(events, i) && offset.Floor + size.Floor <= length
       case Observe(id) =>
         && ValidId(id) && (forall j | 0 <= j < i :: events[j] != events[i])
         && Written(events, i) != 0
       case _ => true
  }

  predicate ScheduleOk(fixture: Fixture, limits: Limits) {
    var length, n := fixture.length.Floor, |fixture.events|;
    && Whole(fixture.length, 1, limits.maxFixtureBytes) && 1 <= n <= limits.maxEvents
    && (forall i | 0 <= i < n :: EventFits(fixture.events, i, limits, length))
    && Written(fixture.events, n) == length && 1 <= Observed(fixture.events, n) <= MAX_OBSERVATIONS
  }

  /** Check a fixture's schedule event by event. */
  method ValidateSchedule(fixture: Fixture, limits: Limits) returns (verdict: Verdict)
    ensures verdict == Accepted <==> ScheduleOk(fixture, limits)
    ensures verdict.BadEvent? ==>
              && verdict.index < |fixture.events|
              && !EventFits(fixture.events, verdict.index, limits, fixture.length.Floor)
              && forall j | 0 <= j < verdict.index :: EventFits(fixture.events, j, limits, fixture.length.Floor)
    ensures verdict == BadLength <==> !Whole(fixture.length, 1, limits.maxFixtureBytes)
    ensures verdict == BadEventCount <==>
              verdict != BadLength && !(1 <= |fixture.events| <= limits.maxEvents)
    ensures verdict == NotCovered || verdict == BadObservationCount ==>
              forall j | 0 <= j < |fixture.events| :: EventFits(fixture.events, j, limits, fixture.length.Floor)
    ensures verdict == NotCovered ==> Written(fixture.events, |fixture.events|) != fixture.length.Floor
    ensures verdict == BadObservationCount ==>
              && Written(fixture.events, |fixture.events|) == fixture.length.Floor
              && !(1 <= Observed(fixture.events, |fixture.events|) <= 128)
  {
    if !Whole(fixture.length, 1, limits.maxFixtureBytes) {
      return BadLength;
    }
    var events, length := fixture.events, fixture.length.Floor;
    if !(1 <= |events| <= limits.maxEvents) {
      return BadEventCount;
    }
    var consumed, observations := 0, 0;
    var ids: set<string> := {};
    for i := 0 to |events|
      invariant consumed == Written(events, i) && observations == Observed(events, i)
      invariant forall id :: id in ids <==> exists j :: 0 <= j < i && events[j] == Observe(id)
      invariant forall j | 0 <= j < i :: EventFits(events, j, limits, length)
    {
      if !NumbersOk(events[i], limits, length) {
        assert !EventFits(events, i, limits, length);
        return BadEvent(i);
      }
      match events[i]
      case Write(offset, size) =>
        if offset.Floor != consumed || offset.Floor + size.Floor > length {
          assert !EventFits(events, i, limits, length);
          return BadEvent(i);
        }
        consumed := consumed + size.Floor;
      case Observe(id) =>
        if !ValidId(id) || id in ids || consumed == 0 {
          if id in ids {
            ghost var j :| 0 <= j < i && events[j] == Observe(id);
            assert events[j] == events[i];
          }
          assert !EventFits(events, i, limits, length);
          return BadEvent(i);
        }
        ids := ids + {id};
        observations := observations + 1;
      case _ =>
    }
    if consumed != length {
      return NotCovered;
    }
    if !(1 <= observations <= MAX_OBSERVATIONS) {
      return BadObservationCount;
    }
    verdict := Accepted;
  }

  /** The slices of the first `n` events' writes, joined. */
  function Delivered(events: seq<Event>, payload: seq<Byte>, n: nat): seq<Byte>
    requires n <= |events|
    requires forall i | 0 <= i < n && events[i].Write? ::
               0 <= events[i].offset.Floor && 0 <= events[i].length.Floor
               && events[i].offset.Floor + events[i].length.Floor <= |payload|
  {
    if n == 0 then []
    else if !events[n - 1].Write? then Delivered(events, payload, n - 1)
    else
      var from := events[n - 1].offset.Floor;
      Delivered(events, payload, n - 1) + payload[from..from + events[n - 1].length.Floor]
  }

  lemma {:induction false} WritesFit(fixture: Fixture, limits: Limits, n: nat)
    requires ScheduleOk(fixture, limits) && n <= |fixture.events|
    ensures 0 <= Written(fixture.events, n) <= fixture.length.Floor
  {
    if n > 0 {
      WritesFit(fixture, limits, n - 1);
      assert EventFits(fixture.events, n - 1, limits, fixture.length.Floor);
    }
  }

  lemma {:induction false} DeliveredIsPrefix(fixture: Fixture, limits: Limits, payload: seq<Byte>, n: nat)
    requires ScheduleOk(fixture, limits) && |payload| == fixture.length.Floor && n <= |fixture.events|
    ensures 0 <= Written(fixture.events, n) <= |payload|
    ensures forall i | 0 <= i < n && fixture.events[i].Write? ::
              0 <= fixture.events[i].offset.Floor && 0 <= fixture.events[i].length.Floor
              && fixture.events[i].offset.Floor + fixture.events[i].length.Floor <= |payload|
    ensures Delivered(fixture.events, payload, n) == payload[..Written(fixture.events, n)]
  {
    WritesFit(fixture, limits, n);
    forall i | 0 <= i < n && fixture.events[i].Write?
      ensures 0 <= fixture.events[i].offset.Floor && 0 <= fixture.events[i].length.Floor
      ensures fixture.events[i].offset.Floor + fixture.events[i].length.Floor <= |payload|
    {
      assert EventFits(fixture.events, i, limits, fixture.length.Floor);
    }
    if n > 0 {
      DeliveredIsPrefix(fixture, limits, payload, n - 1);
      assert EventFits(fixture.events, n - 1, limits, fixture.length.Floor);
      if fixture.events[n - 1].Write? {
        var from := Written(fixture.events, n - 1);
        var to := Written(fixture.events, n);
        assert payload[..from] + payload[from..to] == payload[..to];
      }
    }
  }

  /** An accepted schedule delivers the byte file, whatever its contents: every byte, in order, nothing twice. */
  lemma ScheduleCovers(fixture: Fixture, limits: Limits, payload: seq<Byte>)
    requires ScheduleOk(fixture, limits) && |payload| == fixture.length.Floor
    ensures forall i | 0 <= i < |fixture.events| && fixture.events[i].Write? ::
              0 <= fixture.events[i].offset.Floor && 0 <= fixture.events[i].length.Floor
              && fixture.events[i].offset.Floor + fixture.events[i].length.Floor <= |payload|
    ensures Delivered(fixture.events, payload, |fixture.events|) == payload
  {
    DeliveredIsPrefix(fixture, limits, payload, |fixture.events|);
  }

  predicate Holds(event: Event, k: int) {
    event.Write? && event.offset.Floor <= k < event.offset.Floor + event.length.Floor
  }

  lemma {:induction false} WritesAscend(fixture: Fixture, limits: Limits, i: nat, j: nat)
    requires ScheduleOk(fixture, limits) && i <= j <= |fixture.events|
    ensures Written(fixture.events, i) <= Written(fixture.events, j)
  {
    if i < j {
      WritesAscend(fixture, limits, i, j - 1);
      assert EventFits(fixture.events, j - 1, limits, fixture.length.Floor);
    }
  }

  lemma {:induction false} SomeWriteHolds(fixture: Fixture, limits: Limits, k: nat, n: nat) returns (i: nat)
    requires ScheduleOk(fixture, limits) && n <= |fixture.events| && k < Written(fixture.events, n)
    ensures i < n && Holds(fixture.events[i], k)
  {
    assert EventFits(fixture.events, n - 1, limits, fixture.length.Floor);
    if k < Written(fixture.events, n - 1) {
      i := SomeWriteHolds(fixture, limits, k, n - 1);
    } else {
      i := n - 1;
    }
  }

  /** The writes of an accepted schedule partition the byte file: each byte is in exactly one. */
  lemma WritesPartition(fixture: Fixture, limits: Limits, k: nat) returns (i: nat)
    requires ScheduleOk(fixture, limits) && k < fixture.length.Floor
    ensures i < |fixture.events| && Holds(fixture.events[i], k)
    ensures forall j | 0 <= j < |fixture.events| && Holds(fixture.events[j], k) :: j == i
  {
    i := SomeWriteHolds(fixture, limits, k, |fixture.events|);
    assert EventFits(fixture.events, i, limits, fixture.length.Floor);
    forall j | 0 <= j < |fixture.events| && Holds(fixture.events[j], k) ensures j == i {
      assert EventFits(fixture.events, j, limits, fixture.length.Floor);
      if i < j {
        WritesAscend(fixture, limits, i + 1, j);
      } else if j < i {
        WritesAscend(fixture, limits, j + 1, i);
      }
    }
  }

  lemma {:induction false} ObservedCounts(events: seq<Event>, n: nat)
    requires n <= |events|
    ensures Observed(events, n) == |set i | 0 <= i < n && events[i].Observe?|
  {
    if n > 0 {
      ObservedCounts(events, n - 1);
      var before, after := set i | 0 <= i < n - 1 && events[i].Observe?, set i | 0 <= i < n && events[i].Observe?;
      assert after == before + if events[n - 1].Observe? then {n - 1} else {};
    }
  }

  /** An accepted schedule has at least one observation and at most 128. */
  lemma FewObservations(fixture: Fixture, limits: Limits)
    requires ScheduleOk(fixture, limits)
    ensures 1 <= |set i | 0 <= i < |fixture.events| && fixture.events[i].Observe?| <= 128
  {
    ObservedCounts(fixture.events, |fixture.events|);
  }

  /** Observations have distinct names, and each comes after a write. */
  lemma {:induction false} ObservationsFollowWrites(fixture: Fixture, limits: Limits, i: nat)
    requires ScheduleOk(fixture, limits) && i < |fixture.events| && fixture.events[i].Observe?
    ensures exists w :: 0 <= w < i && fixture.events[w].Write?
    ensures forall j | 0 <= j < |fixture.events| && j != i && fixture.events[j].Observe? ::
              fixture.events[j].id != fixture.events[i].id
  {
    assert EventFits(fixture.events, i, limits, fixture.length.Floor);
    WritesFit(fixture, limits, i);
    var w := SomeWriteHolds(fixture, limits, 0, i);
    assert fixture.events[w].Write?;
    forall j | 0 <= j < |fixture.events| && j != i && fixture.events[j].Observe?
      ensures fixture.events[j].id != fixture.events[i].id
    {
      assert EventFits(fixture.events, j, limits, fixture.length.Floor);
      assert fixture.events[i] == Observe(fixture.events[i].id) && fixture.events[j] == Observe(fixture.events[j].id);
    }
  }
}
