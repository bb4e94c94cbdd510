/**
  Sortable identifiers in the layout of section 5.7 of RFC 9562: 48 bits of
  milliseconds, a version nibble, a 12-bit counter as in section 6.2, a variant
  and random bits, written as hexadecimal text.
  */
module SortableIds {
  import opened Bytes

  const TIME_RANGE := 0x1_0000_0000_0000
  const COUNTER_RANGE := 0x1000

  /** The generator's memory: the last timestamp and counter, -1 before the first call. */
  datatype Clock = Clock(lastTimestamp: int, lastRandom: int)

  const NEW_CLOCK := Clock(-1, -1)

  /** A call: the time it is given and the random bits it draws. */
  datatype Call = Call(now: int, word: U16, noise: seq<Byte>)

  predicate CallOk(call: Call) {
    |call.noise| == 16
  }

  /** Time never goes back; within one timestamp the counter goes up by one, cut to 12 bits. */
  function Next(clock: Clock, now: int, word: U16): (next: Clock)
    ensures 0 <= next.lastRandom < COUNTER_RANGE
  {
    var timestamp := if now >= clock.lastTimestamp then now else clock.lastTimestamp;
    Clock(timestamp,
          if timestamp == clock.lastTimestamp then (clock.lastRandom + 1) % COUNTER_RANGE else word % COUNTER_RANGE)
  }

  /** The sixteen bytes of an identifier. */
  function Stamp(clock: Clock, noise: seq<Byte>): (bytes: seq<Byte>)
    requires |noise| == 16
    ensures |bytes| == 16
  {
    var t, r := clock.lastTimestamp, clock.lastRandom;
    [t / 0x100_0000_0000 % 0x100, t / 0x1_0000_0000 % 0x100, t / 0x100_0000 % 0x100, t / 0x1_0000 % 0x100,
     t / 0x100 % 0x100, t % 0x100, 0x70 + r / 0x100 % 0x10, r % 0x100, 0x80 + noise[8] % 0x40] + noise[9..]
  }

  function HexDigit(n: nat): char
    requires n < 16
  {
    if n < 10 then '0' + n as char else 'a' + (n - 10) as char
  }

  function Hex(bytes: seq<Byte>): (text: string)
    ensures |text| == 2 * |bytes|
  {
    if bytes == [] then ""
    else
      var last := bytes[|bytes| - 1];
      Hex(bytes[..|bytes| - 1]) + [HexDigit(last / 16), HexDigit(last % 16)]
  }

  /** Groups of 8, 4, 4, 4 and 12 digits. */
  function Dashed(hex: string): (text: string)
    requires |hex| == 32
    ensures |text| == 36
  {
    hex[..8] + "-" + hex[8..12] + "-" + hex[12..16] + "-" + hex[16..20] + "-" + hex[20..]
  }

  function IdOf(clock: Clock, noise: seq<Byte>): (id: string)
    requires |noise| == 16
    ensures |id| == 36
  {
    Dashed(Hex(Stamp(clock, noise)))
  }

  class IdGenerator {
    var lastTimestamp: int
    var lastRandom: int

    ghost function State(): Clock
      reads this
    {
      Clock(lastTimestamp, lastRandom)
    }

    constructor ()
      ensures State() == NEW_CLOCK
    {
      lastTimestamp, lastRandom := -1, -1;
    }

    method CreateId(now: int, word: U16, noise: seq<Byte>) returns (id: string)
      requires |noise| == 16
      modifies this
      ensures State() == Next(old(State()), now, word)
      ensures id == IdOf(State(), noise)
    {
      var timestamp := if now >= lastTimestamp then now else lastTimestamp;
      var random := if timestamp == lastTimestamp then (lastRandom + 1) % COUNTER_RANGE else word % COUNTER_RANGE;
      lastTimestamp, lastRandom := timestamp, random;
      hide Stamp, Hex, Dashed;
      var bytes := StampBytes(timestamp, random, noise);
      id := Dashed(Hex(bytes));
    }
  }

  /** Random bytes, overwritten in place with time, version, counter and variant. */
  method StampBytes(timestamp: int, random: nat, noise: seq<Byte>) returns (stamp: seq<Byte>)
    requires |noise| == 16
    ensures stamp == Stamp(Clock(timestamp, random), noise)
  {
    var bytes := new Byte[16](i requires 0 <= i < 16 => noise[i]);
    assert bytes[..] == noise;
    WriteTime(bytes, timestamp);
    WriteCounter(bytes, random);
    stamp := bytes[..];
  }

  /** The 48 bits of time in front. */
  method WriteTime(bytes: array<Byte>, timestamp: int)
    requires bytes.Length == 16
    modifies bytes
    ensures bytes[..] == [timestamp / 0x100_0000_0000 % 0x100, timestamp / 0x1_0000_0000 % 0x100,
                          timestamp / 0x100_0000 % 0x100, timestamp / 0x1_0000 % 0x100,
                          timestamp / 0x100 % 0x100, timestamp % 0x100] + old(bytes[6..])
  {
    bytes[0], bytes[1] := timestamp / 0x100_0000_0000 % 0x100, timestamp / 0x1_0000_0000 % 0x100;
    bytes[2], bytes[3] := timestamp / 0x100_0000 % 0x100, timestamp / 0x1_0000 % 0x100;
    bytes[4], bytes[5] := timestamp / 0x100 % 0x100, timestamp % 0x100;
  }

  /** Version and counter, then the variant over two bits of a random byte. */
  method WriteCounter(bytes: array<Byte>, random: nat)
    requires bytes.Length == 16
    modifies bytes
    ensures bytes[..] == old(bytes[..6]) + [0x70 + random / 0x100 % 0x10, random % 0x100, 0x80 + old(bytes[8]) % 0x40]
                         + old(bytes[9..])
  {
    bytes[6], bytes[7], bytes[8] := 0x70 + random / 0x100 % 0x10, random % 0x100, 0x80 + bytes[8] % 0x40;
  }

  /** Text order by code units, as the database compares identifiers. */
  predicate Less(a: string, b: string) {
    b != "" && (a == "" || a[0] < b[0] || (a[0] == b[0] && Less(a[1..], b[1..])))
  }

  lemma {:induction false} LessIsStrict(a: string, b: string)
    ensures !(Less(a, b) && Less(b, a)) && !Less(a, a)
  {
    if a != "" && b != "" {
      LessIsStrict(a[1..], b[1..]);
    }
    if a != "" {
      LessIsStrict(a[1..], a[1..]);
    }
  }

  lemma {:induction false} LessIsTotal(a: string, b: string)
    ensures a == b || Less(a, b) || Less(b, a)
  {
    if a != "" && b != "" && a[0] == b[0] {
      LessIsTotal(a[1..], b[1..]);
      assert a == [a[0]] + a[1..] && b == [b[0]] + b[1..];
    }
  }

  lemma {:induction false} LessIsTransitive(a: string, b: string, c: string)
    requires Less(a, b) && Less(b, c)
    ensures Less(a, c)
  {
    if a != "" && a[0] == b[0] == c[0] {
      LessIsTransitive(a[1..], b[1..], c[1..]);
    }
  }

  lemma {:induction false} LessAt(a: string, b: string, k: nat)
    requires k < |a| && k < |b| && a[..k] == b[..k] && a[k] < b[k]
    ensures Less(a, b) && !Less(b, a)
  {
    if k > 0 {
      assert a[0] == a[..k][0] == b[..k][0] == b[0];
      assert a[1..][..k - 1] == a[..k][1..] == b[..k][1..] == b[1..][..k - 1];
      LessAt(a[1..], b[1..], k - 1);
    }
  }

  /** Big-endian bytes of a smaller number are smaller where they first differ. */
  lemma {:induction false} BytesAscend(v: nat, w: nat, n: nat) returns (k: nat)
    requires v < w < Power256(n)
    ensures k < n && BigEndian(v, n)[..k] == BigEndian(w, n)[..k] && BigEndian(v, n)[k] < BigEndian(w, n)[k]
  {
    if v / 0x100 < w / 0x100 {
      k := BytesAscend(v / 0x100, w / 0x100, n - 1);
      assert BigEndian(v, n)[..k] == BigEndian(v / 0x100, n - 1)[..k];
      assert BigEndian(w, n)[..k] == BigEndian(w / 0x100, n - 1)[..k];
    } else {
      k := n - 1;
      assert v / 0x100 == w / 0x100;
    }
  }

  /** The first eight bytes as one number: timestamp, version, counter. */
  function Prefix(clock: Clock): int {
    clock.lastTimestamp * 0x1_0000 + 0x7000 + clock.lastRandom
  }

  predicate InRange(clock: Clock) {
    0 <= clock.lastTimestamp < TIME_RANGE && 0 <= clock.lastRandom < COUNTER_RANGE
  }

  lemma StampPrefix(clock: Clock, noise: seq<Byte>)
    requires InRange(clock) && |noise| == 16
    ensures 0 <= Prefix(clock) < Power256(8) && Stamp(clock, noise)[..8] == BigEndian(Prefix(clock), 8)
  {
    var t, r := clock.lastTimestamp, clock.lastRandom;
    Widths();
    var high, low := CounterBytes(r);
    var seven := t * 0x100 + 0x70 + high;
    assert Prefix(clock) == seven * 0x100 + low;
    assert BigEndian(Prefix(clock), 8) == BigEndian(t, 6) + [0x70 + high, low] by {
      AppendByte(t, 6, 0x70 + high);
      AppendByte(seven, 7, low);
    }
    TimeBytes(t);
  }

  lemma CounterBytes(r: nat) returns (high: nat, low: Byte)
    requires r < COUNTER_RANGE
    ensures high == r / 0x100 % 0x10 && low == r % 0x100 && high < 0x10 && r == high * 0x100 + low
  {
    high, low := r / 0x100, r % 0x100;
  }

  lemma AppendByte(value: nat, n: nat, byte: Byte)
    ensures BigEndian(value * 0x100 + byte, n + 1) == BigEndian(value, n) + [byte]
  {
    assert (value * 0x100 + byte) / 0x100 == value && (value * 0x100 + byte) % 0x100 == byte;
  }

  lemma TimeBytes(t: nat)
    requires t < TIME_RANGE
    ensures BigEndian(t, 6) == [t / 0x100_0000_0000 % 0x100, t / 0x1_0000_0000 % 0x100, t / 0x100_0000 % 0x100,
                                t / 0x1_0000 % 0x100, t / 0x100 % 0x100, t % 0x100]
  {
    assert BigEndian(t, 1) == [t % 0x100];
    var a := t / 0x100;
    var b := a / 0x100;
    var c := b / 0x100;
    var d := c / 0x100;
    var e := d / 0x100;
    assert b == t / 0x1_0000 && c == t / 0x100_0000 && d == t / 0x1_0000_0000 && e == t / 0x100_0000_0000;
    assert BigEndian(e, 1) == [e % 0x100];
    assert BigEndian(d, 2) == [e % 0x100, d % 0x100];
    assert BigEndian(c, 3) == [e % 0x100, d % 0x100, c % 0x100];
    assert BigEndian(b, 4) == [e % 0x100, d % 0x100, c % 0x100, b % 0x100];
    assert BigEndian(a, 5) == [e % 0x100, d % 0x100, c % 0x100, b % 0x100, a % 0x100];
  }

  /** Where a digit of the plain form stands in the dashed one. */
  function DashedIndex(p: nat): nat {
    p + if p < 8 then 0 else if p < 12 then 1 else if p < 16 then 2 else if p < 20 then 3 else 4
  }

  lemma DashedDigits(hex: string, p: nat)
    requires |hex| == 32 && p < 32
    ensures DashedIndex(p) < 36 && Dashed(hex)[DashedIndex(p)] == hex[p]
  {
  }

  lemma DashedPrefix(g: string, h: string, p: nat)
    requires |g| == |h| == 32 && p < 32 && g[..p] == h[..p]
    ensures Dashed(g)[..DashedIndex(p)] == Dashed(h)[..DashedIndex(p)]
  {
    forall q | 0 <= q < p ensures g[q] == h[q] {
      assert g[..p][q] == h[..p][q];
    }
    forall j | 0 <= j < DashedIndex(p) ensures Dashed(g)[j] == Dashed(h)[j] {
    }
  }

  lemma {:induction false} HexAt(bytes: seq<Byte>, j: nat)
    requires j < 2 * |bytes|
    ensures Hex(bytes)[j] == HexDigit(if j % 2 == 0 then bytes[j / 2] / 16 else bytes[j / 2] % 16)
  {
    var front := bytes[..|bytes| - 1];
    if j < 2 * |front| {
      HexAt(front, j);
      assert front[j / 2] == bytes[j / 2];
    } else {
      assert j / 2 == |front|;
    }
  }

  /** Bytes that first differ at `k` make text that first differs at one of that byte's digits. */
  lemma HexAscends(a: seq<Byte>, b: seq<Byte>, k: nat) returns (p: nat)
    requires |a| == |b| && k < |a| && a[..k] == b[..k] && a[k] < b[k]
    ensures p < 2 * |a| && Hex(a)[..p] == Hex(b)[..p] && Hex(a)[p] < Hex(b)[p]
  {
    p := if a[k] / 16 < b[k] / 16 then 2 * k else 2 * k + 1;
    HexAt(a, p);
    HexAt(b, p);
    if p == 2 * k {
      HexDigitsAscend(a[k] / 16, b[k] / 16);
    } else {
      assert a[k] / 16 == b[k] / 16;
      HexDigitsAscend(a[k] % 16, b[k] % 16);
    }
    forall j | 0 <= j < p ensures Hex(a)[j] == Hex(b)[j] {
      HexAt(a, j);
      HexAt(b, j);
      if j / 2 < k {
        assert a[..k][j / 2] == b[..k][j / 2];
      }
    }
  }

  lemma HexDigitsAscend(m: nat, n: nat)
    requires m < n < 16
    ensures HexDigit(m) < HexDigit(n)
  {
  }

  /** The first byte that differs orders the identifiers. */
  lemma IdsDiffer(one: Clock, n: seq<Byte>, other: Clock, m: seq<Byte>, k: nat)
    requires |n| == |m| == 16 && k < 16
    requires Stamp(one, n)[..k] == Stamp(other, m)[..k] && Stamp(one, n)[k] < Stamp(other, m)[k]
    ensures Less(IdOf(one, n), IdOf(other, m)) && !Less(IdOf(other, m), IdOf(one, n))
  {
    var a, b := Stamp(one, n), Stamp(other, m);
    var p := HexAscends(a, b, k);
    DashedDigits(Hex(a), p);
    DashedDigits(Hex(b), p);
    DashedPrefix(Hex(a), Hex(b), p);
    LessAt(IdOf(one, n), IdOf(other, m), DashedIndex(p));
  }

  /** A smaller timestamp and counter make a smaller identifier, whatever the random bits. */
  lemma IdsAscend(one: Clock, other: Clock, n: seq<Byte>, m: seq<Byte>)
    requires InRange(one) && InRange(other) && Prefix(one) < Prefix(other) && |n| == |m| == 16
    ensures Less(IdOf(one, n), IdOf(other, m)) && !Less(IdOf(other, m), IdOf(one, n))
  {
    StampPrefix(one, n);
    StampPrefix(other, m);
    var a, b := Stamp(one, n), Stamp(other, m);
    var k := BytesAscend(Prefix(one), Prefix(other), 8);
    assert a[..k] == a[..8][..k] && b[..k] == b[..8][..k];
    assert a[k] == a[..8][k] && b[k] == b[..8][k];
    IdsDiffer(one, n, other, m, k);
  }

  /** The variant and the random bits behind timestamp and counter. */
  function Tail(noise: seq<Byte>): (bytes: seq<Byte>)
    requires |noise| == 16
    ensures |bytes| == 8
  {
    [0x80 + noise[8] % 0x40] + noise[9..]
  }

  predicate LessBytes(a: seq<Byte>, b: seq<Byte>) {
    b != [] && (a == [] || a[0] < b[0] || (a[0] == b[0] && LessBytes(a[1..], b[1..])))
  }

  lemma {:induction false} FirstDifference(a: seq<Byte>, b: seq<Byte>) returns (k: nat)
    requires |a| == |b| && a != b
    ensures k < |a| && a[..k] == b[..k] && a[k] != b[k]
    ensures LessBytes(a, b) <==> a[k] < b[k]
  {
    if a[0] != b[0] {
      k := 0;
    } else {
      assert a == [a[0]] + a[1..] && b == [b[0]] + b[1..];
      var j := FirstDifference(a[1..], b[1..]);
      k := j + 1;
      assert a[..k] == [a[0]] + a[1..][..j] && b[..k] == [b[0]] + b[1..][..j];
    }
  }

  lemma {:induction false} LessBytesIsIrreflexive(a: seq<Byte>)
    ensures !LessBytes(a, a)
  {
    if a != [] {
      LessBytesIsIrreflexive(a[1..]);
    }
  }

  /** With timestamp and counter the same, the random bits order the identifiers. */
  lemma TailsDecide(clock: Clock, n: seq<Byte>, m: seq<Byte>)
    requires |n| == |m| == 16
    ensures Less(IdOf(clock, n), IdOf(clock, m)) <==> LessBytes(Tail(n), Tail(m))
  {
    var a, b := Stamp(clock, n), Stamp(clock, m);
    var front := a[..8];
    assert a == front + Tail(n) && b == front + Tail(m);
    if Tail(n) == Tail(m) {
      LessIsStrict(IdOf(clock, n), IdOf(clock, n));
      LessBytesIsIrreflexive(Tail(n));
    } else {
      var k := FirstDifference(Tail(n), Tail(m));
      assert a[..8 + k] == front + Tail(n)[..k] && b[..8 + k] == front + Tail(m)[..k];
      if Tail(n)[k] < Tail(m)[k] {
        IdsDiffer(clock, n, clock, m, 8 + k);
      } else {
        IdsDiffer(clock, m, clock, n, 8 + k);
      }
    }
  }

  /** Identifiers compare by timestamp, then counter, then random bits. */
  lemma OrderOfIds(one: Clock, other: Clock, n: seq<Byte>, m: seq<Byte>)
    requires InRange(one) && InRange(other) && |n| == |m| == 16
    ensures Less(IdOf(one, n), IdOf(other, m)) <==>
            || one.lastTimestamp < other.lastTimestamp
            || (one.lastTimestamp == other.lastTimestamp && one.lastRandom < other.lastRandom)
            || (one == other && LessBytes(Tail(n), Tail(m)))
  {
    if one == other {
      TailsDecide(one, n, m);
    } else if Prefix(one) < Prefix(other) {
      IdsAscend(one, other, n, m);
    } else {
      IdsAscend(other, one, m, n);
    }
  }

  /** The counter starts over: another call in a timestamp whose counter is at its end. */
  predicate Wraps(clock: Clock, next: Clock) {
    next.lastTimestamp == clock.lastTimestamp && clock.lastRandom == COUNTER_RANGE - 1
  }

  /**
    One call after another gives a greater identifier, even if the clock goes
    back, except exactly where the counter starts over.
    */
  lemma NextIsGreaterIff(clock: Clock, call: Call, noise: seq<Byte>)
    requires CallOk(call) && |noise| == 16 && InRange(clock) && call.now < TIME_RANGE
    ensures var next := Next(clock, call.now, call.word);
            InRange(next) && (Less(IdOf(clock, noise), IdOf(next, call.noise)) <==> !Wraps(clock, next))
  {
    var next := Next(clock, call.now, call.word);
    if Wraps(clock, next) {
      IdsAscend(next, clock, call.noise, noise);
    } else {
      IdsAscend(clock, next, noise, call.noise);
    }
  }

  /** The generator after the first `n` calls. */
  function ClockAfter(calls: seq<Call>, n: nat): (clock: Clock)
    requires n <= |calls|
  {
    if n == 0 then NEW_CLOCK else Next(ClockAfter(calls, n - 1), calls[n - 1].now, calls[n - 1].word)
  }

  /** The identifier call `i` returns. */
  function Issued(calls: seq<Call>, i: nat): string
    requires i < |calls| && CallOk(calls[i])
  {
    IdOf(ClockAfter(calls, i + 1), calls[i].noise)
  }

  /** Calls from the epoch on, within 48 bits of time; later ones may see the clock go back. */
  predicate Timely(calls: seq<Call>) {
    && (forall i | 0 <= i < |calls| :: CallOk(calls[i]) && calls[i].now < TIME_RANGE)
    && (calls != [] ==> calls[0].now >= 0)
  }

  /** No call from `i + 1` up to `j` starts the counter over. */
  predicate NoWrap(calls: seq<Call>, i: nat, j: nat)
    requires i <= j < |calls|
  {
    forall k | i < k <= j :: !Wraps(ClockAfter(calls, k), ClockAfter(calls, k + 1))
  }

  lemma {:induction false} ClocksInRange(calls: seq<Call>, n: nat)
    requires Timely(calls) && 1 <= n <= |calls|
    ensures InRange(ClockAfter(calls, n))
  {
    if n > 1 {
      ClocksInRange(calls, n - 1);
    }
  }

  lemma OneStepOn(r: nat, count: nat)
    ensures ((r + count) % COUNTER_RANGE + 1) % COUNTER_RANGE == (r + (count + 1)) % COUNTER_RANGE
    ensures r + count < COUNTER_RANGE ==> (r + count) % COUNTER_RANGE == r + count
  {
  }

  /** Within one timestamp the counter counts the calls, and it starts over where they no longer fit. */
  lemma {:induction false} CounterAdvances(calls: seq<Call>, i: nat, j: nat)
    requires Timely(calls) && i <= j < |calls|
    ensures var c, d := ClockAfter(calls, i + 1), ClockAfter(calls, j + 1);
            && InRange(c) && InRange(d) && c.lastTimestamp <= d.lastTimestamp
            && (c.lastTimestamp == d.lastTimestamp ==>
                  && d.lastRandom == (c.lastRandom + (j - i)) % COUNTER_RANGE
                  && (NoWrap(calls, i, j) <==> c.lastRandom + (j - i) < COUNTER_RANGE))
  {
    ClocksInRange(calls, i + 1);
    ClocksInRange(calls, j + 1);
    if i < j {
      CounterAdvances(calls, i, j - 1);
      var b, d := ClockAfter(calls, j), ClockAfter(calls, j + 1);
      assert NoWrap(calls, i, j) <==> NoWrap(calls, i, j - 1) && !Wraps(b, d);
      if ClockAfter(calls, i + 1).lastTimestamp == d.lastTimestamp {
        OneStepOn(ClockAfter(calls, i + 1).lastRandom, j - 1 - i);
      }
    }
  }

  lemma AroundTheCounter(r: nat, count: nat)
    requires r < COUNTER_RANGE
    ensures var steps := count % COUNTER_RANGE;
            && (r < (r + count) % COUNTER_RANGE <==> steps != 0 && r + steps < COUNTER_RANGE)
            && (r == (r + count) % COUNTER_RANGE <==> steps == 0)
  {
    var steps := count % COUNTER_RANGE;
    var rounds := count / COUNTER_RANGE;
    assert r + count == rounds * COUNTER_RANGE + (r + steps);
    if r + steps < COUNTER_RANGE {
      assert (r + count) % COUNTER_RANGE == r + steps;
    } else {
      assert r + count == (rounds + 1) * COUNTER_RANGE + (r + steps - COUNTER_RANGE);
      assert (r + count) % COUNTER_RANGE == r + steps - COUNTER_RANGE;
    }
  }

  /**
    An identifier issued later has a later timestamp, or the counter has come
    up to it without starting over, or it has gone once around and the random
    bits decide.
    */
  predicate InOrder(calls: seq<Call>, i: nat, j: nat)
    requires i < j < |calls| && CallOk(calls[i]) && CallOk(calls[j])
  {
    var c, d := ClockAfter(calls, i + 1), ClockAfter(calls, j + 1);
    var steps := (j - i) % COUNTER_RANGE;
    || c.lastTimestamp < d.lastTimestamp
    || if steps == 0 then LessBytes(Tail(calls[i].noise), Tail(calls[j].noise))
       else c.lastRandom + steps < COUNTER_RANGE
  }

  /** Of any two calls in any run, exactly when the later one's identifier is the greater. */
  lemma LaterIsGreaterIff(calls: seq<Call>, i: nat, j: nat)
    requires Timely(calls) && i < j < |calls|
    ensures Less(Issued(calls, i), Issued(calls, j)) <==> InOrder(calls, i, j)
  {
    CounterAdvances(calls, i, j);
    var c, d := ClockAfter(calls, i + 1), ClockAfter(calls, j + 1);
    OrderOfIds(c, d, calls[i].noise, calls[j].noise);
    if c.lastTimestamp == d.lastTimestamp {
      AroundTheCounter(c.lastRandom, j - i);
    }
  }

  /** With fewer calls in between than the counter has values, only a wrap breaks the order. */
  lemma InOrderIffNoWrap(calls: seq<Call>, i: nat, j: nat)
    requires Timely(calls) && i < j < |calls|
    requires ClockAfter(calls, i + 1).lastTimestamp == ClockAfter(calls, j + 1).lastTimestamp ==> j - i < COUNTER_RANGE
    ensures InOrder(calls, i, j) <==>
            ClockAfter(calls, i + 1).lastTimestamp < ClockAfter(calls, j + 1).lastTimestamp || NoWrap(calls, i, j)
  {
    CounterAdvances(calls, i, j);
  }

  lemma DigitIs(n: nat)
    requires n < 16
    ensures HexDigit(n) == "0123456789abcdef"[n]
  {
  }

  lemma ByteAt(bytes: seq<Byte>, k: nat)
    requires |bytes| == 16 && k < 16
    ensures DashedIndex(2 * k) + 1 == DashedIndex(2 * k + 1) < 36
    ensures Dashed(Hex(bytes))[DashedIndex(2 * k)] == HexDigit(bytes[k] / 16)
    ensures Dashed(Hex(bytes))[DashedIndex(2 * k + 1)] == HexDigit(bytes[k] % 16)
  {
    hide HexDigit, Dashed;
    HexAt(bytes, 2 * k);
    HexAt(bytes, 2 * k + 1);
    DashedDigits(Hex(bytes), 2 * k);
    DashedDigits(Hex(bytes), 2 * k + 1);
  }

  /** The digits of an identifier spell its sixteen bytes: behind hyphens after digit 8, 12, 16 and 20. */
  lemma IdSpells(clock: Clock, noise: seq<Byte>, k: nat)
    requires |noise| == 16 && k < 16
    ensures var id, byte := IdOf(clock, noise), Stamp(clock, noise)[k];
            var p := 2 * k + if k < 4 then 0 else if k < 6 then 1 else if k < 8 then 2 else if k < 10 then 3 else 4;
            && p + 1 < |id|
            && id[p] == "0123456789abcdef"[byte / 16] && id[p + 1] == "0123456789abcdef"[byte % 16]
  {
    hide Stamp, HexDigit, Dashed;
    var bytes := Stamp(clock, noise);
    ByteAt(bytes, k);
    DigitIs(bytes[k] / 16);
    DigitIs(bytes[k] % 16);
  }

  /** In an identifier's bytes: 48 bits of time, the version, the counter, the variant, the random bits. */
  lemma StampHolds(clock: Clock, noise: seq<Byte>)
    requires InRange(clock) && |noise| == 16
    ensures var bytes := Stamp(clock, noise);
            && FromBigEndian(bytes[..6]) == clock.lastTimestamp
            && bytes[6] / 16 == 7 && bytes[6] % 16 == clock.lastRandom / 0x100 && bytes[7] == clock.lastRandom % 0x100
            && bytes[8] / 0x40 == 2 && bytes[8] % 0x40 == noise[8] % 0x40 && bytes[9..] == noise[9..]
  {
    var t := clock.lastTimestamp;
    TimeBytes(t);
    NumberReadsBack(t, 6);
    Widths();
    assert Stamp(clock, noise)[..6] == BigEndian(t, 6);
    var high, low := CounterBytes(clock.lastRandom);
    hide BigEndian, FromBigEndian;
    assert Stamp(clock, noise)[9..] == noise[9..];
  }

  /** The timestamp of the generator is the latest time it was ever given. */
  lemma {:induction false} TimestampIsLatest(calls: seq<Call>, n: nat)
    requires 1 <= n <= |calls| && Timely(calls)
    ensures var latest := ClockAfter(calls, n).lastTimestamp;
            && (forall i | 0 <= i < n :: calls[i].now <= latest)
            && exists i :: 0 <= i < n && calls[i].now == latest
  {
    if n > 1 {
      TimestampIsLatest(calls, n - 1);
      var i :| 0 <= i < n - 1 && calls[i].now == ClockAfter(calls, n - 1).lastTimestamp;
      assert calls[if calls[n - 1].now >= calls[i].now then n - 1 else i].now == ClockAfter(calls, n).lastTimestamp;
    } else {
      assert calls[0].now == ClockAfter(calls, 1).lastTimestamp;
    }
  }

  /** Every identifier has the version digit 7 and a variant digit of 8, 9, a or b, in the right places. */
  lemma IdShape(clock: Clock, noise: seq<Byte>)
    requires |noise| == 16
    ensures var id := IdOf(clock, noise);
            && id[8] == '-' && id[13] == '-' && id[18] == '-' && id[23] == '-'
            && id[14] == '7' && id[19] in "89ab"
  {
    var bytes := Stamp(clock, noise);
    var hex := Hex(bytes);
    assert bytes[6] / 16 == 7 && 8 <= bytes[8] / 16 <= 11;
    HexAt(bytes, 12);
    HexAt(bytes, 16);
    DashedDigits(hex, 12);
    DashedDigits(hex, 16);
  }
}
