/**
  Cell text as the packed update carries it: JavaScript strings are sequences of
  UTF-16 code units, `TextEncoder.encodeInto` writes them as UTF-8 (section 3 of
  RFC 3629) and the viewport reads them back with a default `TextDecoder`.
  */
module Utf8Text {
  import opened Bytes

  type Text = seq<U16>
  type CodePoint = c: int | 0 <= c <= 0x10FFFF
  type Scalar = s: int | 0 <= s <= 0x10FFFF && !(0xD800 <= s <= 0xDFFF)

  const REPLACEMENT: Scalar := 0xFFFD
  const BYTE_ORDER_MARK := 0xFEFF

  predicate IsHigh(u: int) { 0xD800 <= u <= 0xDBFF }

  predicate IsLow(u: int) { 0xDC00 <= u <= 0xDFFF }

  /** Every surrogate is half of a pair. */
  predicate WellFormed(t: Text) {
    && (forall i | 0 <= i < |t| && IsHigh(t[i]) :: i + 1 < |t| && IsLow(t[i + 1]))
    && (forall i | 0 <= i < |t| && IsLow(t[i]) :: 0 < i && IsHigh(t[i - 1]))
  }

  predicate StartsWithPair(t: Text) {
    |t| >= 2 && IsHigh(t[0]) && IsLow(t[1])
  }

  /** The first scalar value of a string; a lone surrogate reads as U+FFFD. */
  function HeadScalar(t: Text): Scalar
    requires t != []
  {
    if StartsWithPair(t) then 0x10000 + (t[0] - 0xD800) * 0x400 + (t[1] - 0xDC00)
    else if IsHigh(t[0]) || IsLow(t[0]) then REPLACEMENT
    else t[0]
  }

  /** How many code units the first scalar value takes. */
  function HeadUnits(t: Text): (n: nat)
    requires t != []
    ensures 1 <= n <= |t|
  {
    if StartsWithPair(t) then 2 else 1
  }

  function Scalars(t: Text): seq<Scalar> {
    if t == [] then [] else [HeadScalar(t)] + Scalars(t[HeadUnits(t)..])
  }

  /** The code units of a code point; surrogates are units of their own. */
  function Units(c: CodePoint): Text {
    if c < 0x10000 then [c]
    else [0xD800 + (c - 0x10000) / 0x400, 0xDC00 + (c - 0x10000) % 0x400]
  }

  function FromScalars(ss: seq<Scalar>): Text {
    if ss == [] then [] else Units(ss[0]) + FromScalars(ss[1..])
  }

  function EncodeScalar(s: Scalar): (bytes: seq<nat>)
    ensures 1 <= |bytes| <= 4
    ensures forall i | 0 <= i < |bytes| :: bytes[i] < 0x100
  {
    if s < 0x80 then [s]
    else if s < 0x800 then [0xC0 + s / 0x40, 0x80 + s % 0x40]
    else if s < 0x10000 then [0xE0 + s / 0x1000, 0x80 + s / 0x40 % 0x40, 0x80 + s % 0x40]
    else [0xF0 + s / 0x40000, 0x80 + s / 0x1000 % 0x40, 0x80 + s / 0x40 % 0x40, 0x80 + s % 0x40]
  }

  function Encode(ss: seq<Scalar>): seq<nat> {
    if ss == [] then [] else EncodeScalar(ss[0]) + Encode(ss[1..])
  }

  /** The complete UTF-8 form of a string. */
  function Utf8(t: Text): seq<nat> {
    Encode(Scalars(t))
  }

  /**
    What `encodeInto` writes into a destination of the given size: it stops
    before the first scalar value that no longer fits as a whole.
    */
  function EncodeInto(t: Text, capacity: nat): (written: seq<nat>)
    ensures |written| <= capacity
  {
    if t == [] then []
    else
      var head := EncodeScalar(HeadScalar(t));
      if |head| > capacity then []
      else head + EncodeInto(t[HeadUnits(t)..], capacity - |head|)
  }

  predicate IsContinuation(b: nat) { 0x80 <= b <= 0xBF }

  function Lower(lead: nat): nat {
    if lead == 0xE0 then 0xA0 else if lead == 0xF0 then 0x90 else 0x80
  }

  function Upper(lead: nat): nat {
    if lead == 0xED then 0x9F else if lead == 0xF4 then 0x8F else 0xBF
  }

  /** One step of the decoder: a scalar value and the bytes it used up. */
  function DecodeHead(b: seq<nat>): (r: (Scalar, nat))
    requires b != []
    ensures 1 <= r.1 <= |b|
  {
    var lead := b[0];
    if lead < 0x80 then (lead, 1)
    else if 0xC2 <= lead <= 0xDF then
      if |b| > 1 && IsContinuation(b[1]) then ((lead - 0xC0) * 0x40 + (b[1] - 0x80), 2)
      else (REPLACEMENT, 1)
    else if 0xE0 <= lead <= 0xEF then
      if !(|b| > 1 && Lower(lead) <= b[1] <= Upper(lead)) then (REPLACEMENT, 1)
      else if !(|b| > 2 && IsContinuation(b[2])) then (REPLACEMENT, 2)
      else ((lead - 0xE0) * 0x1000 + (b[1] - 0x80) * 0x40 + (b[2] - 0x80), 3)
    else if 0xF0 <= lead <= 0xF4 then
      if !(|b| > 1 && Lower(lead) <= b[1] <= Upper(lead)) then (REPLACEMENT, 1)
      else if !(|b| > 2 && IsContinuation(b[2])) then (REPLACEMENT, 2)
      else if !(|b| > 3 && IsContinuation(b[3])) then (REPLACEMENT, 3)
      else ((lead - 0xF0) * 0x40000 + (b[1] - 0x80) * 0x1000 + (b[2] - 0x80) * 0x40 + (b[3] - 0x80), 4)
    else (REPLACEMENT, 1)
  }

  function Decode(b: seq<nat>): seq<Scalar> {
    if b == [] then []
    else var (s, n) := DecodeHead(b); [s] + Decode(b[n..])
  }

  /** A decoder that does not ignore byte-order marks drops one in front. */
  function StripMark(ss: seq<Scalar>): seq<Scalar> {
    if ss != [] && ss[0] == BYTE_ORDER_MARK then ss[1..] else ss
  }

  function DecodeText(b: seq<nat>): Text {
    FromScalars(StripMark(Decode(b)))
  }

  /** What a reader of the packed text sees of `t`. */
  function Seen(t: Text): Text {
    FromScalars(StripMark(Scalars(t)))
  }

  lemma SixBitDigits(s: nat)
    ensures s == s / 0x40 * 0x40 + s % 0x40
    ensures s / 0x1000 == s / 0x40 / 0x40
    ensures s / 0x40000 == s / 0x1000 / 0x40
    ensures s == s / 0x1000 * 0x1000 + s / 0x40 % 0x40 * 0x40 + s % 0x40
    ensures s == s / 0x40000 * 0x40000 + s / 0x1000 % 0x40 * 0x1000 + s / 0x40 % 0x40 * 0x40 + s % 0x40
  {
  }

  lemma DecodeThreeBytes(s: Scalar, b: seq<nat>)
    requires 0x800 <= s < 0x10000 && |b| >= 3
    requires b[0] == 0xE0 + s / 0x1000 && b[1] == 0x80 + s / 0x40 % 0x40 && b[2] == 0x80 + s % 0x40
    ensures DecodeHead(b) == (s, 3)
  {
    SixBitDigits(s);
  }

  lemma DecodeFourBytes(s: Scalar, b: seq<nat>)
    requires 0x10000 <= s && |b| >= 4
    requires b[0] == 0xF0 + s / 0x40000 && b[1] == 0x80 + s / 0x1000 % 0x40
    requires b[2] == 0x80 + s / 0x40 % 0x40 && b[3] == 0x80 + s % 0x40
    ensures DecodeHead(b) == (s, 4)
  {
    SixBitDigits(s);
  }

  lemma DecodeHeadOfScalar(s: Scalar, rest: seq<nat>)
    ensures DecodeHead(EncodeScalar(s) + rest) == (s, |EncodeScalar(s)|)
  {
    var b := EncodeScalar(s) + rest;
    if s >= 0x10000 {
      DecodeFourBytes(s, b);
    } else if s >= 0x800 {
      DecodeThreeBytes(s, b);
    }
  }

  lemma {:induction false} DecodeEncode(ss: seq<Scalar>)
    ensures Decode(Encode(ss)) == ss
  {
    if ss != [] {
      var head, rest := EncodeScalar(ss[0]), Encode(ss[1..]);
      DecodeHeadOfScalar(ss[0], rest);
      assert (head + rest)[|head|..] == rest;
      DecodeEncode(ss[1..]);
    }
  }

  predicate IsAscii(t: Text) {
    forall i | 0 <= i < |t| :: t[i] < 0x80
  }

  /** ASCII text takes one byte for each unit. */
  lemma {:induction false} AsciiIsOnePerUnit(t: Text)
    requires IsAscii(t)
    ensures |Utf8(t)| == |t|
  {
    if t != [] {
      assert HeadUnits(t) == 1 && |EncodeScalar(HeadScalar(t))| == 1;
      AsciiIsOnePerUnit(t[1..]);
      assert Utf8(t) == EncodeScalar(HeadScalar(t)) + Utf8(t[1..]);
    }
  }

  /** Three bytes per UTF-16 code unit are always enough. */
  lemma {:induction false} Utf8AtMostThreePerUnit(t: Text)
    ensures |Utf8(t)| <= 3 * |t|
  {
    if t != [] {
      Utf8AtMostThreePerUnit(t[HeadUnits(t)..]);
      assert Utf8(t) == EncodeScalar(HeadScalar(t)) + Utf8(t[HeadUnits(t)..]);
    }
  }

  /** With that reservation `encodeInto` never stops early. */
  lemma {:induction false} EncodeIntoIsComplete(t: Text, capacity: nat)
    requires 3 * |t| <= capacity
    ensures EncodeInto(t, capacity) == Utf8(t)
  {
    if t != [] {
      var n := HeadUnits(t);
      EncodeIntoIsComplete(t[n..], capacity - |EncodeScalar(HeadScalar(t))|);
      assert Utf8(t) == EncodeScalar(HeadScalar(t)) + Utf8(t[n..]);
    }
  }

  /** With any room it writes whole characters from the front, and stops only before one that does not fit. */
  lemma {:induction false} EncodeIntoIsPrefix(t: Text, capacity: nat) returns (k: nat)
    ensures k <= |Scalars(t)| && EncodeInto(t, capacity) == Encode(Scalars(t)[..k])
    ensures k < |Scalars(t)| ==> |EncodeInto(t, capacity)| + |EncodeScalar(Scalars(t)[k])| > capacity
  {
    if t == [] || |EncodeScalar(HeadScalar(t))| > capacity {
      k := 0;
    } else {
      var head, rest := HeadScalar(t), t[HeadUnits(t)..];
      var j := EncodeIntoIsPrefix(rest, capacity - |EncodeScalar(head)|);
      k := j + 1;
      assert Scalars(t) == [head] + Scalars(rest);
      var front := Scalars(t)[..k];
      assert front[0] == head && front[1..] == Scalars(rest)[..j];
    }
  }

  lemma {:induction false} FromScalarsKeepsLength(t: Text)
    ensures |FromScalars(Scalars(t))| == |t|
  {
    if t != [] {
      var n := HeadUnits(t);
      FromScalarsKeepsLength(t[n..]);
      assert Scalars(t)[1..] == Scalars(t[n..]);
    }
  }

  lemma WellFormedTail(t: Text)
    requires t != []
    requires StartsWithPair(t) || !(IsHigh(t[0]) || IsLow(t[0]))
    ensures WellFormed(t) <==> WellFormed(t[HeadUnits(t)..])
  {
    var n := HeadUnits(t);
    var u := t[n..];
    assert forall i | 0 <= i < |u| :: u[i] == t[i + n];
    if WellFormed(t) {
      forall i | 0 <= i < |u| && IsLow(u[i]) ensures 0 < i && IsHigh(u[i - 1]) {
        assert IsLow(t[i + n]) && IsHigh(t[i + n - 1]);
      }
      forall i | 0 <= i < |u| && IsHigh(u[i]) ensures i + 1 < |u| && IsLow(u[i + 1]) {
        assert IsHigh(t[i + n]) && IsLow(t[i + n + 1]);
      }
    }
    if WellFormed(u) {
      forall i | 0 <= i < |t| && IsLow(t[i]) ensures 0 < i && IsHigh(t[i - 1]) {
        if i >= n { assert IsLow(u[i - n]); }
      }
      forall i | 0 <= i < |t| && IsHigh(t[i]) ensures i + 1 < |t| && IsLow(t[i + 1]) {
        if i >= n { assert IsHigh(u[i - n]) && IsLow(u[i - n + 1]); }
      }
    }
  }

  lemma UnitsOfHead(t: Text)
    requires t != []
    ensures Units(HeadScalar(t)) == t[..HeadUnits(t)] <==> StartsWithPair(t) || !(IsHigh(t[0]) || IsLow(t[0]))
    ensures |Units(HeadScalar(t))| == HeadUnits(t)
  {
  }

  lemma {:induction false} ScalarsRoundTrip(t: Text)
    ensures FromScalars(Scalars(t)) == t <==> WellFormed(t)
  {
    if t != [] {
      var n := HeadUnits(t);
      var back := FromScalars(Scalars(t));
      assert Scalars(t)[1..] == Scalars(t[n..]);
      assert back == Units(HeadScalar(t)) + FromScalars(Scalars(t[n..]));
      UnitsOfHead(t);
      assert back[..n] == Units(HeadScalar(t)) && back[n..] == FromScalars(Scalars(t[n..]));
      assert t == t[..n] + t[n..];
      ScalarsRoundTrip(t[n..]);
      if StartsWithPair(t) || !(IsHigh(t[0]) || IsLow(t[0])) {
        WellFormedTail(t);
        assert back == t <==> back[n..] == t[n..];
      } else {
        assert back[..n] != t[..n];
      }
    }
  }

  /** The units of scalar values read back as those values. */
  lemma {:induction false} ScalarsReadBack(ss: seq<Scalar>)
    ensures Scalars(FromScalars(ss)) == ss
  {
    if ss != [] {
      var head, rest := Units(ss[0]), FromScalars(ss[1..]);
      assert HeadScalar(head + rest) == ss[0] && HeadUnits(head + rest) == |head|;
      assert (head + rest)[|head|..] == rest;
      ScalarsReadBack(ss[1..]);
    }
  }

  /** Packed text reads back as `Seen`. */
  lemma TextReadsBack(t: Text)
    ensures DecodeText(Utf8(t)) == Seen(t)
  {
    DecodeEncode(Scalars(t));
  }

  /**
    ... which is the text itself exactly for well-formed strings without a
    leading U+FEFF.
    */
  lemma SeenIsIdentityIff(t: Text)
    ensures Seen(t) == t <==> WellFormed(t) && (t == [] || t[0] != BYTE_ORDER_MARK)
  {
    ScalarsRoundTrip(t);
    FromScalarsKeepsLength(t);
    if t != [] && t[0] == BYTE_ORDER_MARK {
      assert Scalars(t)[0] == BYTE_ORDER_MARK;
      assert FromScalars(Scalars(t)) == Units(BYTE_ORDER_MARK) + FromScalars(Scalars(t)[1..]);
      assert |Seen(t)| < |t|;
    }
  }

  /** The mark really is lost: a cell holding U+FEFF and `a` reads back as `a`. */
  lemma LeadingMarkIsLost()
    ensures DecodeText(Utf8([0xFEFF, 0x61])) == [0x61] != [0xFEFF, 0x61]
  {
    var t: Text := [0xFEFF, 0x61];
    TextReadsBack(t);
    assert t[1..] == [0x61] && t[1..][1..] == [];
    assert Scalars(t[1..]) == [0x61];
    assert Scalars(t) == [0xFEFF, 0x61];
    assert Scalars(t)[1..] == [0x61];
    var ss: seq<Scalar> := [0x61];
    assert ss[1..] == [];
    assert FromScalars(ss) == [0x61];
  }
}
