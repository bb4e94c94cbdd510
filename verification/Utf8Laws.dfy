/**
  The encoder and the decoder against the definition of UTF-8: section 3 of RFC
  3629 for the encoding, and for malformed input the rule that each maximal part
  of what could still have become a character is replaced by one U+FFFD.
  */
module Utf8Laws {
  import opened Utf8Text

  /** How many bytes a scalar value takes, and which values each of them may have. */
  lemma Utf8Shape(s: Scalar)
    ensures var b := EncodeScalar(s);
            && |b| == (if s < 0x80 then 1 else if s < 0x800 then 2 else if s < 0x10000 then 3 else 4)
            && (|b| == 1 ==> b[0] == s)
            && (|b| == 2 ==> 0xC2 <= b[0] <= 0xDF)
            && (|b| == 3 ==> 0xE0 <= b[0] <= 0xEF)
            && (|b| == 4 ==> 0xF0 <= b[0] <= 0xF4)
            && (forall i | 1 <= i < |b| :: 0x80 <= b[i] <= 0xBF)
  {
  }

  lemma SecondByte(s: Scalar)
    ensures var b := EncodeScalar(s);
            |b| > 1 ==>
              && (b[0] == 0xE0 ==> b[1] >= 0xA0) && (b[0] == 0xED ==> b[1] <= 0x9F)
              && (b[0] == 0xF0 ==> b[1] >= 0x90) && (b[0] == 0xF4 ==> b[1] <= 0x8F)
  {
  }

  /** Six-bit digits of numbers: the greater number is greater at the first digit that differs. */
  lemma DigitsAscend(s: nat, t: nat)
    requires s < t
    ensures s / 0x40 < t / 0x40 || (s / 0x40 == t / 0x40 && s % 0x40 < t % 0x40)
  {
  }

  /** Encodings sort as the scalar values do. */
  lemma Utf8KeepsOrder(s: Scalar, t: Scalar) returns (k: nat)
    requires s < t
    ensures var a, b := EncodeScalar(s), EncodeScalar(t);
            k < |a| && k < |b| && a[..k] == b[..k] && a[k] < b[k]
  {
    var a, b := EncodeScalar(s), EncodeScalar(t);
    if |a| != |b| || a[0] != b[0] {
      k := 0;
      Utf8Shape(s);
      Utf8Shape(t);
      LeadsAscend(s, t);
    } else {
      k := SameLead(s, t);
    }
  }

  lemma LeadsAscend(s: Scalar, t: Scalar)
    requires s < t
    ensures EncodeScalar(s)[0] <= EncodeScalar(t)[0]
    ensures |EncodeScalar(s)| != |EncodeScalar(t)| ==> EncodeScalar(s)[0] < EncodeScalar(t)[0]
  {
  }

  /** Six-bit digits behind the same first part: the last two differ as the numbers do. */
  lemma LastTwoAscend(s: nat, t: nat)
    requires s < t && s / 0x1000 == t / 0x1000
    ensures var high, low := s / 0x40 % 0x40, t / 0x40 % 0x40;
            high < low || (high == low && s % 0x40 < t % 0x40)
  {
    DigitsAscend(s, t);
    if s / 0x40 < t / 0x40 {
      SixBitDigits(s);
      SixBitDigits(t);
      DigitsAscend(s / 0x40, t / 0x40);
    }
  }

  lemma SameLeadOfThree(s: Scalar, t: Scalar) returns (k: nat)
    requires 0x800 <= s < t < 0x10000 && s / 0x1000 == t / 0x1000
    ensures var a, b := EncodeScalar(s), EncodeScalar(t);
            k < 3 && a[..k] == b[..k] && a[k] < b[k]
  {
    LastTwoAscend(s, t);
    k := if s / 0x40 % 0x40 < t / 0x40 % 0x40 then 1 else 2;
  }

  lemma SameLeadOfFour(s: Scalar, t: Scalar) returns (k: nat)
    requires 0x10000 <= s < t && s / 0x40000 == t / 0x40000
    ensures var a, b := EncodeScalar(s), EncodeScalar(t);
            k < 4 && a[..k] == b[..k] && a[k] < b[k]
  {
    SixBitDigits(s);
    SixBitDigits(t);
    if s / 0x1000 == t / 0x1000 {
      LastTwoAscend(s, t);
      k := if s / 0x40 % 0x40 < t / 0x40 % 0x40 then 2 else 3;
    } else {
      assert s / 0x1000 < t / 0x1000;
      DigitsAscend(s / 0x1000, t / 0x1000);
      k := 1;
    }
  }

  lemma SameLead(s: Scalar, t: Scalar) returns (k: nat)
    requires s < t && |EncodeScalar(s)| == |EncodeScalar(t)| && EncodeScalar(s)[0] == EncodeScalar(t)[0]
    ensures var a, b := EncodeScalar(s), EncodeScalar(t);
            k < |a| && k < |b| && a[..k] == b[..k] && a[k] < b[k]
  {
    if t < 0x800 {
      k := 1;
      DigitsAscend(s, t);
    } else if t < 0x10000 {
      k := SameLeadOfThree(s, t);
    } else {
      k := SameLeadOfFour(s, t);
    }
  }

  /** These bytes begin the encoding of some scalar value. */
  ghost predicate Starts(b: seq<nat>) {
    exists s: Scalar :: b <= EncodeScalar(s)
  }

  /** These bytes begin with the whole encoding of some scalar value. */
  ghost predicate Holds(b: seq<nat>) {
    exists s: Scalar :: EncodeScalar(s) <= b
  }

  /** Bytes 2 and later that some encoding with this lead has. */
  predicate Second(lead: nat, b: nat) {
    0x80 <= b <= 0xBF && (lead == 0xE0 ==> b >= 0xA0) && (lead == 0xED ==> b <= 0x9F)
    && (lead == 0xF0 ==> b >= 0x90) && (lead == 0xF4 ==> b <= 0x8F)
  }

  lemma SecondIff(lead: nat, b: nat)
    requires 0xE0 <= lead <= 0xF4
    ensures Lower(lead) <= b <= Upper(lead) <==> Second(lead, b)
  {
  }

  lemma ThreeBytes(lead: nat, b: nat, c: nat)
    requires 0xE0 <= lead <= 0xEF && Second(lead, b) && 0x80 <= c <= 0xBF
    ensures var n := (lead - 0xE0) * 0x1000 + (b - 0x80) * 0x40 + (c - 0x80);
            0x800 <= n < 0x10000 && !(0xD800 <= n <= 0xDFFF) && EncodeScalar(n) == [lead, b, c]
  {
    var n := (lead - 0xE0) * 0x1000 + (b - 0x80) * 0x40 + (c - 0x80);
    assert n / 0x40 == (lead - 0xE0) * 0x40 + (b - 0x80) && n % 0x40 == c - 0x80;
    assert n / 0x1000 == lead - 0xE0 && n / 0x40 % 0x40 == b - 0x80;
  }

  lemma FourBytes(lead: nat, b: nat, c: nat, d: nat)
    requires 0xF0 <= lead <= 0xF4 && Second(lead, b) && 0x80 <= c <= 0xBF && 0x80 <= d <= 0xBF
    ensures var n := (lead - 0xF0) * 0x40000 + (b - 0x80) * 0x1000 + (c - 0x80) * 0x40 + (d - 0x80);
            0x10000 <= n <= 0x10FFFF && EncodeScalar(n) == [lead, b, c, d]
  {
    var n := (lead - 0xF0) * 0x40000 + (b - 0x80) * 0x1000 + (c - 0x80) * 0x40 + (d - 0x80);
    assert n / 0x40 == (lead - 0xF0) * 0x1000 + (b - 0x80) * 0x40 + (c - 0x80) && n % 0x40 == d - 0x80;
    assert n / 0x1000 == (lead - 0xF0) * 0x40 + (b - 0x80) && n / 0x40 % 0x40 == c - 0x80;
    assert n / 0x40000 == lead - 0xF0 && n / 0x1000 % 0x40 == b - 0x80;
  }

  /** Where the decoder does not replace, it has read a whole encoding. */
  lemma DecodedIsEncoded(b: seq<nat>)
    requires b != [] && DecodeHead(b).0 != REPLACEMENT
    ensures EncodeScalar(DecodeHead(b).0) == b[..DecodeHead(b).1]
  {
    var lead := b[0];
    if 0xE0 <= lead <= 0xEF {
      SecondIff(lead, b[1]);
      ThreeBytes(lead, b[1], b[2]);
    } else if 0xF0 <= lead <= 0xF4 {
      SecondIff(lead, b[1]);
      FourBytes(lead, b[1], b[2], b[3]);
    }
  }

  /** An encoding that begins as these bytes do goes on with bytes the decoder takes. */
  lemma Follows(b: seq<nat>, s: Scalar, n: nat)
    requires 1 <= n < |b| && b[..n + 1] <= EncodeScalar(s)
    ensures b[0] == EncodeScalar(s)[0] && 0xC2 <= b[0] <= 0xF4 && Second(b[0], b[1])
    ensures forall i | 1 <= i <= n :: 0x80 <= b[i] <= 0xBF
    ensures (b[0] <= 0xDF ==> n == 1) && (b[0] <= 0xEF ==> n <= 2) && n <= 3
  {
    var e := EncodeScalar(s);
    Utf8Shape(s);
    SecondByte(s);
    assert forall i | 0 <= i <= n :: b[i] == b[..n + 1][i] == e[i];
  }

  lemma WholeThree(b: seq<nat>)
    requires b != [] && b[0] <= 0xEF && DecodeHead(b).1 == 3
    ensures Holds(b)
  {
    SecondIff(b[0], b[1]);
    ThreeBytes(b[0], b[1], b[2]);
    assert EncodeScalar((b[0] - 0xE0) * 0x1000 + (b[1] - 0x80) * 0x40 + (b[2] - 0x80)) <= b;
  }

  lemma PartOfThree(b: seq<nat>)
    requires |b| >= 2 && 0xE0 <= b[0] <= 0xEF && Second(b[0], b[1])
    ensures Starts(b[..2])
  {
    ThreeBytes(b[0], b[1], 0x80);
    assert b[..2] <= EncodeScalar((b[0] - 0xE0) * 0x1000 + (b[1] - 0x80) * 0x40);
  }

  lemma PartOfFour(b: seq<nat>, n: nat)
    requires 2 <= n <= 3 && n <= |b| && 0xF0 <= b[0] <= 0xF4 && Second(b[0], b[1])
    requires n == 3 ==> 0x80 <= b[2] <= 0xBF
    ensures Starts(b[..n])
  {
    var c := if n == 2 then 0x80 else b[2];
    FourBytes(b[0], b[1], c, 0x80);
    hide EncodeScalar;
    assert b[..n] <= EncodeScalar((b[0] - 0xF0) * 0x40000 + (b[1] - 0x80) * 0x1000 + (c - 0x80) * 0x40);
  }

  lemma PartStarts(b: seq<nat>)
    requires b != [] && DecodeHead(b).0 == REPLACEMENT && !Holds(b) && DecodeHead(b).1 > 1
    ensures Starts(b[..DecodeHead(b).1])
  {
    hide EncodeScalar, Starts;
    var n := DecodeHead(b).1;
    SecondIff(b[0], b[1]);
    if b[0] > 0xEF {
      PartOfFour(b, n);
    } else if n == 3 {
      WholeThree(b);
    } else {
      PartOfThree(b);
    }
  }

  lemma ReadsOrReplaces(b: seq<nat>)
    requires b != []
    ensures DecodeHead(b).0 == REPLACEMENT || Holds(b)
  {
    if DecodeHead(b).0 != REPLACEMENT {
      DecodedIsEncoded(b);
      assert EncodeScalar(DecodeHead(b).0) <= b;
    }
  }

  /** A replaced part cannot be continued to an encoding by the byte that comes next. */
  lemma PartIsMaximal(b: seq<nat>, s: Scalar)
    requires b != [] && DecodeHead(b).0 == REPLACEMENT && !Holds(b) && DecodeHead(b).1 < |b|
    ensures !(b[..DecodeHead(b).1 + 1] <= EncodeScalar(s))
  {
    var n := DecodeHead(b).1;
    if b[..n + 1] <= EncodeScalar(s) {
      Follows(b, s, n);
      if b[0] >= 0xE0 {
        SecondIff(b[0], b[1]);
      }
    }
  }

  /**
    The decoder's step: if the bytes begin with a whole encoding, it reads that
    one. If not, it replaces the longest part with which some encoding begins, or
    one byte if there is none.
    */
  lemma DecodeHeadIsMaximal(b: seq<nat>)
    requires b != []
    ensures var (s, n) := DecodeHead(b);
            if Holds(b) then b[..n] == EncodeScalar(s)
            else s == REPLACEMENT && (n == 1 || Starts(b[..n])) && (n < |b| ==> !Starts(b[..n + 1]))
  {
    var (s, n) := DecodeHead(b);
    if Holds(b) {
      var t: Scalar :| EncodeScalar(t) <= b;
      DecodeHeadOfScalar(t, b[|EncodeScalar(t)|..]);
      assert EncodeScalar(t) + b[|EncodeScalar(t)|..] == b;
    } else {
      ReadsOrReplaces(b);
      if n > 1 {
        PartStarts(b);
      }
      if n < |b| {
        forall t: Scalar ensures !(b[..n + 1] <= EncodeScalar(t)) {
          PartIsMaximal(b, t);
        }
      }
    }
  }
}
