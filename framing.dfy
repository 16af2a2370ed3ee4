/**
 * The framing arithmetic of main (src/main.rs:144-153, 163-166): the length
 * header it reads before each message and the header it writes before each
 * response. The streams are byte sequences; what the code reads with
 * read_line and take is computed from them.
 */
module Framing {
  import opened Wrappers

  type byte = x: int | 0 <= x < 256

  const SP: byte := 0x20
  const LF: byte := 0x0A
  const CR: byte := 0x0D
  const PLUS: byte := 0x2B
  const ZERO: byte := 0x30

  /** u64::MAX, the largest length the reader accepts. */
  const U64Max: nat := 0xFFFF_FFFF_FFFF_FFFF

  predicate IsDigit(b: byte) {
    ZERO <= b <= ZERO + 9
  }

  /** The bytes of an ASCII string. */
  function Ascii(s: string): (r: seq<byte>)
    requires forall i :: 0 <= i < |s| ==> s[i] as int < 0x80
    ensures |r| == |s| && forall i :: 0 <= i < |s| ==> r[i] == s[i] as int
  {
    seq(|s|, i requires 0 <= i < |s| => s[i] as int)
  }

  /** The header name main writes, and the text before the length: the name and one space. */
  const HeaderName: seq<byte> := Ascii("Content-Length:")
  const ContentLength: seq<byte> := HeaderName + [SP]

  /** The header text is ASCII without spaces or line feeds. */
  lemma HeaderNameBytes()
    ensures forall i :: 0 <= i < |HeaderName| ==> HeaderName[i] < 0x80 && HeaderName[i] != SP && HeaderName[i] != LF
  {
  }

  // ------------------------------------------------------------- read_line

  predicate IsContinuation(b: byte) {
    0x80 <= b <= 0xBF
  }

  /**
   * Well-formed UTF-8, as std::str::from_utf8 (and so read_line) accepts it.
   * The bytes 0xC0, 0xC1 and 0xF5 to 0xFF never occur in it.
   */
  predicate Utf8(s: seq<byte>)
    ensures Utf8(s) ==> forall i :: 0 <= i < |s| ==> s[i] != 0xC0 && s[i] != 0xC1 && s[i] < 0xF5
    decreases |s|
  {
    if s == [] then true
    else if s[0] < 0x80 then Utf8(s[1..])
    else if 0xC2 <= s[0] <= 0xDF then
      |s| >= 2 && IsContinuation(s[1]) && Utf8(s[2..])
    else if 0xE0 <= s[0] <= 0xEF then
      && |s| >= 3
      && (if s[0] == 0xE0 then 0xA0 <= s[1] <= 0xBF
          else if s[0] == 0xED then 0x80 <= s[1] <= 0x9F
          else IsContinuation(s[1]))
      && IsContinuation(s[2]) && Utf8(s[3..])
    else if 0xF0 <= s[0] <= 0xF4 then
      && |s| >= 4
      && (if s[0] == 0xF0 then 0x90 <= s[1] <= 0xBF
          else if s[0] == 0xF4 then 0x80 <= s[1] <= 0x8F
          else IsContinuation(s[1]))
      && IsContinuation(s[2]) && IsContinuation(s[3]) && Utf8(s[4..])
    else false
  }

  /** ASCII text is well-formed UTF-8. */
  lemma {:induction false} AsciiIsUtf8(s: seq<byte>)
    requires forall i :: 0 <= i < |s| ==> s[i] < 0x80
    ensures Utf8(s)
  {
    if s != [] {
      AsciiIsUtf8(s[1..]);
    }
  }

  /** A Unicode scalar value: a code point that is not a surrogate. */
  type Scalar = c: int | 0 <= c < 0xD800 || 0xE000 <= c < 0x11_0000

  /** The UTF-8 encoding of one scalar value, in one to four bytes. */
  function EncodeScalar(c: Scalar): (r: seq<byte>)
    ensures 1 <= |r| <= 4
  {
    if c < 0x80 then [c]
    else if c < 0x800 then [0xC0 + c / 64, 0x80 + c % 64]
    else if c < 0x1_0000 then [0xE0 + c / 4096, 0x80 + c / 64 % 64, 0x80 + c % 64]
    else [0xF0 + c / 262144, 0x80 + c / 4096 % 64, 0x80 + c / 64 % 64, 0x80 + c % 64]
  }

  /** The UTF-8 encoding of a sequence of scalar values. */
  function Encode(cps: seq<Scalar>): seq<byte>
    decreases |cps|
  {
    if cps == [] then [] else EncodeScalar(cps[0]) + Encode(cps[1..])
  }

  /** An encoded scalar value followed by well-formed UTF-8 is well-formed UTF-8. */
  lemma EncodeScalarUtf8(c: Scalar, rest: seq<byte>)
    requires Utf8(rest)
    ensures Utf8(EncodeScalar(c) + rest)
  {
    var e := EncodeScalar(c);
    assert (e + rest)[|e|..] == rest;
  }

  /** Every encoding of scalar values is accepted as UTF-8. */
  lemma {:induction false} EncodeIsUtf8(cps: seq<Scalar>)
    ensures Utf8(Encode(cps))
    decreases |cps|
  {
    if cps != [] {
      EncodeIsUtf8(cps[1..]);
      EncodeScalarUtf8(cps[0], Encode(cps[1..]));
    }
  }

  /** The number of bytes of the sequence that a leading byte starts. */
  function SequenceLength(b: byte): (n: nat)
    ensures 1 <= n <= 4
  {
    if b < 0x80 then 1 else if b < 0xE0 then 2 else if b < 0xF0 then 3 else 4
  }

  /** `s` starts with one well-formed byte sequence of the length its first byte announces. */
  predicate WellFormedLead(s: seq<byte>) {
    && s != []
    && SequenceLength(s[0]) <= |s|
    && (SequenceLength(s[0]) == 2 ==> 0xC2 <= s[0] && IsContinuation(s[1]))
    && (SequenceLength(s[0]) == 3 ==>
          && IsContinuation(s[1]) && IsContinuation(s[2])
          && (s[0] == 0xE0 ==> s[1] >= 0xA0) && (s[0] == 0xED ==> s[1] <= 0x9F))
    && (SequenceLength(s[0]) == 4 ==>
          && s[0] <= 0xF4 && IsContinuation(s[1]) && IsContinuation(s[2]) && IsContinuation(s[3])
          && (s[0] == 0xF0 ==> s[1] >= 0x90) && (s[0] == 0xF4 ==> s[1] <= 0x8F))
  }

  /** Non-empty well-formed UTF-8 is a well-formed sequence followed by well-formed UTF-8. */
  lemma Utf8Lead(s: seq<byte>)
    requires s != [] && Utf8(s)
    ensures WellFormedLead(s) && Utf8(s[SequenceLength(s[0])..])
  {
  }

  // The values that the well-formed sequences of two, three and four bytes encode.

  function DecodeTwo(b0: byte, b1: byte): Scalar
    requires 0xC2 <= b0 <= 0xDF && IsContinuation(b1)
  {
    (b0 as int - 0xC0) * 64 + (b1 as int - 0x80)
  }

  function DecodeThree(b0: byte, b1: byte, b2: byte): Scalar
    requires 0xE0 <= b0 <= 0xEF && IsContinuation(b1) && IsContinuation(b2)
    requires b0 == 0xE0 ==> b1 >= 0xA0
    requires b0 == 0xED ==> b1 <= 0x9F
  {
    (b0 as int - 0xE0) * 4096 + (b1 as int - 0x80) * 64 + (b2 as int - 0x80)
  }

  function DecodeFour(b0: byte, b1: byte, b2: byte, b3: byte): Scalar
    requires 0xF0 <= b0 <= 0xF4 && IsContinuation(b1) && IsContinuation(b2) && IsContinuation(b3)
    requires b0 == 0xF0 ==> b1 >= 0x90
    requires b0 == 0xF4 ==> b1 <= 0x8F
  {
    (b0 as int - 0xF0) * 262144 + (b1 as int - 0x80) * 4096 + (b2 as int - 0x80) * 64 + (b3 as int - 0x80)
  }

  /** The scalar value that the first byte sequence of well-formed UTF-8 encodes. */
  function DecodeScalar(s: seq<byte>): Scalar
    requires WellFormedLead(s)
  {
    var n := SequenceLength(s[0]);
    if n == 1 then s[0]
    else if n == 2 then DecodeTwo(s[0], s[1])
    else if n == 3 then DecodeThree(s[0], s[1], s[2])
    else DecodeFour(s[0], s[1], s[2], s[3])
  }

  /** The scalar values that well-formed UTF-8 encodes, in order. */
  function Decode(s: seq<byte>): seq<Scalar>
    requires Utf8(s)
    decreases |s|
  {
    if s == [] then []
    else
      Utf8Lead(s);
      [DecodeScalar(s)] + Decode(s[SequenceLength(s[0])..])
  }

  /** Division by 64 undoes appending a base-64 digit. */
  lemma DivMod64(q: int, d: int)
    requires 0 <= q && 0 <= d < 64
    ensures (q * 64 + d) / 64 == q && (q * 64 + d) % 64 == d
  {
  }

  /** The base-64 digits of a number, as EncodeScalar takes them apart. */
  lemma Base64Digits(c: int, hi: int, d2: int, d1: int, d0: int)
    requires 0 <= d0 < 64 && 0 <= d1 < 64 && 0 <= d2 < 64 && 0 <= hi
    requires c == hi * 262144 + d2 * 4096 + d1 * 64 + d0
    ensures c % 64 == d0 && c / 64 % 64 == d1 && c / 4096 % 64 == d2 && c / 262144 == hi
  {
    var q2 := hi * 64 + d2;
    var q1 := q2 * 64 + d1;
    assert c == q1 * 64 + d0;
    DivMod64(q1, d0);
    DivMod64(q2, d1);
    DivMod64(hi, d2);
    assert c / 4096 == q2 by {
      assert c == q2 * 4096 + (d1 * 64 + d0);
    }
    assert c / 262144 == hi by {
      assert c == hi * 262144 + (d2 * 4096 + d1 * 64 + d0);
    }
  }

  // Each well-formed sequence of two, three or four bytes is the encoding of the value it decodes to.

  lemma EncodeTwo(b0: byte, b1: byte)
    requires 0xC2 <= b0 <= 0xDF && IsContinuation(b1)
    ensures EncodeScalar(DecodeTwo(b0, b1)) == [b0, b1]
  {
    var c := DecodeTwo(b0, b1);
    Base64Digits(c, 0, 0, b0 as int - 0xC0, b1 as int - 0x80);
    assert 0x80 <= c < 0x800;
  }

  lemma EncodeThree(b0: byte, b1: byte, b2: byte)
    requires 0xE0 <= b0 <= 0xEF && IsContinuation(b1) && IsContinuation(b2)
    requires b0 == 0xE0 ==> b1 >= 0xA0
    requires b0 == 0xED ==> b1 <= 0x9F
    ensures EncodeScalar(DecodeThree(b0, b1, b2)) == [b0, b1, b2]
  {
    var c := DecodeThree(b0, b1, b2);
    Base64Digits(c, 0, b0 as int - 0xE0, b1 as int - 0x80, b2 as int - 0x80);
    assert 0x800 <= c < 0x1_0000;
  }

  lemma EncodeFour(b0: byte, b1: byte, b2: byte, b3: byte)
    requires 0xF0 <= b0 <= 0xF4 && IsContinuation(b1) && IsContinuation(b2) && IsContinuation(b3)
    requires b0 == 0xF0 ==> b1 >= 0x90
    requires b0 == 0xF4 ==> b1 <= 0x8F
    ensures EncodeScalar(DecodeFour(b0, b1, b2, b3)) == [b0, b1, b2, b3]
  {
    var c := DecodeFour(b0, b1, b2, b3);
    Base64Digits(c, b0 as int - 0xF0, b1 as int - 0x80, b2 as int - 0x80, b3 as int - 0x80);
    assert 0x1_0000 <= c;
  }

  /** The first byte sequence of well-formed UTF-8 is the encoding of the value it decodes to. */
  lemma EncodeDecodeScalar(s: seq<byte>)
    requires WellFormedLead(s)
    ensures EncodeScalar(DecodeScalar(s)) == s[..SequenceLength(s[0])]
  {
    var n := SequenceLength(s[0]);
    if n == 1 {
      assert s[..1] == [s[0]];
    } else if n == 2 {
      EncodeTwo(s[0], s[1]);
      assert s[..2] == [s[0], s[1]];
    } else if n == 3 {
      EncodeThree(s[0], s[1], s[2]);
      assert s[..3] == [s[0], s[1], s[2]];
    } else {
      EncodeFour(s[0], s[1], s[2], s[3]);
      assert s[..4] == [s[0], s[1], s[2], s[3]];
    }
  }

  /** Conversely, every byte string accepted as UTF-8 is the encoding of the scalar values it decodes to. */
  lemma {:induction false} EncodeDecode(s: seq<byte>)
    requires Utf8(s)
    ensures Encode(Decode(s)) == s
    decreases |s|
  {
    if s != [] {
      var n := SequenceLength(s[0]);
      Utf8Lead(s);
      var rest := s[n..];
      var cps := Decode(s);
      assert cps == [DecodeScalar(s)] + Decode(rest);
      assert cps[0] == DecodeScalar(s) && cps[1..] == Decode(rest);
      assert Encode(cps) == EncodeScalar(cps[0]) + Encode(cps[1..]);
      EncodeDecodeScalar(s);
      EncodeDecode(rest);
      assert s == s[..n] + rest;
    }
  }

  /** The position of the first `b` in `s`, if there is one. */
  function IndexOf(s: seq<byte>, b: byte): (r: Option<nat>)
    ensures r.None? <==> b !in s
    ensures r.Some? ==> r.value < |s| && s[r.value] == b && b !in s[..r.value]
    decreases |s|
  {
    if s == [] then None
    else if s[0] == b then Some(0)
    else match IndexOf(s[1..], b)
      case None => None
      case Some(i) => assert s[..i + 1] == [s[0]] + s[1..][..i]; Some(i + 1)
  }

  /** The first `b` after a stretch without one is found there. */
  lemma IndexOfAfter(a: seq<byte>, b: byte, c: seq<byte>)
    requires b !in a
    ensures IndexOf(a + [b] + c, b) == Some(|a|)
  {
    var s := a + [b] + c;
    forall j | 0 <= j < |a| ensures s[j] != b {
      assert s[j] == a[j];
    }
    assert s[..|a| + 1][|a|] == b;
  }

  /**
   * BufRead::read_line on what is left of the stream: the bytes up to and
   * including the first line feed, or all of them if there is none. The second
   * component is what is left after it.
   */
  function ReadLine(s: seq<byte>): (r: (seq<byte>, seq<byte>))
    ensures r.0 + r.1 == s
    ensures LF in s ==> |r.0| > 0 && r.0[|r.0| - 1] == LF && LF !in r.0[..|r.0| - 1]
    ensures LF !in s ==> r.0 == s && r.1 == []
  {
    match IndexOf(s, LF)
    case None => (s, [])
    case Some(i) => assert s[..i + 1][..i] == s[..i]; (s[..i + 1], s[i + 1..])
  }

  // ----------------------------------------------------- split(' ').nth(1)

  /** The pieces glued back together, one separator between each two. */
  function Join(pieces: seq<seq<byte>>, sep: byte): seq<byte>
    decreases |pieces|
  {
    if |pieces| == 0 then []
    else if |pieces| == 1 then pieces[0]
    else pieces[0] + [sep] + Join(pieces[1..], sep)
  }

  /**
   * str::split with a one-character separator: the pieces between separators,
   * empty ones included; there is one piece more than there are separators.
   */
  function Split(s: seq<byte>, sep: byte): (pieces: seq<seq<byte>>)
    ensures |pieces| >= 1
    ensures |pieces| == 1 <==> sep !in s
    ensures forall k :: 0 <= k < |pieces| ==> sep !in pieces[k]
    ensures Join(pieces, sep) == s
    decreases |s|
  {
    match IndexOf(s, sep)
    case None => [s]
    case Some(i) =>
      var rest := Split(s[i + 1..], sep);
      assert ([s[..i]] + rest)[1..] == rest;
      assert s == s[..i] + [sep] + s[i + 1..];
      [s[..i]] + rest
  }

  /** A stretch without the separator, then the separator, is split off as the first piece. */
  lemma SplitAfter(a: seq<byte>, sep: byte, c: seq<byte>)
    requires sep !in a
    ensures Split(a + [sep] + c, sep) == [a] + Split(c, sep)
  {
    var s := a + [sep] + c;
    IndexOfAfter(a, sep, c);
    assert s[..|a|] == a;
    assert s[|a| + 1..] == c;
  }

  /** Splitting undoes joining pieces that hold no separator. */
  lemma {:induction false} SplitJoin(pieces: seq<seq<byte>>, sep: byte)
    requires |pieces| >= 1
    requires forall k :: 0 <= k < |pieces| ==> sep !in pieces[k]
    ensures Split(Join(pieces, sep), sep) == pieces
    decreases |pieces|
  {
    if |pieces| > 1 {
      SplitAfter(pieces[0], sep, Join(pieces[1..], sep));
      SplitJoin(pieces[1..], sep);
      assert pieces == [pieces[0]] + pieces[1..];
    }
  }

  // ------------------------------------------------------------ u64 parse

  /** The number the decimal digits `s` denote, most significant first. */
  function DigitsValue(s: seq<byte>): nat
    requires forall i :: 0 <= i < |s| ==> IsDigit(s[i])
    decreases |s|
  {
    if s == [] then 0
    else
      assert IsDigit(s[|s| - 1]);
      DigitsValue(s[..|s| - 1]) * 10 + (s[|s| - 1] as int - ZERO as int)
  }

  /**
   * <u64 as FromStr>::from_str: an optional '+' and then one or more decimal
   * digits (leading zeros allowed) denoting at most u64::MAX. Anything else,
   * a line terminator included, is refused.
   */
  function ParseU64(tok: seq<byte>): (r: Option<nat>)
    ensures r.Some? ==> r.value <= U64Max
    ensures r.Some? ==> exists i :: 0 <= i < |tok| && IsDigit(tok[i])
    ensures r.Some? ==> forall i :: 0 <= i < |tok| ==> IsDigit(tok[i]) || (i == 0 && tok[i] == PLUS)
  {
    var digits := if |tok| > 0 && tok[0] == PLUS then tok[1..] else tok;
    if digits != [] && forall i :: 0 <= i < |digits| ==> IsDigit(digits[i]) then
      assert IsDigit(tok[|tok| - 1]) by { assert tok[|tok| - 1] == digits[|digits| - 1]; }
      if DigitsValue(digits) <= U64Max then Some(DigitsValue(digits)) else None
    else None
  }

  /** Display of an unsigned integer: its decimal digits, with no leading zero. */
  function Decimal(n: nat): (r: seq<byte>)
    ensures |r| >= 1 && forall i :: 0 <= i < |r| ==> IsDigit(r[i])
    ensures r[0] == ZERO <==> n == 0
    ensures r[0] == ZERO ==> |r| == 1
    decreases n
  {
    if n < 10 then [ZERO + n] else Decimal(n / 10) + [ZERO + n % 10]
  }

  /** The digits Decimal writes denote the number written. */
  lemma {:induction false} DecimalValue(n: nat)
    ensures DigitsValue(Decimal(n)) == n
    decreases n
  {
    if n >= 10 {
      var d := Decimal(n);
      assert d[..|d| - 1] == Decimal(n / 10);
      DecimalValue(n / 10);
    }
  }

  /** A digit string without a leading zero denotes a positive number. */
  lemma {:induction false} LeadingDigitPositive(s: seq<byte>)
    requires |s| >= 1 && forall i :: 0 <= i < |s| ==> IsDigit(s[i])
    requires s[0] != ZERO
    ensures DigitsValue(s) > 0
    decreases |s|
  {
    if |s| > 1 {
      LeadingDigitPositive(s[..|s| - 1]);
    }
  }

  /** Every digit string without a leading zero is what Decimal writes for the number it denotes. */
  lemma {:induction false} DecimalCanonical(s: seq<byte>)
    requires |s| >= 1 && forall i :: 0 <= i < |s| ==> IsDigit(s[i])
    requires |s| > 1 ==> s[0] != ZERO
    ensures Decimal(DigitsValue(s)) == s
    decreases |s|
  {
    if |s| > 1 {
      var front := s[..|s| - 1];
      LeadingDigitPositive(front);
      DecimalCanonical(front);
      assert s == front + [s[|s| - 1]];
    }
  }

  /** from_str reads back what Display writes, for every u64. */
  lemma ParseDecimal(n: nat)
    requires n <= U64Max
    ensures ParseU64(Decimal(n)) == Some(n)
  {
    DecimalValue(n);
  }

  /** The optional sign of a u64 token. */
  function Sign(plus: bool): seq<byte> {
    if plus then [PLUS] else []
  }

  /** k zero digits. */
  function Zeros(k: nat): (r: seq<byte>)
    ensures |r| == k && forall i :: 0 <= i < k ==> r[i] == ZERO
  {
    seq(k, _ => ZERO)
  }

  /** Leading zero digits do not change the number a digit string denotes. */
  lemma {:induction false} ZerosValue(k: nat, s: seq<byte>)
    requires forall i :: 0 <= i < |s| ==> IsDigit(s[i])
    ensures forall i :: 0 <= i < |Zeros(k) + s| ==> IsDigit((Zeros(k) + s)[i])
    ensures DigitsValue(Zeros(k) + s) == DigitsValue(s)
    decreases |s|, k
  {
    var t := Zeros(k) + s;
    assert forall i :: 0 <= i < |t| ==> IsDigit(t[i]) by {
      forall i | 0 <= i < |t| ensures IsDigit(t[i]) {
        if i >= k { assert t[i] == s[i - k]; }
      }
    }
    if s == [] {
      if k > 0 {
        assert t == Zeros(k);
        assert t[..|t| - 1] == Zeros(k - 1) + [];
        ZerosValue(k - 1, []);
      }
    } else {
      assert t[..|t| - 1] == Zeros(k) + s[..|s| - 1];
      ZerosValue(k, s[..|s| - 1]);
    }
  }

  /** The number of leading zero digits, keeping at least the last digit. */
  ghost function LeadingZeros(s: seq<byte>): (k: nat)
    requires |s| >= 1
    ensures k < |s| && (forall i :: 0 <= i < k ==> s[i] == ZERO) && (k < |s| - 1 ==> s[k] != ZERO)
    decreases |s|
  {
    if |s| > 1 && s[0] == ZERO then 1 + LeadingZeros(s[1..]) else 0
  }

  /**
   * The tokens from_str accepts, by their form: an optional '+', any number
   * of zeros, and the decimal text of a number; they are accepted exactly
   * when the number is at most u64::MAX, and that number is the result.
   */
  lemma ParseU64Accepts(plus: bool, k: nat, n: nat)
    ensures ParseU64(Sign(plus) + Zeros(k) + Decimal(n)) == if n <= U64Max then Some(n) else None
  {
    var digits := Zeros(k) + Decimal(n);
    ConcatAssoc(Sign(plus), Zeros(k), Decimal(n));
    ZerosValue(k, Decimal(n));
    DecimalValue(n);
    SignDropped(plus, digits);
  }

  /** A '+' before a digit string does not change what from_str reads. */
  lemma SignDropped(plus: bool, digits: seq<byte>)
    requires |digits| > 0 && IsDigit(digits[0])
    ensures ParseU64(Sign(plus) + digits) == ParseU64(digits)
  {
    if plus {
      assert (Sign(plus) + digits)[1..] == digits;
    } else {
      assert Sign(plus) + digits == digits;
    }
  }

  /** Every digit string is some zeros followed by the decimal text of its value. */
  lemma {:induction false} DigitsForm(digits: seq<byte>)
    requires digits != [] && forall i :: 0 <= i < |digits| ==> IsDigit(digits[i])
    ensures digits == Zeros(LeadingZeros(digits)) + Decimal(DigitsValue(digits))
    decreases |digits|
  {
    if |digits| > 1 && digits[0] == ZERO {
      var tail := digits[1..];
      DigitsForm(tail);
      assert digits == Zeros(1) + tail;
      ZerosValue(1, tail);
      var k := LeadingZeros(tail);
      assert Zeros(1 + k) == Zeros(1) + Zeros(k);
      ConcatAssoc(Zeros(1), Zeros(k), Decimal(DigitsValue(tail)));
    } else {
      DecimalCanonical(digits);
      assert Zeros(0) == [];
    }
  }

  /** Conversely, every token from_str accepts has that form. */
  lemma ParseU64Form(tok: seq<byte>)
    requires ParseU64(tok).Some?
    ensures var plus := tok[0] == PLUS;
      tok == Sign(plus) + Zeros(LeadingZeros(tok[if plus then 1 else 0..])) + Decimal(ParseU64(tok).value)
  {
    var plus := tok[0] == PLUS;
    var digits := tok[if plus then 1 else 0..];
    assert tok == Sign(plus) + digits;
    assert ParseU64(tok).value == DigitsValue(digits);
    DigitsForm(digits);
    ConcatAssoc(Sign(plus), Zeros(LeadingZeros(digits)), Decimal(ParseU64(tok).value));
  }

  lemma ConcatAssoc(a: seq<byte>, b: seq<byte>, c: seq<byte>)
    ensures a + b + c == a + (b + c)
  {
  }

  // ------------------------------------------------------------- headers

  datatype FrameError =
    | CouldNotReadLength   // read_line failed on the header line: it is not UTF-8
    | MalformedHeader      // the header line has no second ' '-separated piece
    | MalformedLength      // that piece is not a u64
    | CouldNotReadNewline  // read_line failed on the line after the header

  /**
   * The frame length main takes from a header line, as written: the second
   * ' '-separated piece of the line, line terminator and all, parsed as a u64.
   */
  function LengthOf(line: seq<byte>): (r: Result<nat, FrameError>)
    ensures r == Err(MalformedHeader) <==> SP !in line
    ensures SP in line ==> (r.Ok? <==> ParseU64(Split(line, SP)[1]).Some?)
    ensures r.Ok? ==> r.value <= U64Max && ParseU64(Split(line, SP)[1]) == Some(r.value)
    ensures r.Err? ==> r.error == MalformedHeader || r.error == MalformedLength
  {
    var pieces := Split(line, SP);
    if |pieces| < 2 then Err(MalformedHeader)
    else match ParseU64(pieces[1])
      case None => Err(MalformedLength)
      case Some(n) => Ok(n)
  }

  /** The header line main writes for a body of `n` bytes (println!). */
  function HeaderLine(n: nat): (h: seq<byte>)
    ensures |h| > |ContentLength| + 1 && h[..|ContentLength|] == ContentLength && h[|h| - 1] == LF
    ensures forall i :: |ContentLength| <= i < |h| - 1 ==> IsDigit(h[i])
  {
    ContentLength + Decimal(n) + [LF]
  }

  /** The same header line ended by "\r\n", as LSP clients send it. */
  function HeaderLineCrLf(n: nat): seq<byte> {
    ContentLength + Decimal(n) + [CR, LF]
  }

  /** The header line splits at its one space: "Content-Length:" and what follows. */
  lemma HeaderPieces(n: nat, terminator: seq<byte>)
    requires SP !in terminator
    ensures Split(ContentLength + Decimal(n) + terminator, SP) == [HeaderName, Decimal(n) + terminator]
  {
    var digits := Decimal(n);
    var tail := digits + terminator;
    assert ContentLength + digits + terminator == HeaderName + [SP] + tail;
    forall i | 0 <= i < |tail| ensures tail[i] != SP {
      if i < |digits| {
        assert tail[i] == digits[i] && IsDigit(digits[i]);
      } else {
        assert tail[i] == terminator[i - |digits|];
      }
    }
    assert SP !in tail;
    var rest := Split(tail, SP);
    assert |rest| == 1 && Join(rest, SP) == rest[0];
    assert rest == [tail];
    HeaderNameBytes();
    assert SP !in HeaderName;
    SplitAfter(HeaderName, SP, tail);
    assert Split(HeaderName + [SP] + tail, SP) == [HeaderName, tail];
  }

  /**
   * As written, a header line that ends in a line feed and holds one space is
   * refused: read_line keeps the terminator, so the length piece ends in it,
   * and it is not a digit.
   */
  lemma TerminatedLengthRefused(line: seq<byte>)
    requires |line| > 0 && line[|line| - 1] == LF
    requires |Split(line, SP)| == 2
    ensures LengthOf(line) == Err(MalformedLength)
  {
  }

  /** As written, the header main itself writes is refused by main's own reader, and so is the "\r\n" form. */
  lemma HeaderAsWrittenRefused(n: nat)
    ensures LengthOf(HeaderLine(n)) == Err(MalformedLength)
    ensures LengthOf(HeaderLineCrLf(n)) == Err(MalformedLength)
  {
    HeaderPieces(n, [LF]);
    TerminatedLengthRefused(HeaderLine(n));
    HeaderPieces(n, [CR, LF]);
    TerminatedLengthRefused(HeaderLineCrLf(n));
  }

  /** The line without its terminator: a final "\r\n" or "\n" is dropped. */
  function StripTerminator(line: seq<byte>): (r: seq<byte>)
    ensures |r| <= |line| && line[..|r|] == r
    ensures |line| > 0 && line[|line| - 1] == LF ==> |r| < |line|
    ensures |line| == 0 || line[|line| - 1] != LF ==> r == line
  {
    if |line| >= 2 && line[|line| - 2..] == [CR, LF] then line[..|line| - 2]
    else if |line| >= 1 && line[|line| - 1] == LF then line[..|line| - 1]
    else line
  }

  /**
   * The evidently intended reader: the length is taken from the line without
   * its terminator. It differs from the written one only on lines that end
   * in a line feed.
   */
  function LengthOfFixed(line: seq<byte>): (r: Result<nat, FrameError>)
    ensures r.Ok? ==> r.value <= U64Max
    ensures r.Err? ==> r.error == MalformedHeader || r.error == MalformedLength
    ensures r == Err(MalformedHeader) <==> SP !in StripTerminator(line)
    ensures |line| == 0 || line[|line| - 1] != LF ==> r == LengthOf(line)
  {
    LengthOf(StripTerminator(line))
  }

  /** Stripping the terminator of a header line leaves the name and the digits. */
  lemma StripHeader(n: nat, terminator: seq<byte>)
    requires terminator == [LF] || terminator == [CR, LF]
    ensures StripTerminator(ContentLength + Decimal(n) + terminator) == ContentLength + Decimal(n)
  {
    var body := ContentLength + Decimal(n);
    var line := body + terminator;
    assert IsDigit(body[|body| - 1]);
    if terminator == [LF] {
      assert line[|line| - 2] == body[|body| - 1];
      assert line[..|line| - 1] == body;
    } else {
      assert line[..|line| - 2] == body;
    }
  }

  /** The corrected reader gets back the length from the header line written for it, in either line ending. */
  lemma HeaderRoundTrip(n: nat)
    requires n <= U64Max
    ensures LengthOfFixed(HeaderLine(n)) == Ok(n)
    ensures LengthOfFixed(HeaderLineCrLf(n)) == Ok(n)
  {
    StripHeader(n, [LF]);
    StripHeader(n, [CR, LF]);
    HeaderPieces(n, []);
    assert ContentLength + Decimal(n) + [] == ContentLength + Decimal(n);
    ParseDecimal(n);
  }

  // -------------------------------------------------------------- frames

  /** Read::take(n): at most the first n bytes; fewer if the stream ends first. */
  function Take(s: seq<byte>, n: nat): (r: seq<byte>)
    ensures |r| == if n <= |s| then n else |s|
    ensures s[..|r|] == r
  {
    if n <= |s| then s[..n] else s
  }

  /** The bytes main writes for a response body: the header line, an empty line, then the body. */
  function WriteFrame(body: seq<byte>): (f: seq<byte>)
    ensures |f| > |body| && f[|f| - |body|..] == body
  {
    HeaderLine(|body|) + [LF] + body
  }

  /**
   * One frame as main reads it, with the corrected header reader: a header
   * line, any further line (its content is not looked at), then as many bytes
   * as the header says, or fewer if the stream ends first. Each read_line
   * fails on a line that is not UTF-8.
   */
  function ReadFrame(stream: seq<byte>): (r: Result<seq<byte>, FrameError>)
    ensures r.Ok? ==> |r.value| <= U64Max && |r.value| < |stream|
    ensures r.Ok? <==>
      Utf8(ReadLine(stream).0) && LengthOfFixed(ReadLine(stream).0).Ok? && Utf8(ReadLine(ReadLine(stream).1).0)
    ensures r == Err(CouldNotReadLength) <==> !Utf8(ReadLine(stream).0)
    ensures Utf8(ReadLine(stream).0) && LengthOfFixed(ReadLine(stream).0).Err? ==>
      r == Err(LengthOfFixed(ReadLine(stream).0).error)
    ensures r == Err(CouldNotReadNewline) <==>
      Utf8(ReadLine(stream).0) && LengthOfFixed(ReadLine(stream).0).Ok? && !Utf8(ReadLine(ReadLine(stream).1).0)
    ensures r.Ok? ==>
      && LengthOfFixed(ReadLine(stream).0).Ok?
      && r.value == Take(ReadLine(ReadLine(stream).1).1, LengthOfFixed(ReadLine(stream).0).value)
  {
    var (header, rest) := ReadLine(stream);
    if !Utf8(header) then Err(CouldNotReadLength)
    else match LengthOfFixed(header)
      case Err(e) => Err(e)
      case Ok(n) =>
        var (blank, body) := ReadLine(rest);
        if !Utf8(blank) then Err(CouldNotReadNewline)
        else Ok(Take(body, n))
  }

  /** read_line stops at the end of a line whose only line feed is its last byte. */
  lemma ReadLineAt(line: seq<byte>, rest: seq<byte>)
    requires |line| > 0 && line[|line| - 1] == LF && LF !in line[..|line| - 1]
    ensures ReadLine(line + rest) == (line, rest)
  {
    var s := line + rest;
    assert s[..|line|] == line;
    assert s[..|line| - 1] == line[..|line| - 1];
    IndexOfAfter(line[..|line| - 1], LF, rest);
    assert s == line[..|line| - 1] + [LF] + rest;
  }

  /** A written header line, with either ending, is ASCII, and its one line feed is its last byte. */
  lemma HeaderLineBytes(n: nat, terminator: seq<byte>)
    requires terminator == [LF] || terminator == [CR, LF]
    ensures var h := ContentLength + Decimal(n) + terminator;
      && (forall i :: 0 <= i < |h| ==> h[i] < 0x80)
      && Utf8(h) && h[|h| - 1] == LF && LF !in h[..|h| - 1]
  {
    var h := ContentLength + Decimal(n) + terminator;
    HeaderNameBytes();
    forall i | 0 <= i < |h| ensures h[i] < 0x80 && (i < |h| - 1 ==> h[i] != LF) {
      if i < |HeaderName| {
        assert h[i] == HeaderName[i];
      } else if |ContentLength| <= i < |ContentLength| + |Decimal(n)| {
        assert h[i] == Decimal(n)[i - |ContentLength|];
      } else if i >= |ContentLength| + |Decimal(n)| {
        assert h[i] == terminator[i - |ContentLength| - |Decimal(n)|];
      }
    }
    AsciiIsUtf8(h);
  }

  /**
   * After any UTF-8 header line that the corrected reader reads as `n`, the
   * second line plays no part, and neither does the stream after the declared
   * length: the frame's body is the next `n` bytes.
   */
  lemma ReadFrameAfterHeader(header: seq<byte>, n: nat, second: seq<byte>, body: seq<byte>)
    requires |header| > 0 && header[|header| - 1] == LF && LF !in header[..|header| - 1]
    requires Utf8(header) && LengthOfFixed(header) == Ok(n)
    requires LF !in second && Utf8(second + [LF])
    ensures ReadFrame(header + (second + [LF]) + body) == Ok(Take(body, n))
  {
    var rest := (second + [LF]) + body;
    assert header + (second + [LF]) + body == header + rest;
    ReadLineAt(header, rest);
    assert (second + [LF])[..|second|] == second;
    ReadLineAt(second + [LF], body);
  }

  /** A frame as LSP clients send it, both lines ended by "\r\n", yields the declared number of bytes. */
  lemma ReadFrameCrLf(n: nat, body: seq<byte>)
    requires n <= U64Max
    ensures ReadFrame(HeaderLineCrLf(n) + [CR, LF] + body) == Ok(Take(body, n))
  {
    HeaderLineBytes(n, [CR, LF]);
    HeaderRoundTrip(n);
    AsciiIsUtf8([CR, LF]);
    assert [CR] + [LF] == [CR, LF];
    ReadFrameAfterHeader(HeaderLineCrLf(n), n, [CR], body);
  }

  /** The header `main` writes, followed by its empty second line, meets the conditions of ReadFrameAfterHeader. */
  lemma WrittenHeader(n: nat)
    requires n <= U64Max
    ensures var h := HeaderLine(n);
      && h[|h| - 1] == LF && LF !in h[..|h| - 1] && Utf8(h) && LengthOfFixed(h) == Ok(n)
      && LF !in [] && Utf8([] + [LF])
  {
    HeaderLineBytes(n, [LF]);
    HeaderRoundTrip(n);
    AsciiIsUtf8([LF]);
    assert [] + [LF] == [LF];
  }

  /** Reading a written frame gives back its body, whatever follows it in the stream. */
  lemma ReadFrameRoundTrip(body: seq<byte>, more: seq<byte>)
    requires |body| <= U64Max
    ensures ReadFrame(WriteFrame(body) + more) == Ok(body)
  {
    var h := HeaderLine(|body|);
    WrittenHeader(|body|);
    assert WriteFrame(body) + more == h + [LF] + (body + more);
    assert [] + [LF] == [LF];
    ReadFrameAfterHeader(h, |body|, [], body + more);
    assert Take(body + more, |body|) == body;
  }

  /** A body cut short by the end of the stream is not an error: the bytes there are taken as the body. */
  lemma ShortBodyAccepted(n: nat, body: seq<byte>)
    requires |body| < n <= U64Max
    ensures ReadFrame(HeaderLine(n) + [LF] + body) == Ok(body)
  {
    var h := HeaderLine(n);
    WrittenHeader(n);
    assert [] + [LF] == [LF];
    ReadFrameAfterHeader(h, n, [], body);
  }

  /** An empty stream, or a UTF-8 first line without a space, ends the loop with "Malformed header". */
  lemma MalformedHeaderOnFirstLine(stream: seq<byte>)
    requires Utf8(ReadLine(stream).0) && SP !in ReadLine(stream).0
    ensures ReadFrame(stream) == Err(MalformedHeader)
  {
  }
}
