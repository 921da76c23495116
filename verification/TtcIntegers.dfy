/** Integers on the TTC wire: a native form of fixed width in either byte order, and a universal form that
    writes a length byte with a sign flag and then the magnitude without leading zeros. */
module TtcIntegers {
  import opened Results

  type byte = x: int | 0 <= x < 256

  datatype DecodeError = EndOfInput | BadInteger | BadLength | ProtocolViolation | BufferTooSmall

  // ---------------------------------------------------------------------------------------------
  // Big-endian digits
  // ---------------------------------------------------------------------------------------------

  function Pow256(n: nat): (p: nat)
    ensures 0 < p
  {
    if n == 0 then 1 else 256 * Pow256(n - 1)
  }

  /** The low `width` bytes of `v`, most significant first. */
  function Digits(v: nat, width: nat): (b: seq<byte>)
    ensures |b| == width
  {
    if width == 0 then [] else Digits(v / 256, width - 1) + [v % 256]
  }

  function Value(b: seq<byte>): (v: int)
    ensures 0 <= v
  {
    if b == [] then 0 else 256 * Value(b[..|b| - 1]) + b[|b| - 1]
  }

  lemma {:induction false} ValueOfDigits(v: nat, width: nat)
    requires v < Pow256(width)
    ensures Value(Digits(v, width)) == v
  {
    if width != 0 {
      var most := Digits(v / 256, width - 1);
      ValueOfDigits(v / 256, width - 1);
      assert Digits(v, width) == most + [v % 256] && (most + [v % 256])[..width - 1] == most;
    }
  }

  lemma {:induction false} ValueBound(b: seq<byte>)
    ensures Value(b) < Pow256(|b|)
  {
    if b != [] {
      ValueBound(b[..|b| - 1]);
    }
  }

  lemma {:induction false} ValueIgnoresLeadingZeros(zeros: seq<byte>, b: seq<byte>)
    requires forall i :: 0 <= i < |zeros| ==> zeros[i] == 0
    ensures Value(zeros + b) == Value(b)
    decreases |zeros| + |b|
  {
    if b != [] {
      ValueIgnoresLeadingZeros(zeros, b[..|b| - 1]);
      assert (zeros + b)[..|zeros + b| - 1] == zeros + b[..|b| - 1];
    } else if zeros != [] {
      ValueIgnoresLeadingZeros(zeros[..|zeros| - 1], []);
      assert zeros + b == zeros;
      assert zeros[..|zeros| - 1] + [] == zeros[..|zeros| - 1];
    }
  }

  lemma {:induction false} PowMonotone(m: nat, n: nat)
    requires m <= n
    ensures Pow256(m) <= Pow256(n)
  {
    if m < n {
      PowMonotone(m, n - 1);
    }
  }

  /** A magnitude that starts with a non-zero byte needs every one of its bytes. */
  lemma {:induction false} LeadingByteCounts(b: seq<byte>)
    requires b != [] && b[0] != 0
    ensures Pow256(|b| - 1) <= Value(b)
  {
    if |b| > 1 {
      LeadingByteCounts(b[..|b| - 1]);
    }
  }

  function Reversed(b: seq<byte>): (r: seq<byte>)
    ensures |r| == |b|
    ensures forall i :: 0 <= i < |b| ==> r[i] == b[|b| - 1 - i]
  {
    if b == [] then [] else [b[|b| - 1]] + Reversed(b[..|b| - 1])
  }

  // ---------------------------------------------------------------------------------------------
  // Types
  // ---------------------------------------------------------------------------------------------

  datatype Numeric = Numeric(unsigned: bool, width: nat)

  const UB2 := Numeric(true, 2)
  const UB4 := Numeric(true, 4)
  const UB8 := Numeric(true, 8)
  const SB2 := Numeric(false, 2)
  const SB4 := Numeric(false, 4)

  /** The integer types fit into eight bytes. */
  predicate Supported(t: Numeric) { 1 <= t.width <= 8 }

  /** Half the number of values of a type of this width. */
  function Half(width: nat): (h: int)
    requires 1 <= width
    ensures 0 < h && Pow256(width) == 2 * h
  {
    128 * Pow256(width - 1)
  }

  function Min(t: Numeric): int requires Supported(t) { if t.unsigned then 0 else -Half(t.width) }

  function Max(t: Numeric): int requires Supported(t) {
    if t.unsigned then Pow256(t.width) - 1 else Half(t.width) - 1
  }

  predicate InRange(t: Numeric, v: int) requires Supported(t) { Min(t) <= v <= Max(t) }

  /** Conversion of an integer to the type, wrapping around as the machine does. */
  function Wrap(t: Numeric, v: int): int
    requires Supported(t)
  {
    var low := v % Pow256(t.width);
    if t.unsigned || low < Half(t.width) then low else low - Pow256(t.width)
  }

  lemma MultipleBounds(x: int, m: int)
    requires 0 < m
    ensures 1 <= x ==> m <= x * m
    ensures x <= -1 ==> x * m <= -m
  {
  }

  lemma Residue(v: int, m: int, k: int)
    requires 0 <= v + k * m < m
    ensures v % m == v + k * m
  {
    var q := v / m;
    assert v == q * m + v % m;
    assert (q + k) * m == q * m + k * m;
    MultipleBounds(q + k, m);
  }

  lemma WrapOfInRange(t: Numeric, v: int)
    requires Supported(t) && InRange(t, v)
    ensures Wrap(t, v) == v
  {
    Residue(v, Pow256(t.width), if 0 <= v then 0 else 1);
  }

  // ---------------------------------------------------------------------------------------------
  // Universal form
  // ---------------------------------------------------------------------------------------------

  function LeadingZeros(b: seq<byte>): (n: nat)
    ensures n <= |b|
    ensures forall i :: 0 <= i < n ==> b[i] == 0
    ensures n < |b| ==> b[n] != 0
  {
    if b == [] || b[0] != 0 then 0 else 1 + LeadingZeros(b[1..])
  }

  const SIGN_FLAG := 128

  /** The universal frame of a magnitude below 2^64: zero is one zero byte, anything else is its byte count with the
      sign flag followed by its significant bytes. */
  function UniversalFrame(magnitude: nat, negative: bool): seq<byte>
  {
    var digits := Digits(magnitude, 8);
    var significant := digits[LeadingZeros(digits)..];
    if magnitude == 0 then [0]
    else [|significant| + if negative then SIGN_FLAG else 0] + significant
  }

  /** The significant bytes are counted with a loop, which would run off the end for zero. */
  method EncodeAbsoluteUniversalValue(magnitude: nat, negative: bool) returns (frame: seq<byte>)
    requires 0 < magnitude < Pow256(8)
    ensures frame == UniversalFrame(magnitude, negative)
  {
    var bigEndian := Digits(magnitude, 8);
    ValueOfDigits(magnitude, 8);
    assert LeadingZeros(bigEndian) < 8 by {
      ValueIgnoresLeadingZeros(bigEndian[..LeadingZeros(bigEndian)], bigEndian[LeadingZeros(bigEndian)..]);
      assert bigEndian == bigEndian[..LeadingZeros(bigEndian)] + bigEndian[LeadingZeros(bigEndian)..];
    }
    var zeros := 0;
    while bigEndian[zeros] == 0
      invariant zeros < 8 && zeros <= LeadingZeros(bigEndian)
      invariant forall i :: 0 <= i < zeros ==> bigEndian[i] == 0
      decreases 8 - zeros
    {
      zeros := zeros + 1;
    }
    frame := [8 - zeros + if negative then SIGN_FLAG else 0] + bigEndian[zeros..];
  }

  method WriteUniversal(magnitude: nat, negative: bool) returns (frame: seq<byte>)
    requires magnitude < Pow256(8)
    ensures frame == UniversalFrame(magnitude, negative)
  {
    if magnitude == 0 {
      frame := [0];
    } else {
      frame := EncodeAbsoluteUniversalValue(magnitude, negative);
    }
  }

  /** The signed negation of an unsigned magnitude: the magnitude is converted first, then multiplied by -1, and both
      operations wrap. Unsigned types keep the magnitude. */
  function Negated(t: Numeric, magnitude: nat): int
    requires Supported(t)
  {
    if t.unsigned then magnitude else Wrap(t, -1 * Wrap(t, magnitude))
  }

  /** The decoder's conversion and its checks on the wrapped value. */
  function Checked(t: Numeric, negative: bool, magnitude: nat): Option<int>
    requires Supported(t)
  {
    var final := if negative then Negated(t, magnitude) else Wrap(t, magnitude);
    if (negative && (0 <= Min(t) || 0 < final)) || Wrap(t, Max(t)) < final || (!negative && final < 0)
    then None else Some(final)
  }

  function DecodeUniversal(t: Numeric, input: seq<byte>): (r: Result<(int, seq<byte>), DecodeError>)
    requires Supported(t)
    ensures r.Ok? ==> |r.value.1| < |input|
  {
    if input == [] then Err(EndOfInput)
    else if input[0] == 0 then Ok((0, input[1..]))
    else
      var n, negative := input[0] % SIGN_FLAG, SIGN_FLAG <= input[0];
      if n == 0 || t.width < n || (negative && t.unsigned) then Err(BadInteger)
      else if |input| < 1 + n then Err(EndOfInput)
      else
        var padded := seq(t.width - n, _ => 0) + input[1..1 + n];
        var final := Checked(t, negative, Value(padded));
        if final.Some? then Ok((final.value, input[1 + n..])) else Err(BadInteger)
  }

  /** The integer that a frame stands for, mathematically. */
  function Meaning(negative: bool, payload: seq<byte>): int {
    if negative then -Value(payload) else Value(payload)
  }

  lemma NegatedMeaning(t: Numeric, m: int)
    requires Supported(t) && !t.unsigned && 0 <= m < Pow256(t.width)
    ensures m <= Half(t.width) ==> Negated(t, m) == -m
    ensures Half(t.width) < m ==> 0 < Negated(t, m)
  {
    var p, h := Pow256(t.width), Half(t.width);
    assert Wrap(t, m) == if m < h then m else m - p by {
      Residue(m, p, 0);
    }
    if m < h {
      WrapOfInRange(t, -m);
    } else if m == h {
      assert -1 * Wrap(t, m) == h;
      Residue(h, p, 0);
    } else {
      WrapOfInRange(t, p - m);
    }
  }

  /** The wrapping checks are exact: they accept a magnitude with a sign precisely when the signed value lies in the
      type's range. */
  lemma CheckedIsExact(t: Numeric, negative: bool, m: nat)
    requires Supported(t) && m < Pow256(t.width) && !(negative && t.unsigned)
    ensures var v: int := if negative then 0 - m else m;
      Checked(t, negative, m) == if InRange(t, v) then Some(v) else None
  {
    WrapOfInRange(t, Max(t));
    Residue(m, Pow256(t.width), 0);
    if negative {
      NegatedMeaning(t, m);
    }
  }

  lemma FrameSlices(first: byte, payload: seq<byte>, rest: seq<byte>)
    ensures var input := [first] + payload + rest;
            input[0] == first && input[1..1 + |payload|] == payload && input[1 + |payload|..] == rest
  {
  }

  /** The decoder accepts a frame precisely when its byte count suits the type and its mathematical value lies in the
      type's range (an unsigned type also refuses the sign flag), and returns that value. */
  lemma DecodeUniversalIsExact(t: Numeric, first: byte, payload: seq<byte>, rest: seq<byte>)
    requires Supported(t) && first != 0 && first % SIGN_FLAG == |payload|
    ensures var negative := SIGN_FLAG <= first;
      DecodeUniversal(t, [first] + payload + rest)
      == if 1 <= |payload| <= t.width && !(negative && t.unsigned) && InRange(t, Meaning(negative, payload))
         then Ok((Meaning(negative, payload), rest)) else Err(BadInteger)
  {
    var input := [first] + payload + rest;
    var n := |payload|;
    if 1 <= n <= t.width && !(SIGN_FLAG <= first && t.unsigned) {
      FrameSlices(first, payload, rest);
      var zeros := seq(t.width - n, _ => 0);
      ValueIgnoresLeadingZeros(zeros, payload);
      ValueBound(zeros + payload);
      CheckedIsExact(t, SIGN_FLAG <= first, Value(payload));
    }
  }

  /** The significant digits have the value of the magnitude and start with a non-zero one. */
  lemma SignificantDigits(magnitude: nat, payload: seq<byte>)
    requires 0 < magnitude < Pow256(8)
    requires payload == Digits(magnitude, 8)[LeadingZeros(Digits(magnitude, 8))..]
    ensures payload != [] && payload[0] != 0 && Value(payload) == magnitude
  {
    var digits := Digits(magnitude, 8);
    var z := LeadingZeros(digits);
    ValueOfDigits(magnitude, 8);
    assert digits == digits[..z] + payload;
    ValueIgnoresLeadingZeros(digits[..z], payload);
  }

  /** Every frame the encoder writes is well formed and as short as possible. */
  lemma {:induction false} UniversalFrameShape(magnitude: nat, negative: bool, width: nat) returns (payload: seq<byte>)
    requires 0 < magnitude < Pow256(width) && width <= 8
    ensures UniversalFrame(magnitude, negative) == [|payload| + if negative then SIGN_FLAG else 0] + payload
    ensures 1 <= |payload| <= width && payload[0] != 0 && Value(payload) == magnitude
  {
    PowMonotone(width, 8);
    payload := Digits(magnitude, 8)[LeadingZeros(Digits(magnitude, 8))..];
    SignificantDigits(magnitude, payload);
    LeadingByteCounts(payload);
    if width < |payload| {
      PowMonotone(width, |payload| - 1);
    }
  }

  lemma FirstByteOf(n: nat, negative: bool)
    requires n < SIGN_FLAG
    ensures var first := n + if negative then SIGN_FLAG else 0;
            first < 256 && first % SIGN_FLAG == n && (SIGN_FLAG <= first <==> negative)
  {
  }

  /** Universal integers round trip for every value of every supported type, the signed minimum included. */
  lemma UniversalRoundTrip(t: Numeric, v: int, rest: seq<byte>)
    requires Supported(t) && InRange(t, v)
    ensures DecodeUniversal(t, UniversalFrame(if v < 0 then -v else v, v < 0) + rest) == Ok((v, rest))
  {
    var magnitude := if v < 0 then -v else v;
    if magnitude == 0 {
      assert ([0] + rest)[1..] == rest;
    } else {
      assert magnitude < Pow256(t.width);
      var payload := UniversalFrameShape(magnitude, v < 0, t.width);
      FirstByteOf(|payload|, v < 0);
      DecodeUniversalIsExact(t, |payload| + if v < 0 then SIGN_FLAG else 0, payload, rest);
    }
  }

  lemma {:induction false} ValueIsInjective(a: seq<byte>, b: seq<byte>)
    requires |a| == |b| && Value(a) == Value(b)
    ensures a == b
  {
    if a != [] {
      ValueIsInjective(a[..|a| - 1], b[..|b| - 1]);
      assert a == a[..|a| - 1] + [a[|a| - 1]] && b == b[..|b| - 1] + [b[|b| - 1]];
    }
  }

  lemma LongerIsLarger(a: seq<byte>, b: seq<byte>)
    requires b != [] && b[0] != 0 && |a| < |b|
    ensures Value(a) < Value(b)
  {
    ValueBound(a);
    LeadingByteCounts(b);
    PowMonotone(|a|, |b| - 1);
  }

  /** Magnitudes that start with a non-zero byte are equal as byte sequences if they are equal as numbers. */
  lemma ShortestDigitsAreUnique(a: seq<byte>, b: seq<byte>)
    requires a != [] && b != [] && a[0] != 0 && b[0] != 0 && Value(a) == Value(b)
    ensures a == b
  {
    if |a| < |b| {
      LongerIsLarger(a, b);
    } else if |b| < |a| {
      LongerIsLarger(b, a);
    } else {
      ValueIsInjective(a, b);
    }
  }

  /** The frame is read whole and yields `v`. */
  predicate Reads(t: Numeric, frame: seq<byte>, v: int)
    requires Supported(t)
  {
    DecodeUniversal(t, frame) == Ok((v, []))
  }

  /** The frame that the encoder writes for `v`. */
  function Canonical(v: int): seq<byte> { UniversalFrame(if v < 0 then -v else v, v < 0) }

  predicate StartsWithSignificantDigit(frame: seq<byte>) { frame == [0] || (|frame| > 1 && frame[1] != 0) }

  lemma ReadFrameParts(t: Numeric, frame: seq<byte>, v: int)
    requires Supported(t) && Reads(t, frame, v) && frame != [0]
    ensures |frame| > 1 && frame[0] != 0 && frame[0] % SIGN_FLAG == |frame| - 1 <= t.width
    ensures v == Meaning(SIGN_FLAG <= frame[0], frame[1..])
  {
    if frame[0] != 0 {
      var payload := frame[1..];
      assert frame == [frame[0]] + payload + [];
      DecodeUniversalIsExact(t, frame[0], payload, []);
    }
  }

  lemma SameFrameSameDigits(first: byte, a: seq<byte>, first': byte, b: seq<byte>)
    ensures [first] + a == [first'] + b <==> first == first' && a == b
  {
    assert ([first] + a)[0] == first && ([first] + a)[1..] == a;
    assert ([first'] + b)[0] == first' && ([first'] + b)[1..] == b;
  }

  lemma FirstByteIs(first: byte)
    ensures first == first % SIGN_FLAG + if SIGN_FLAG <= first then SIGN_FLAG else 0
  {
  }

  lemma CanonicalWhenNonZero(first: byte, payload: seq<byte>, width: nat)
    requires payload != [] && first % SIGN_FLAG == |payload| <= width <= 8 && 0 < Value(payload)
    ensures UniversalFrame(Value(payload), SIGN_FLAG <= first) == [first] + payload <==> payload[0] != 0
  {
    var negative := SIGN_FLAG <= first;
    ValueBound(payload);
    PowMonotone(|payload|, width);
    var shortest := UniversalFrameShape(Value(payload), negative, width);
    var first' := |shortest| + if negative then SIGN_FLAG else 0;
    FirstByteIs(first);
    SameFrameSameDigits(first', shortest, first, payload);
    if payload[0] != 0 {
      ShortestDigitsAreUnique(payload, shortest);
    }
  }

  lemma CanonicalByParts(frame: seq<byte>, v: int, width: nat)
    requires |frame| > 1 && frame[0] % SIGN_FLAG == |frame| - 1 <= width <= 8 && v == Meaning(SIGN_FLAG <= frame[0], frame[1..])
    ensures frame == Canonical(v) <==> frame[1] != 0
  {
    var payload := frame[1..];
    assert frame == [frame[0]] + payload && payload[0] == frame[1];
    if 0 < Value(payload) {
      CanonicalWhenNonZero(frame[0], payload, width);
    } else {
      ZeroStartsWithZero(payload);
    }
  }

  /** Of all frames that are read as some value, the encoder's own are exactly those without a leading zero digit. */
  lemma CanonicalExactlyWhen(t: Numeric, frame: seq<byte>, v: int)
    requires Supported(t) && Reads(t, frame, v)
    ensures frame == Canonical(v) <==> StartsWithSignificantDigit(frame)
  {
    if frame != [0] {
      ReadFrameParts(t, frame, v);
      CanonicalByParts(frame, v, t.width);
    }
  }

  lemma ZeroStartsWithZero(payload: seq<byte>)
    requires payload != [] && Value(payload) == 0
    ensures payload[0] == 0
  {
    if payload[0] != 0 {
      LeadingByteCounts(payload);
    }
  }

  /** So decoding is injective on the frames without a leading zero digit. */
  lemma SignificantFramesAreUnique(t: Numeric, frame: seq<byte>, frame': seq<byte>, v: int)
    requires Supported(t)
    ensures Reads(t, frame, v) && Reads(t, frame', v) && StartsWithSignificantDigit(frame) && StartsWithSignificantDigit(frame') ==>
              frame == frame'
  {
    if Reads(t, frame, v) && Reads(t, frame', v) {
      CanonicalExactlyWhen(t, frame, v);
      CanonicalExactlyWhen(t, frame', v);
    }
  }

  /** Decoding is not injective: padded magnitudes and a negative zero are read as the shorter frame is. */
  lemma UniversalDecodingIsNotInjective(rest: seq<byte>)
    ensures DecodeUniversal(SB4, [2, 0, 7] + rest) == DecodeUniversal(SB4, [1, 7] + rest) == Ok((7, rest))
    ensures DecodeUniversal(SB4, [129, 0] + rest) == DecodeUniversal(SB4, [0] + rest) == Ok((0, rest))
  {
    assert [2, 0, 7] + rest == [2] + [0, 7] + rest && [1, 7] + rest == [1] + [7] + rest;
    assert [129, 0] + rest == [129] + [0] + rest;
    ValueIgnoresLeadingZeros([0], [7]);
    assert [0] + [7] == [0, 7];
    assert [7][..0] == [] && [0][..0] == [];
    assert Value([7]) == 7 && Value([0]) == 0;
    DecodeUniversalIsExact(SB4, 2, [0, 7], rest);
    DecodeUniversalIsExact(SB4, 1, [7], rest);
    DecodeUniversalIsExact(SB4, 129, [0], rest);
    assert ([0] + rest)[1..] == rest;
  }

  // ---------------------------------------------------------------------------------------------
  // Native form, and the choice between the two
  // ---------------------------------------------------------------------------------------------

  function NativeFrame(t: Numeric, v: int, littleEndian: bool): seq<byte>
    requires Supported(t)
  {
    var digits := Digits(v % Pow256(t.width), t.width);
    if littleEndian then Reversed(digits) else digits
  }

  function DecodeNative(t: Numeric, littleEndian: bool, input: seq<byte>): (r: Result<(int, seq<byte>), DecodeError>)
    requires Supported(t)
    ensures r.Ok? ==> |r.value.1| < |input|
  {
    if |input| < t.width then Err(EndOfInput)
    else
      var b := input[..t.width];
      Ok((Wrap(t, Value(if littleEndian then Reversed(b) else b)), input[t.width..]))
  }

  lemma NativeRoundTrip(t: Numeric, v: int, littleEndian: bool, rest: seq<byte>)
    requires Supported(t) && InRange(t, v)
    ensures DecodeNative(t, littleEndian, NativeFrame(t, v, littleEndian) + rest) == Ok((v, rest))
  {
    var digits := Digits(v % Pow256(t.width), t.width);
    var frame := NativeFrame(t, v, littleEndian);
    assert (frame + rest)[..t.width] == frame && (frame + rest)[t.width..] == rest;
    assert Reversed(Reversed(digits)) == digits;
    WrapOfDigits(t, v);
  }

  lemma WrapOfDigits(t: Numeric, v: int)
    requires Supported(t) && InRange(t, v)
    ensures Wrap(t, Value(Digits(v % Pow256(t.width), t.width))) == v
  {
    ValueOfDigits(v % Pow256(t.width), t.width);
    WrapOfInRange(t, v);
    Residue(v % Pow256(t.width), Pow256(t.width), 0);
  }

  datatype Representation = Native | Universal

  /** The representation negotiated for two, four and eight byte integers, and the byte order. */
  datatype Format = Format(b2: Representation, b4: Representation, b8: Representation, littleEndian: bool)

  function RepresentationOf(f: Format, t: Numeric): Representation {
    if t.width == 2 then f.b2 else if t.width == 4 then f.b4 else f.b8
  }

  function Encode(f: Format, t: Numeric, v: int): seq<byte>
    requires Supported(t)
  {
    if RepresentationOf(f, t).Universal? then UniversalFrame(if v < 0 then -v else v, v < 0)
    else NativeFrame(t, v, f.littleEndian)
  }

  function Decode(f: Format, t: Numeric, input: seq<byte>): (r: Result<(int, seq<byte>), DecodeError>)
    requires Supported(t)
    ensures r.Ok? ==> |r.value.1| < |input|
  {
    if RepresentationOf(f, t).Universal? then DecodeUniversal(t, input) else DecodeNative(t, f.littleEndian, input)
  }

  lemma IntegerRoundTrip(f: Format, t: Numeric, v: int, rest: seq<byte>)
    requires Supported(t) && InRange(t, v)
    ensures Decode(f, t, Encode(f, t, v) + rest) == Ok((v, rest))
  {
    if RepresentationOf(f, t).Universal? {
      UniversalRoundTrip(t, v, rest);
    } else {
      NativeRoundTrip(t, v, f.littleEndian, rest);
    }
  }

  /** A length written as an unsigned four-byte integer is read back as a signed one, if it is not negative there. */
  lemma LengthReadAsSigned(f: Format, length: nat, rest: seq<byte>)
    requires length <= Max(SB4)
    ensures Decode(f, SB4, Encode(f, UB4, length) + rest) == Ok((length, rest))
  {
    assert Encode(f, UB4, length) == Encode(f, SB4, length);
    IntegerRoundTrip(f, SB4, length, rest);
  }

  // ---------------------------------------------------------------------------------------------
  // The bytes themselves
  // ---------------------------------------------------------------------------------------------

  lemma {:induction false} LastDigit(v: nat, width: nat)
    requires width > 0
    ensures Digits(v, width)[width - 1] == v % 256
  {
  }

  lemma {:induction false} FirstDigit(v: nat, width: nat)
    requires width > 0 && v < Pow256(width)
    ensures Digits(v, width)[0] == v / Pow256(width - 1)
  {
    var digits := Digits(v, width);
    ValueOfDigits(v, width);
    LeadingDigit(digits);
    var rest := v - digits[0] * Pow256(width - 1);
    Quotient(v, Pow256(width - 1), digits[0], rest);
  }

  /** The first digit weighs as much as all values of the others together. */
  lemma {:induction false} LeadingDigit(b: seq<byte>)
    requires b != []
    ensures b[0] * Pow256(|b| - 1) <= Value(b) < (b[0] + 1) * Pow256(|b| - 1)
  {
    if |b| > 1 {
      var most := b[..|b| - 1];
      LeadingDigit(most);
      LeadingDigitStep(b[0], Pow256(|most| - 1), Value(most), b[|b| - 1]);
    } else {
      assert b[..0] == [];
    }
  }

  lemma LeadingDigitStep(first: int, p: int, v: int, last: int)
    requires first * p <= v < (first + 1) * p && 0 <= last < 256
    ensures first * (256 * p) <= 256 * v + last < (first + 1) * (256 * p)
  {
    assert first * (256 * p) == 256 * (first * p) && (first + 1) * (256 * p) == 256 * ((first + 1) * p);
  }

  lemma {:induction false} Quotient(v: int, m: int, q: int, r: int)
    requires 0 < m && v == q * m + r && 0 <= r < m
    ensures v / m == q
  {
    var d := v / m - q;
    assert v == (v / m) * m + v % m;
    assert d * m == (v / m) * m - q * m;
    MultipleBounds(d, m);
  }

  /** In big-endian order the most significant byte of the two's complement comes first, in little-endian order the least
      significant one; either frame is the other one backwards. */
  lemma {:induction false} NativeByteOrder(t: Numeric, v: int)
    requires Supported(t)
    ensures NativeFrame(t, v, false)[0] == v % Pow256(t.width) / Pow256(t.width - 1)
    ensures NativeFrame(t, v, true)[0] == v % Pow256(t.width) % 256
    ensures NativeFrame(t, v, true) == Reversed(NativeFrame(t, v, false))
  {
    FirstDigit(v % Pow256(t.width), t.width);
    LastDigit(v % Pow256(t.width), t.width);
  }

  /** A magnitude of two digits is written most significant digit first, behind their number with the sign in its top bit. */
  lemma {:induction false} TwoDigitFrame(a: byte, b: byte, negative: bool)
    requires a != 0
    ensures UniversalFrame(256 * a + b, negative) == [if negative then 130 else 2, a, b]
  {
    var digits := Digits(256 * a + b, 8);
    ZeroDigits(6);
    assert digits == Digits(a, 7) + [b];
    assert Digits(a, 7) == Digits(0, 6) + [a];
    assert digits[6] == a && forall i :: 0 <= i < 6 ==> digits[i] == Digits(0, 6)[i];
    var z := LeadingZeros(digits);
    assert !(6 < z) && !(z < 6);
    assert digits[6..] == [a, b];
  }

  lemma {:induction false} ZeroDigits(width: nat)
    ensures forall i :: 0 <= i < width ==> Digits(0, width)[i] == 0
  {
    if width > 0 {
      ZeroDigits(width - 1);
    }
  }
}
