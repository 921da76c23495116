/** Character payloads of CLOBs and NCLOBs: runes to UTF-16 code units (sections 2.1 and 2.2 of RFC 2781), code units to
    bytes in either order, and back into a caller's rune buffer. */
module Utf16Payloads {
  import opened Results

  /** A rune is any 32-bit value; only Unicode scalar values survive encoding unchanged. */
  type Rune = r: int | -0x8000_0000 <= r <= 0x7FFF_FFFF
  type Unit = u: int | 0 <= u <= 0xFFFF
  type Byte = b: int | 0 <= b <= 0xFF

  const Replacement: Unit := 0xFFFD

  predicate IsHigh(u: int) { 0xD800 <= u <= 0xDBFF }
  predicate IsLow(u: int) { 0xDC00 <= u <= 0xDFFF }
  predicate IsSupplementary(r: int) { 0x1_0000 <= r <= 0x10_FFFF }
  predicate IsScalar(r: int) { 0 <= r <= 0x10_FFFF && !IsHigh(r) && !IsLow(r) }

  // ---------------------------------------------------------------------------------------------
  // Runes and code units
  // ---------------------------------------------------------------------------------------------

  function EncodeRune(r: Rune): seq<Unit> {
    if IsSupplementary(r) then [0xD800 + (r - 0x1_0000) / 0x400, 0xDC00 + (r - 0x1_0000) % 0x400]
    else if IsScalar(r) then [r]
    else [Replacement]
  }

  function Encode(runes: seq<Rune>): seq<Unit> {
    if runes == [] then [] else EncodeRune(runes[0]) + Encode(runes[1..])
  }

  /** A surrogate that is not part of a pair decodes to the replacement character. */
  function Decode(units: seq<Unit>): seq<Rune> {
    if units == [] then []
    else if IsHigh(units[0]) && |units| > 1 && IsLow(units[1])
    then [(units[0] - 0xD800) * 0x400 + (units[1] - 0xDC00) + 0x1_0000] + Decode(units[2..])
    else if IsHigh(units[0]) || IsLow(units[0]) then [Replacement] + Decode(units[1..])
    else [units[0]] + Decode(units[1..])
  }

  /** The runes with everything that is not a scalar value replaced. */
  function Sanitized(runes: seq<Rune>): seq<Rune> {
    seq(|runes|, i requires 0 <= i < |runes| => if IsScalar(runes[i]) then runes[i] else Replacement)
  }

  lemma DecodeFirst(r: Rune, units: seq<Unit>)
    ensures Decode(EncodeRune(r) + units) == [if IsScalar(r) then r else Replacement] + Decode(units)
  {
    var all := EncodeRune(r) + units;
    if IsSupplementary(r) {
      assert all[2..] == units;
    } else {
      assert all[1..] == units;
    }
  }

  /** Every scalar value survives encoding and decoding; anything else comes back as the replacement character. */
  lemma {:induction false} RunesRoundTrip(runes: seq<Rune>)
    ensures Decode(Encode(runes)) == Sanitized(runes)
    ensures (forall i :: 0 <= i < |runes| ==> IsScalar(runes[i])) <==> Decode(Encode(runes)) == runes
  {
    if runes != [] {
      RunesRoundTrip(runes[1..]);
      DecodeFirst(runes[0], Encode(runes[1..]));
      assert Sanitized(runes) == [Sanitized(runes)[0]] + Sanitized(runes[1..]);
    }
    SanitizedIsIdentityExactly(runes);
  }

  lemma SanitizedIsIdentityExactly(runes: seq<Rune>)
    ensures (forall i :: 0 <= i < |runes| ==> IsScalar(runes[i])) <==> Sanitized(runes) == runes
  {
    if Sanitized(runes) == runes {
      forall i | 0 <= i < |runes|
        ensures IsScalar(runes[i])
      {
        assert Sanitized(runes)[i] == runes[i];
      }
    }
  }

  /** Every high surrogate is followed by a low one, and every low one preceded by a high one. */
  ghost predicate IsPaired(units: seq<Unit>) {
    && (forall i :: 0 <= i < |units| && IsHigh(units[i]) ==> i + 1 < |units| && IsLow(units[i + 1]))
    && (forall i :: 0 <= i < |units| && IsLow(units[i]) ==> i > 0 && IsHigh(units[i - 1]))
  }

  lemma PairedTail(units: seq<Unit>, n: nat)
    requires (n == 1 && |units| > 0 && !IsHigh(units[0]) && !IsLow(units[0]))
          || (n == 2 && |units| > 1 && IsHigh(units[0]) && IsLow(units[1]))
    ensures IsPaired(units) <==> IsPaired(units[n..])
  {
    var rest := units[n..];
    assert forall i :: 0 <= i < |rest| ==> rest[i] == units[i + n];
    if IsPaired(rest) {
      forall i | 0 <= i < |units| && IsHigh(units[i])
        ensures i + 1 < |units| && IsLow(units[i + 1])
      {
        if i >= n {
          assert rest[i - n] == units[i];
        }
      }
      forall i | 0 <= i < |units| && IsLow(units[i])
        ensures i > 0 && IsHigh(units[i - 1])
      {
        if i >= n {
          assert rest[i - n] == units[i];
        }
      }
    }
    if IsPaired(units) {
      forall i | 0 <= i < |rest| && IsLow(rest[i])
        ensures i > 0 && IsHigh(rest[i - 1])
      {
        assert units[i + n] == rest[i];
      }
    }
  }

  /** The other way round: code units survive decoding and encoding exactly when all surrogates are paired. */
  lemma {:induction false} UnitsRoundTrip(units: seq<Unit>)
    ensures Encode(Decode(units)) == units <==> IsPaired(units)
  {
    if units != [] {
      var n := if IsHigh(units[0]) && |units| > 1 && IsLow(units[1]) then 2 else 1;
      if n == 1 && (IsHigh(units[0]) || IsLow(units[0])) {
        LoneSurrogateIsLost(units);
      } else {
        UnitsRoundTrip(units[n..]);
        FrontSurvives(units, n);
        PairedTail(units, n);
        assert units == units[..n] + units[n..];
        SameFront(units[..n], Encode(Decode(units[n..])), units[n..]);
      }
    }
  }

  lemma LoneSurrogateIsLost(units: seq<Unit>)
    requires units != [] && (IsHigh(units[0]) || IsLow(units[0])) && !(IsHigh(units[0]) && |units| > 1 && IsLow(units[1]))
    ensures Encode(Decode(units)) != units && !IsPaired(units)
  {
    var rest := Decode(units[1..]);
    assert Decode(units) == [Replacement] + rest;
    assert ([Replacement] + rest)[1..] == rest;
    assert Encode(Decode(units))[0] == Replacement;
  }

  lemma {:induction false} FrontSurvives(units: seq<Unit>, n: nat)
    requires (n == 1 && |units| > 0 && !IsHigh(units[0]) && !IsLow(units[0]))
          || (n == 2 && |units| > 1 && IsHigh(units[0]) && IsLow(units[1]))
    ensures Encode(Decode(units)) == units[..n] + Encode(Decode(units[n..]))
  {
    if n == 1 {
      EncodeFront(units[0], Decode(units[1..]));
      assert units[..1] == [units[0]] == EncodeRune(units[0]);
    } else {
      var high: int, low: int := units[0], units[1];
      var r: Rune := (high - 0xD800) * 0x400 + (low - 0xDC00) + 0x1_0000;
      PairSurvives(units[0], units[1]);
      EncodeFront(r, Decode(units[2..]));
      assert units[..2] == [units[0], units[1]] == EncodeRune(r);
    }
  }

  lemma EncodeFront(r: Rune, rest: seq<Rune>)
    ensures Encode([r] + rest) == EncodeRune(r) + Encode(rest)
  {
    assert ([r] + rest)[1..] == rest;
  }

  lemma PairSurvives(high: Unit, low: Unit)
    requires IsHigh(high) && IsLow(low)
    ensures EncodeRune((high - 0xD800) * 0x400 + (low - 0xDC00) + 0x1_0000) == [high, low]
  {
  }

  lemma SameFront(front: seq<Unit>, a: seq<Unit>, b: seq<Unit>)
    ensures front + a == front + b <==> a == b
  {
    assert (front + a)[|front|..] == a && (front + b)[|front|..] == b;
  }

  // ---------------------------------------------------------------------------------------------
  // Code units and bytes
  // ---------------------------------------------------------------------------------------------

  function UnitBytes(u: Unit, littleEndian: bool): seq<Byte> {
    if littleEndian then [u % 0x100, u / 0x100] else [u / 0x100, u % 0x100]
  }

  function UnitOf(first: Byte, second: Byte, littleEndian: bool): Unit {
    if littleEndian then first + second * 0x100 else first * 0x100 + second
  }

  function Bytes(units: seq<Unit>, littleEndian: bool): seq<Byte> {
    if units == [] then [] else Bytes(units[..|units| - 1], littleEndian) + UnitBytes(units[|units| - 1], littleEndian)
  }

  function Units(data: seq<Byte>, littleEndian: bool): (units: seq<Unit>)
    requires |data| % 2 == 0
  {
    seq(|data| / 2, i requires 0 <= i < |data| / 2 => UnitOf(data[2 * i], data[2 * i + 1], littleEndian))
  }

  lemma {:induction false} BytesAt(units: seq<Unit>, littleEndian: bool)
    ensures |Bytes(units, littleEndian)| == 2 * |units|
    ensures forall i :: 0 <= i < |units| ==>
              && Bytes(units, littleEndian)[2 * i] == UnitBytes(units[i], littleEndian)[0]
              && Bytes(units, littleEndian)[2 * i + 1] == UnitBytes(units[i], littleEndian)[1]
  {
    if units != [] {
      var most := units[..|units| - 1];
      BytesAt(most, littleEndian);
      forall i | 0 <= i < |units|
        ensures Bytes(units, littleEndian)[2 * i] == UnitBytes(units[i], littleEndian)[0]
        ensures Bytes(units, littleEndian)[2 * i + 1] == UnitBytes(units[i], littleEndian)[1]
      {
        if i < |units| - 1 {
          assert most[i] == units[i];
        }
      }
    }
  }

  lemma UnitsOfBytes(units: seq<Unit>, littleEndian: bool)
    ensures |Bytes(units, littleEndian)| == 2 * |units| && Units(Bytes(units, littleEndian), littleEndian) == units
  {
    BytesAt(units, littleEndian);
  }

  // ---------------------------------------------------------------------------------------------
  // Payloads
  // ---------------------------------------------------------------------------------------------

  function Payload(runes: seq<Rune>, littleEndian: bool): seq<Byte> { Bytes(Encode(runes), littleEndian) }

  function ReadPayload(data: seq<Byte>, littleEndian: bool): Option<seq<Rune>> {
    if |data| % 2 != 0 then None else Some(Decode(Units(data, littleEndian)))
  }

  lemma PayloadRoundTrip(runes: seq<Rune>, littleEndian: bool)
    ensures |Payload(runes, littleEndian)| == 2 * |Encode(runes)|
    ensures ReadPayload(Payload(runes, littleEndian), littleEndian) == Some(Sanitized(runes))
    ensures (forall i :: 0 <= i < |runes| ==> IsScalar(runes[i])) ==> ReadPayload(Payload(runes, littleEndian), littleEndian) == Some(runes)
  {
    UnitsOfBytes(Encode(runes), littleEndian);
    RunesRoundTrip(runes);
  }

  /** A grinning cat: one surrogate pair, high before low, each unit in the byte order asked for. */
  lemma PayloadExample()
    ensures Encode([0x1_F638]) == [0xD83D, 0xDE38]
    ensures Payload([0x1_F638], false) == [0xD8, 0x3D, 0xDE, 0x38]
    ensures Payload([0x1_F638], true) == [0x3D, 0xD8, 0x38, 0xDE]
  {
    var units := Encode([0x1_F638]);
    assert Encode([]) == [] && [0x1_F638][1..] == [];
    assert units == [0xD83D, 0xDE38];
    assert units[..1] == [0xD83D] && units[..1][..0] == [];
    assert Bytes(units[..1], false) == [0xD8, 0x3D] && Bytes(units[..1], true) == [0x3D, 0xD8];
  }

  /** Whatever is no scalar value, and every lone surrogate, becomes U+FFFD. */
  lemma ReplacementIs(r: Rune, u: Unit)
    ensures !IsScalar(r) ==> Encode([r]) == [0xFFFD]
    ensures IsHigh(u) || IsLow(u) ==> Decode([u]) == [0xFFFD]
  {
    assert [r][1..] == [] && [u][1..] == [];
  }

  function Supplementary(runes: seq<Rune>): nat {
    if runes == [] then 0 else (if IsSupplementary(runes[0]) then 1 else 0) + Supplementary(runes[1..])
  }

  lemma {:induction false} EncodedLength(runes: seq<Rune>)
    ensures |Encode(runes)| == |runes| + Supplementary(runes)
  {
    if runes != [] {
      EncodedLength(runes[1..]);
    }
  }

  function BufferSize(variableWidth: bool, numChars: int): int { if variableWidth then numChars * 2 else numChars * 3 }

  /** The buffer that a write allocates for `numChars` characters is large enough exactly when the surrogate pairs fit into
      the slack; for variable-width storage and a full window there is none, so one supplementary character is too many. */
  lemma BufferSufficesExactlyWhen(runes: seq<Rune>, littleEndian: bool, variableWidth: bool, numChars: nat)
    requires |runes| <= numChars
    ensures |Payload(runes, littleEndian)| <= BufferSize(variableWidth, numChars)
       <==> (if variableWidth then |runes| + Supplementary(runes) <= numChars
             else 2 * (|runes| + Supplementary(runes)) <= 3 * numChars)
  {
    PayloadRoundTrip(runes, littleEndian);
    EncodedLength(runes);
  }

  /** A single character outside the basic plane does not fit into the buffer allocated for it. */
  lemma OneSupplementaryCharacterDoesNotFit(littleEndian: bool)
    ensures IsScalar(0x1_F638) && |Payload([0x1_F638], littleEndian)| > BufferSize(true, 1)
  {
    EncodedLength([0x1_F638]);
    PayloadRoundTrip([0x1_F638], littleEndian);
  }

  // ---------------------------------------------------------------------------------------------
  // Writing
  // ---------------------------------------------------------------------------------------------

  const Al32Utf8: nat := 873
  const Al16Utf16: nat := 2000

  datatype AmountUnit = CodeUnit | CodePoint

  function ResolveAmountUnit(charset: nat): (unit: Option<AmountUnit>)
    ensures unit == Some(CodeUnit) <==> charset == 2000
    ensures unit == Some(CodePoint) <==> charset == 873
  {
    if charset == Al16Utf16 then Some(CodeUnit) else if charset == Al32Utf8 then Some(CodePoint) else None
  }

  datatype Policy = Policy(driverCharset: nat, ncharCharset: nat)

  /** Writes all code units or, when they do not fit, nothing. */
  method WriteUtf16ToBuffer(units: seq<Unit>, destination: array<Byte>, littleEndian: bool) returns (written: int)
    modifies destination
    ensures 2 * |units| > destination.Length ==> written == -1 && destination[..] == old(destination[..])
    ensures 2 * |units| <= destination.Length ==>
              written == 2 * |units| && destination[..] == Bytes(units, littleEndian) + old(destination[2 * |units|..])
  {
    var needed := |units| * 2;
    if needed > destination.Length {
      return -1;
    }
    BytesAt([], littleEndian);
    for i := 0 to |units|
      invariant |Bytes(units[..i], littleEndian)| == 2 * i
      invariant destination[..2 * i] == Bytes(units[..i], littleEndian)
      invariant destination[2 * i..] == old(destination[2 * i..])
    {
      WriteUnit(units[i], destination, 2 * i, littleEndian);
      assert units[..i + 1][..i] == units[..i];
      assert destination[..2 * (i + 1)] == destination[..2 * i] + destination[2 * i..2 * i + 2];
    }
    assert units[..|units|] == units;
    assert destination[..] == destination[..needed] + destination[needed..];
    written := needed;
  }

  method WriteUnit(unit: Unit, destination: array<Byte>, base: nat, littleEndian: bool)
    requires base + 2 <= destination.Length
    modifies destination
    ensures destination[..base] == old(destination[..base]) && destination[base + 2..] == old(destination[base + 2..])
    ensures destination[base..base + 2] == UnitBytes(unit, littleEndian)
  {
    if littleEndian {
      destination[base] := unit % 0x100;
      destination[base + 1] := unit / 0x100;
    } else {
      destination[base] := unit / 0x100;
      destination[base + 1] := unit % 0x100;
    }
  }

  /** The characters a call encodes: at most `numChars` of them, from `offset` on. */
  function Window(source: seq<Rune>, offset: nat, numChars: nat): (w: seq<Rune>)
    requires offset <= |source|
    ensures |w| <= numChars && offset + |w| <= |source| && (|w| == numChars || offset + |w| == |source|)
    ensures forall i :: 0 <= i < |w| ==> w[i] == source[offset + i]
  {
    source[offset..if offset + numChars > |source| then |source| else offset + numChars]
  }

  /** Encoding fails exactly when the charset of a fixed-width locator is unknown or two bytes per code unit exceed the
      buffer, and then writes nothing; otherwise the buffer starts with the payload and keeps the rest of its bytes. */
  method EncodeLobCharPayload(policy: Policy, source: seq<Rune>, offset: nat, numChars: nat, destination: array<Byte>,
                              variableWidth: bool, isNclob: bool, littleEndian: bool)
    returns (written: int, amount: int, codePoints: int)
    requires offset <= |source|
    modifies destination
    ensures var runes := Window(source, offset, numChars);
            var unit := ResolveAmountUnit(if isNclob then policy.ncharCharset else policy.driverCharset);
            && codePoints == |runes|
            && (written == -1 <==> runes != [] && ((!variableWidth && unit.None?) || 2 * |Encode(runes)| > destination.Length))
            && (written == -1 ==> amount == -1 && destination[..] == old(destination[..]))
            && (written != -1 ==>
                  && written == 2 * |Encode(runes)|
                  && amount == (if variableWidth || unit != Some(CodePoint) then |Encode(runes)| else |runes|)
                  && destination[..] == Payload(runes, littleEndian) + old(destination[2 * |Encode(runes)|..]))
  {
    var end := offset + numChars;
    if end > |source| {
      end := |source|;
    }
    var runes := source[offset..end];
    if |runes| == 0 {
      return 0, 0, 0;
    }
    if variableWidth {
      written, amount := EncodeVariableWidth(runes, destination, littleEndian);
    } else {
      written, amount := EncodeFixedWidth(policy, runes, destination, isNclob, littleEndian);
    }
    codePoints := |runes|;
  }

  method EncodeVariableWidth(runes: seq<Rune>, destination: array<Byte>, littleEndian: bool) returns (written: int, amount: int)
    modifies destination
    ensures written == -1 <==> 2 * |Encode(runes)| > destination.Length
    ensures written == -1 ==> amount == -1 && destination[..] == old(destination[..])
    ensures written != -1 ==>
              && written == 2 * |Encode(runes)| && amount == |Encode(runes)|
              && destination[..] == Payload(runes, littleEndian) + old(destination[2 * |Encode(runes)|..])
  {
    var units := Encode(runes);
    written := WriteUtf16ToBuffer(units, destination, littleEndian);
    if written < 0 {
      return -1, -1;
    }
    amount := |units|;
  }

  method EncodeFixedWidth(policy: Policy, runes: seq<Rune>, destination: array<Byte>, isNclob: bool, littleEndian: bool)
    returns (written: int, amount: int)
    modifies destination
    ensures var unit := ResolveAmountUnit(if isNclob then policy.ncharCharset else policy.driverCharset);
            && (written == -1 <==> unit.None? || 2 * |Encode(runes)| > destination.Length)
            && (written == -1 ==> amount == -1 && destination[..] == old(destination[..]))
            && (written != -1 ==>
                  && written == 2 * |Encode(runes)|
                  && amount == (if unit == Some(CodePoint) then |runes| else |Encode(runes)|)
                  && destination[..] == Payload(runes, littleEndian) + old(destination[2 * |Encode(runes)|..]))
  {
    var charset := policy.driverCharset;
    if isNclob {
      charset := policy.ncharCharset;
    }
    var unit := ResolveAmountUnit(charset);
    if unit.None? {
      return -1, -1;
    }
    var units := Encode(runes);
    written := WriteUtf16ToBuffer(units, destination, littleEndian);
    if written < 0 {
      return -1, -1;
    }
    amount := if unit.value.CodePoint? then |runes| else |units|;
  }

  // ---------------------------------------------------------------------------------------------
  // Reading
  // ---------------------------------------------------------------------------------------------

  datatype Error = OddLength | BufferTooSmall

  method ReadUtf16CodeUnits(data: seq<Byte>, littleEndian: bool) returns (r: Result<seq<Unit>, Error>)
    ensures r == if |data| % 2 != 0 then Err(OddLength) else Ok(Units(data, littleEndian))
  {
    if |data| % 2 != 0 {
      return Err(OddLength);
    }
    var units := new Unit[|data| / 2](_ => 0);
    for i := 0 to units.Length
      invariant forall k :: 0 <= k < i ==> units[k] == UnitOf(data[2 * k], data[2 * k + 1], littleEndian)
    {
      var base := i * 2;
      units[i] := UnitOf(data[base], data[base + 1], littleEndian);
    }
    assert units[..] == Units(data, littleEndian);
    r := Ok(units[..]);
  }

  /** The runes land at the offset and nothing else in the buffer changes; an error changes nothing at all. */
  method DecodeVariableWidth(source: seq<Byte>, out: array<Rune>, offset: nat, littleEndian: bool)
    returns (r: Result<nat, Error>)
    modifies out
    ensures var runes := ReadPayload(source, littleEndian);
            if runes.None? then r == Err(OddLength) && out[..] == old(out[..])
            else if offset + |runes.value| > out.Length then r == Err(BufferTooSmall) && out[..] == old(out[..])
            else r == Ok(|runes.value|) && out[..] == old(out[..offset]) + runes.value + old(out[offset + |runes.value|..])
  {
    var units := ReadUtf16CodeUnits(source, littleEndian);
    if units.Err? {
      return Err(units.error);
    }
    var runes := Decode(units.value);
    r := CopyOut(runes, out, offset);
  }

  method CopyOut(runes: seq<Rune>, out: array<Rune>, offset: nat) returns (r: Result<nat, Error>)
    modifies out
    ensures if offset + |runes| > out.Length then r == Err(BufferTooSmall) && out[..] == old(out[..])
            else r == Ok(|runes|) && out[..] == old(out[..offset]) + runes + old(out[offset + |runes|..])
  {
    if offset + |runes| > out.Length {
      return Err(BufferTooSmall);
    }
    for i := 0 to |runes|
      invariant forall k :: 0 <= k < out.Length ==> out[k] == if offset <= k < offset + i then runes[k - offset] else old(out[k])
    {
      out[offset + i] := runes[i];
    }
    r := Ok(|runes|);
  }

  /** `utf8` is the conversion of a byte string to runes that a fixed-width CLOB goes through. */
  method DecodeLobCharPayload(utf8: seq<Byte> -> seq<Rune>, source: seq<Byte>, out: array<Rune>, offset: nat,
                              variableWidth: bool, isNclob: bool, littleEndian: bool)
    returns (r: Result<nat, Error>)
    modifies out
    ensures var runes := if variableWidth || isNclob then ReadPayload(source, littleEndian) else Some(utf8(source));
            if runes.None? then r == Err(OddLength) && out[..] == old(out[..])
            else if offset + |runes.value| > out.Length then r == Err(BufferTooSmall) && out[..] == old(out[..])
            else r == Ok(|runes.value|) && out[..] == old(out[..offset]) + runes.value + old(out[offset + |runes.value|..])
  {
    if variableWidth || isNclob {
      r := DecodeVariableWidth(source, out, offset, littleEndian);
    } else {
      r := CopyOut(utf8(source), out, offset);
    }
  }

  /** Whenever a variable-width or NCLOB write succeeds, reading its bytes puts the same runes at the offset asked for and
      leaves the rest of the output alone. */
  method WriteThenRead(utf8: seq<Byte> -> seq<Rune>, policy: Policy, source: seq<Rune>, numChars: nat, wire: array<Byte>,
                       out: array<Rune>, offset: nat, variableWidth: bool, isNclob: bool, littleEndian: bool)
    returns (written: int, r: Result<nat, Error>)
    requires variableWidth || isNclob
    modifies wire, out
    ensures var runes := Window(source, 0, numChars);
            written != -1 && offset + |runes| <= out.Length ==>
              r == Ok(|runes|) && out[..] == old(out[..offset]) + Sanitized(runes) + old(out[offset + |runes|..])
  {
    var amount, codePoints;
    written, amount, codePoints := EncodeLobCharPayload(policy, source, 0, numChars, wire, variableWidth, isNclob, littleEndian);
    if written == -1 {
      return written, Err(BufferTooSmall);
    }
    ghost var runes := Window(source, 0, numChars);
    PayloadRoundTrip(runes, littleEndian);
    assert wire[..written] == Payload(runes, littleEndian);
    r := DecodeLobCharPayload(utf8, wire[..written], out, offset, variableWidth, isNclob, littleEndian);
  }
}
