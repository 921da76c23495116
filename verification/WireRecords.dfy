/** The records that authentication and session synchronisation exchange: lists of key/value pairs and arrays of
    keyword/value pairs, built from length-prefixed fields. */
module WireRecords {
  import opened Results
  import opened TtcIntegers
  import opened MarshalEngine

  const MAXIMUM_KEY_LENGTH := 4096
  const MAXIMUM_VALUE_LENGTH := 1024 * 10
  const MAXIMUM_KEYWORD_PAIRS := 128 * 10
  const MAXIMUM_KEYWORD_LENGTH := 64 * 1024 * 10

  datatype KeyValue = KeyValue(key: seq<byte>, value: seq<byte>, flag: int)

  datatype KeywordValue = KeywordValue(text: seq<byte>, binary: seq<byte>, keyword: int)

  // ---------------------------------------------------------------------------------------------
  // Fields
  // ---------------------------------------------------------------------------------------------

  /** A field: its length as an unsigned four-byte integer, then its bytes unless there are none. */
  function FieldBytes(f: Format, data: seq<byte>): seq<byte> {
    Encode(f, UB4, Wrap(UB4, |data|)) + if data == [] then [] else ClrBytes(f, data)
  }

  /** A field whose length is read as type `t` and checked against a limit before anything is allocated. */
  function ReadField(f: Format, t: Numeric, limit: nat, input: seq<byte>): Read
    requires Supported(t)
  {
    match Decode(f, t, input)
    case Err(e) => Err(e)
    case Ok((length, rest)) =>
      if length < 0 || limit < length then Err(BadLength)
      else if length == 0 then Ok(([], rest))
      else ReadClr(f, rest, length, length)
  }

  lemma WrapIsInRange(t: Numeric, v: int)
    requires Supported(t)
    ensures InRange(t, Wrap(t, v))
  {
  }

  method MarshalField(engine: Engine, data: seq<byte>)
    modifies engine`output
    ensures engine.output == old(engine.output) + FieldBytes(engine.format, data)
  {
    ghost var before := engine.output;
    WrapIsInRange(UB4, |data|);
    engine.MarshalNumeric(UB4, Wrap(UB4, |data|));
    ghost var length := Encode(engine.format, UB4, Wrap(UB4, |data|));
    if data == [] {
      assert length + [] == length;
    } else {
      assert data[0..|data|] == data;
      engine.MarshalCLR(data, 0, |data|);
      Associates(before, length, ClrBytes(engine.format, data));
    }
  }

  method UnmarshalField(engine: Engine, t: Numeric, limit: nat) returns (r: Result<seq<byte>, DecodeError>)
    requires Supported(t)
    modifies engine`input
    ensures match ReadField(engine.format, t, limit, old(engine.input))
            case Ok((data, rest)) => r == Ok(data) && engine.input == rest
            case Err(e) => r == Err(e)
  {
    var length := engine.UnmarshalNumeric(t);
    if length.Err? {
      return Err(length.error);
    }
    if length.value < 0 || limit < length.value {
      return Err(BadLength);
    }
    if length.value == 0 {
      return Ok([]);
    }
    var buffer := new byte[length.value];
    var read := engine.UnmarshalCLR(buffer, length.value);
    if read.Err? {
      return Err(read.error);
    }
    r := Ok(buffer[..read.value]);
  }

  /** A field is read back whole if the reader's limit allows its length, and refused before its bytes are read if
      not. */
  lemma FieldRoundTrip(f: Format, t: Numeric, limit: nat, data: seq<byte>, rest: seq<byte>)
    requires t == UB4 || t == SB4
    requires InRange(t, |data|)
    ensures ReadField(f, t, limit, FieldBytes(f, data) + rest)
         == if |data| <= limit then Ok((data, rest)) else Err(BadLength)
  {
    assert InRange(UB4, |data|);
    WrapOfInRange(UB4, |data|);
    var tail := (if data == [] then [] else ClrBytes(f, data)) + rest;
    assert FieldBytes(f, data) + rest == Encode(f, UB4, |data|) + tail;
    if t == UB4 {
      IntegerRoundTrip(f, UB4, |data|, tail);
    } else {
      LengthReadAsSigned(f, |data|, tail);
    }
    if data == [] {
      assert tail == rest;
    } else {
      ClrRoundTrip(f, data, rest, |data|, |data|, 0);
    }
  }

  /** On any input, a field is never longer than the reader's limit. */
  lemma FieldStaysBelow(f: Format, t: Numeric, limit: nat, input: seq<byte>)
    requires Supported(t)
    ensures var r := ReadField(f, t, limit, input); r.Ok? ==> |r.value.0| <= limit
  {
    var decoded := Decode(f, t, input);
    if decoded.Ok? && 0 < decoded.value.0 <= limit {
      ReadClrStaysBelow(f, decoded.value.1, decoded.value.0);
    }
  }

  // ---------------------------------------------------------------------------------------------
  // Sequences of records, for any record format
  // ---------------------------------------------------------------------------------------------

  type Reader<R> = seq<byte> -> Result<(R, seq<byte>), DecodeError>

  function Concat<R>(bytes: R -> seq<byte>, records: seq<R>): seq<byte> {
    if records == [] then [] else bytes(records[0]) + Concat(bytes, records[1..])
  }

  /** Reads `count` more records behind the ones already read. */
  function ReadMore<R>(read: Reader<R>, input: seq<byte>, count: nat, got: seq<R>): Result<(seq<R>, seq<byte>), DecodeError>
    decreases count
  {
    if count == 0 then Ok((got, input))
    else
      match read(input)
      case Err(e) => Err(e)
      case Ok((r, rest)) => ReadMore(read, rest, count - 1, got + [r])
  }

  /** The reader returns each good record and stops at its end, and refuses each other one. */
  ghost predicate Reads<R>(read: Reader<R>, bytes: R -> seq<byte>, good: R -> bool, record: R) {
    forall rest :: read(bytes(record) + rest) == if good(record) then Ok((record, rest)) else Err(BadLength)
  }

  lemma {:induction false} RecordsRoundTrip<R>(
      read: Reader<R>, bytes: R -> seq<byte>, good: R -> bool, records: seq<R>, rest: seq<byte>, got: seq<R>)
    requires forall i :: 0 <= i < |records| ==> Reads(read, bytes, good, records[i])
    ensures ReadMore(read, Concat(bytes, records) + rest, |records|, got)
         == if forall i :: 0 <= i < |records| ==> good(records[i]) then Ok((got + records, rest)) else Err(BadLength)
    decreases |records|
  {
    if records == [] {
      assert Concat(bytes, records) + rest == rest && got + records == got;
    } else {
      var tail := Concat(bytes, records[1..]) + rest;
      assert Concat(bytes, records) + rest == bytes(records[0]) + tail;
      assert Reads(read, bytes, good, records[0]);
      if good(records[0]) {
        RecordsRoundTrip(read, bytes, good, records[1..], rest, got + [records[0]]);
        assert got + [records[0]] + records[1..] == got + records;
      }
    }
  }

  /** Whatever the input, all records read are good if the reader only ever returns good ones. */
  lemma {:induction false} ReadRecordsAreGood<R>(read: Reader<R>, good: R -> bool, input: seq<byte>, count: nat, got: seq<R>)
    requires forall i: seq<byte> :: read(i).Ok? ==> good(read(i).value.0)
    requires forall k :: 0 <= k < |got| ==> good(got[k])
    ensures var r := ReadMore(read, input, count, got);
            r.Ok? ==> forall k :: 0 <= k < |r.value.0| ==> good(r.value.0[k])
    decreases count
  {
    if count > 0 && read(input).Ok? {
      var (r, rest) := read(input).value;
      ReadRecordsAreGood(read, good, rest, count - 1, got + [r]);
    }
  }

  lemma BadRecordNeverComesBack<R>(read: Reader<R>, good: R -> bool, input: seq<byte>, records: seq<R>, rest: seq<byte>, bad: nat)
    requires forall i: seq<byte> :: read(i).Ok? ==> good(read(i).value.0)
    requires bad < |records| && !good(records[bad])
    ensures ReadMore(read, input, |records|, []) != Ok((records, rest))
  {
    ReadRecordsAreGood(read, good, input, |records|, []);
  }

  // ---------------------------------------------------------------------------------------------
  // Key/value lists
  // ---------------------------------------------------------------------------------------------

  function KeyValueBytes(f: Format, kv: KeyValue): seq<byte>
  {
    FieldBytes(f, kv.key) + FieldBytes(f, kv.value) + Encode(f, SB4, kv.flag)
  }

  function ReadKeyValue(f: Format, input: seq<byte>): Result<(KeyValue, seq<byte>), DecodeError> {
    match ReadField(f, SB4, MAXIMUM_KEY_LENGTH, input)
    case Err(e) => Err(e)
    case Ok((key, rest)) =>
      match ReadField(f, SB4, MAXIMUM_VALUE_LENGTH, rest)
      case Err(e) => Err(e)
      case Ok((value, rest')) =>
        match Decode(f, SB4, rest')
        case Err(e) => Err(e)
        case Ok((flag, rest'')) => Ok((KeyValue(key, value, flag), rest''))
  }

  function KeyValueWriter(f: Format): KeyValue -> seq<byte> { kv => KeyValueBytes(f, kv) }

  function KeyValueReader(f: Format): Reader<KeyValue> { input => ReadKeyValue(f, input) }

  method MarshalKeyValue(engine: Engine, kv: KeyValue)
    requires InRange(SB4, kv.flag)
    modifies engine`output
    ensures engine.output == old(engine.output) + KeyValueBytes(engine.format, kv)
  {
    MarshalField(engine, kv.key);
    MarshalField(engine, kv.value);
    engine.MarshalNumeric(SB4, kv.flag);
    Regroup(old(engine.output), FieldBytes(engine.format, kv.key), FieldBytes(engine.format, kv.value),
            Encode(engine.format, SB4, kv.flag));
  }

  method MarshalKeyValues(engine: Engine, list: seq<KeyValue>)
    requires forall i :: 0 <= i < |list| ==> InRange(SB4, list[i].flag)
    modifies engine`output
    ensures engine.output == old(engine.output) + Concat(KeyValueWriter(engine.format), list)
  {
    ghost var write := KeyValueWriter(engine.format);
    ghost var goal := engine.output + Concat(write, list);
    var i := 0;
    while i < |list|
      invariant i <= |list|
      invariant engine.output + Concat(write, list[i..]) == goal
    {
      NextRecord(write, list, i, engine.output);
      MarshalKeyValue(engine, list[i]);
      i := i + 1;
    }
  }

  lemma NextRecord<R>(write: R -> seq<byte>, list: seq<R>, i: nat, before: seq<byte>)
    requires i < |list|
    ensures before + Concat(write, list[i..]) == before + write(list[i]) + Concat(write, list[i + 1..])
  {
    assert list[i..][1..] == list[i + 1..];
  }

  method UnmarshalKeyValue(engine: Engine, ghost read: Reader<KeyValue>) returns (r: Result<KeyValue, DecodeError>)
    requires forall input {:trigger ReadKeyValue(engine.format, input)} :: read(input) == ReadKeyValue(engine.format, input)
    modifies engine`input
    ensures match read(old(engine.input))
            case Ok((kv, rest)) => r == Ok(kv) && engine.input == rest
            case Err(e) => r == Err(e)
  {
    assert read(engine.input) == ReadKeyValue(engine.format, engine.input);
    var key := UnmarshalField(engine, SB4, MAXIMUM_KEY_LENGTH);
    if key.Err? {
      return Err(key.error);
    }
    var value := UnmarshalField(engine, SB4, MAXIMUM_VALUE_LENGTH);
    if value.Err? {
      return Err(value.error);
    }
    var flag := engine.UnmarshalNumeric(SB4);
    if flag.Err? {
      return Err(flag.error);
    }
    r := Ok(KeyValue(key.value, value.value, flag.value));
  }

  /** Fills a preallocated list in place. */
  method UnmarshalKeyValues(engine: Engine, list: array<KeyValue>) returns (r: Result<(), DecodeError>)
    modifies engine`input, list
    ensures match ReadMore(KeyValueReader(engine.format), old(engine.input), list.Length, [])
            case Ok((kvs, rest)) => r == Ok(()) && list[..] == kvs && engine.input == rest
            case Err(e) => r == Err(e)
  {
    r := FillKeyValues(engine, list, KeyValueReader(engine.format));
  }

  method FillKeyValues(engine: Engine, list: array<KeyValue>, ghost read: Reader<KeyValue>) returns (r: Result<(), DecodeError>)
    requires forall input {:trigger ReadKeyValue(engine.format, input)} :: read(input) == ReadKeyValue(engine.format, input)
    modifies engine`input, list
    ensures match ReadMore(read, old(engine.input), list.Length, [])
            case Ok((records, rest)) => r == Ok(()) && list[..] == records && engine.input == rest
            case Err(e) => r == Err(e)
  {
    ghost var got: seq<KeyValue>, left: nat := [], list.Length;
    ghost var spec := ReadMore(read, engine.input, left, got);
    var i := 0;
    while i < list.Length
      invariant i <= list.Length && left == list.Length - i && got == list[..i]
      invariant ReadMore(read, engine.input, left, got) == spec
    {
      var kv := UnmarshalKeyValue(engine, read);
      if kv.Err? {
        return Err(kv.error);
      }
      list[i] := kv.value;
      i, left, got := i + 1, left - 1, got + [kv.value];
    }
    assert list[..] == list[..i];
    r := Ok(());
  }

  /** The lengths and the flag can be written as four-byte integers. */
  predicate WritableKeyValue(kv: KeyValue) {
    InRange(SB4, |kv.key|) && InRange(SB4, |kv.value|) && InRange(SB4, kv.flag)
  }

  predicate KeyValueWithinLimits(kv: KeyValue) {
    |kv.key| <= MAXIMUM_KEY_LENGTH && |kv.value| <= MAXIMUM_VALUE_LENGTH
  }

  lemma KeyValueRoundTrip(f: Format, kv: KeyValue, rest: seq<byte>)
    requires WritableKeyValue(kv)
    ensures ReadKeyValue(f, KeyValueBytes(f, kv) + rest)
         == if KeyValueWithinLimits(kv) then Ok((kv, rest)) else Err(BadLength)
  {
    var k, v, flag := FieldBytes(f, kv.key), FieldBytes(f, kv.value), Encode(f, SB4, kv.flag);
    RegroupRight(k, v, flag, rest);
    FieldRoundTrip(f, SB4, MAXIMUM_KEY_LENGTH, kv.key, v + (flag + rest));
    FieldRoundTrip(f, SB4, MAXIMUM_VALUE_LENGTH, kv.value, flag + rest);
    IntegerRoundTrip(f, SB4, kv.flag, rest);
  }

  /** A written key/value list followed by anything is read back as the same list and leaves exactly what followed, in
      every representation and byte order, if all lengths are within the limits; otherwise it is refused. */
  lemma KeyValueListRoundTrip(f: Format, list: seq<KeyValue>, rest: seq<byte>)
    requires forall i :: 0 <= i < |list| ==> WritableKeyValue(list[i])
    ensures ReadMore(KeyValueReader(f), Concat(KeyValueWriter(f), list) + rest, |list|, [])
         == if forall i :: 0 <= i < |list| ==> KeyValueWithinLimits(list[i]) then Ok((list, rest)) else Err(BadLength)
  {
    var read, write, good := KeyValueReader(f), KeyValueWriter(f), kv => KeyValueWithinLimits(kv);
    forall i | 0 <= i < |list|
      ensures Reads(read, write, good, list[i])
    {
      forall rest
        ensures read(write(list[i]) + rest) == if good(list[i]) then Ok((list[i], rest)) else Err(BadLength)
      {
        KeyValueRoundTrip(f, list[i], rest);
      }
    }
    RecordsRoundTrip(read, write, good, list, rest, []);
    assert [] + list == list;
  }

  lemma KeyValuesReadAreWithinLimits(f: Format, input: seq<byte>)
    ensures ReadKeyValue(f, input).Ok? ==> KeyValueWithinLimits(ReadKeyValue(f, input).value.0)
  {
    FieldStaysBelow(f, SB4, MAXIMUM_KEY_LENGTH, input);
    var key := ReadField(f, SB4, MAXIMUM_KEY_LENGTH, input);
    if key.Ok? {
      FieldStaysBelow(f, SB4, MAXIMUM_VALUE_LENGTH, key.value.1);
    }
  }

  lemma LongPairNeverComesBack(f: Format, input: seq<byte>, list: seq<KeyValue>, rest: seq<byte>, bad: nat)
    requires bad < |list| && !KeyValueWithinLimits(list[bad])
    ensures ReadMore(KeyValueReader(f), input, |list|, []) != Ok((list, rest))
  {
    var read, good := KeyValueReader(f), (kv: KeyValue) => KeyValueWithinLimits(kv);
    forall i: seq<byte> | read(i).Ok?
      ensures good(read(i).value.0)
    {
      KeyValuesReadAreWithinLimits(f, i);
    }
    BadRecordNeverComesBack(read, good, input, list, rest, bad);
  }

  /** For every list, however long its keys and values: it comes back, followed by exactly what followed it, if and only if
      all its lengths are within the limits. */
  lemma KeyValueListComesBackExactlyWhen(f: Format, list: seq<KeyValue>, rest: seq<byte>)
    requires forall i :: 0 <= i < |list| ==> InRange(SB4, list[i].flag)
    ensures ReadMore(KeyValueReader(f), Concat(KeyValueWriter(f), list) + rest, |list|, []) == Ok((list, rest))
       <==> forall i :: 0 <= i < |list| ==> KeyValueWithinLimits(list[i])
  {
    var input := Concat(KeyValueWriter(f), list) + rest;
    if forall i :: 0 <= i < |list| ==> KeyValueWithinLimits(list[i]) {
      KeyValueListRoundTrip(f, list, rest);
    } else {
      var bad :| 0 <= bad < |list| && !KeyValueWithinLimits(list[bad]);
      LongPairNeverComesBack(f, input, list, rest, bad);
    }
  }

  // ---------------------------------------------------------------------------------------------
  // Keyword/value arrays
  // ---------------------------------------------------------------------------------------------

  function KeywordBytes(f: Format, kw: KeywordValue): seq<byte>
  {
    FieldBytes(f, kw.text) + FieldBytes(f, kw.binary) + Encode(f, UB2, kw.keyword)
  }

  function ReadKeyword(f: Format, input: seq<byte>): Result<(KeywordValue, seq<byte>), DecodeError> {
    match ReadField(f, UB4, MAXIMUM_KEYWORD_LENGTH, input)
    case Err(e) => Err(e)
    case Ok((text, rest)) =>
      match ReadField(f, UB4, MAXIMUM_KEYWORD_LENGTH, rest)
      case Err(e) => Err(e)
      case Ok((binary, rest')) =>
        match Decode(f, UB2, rest')
        case Err(e) => Err(e)
        case Ok((keyword, rest'')) => Ok((KeywordValue(text, binary, keyword), rest''))
  }

  function KeywordWriter(f: Format): KeywordValue -> seq<byte> { kw => KeywordBytes(f, kw) }

  function KeywordReader(f: Format): Reader<KeywordValue> { input => ReadKeyword(f, input) }

  /** The array reader also refuses more pairs than its limit. */
  function ReadKeywords(f: Format, input: seq<byte>, count: nat): Result<(seq<KeywordValue>, seq<byte>), DecodeError> {
    if MAXIMUM_KEYWORD_PAIRS < count then Err(BadLength) else ReadMore(KeywordReader(f), input, count, [])
  }

  method MarshalKeyword(engine: Engine, kw: KeywordValue)
    requires InRange(UB2, kw.keyword)
    modifies engine`output
    ensures engine.output == old(engine.output) + KeywordBytes(engine.format, kw)
  {
    MarshalField(engine, kw.text);
    MarshalField(engine, kw.binary);
    engine.MarshalNumeric(UB2, kw.keyword);
    Regroup(old(engine.output), FieldBytes(engine.format, kw.text), FieldBytes(engine.format, kw.binary),
            Encode(engine.format, UB2, kw.keyword));
  }

  method MarshalKeywords(engine: Engine, pairs: seq<KeywordValue>)
    requires forall i :: 0 <= i < |pairs| ==> InRange(UB2, pairs[i].keyword)
    modifies engine`output
    ensures engine.output == old(engine.output) + Concat(KeywordWriter(engine.format), pairs)
  {
    ghost var write := KeywordWriter(engine.format);
    ghost var goal := engine.output + Concat(write, pairs);
    var i := 0;
    while i < |pairs|
      invariant i <= |pairs|
      invariant engine.output + Concat(write, pairs[i..]) == goal
    {
      NextRecord(write, pairs, i, engine.output);
      MarshalKeyword(engine, pairs[i]);
      i := i + 1;
    }
  }

  method UnmarshalKeyword(engine: Engine, ghost read: Reader<KeywordValue>) returns (r: Result<KeywordValue, DecodeError>)
    requires forall input {:trigger ReadKeyword(engine.format, input)} :: read(input) == ReadKeyword(engine.format, input)
    modifies engine`input
    ensures match read(old(engine.input))
            case Ok((kw, rest)) => r == Ok(kw) && engine.input == rest
            case Err(e) => r == Err(e)
  {
    assert read(engine.input) == ReadKeyword(engine.format, engine.input);
    var text := UnmarshalField(engine, UB4, MAXIMUM_KEYWORD_LENGTH);
    if text.Err? {
      return Err(text.error);
    }
    var binary := UnmarshalField(engine, UB4, MAXIMUM_KEYWORD_LENGTH);
    if binary.Err? {
      return Err(binary.error);
    }
    var keyword := engine.UnmarshalNumeric(UB2);
    if keyword.Err? {
      return Err(keyword.error);
    }
    r := Ok(KeywordValue(text.value, binary.value, keyword.value));
  }

  method UnmarshalKeywords(engine: Engine, pairs: array<KeywordValue>) returns (r: Result<(), DecodeError>)
    modifies engine`input, pairs
    ensures match ReadKeywords(engine.format, old(engine.input), pairs.Length)
            case Ok((kws, rest)) => r == Ok(()) && pairs[..] == kws && engine.input == rest
            case Err(e) => r == Err(e)
  {
    if MAXIMUM_KEYWORD_PAIRS < pairs.Length {
      return Err(BadLength);
    }
    r := FillKeywords(engine, pairs, KeywordReader(engine.format));
  }

  method FillKeywords(engine: Engine, pairs: array<KeywordValue>, ghost read: Reader<KeywordValue>) returns (r: Result<(), DecodeError>)
    requires forall input {:trigger ReadKeyword(engine.format, input)} :: read(input) == ReadKeyword(engine.format, input)
    modifies engine`input, pairs
    ensures match ReadMore(read, old(engine.input), pairs.Length, [])
            case Ok((records, rest)) => r == Ok(()) && pairs[..] == records && engine.input == rest
            case Err(e) => r == Err(e)
  {
    ghost var got: seq<KeywordValue>, left: nat := [], pairs.Length;
    ghost var spec := ReadMore(read, engine.input, left, got);
    var i := 0;
    while i < pairs.Length
      invariant i <= pairs.Length && left == pairs.Length - i && got == pairs[..i]
      invariant ReadMore(read, engine.input, left, got) == spec
    {
      var kw := UnmarshalKeyword(engine, read);
      if kw.Err? {
        return Err(kw.error);
      }
      pairs[i] := kw.value;
      i, left, got := i + 1, left - 1, got + [kw.value];
    }
    assert pairs[..] == pairs[..i];
    r := Ok(());
  }

  predicate WritableKeyword(kw: KeywordValue) {
    InRange(UB4, |kw.text|) && InRange(UB4, |kw.binary|) && InRange(UB2, kw.keyword)
  }

  predicate KeywordWithinLimits(kw: KeywordValue) {
    |kw.text| <= MAXIMUM_KEYWORD_LENGTH && |kw.binary| <= MAXIMUM_KEYWORD_LENGTH
  }

  lemma KeywordRoundTrip(f: Format, kw: KeywordValue, rest: seq<byte>)
    requires WritableKeyword(kw)
    ensures ReadKeyword(f, KeywordBytes(f, kw) + rest)
         == if KeywordWithinLimits(kw) then Ok((kw, rest)) else Err(BadLength)
  {
    var t, b, keyword := FieldBytes(f, kw.text), FieldBytes(f, kw.binary), Encode(f, UB2, kw.keyword);
    RegroupRight(t, b, keyword, rest);
    FieldRoundTrip(f, UB4, MAXIMUM_KEYWORD_LENGTH, kw.text, b + (keyword + rest));
    FieldRoundTrip(f, UB4, MAXIMUM_KEYWORD_LENGTH, kw.binary, keyword + rest);
    IntegerRoundTrip(f, UB2, kw.keyword, rest);
  }

  /** The same for keyword/value arrays, which have a limit on their number of pairs as well. */
  lemma KeywordArrayRoundTrip(f: Format, pairs: seq<KeywordValue>, rest: seq<byte>)
    requires forall i :: 0 <= i < |pairs| ==> WritableKeyword(pairs[i])
    ensures ReadKeywords(f, Concat(KeywordWriter(f), pairs) + rest, |pairs|)
         == if |pairs| <= MAXIMUM_KEYWORD_PAIRS && forall i :: 0 <= i < |pairs| ==> KeywordWithinLimits(pairs[i])
            then Ok((pairs, rest)) else Err(BadLength)
  {
    var read, write, good := KeywordReader(f), KeywordWriter(f), kw => KeywordWithinLimits(kw);
    forall i | 0 <= i < |pairs|
      ensures Reads(read, write, good, pairs[i])
    {
      forall rest
        ensures read(write(pairs[i]) + rest) == if good(pairs[i]) then Ok((pairs[i], rest)) else Err(BadLength)
      {
        KeywordRoundTrip(f, pairs[i], rest);
      }
    }
    RecordsRoundTrip(read, write, good, pairs, rest, []);
    assert [] + pairs == pairs;
  }

  lemma KeywordsReadAreWithinLimits(f: Format, input: seq<byte>)
    ensures ReadKeyword(f, input).Ok? ==> KeywordWithinLimits(ReadKeyword(f, input).value.0)
  {
    FieldStaysBelow(f, UB4, MAXIMUM_KEYWORD_LENGTH, input);
    var text := ReadField(f, UB4, MAXIMUM_KEYWORD_LENGTH, input);
    if text.Ok? {
      FieldStaysBelow(f, UB4, MAXIMUM_KEYWORD_LENGTH, text.value.1);
    }
  }

  lemma LongKeywordNeverComesBack(f: Format, input: seq<byte>, pairs: seq<KeywordValue>, rest: seq<byte>, bad: nat)
    requires bad < |pairs| && !KeywordWithinLimits(pairs[bad])
    ensures ReadMore(KeywordReader(f), input, |pairs|, []) != Ok((pairs, rest))
  {
    var read, good := KeywordReader(f), (kw: KeywordValue) => KeywordWithinLimits(kw);
    forall i: seq<byte> | read(i).Ok?
      ensures good(read(i).value.0)
    {
      KeywordsReadAreWithinLimits(f, i);
    }
    BadRecordNeverComesBack(read, good, input, pairs, rest, bad);
  }

  lemma ShortKeywordIsWritable(kw: KeywordValue)
    requires KeywordWithinLimits(kw) && InRange(UB2, kw.keyword)
    ensures WritableKeyword(kw)
  {
    SmallLength(|kw.text|);
    SmallLength(|kw.binary|);
  }

  lemma GoodArrayComesBack(f: Format, pairs: seq<KeywordValue>, rest: seq<byte>)
    requires |pairs| <= MAXIMUM_KEYWORD_PAIRS
    requires forall i :: 0 <= i < |pairs| ==> KeywordWithinLimits(pairs[i]) && InRange(UB2, pairs[i].keyword)
    ensures ReadKeywords(f, Concat(KeywordWriter(f), pairs) + rest, |pairs|) == Ok((pairs, rest))
  {
    forall i | 0 <= i < |pairs|
      ensures WritableKeyword(pairs[i])
    {
      ShortKeywordIsWritable(pairs[i]);
    }
    KeywordArrayRoundTrip(f, pairs, rest);
  }

  /** The same for every keyword/value array. */
  lemma {:induction false} KeywordArrayComesBackExactlyWhen(f: Format, pairs: seq<KeywordValue>, rest: seq<byte>)
    requires forall i :: 0 <= i < |pairs| ==> InRange(UB2, pairs[i].keyword)
    ensures ReadKeywords(f, Concat(KeywordWriter(f), pairs) + rest, |pairs|) == Ok((pairs, rest))
       <==> |pairs| <= MAXIMUM_KEYWORD_PAIRS && forall i :: 0 <= i < |pairs| ==> KeywordWithinLimits(pairs[i])
  {
    if |pairs| <= MAXIMUM_KEYWORD_PAIRS {
      if forall i :: 0 <= i < |pairs| ==> KeywordWithinLimits(pairs[i]) {
        GoodArrayComesBack(f, pairs, rest);
      } else {
        var bad :| 0 <= bad < |pairs| && !KeywordWithinLimits(pairs[bad]);
        LongKeywordNeverComesBack(f, Concat(KeywordWriter(f), pairs) + rest, pairs, rest, bad);
      }
    }
  }

  // ---------------------------------------------------------------------------------------------
  // The order of the fields
  // ---------------------------------------------------------------------------------------------

  /** A pair is its key, its value and its flag, in that order. */
  lemma KeyThenValueThenFlag(f: Format, kv: KeyValue, rest: seq<byte>)
    requires WritableKeyValue(kv) && KeyValueWithinLimits(kv)
    ensures var first := ReadField(f, SB4, MAXIMUM_KEY_LENGTH, KeyValueBytes(f, kv) + rest);
            && first.Ok? && first.value.0 == kv.key
            && ReadField(f, SB4, MAXIMUM_VALUE_LENGTH, first.value.1) == Ok((kv.value, Encode(f, SB4, kv.flag) + rest))
  {
    var k, v, flag := FieldBytes(f, kv.key), FieldBytes(f, kv.value), Encode(f, SB4, kv.flag);
    RegroupRight(k, v, flag, rest);
    FieldRoundTrip(f, SB4, MAXIMUM_KEY_LENGTH, kv.key, v + (flag + rest));
    FieldRoundTrip(f, SB4, MAXIMUM_VALUE_LENGTH, kv.value, flag + rest);
  }

  /** A keyword pair is its text, its binary value and its keyword number, in that order. */
  lemma TextThenBinaryThenKeyword(f: Format, kw: KeywordValue, rest: seq<byte>)
    requires WritableKeyword(kw) && KeywordWithinLimits(kw)
    ensures var first := ReadField(f, UB4, MAXIMUM_KEYWORD_LENGTH, KeywordBytes(f, kw) + rest);
            && first.Ok? && first.value.0 == kw.text
            && ReadField(f, UB4, MAXIMUM_KEYWORD_LENGTH, first.value.1) == Ok((kw.binary, Encode(f, UB2, kw.keyword) + rest))
  {
    var t, b, keyword := FieldBytes(f, kw.text), FieldBytes(f, kw.binary), Encode(f, UB2, kw.keyword);
    RegroupRight(t, b, keyword, rest);
    FieldRoundTrip(f, UB4, MAXIMUM_KEYWORD_LENGTH, kw.text, b + (keyword + rest));
    FieldRoundTrip(f, UB4, MAXIMUM_KEYWORD_LENGTH, kw.binary, keyword + rest);
  }

  lemma LimitsAreExact(kv: KeyValue, kw: KeywordValue)
    ensures KeyValueWithinLimits(kv) <==> |kv.key| <= 4096 && |kv.value| <= 10240
    ensures KeywordWithinLimits(kw) <==> |kw.text| <= 655360 && |kw.binary| <= 655360
    ensures MAXIMUM_KEYWORD_PAIRS == 1280
  {
  }
}
