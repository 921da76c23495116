/** Length-prefixed byte values (CLR) on the TTC wire. Up to 252 bytes are written behind one length byte; longer
    values are written as a marker, chunks with their own length, and a chunk of length zero. */
module MarshalEngine {
  import opened Results
  import opened TtcIntegers

  const MAXIMUM_SHORT_LENGTH := 0xFC
  const ESCAPE := 0xFD
  const LONG_MARKER := 0xFE
  const NULL_MARKER := 0xFF
  const CHUNK_SIZE := 32767
  const MAXIMUM_CHUNK := 2 * CHUNK_SIZE
  const SCALAR_LIMIT := 2 * 32 * 1024 * 1024

  type Read = Result<(seq<byte>, seq<byte>), DecodeError>

  function Least(a: int, b: int): int { if a < b then a else b }

  // ---------------------------------------------------------------------------------------------
  // The format
  // ---------------------------------------------------------------------------------------------

  function Flatten(chunks: seq<seq<byte>>): seq<byte> {
    if chunks == [] then [] else chunks[0] + Flatten(chunks[1..])
  }

  /** The chunks that the writer cuts a value into. */
  function Cut(value: seq<byte>): seq<seq<byte>> {
    if value == [] then []
    else
      var n := Least(|value|, CHUNK_SIZE);
      [value[..n]] + Cut(value[n..])
  }

  /** Chunks, each behind its length, and the closing length zero. */
  function LongBody(f: Format, chunks: seq<seq<byte>>): seq<byte> {
    if chunks == [] then Encode(f, SB4, 0)
    else Encode(f, SB4, |chunks[0]|) + chunks[0] + LongBody(f, chunks[1..])
  }

  function ClrBytes(f: Format, value: seq<byte>): seq<byte> {
    if |value| <= MAXIMUM_SHORT_LENGTH then [|value|] + value
    else [LONG_MARKER] + LongBody(f, Cut(value))
  }

  // ---------------------------------------------------------------------------------------------
  // The two readers, as functions of the bytes still to be read
  // ---------------------------------------------------------------------------------------------

  /** Takes `n` bytes off the input. */
  function Take(input: seq<byte>, n: nat): (r: Read)
    ensures r.Ok? ==> |r.value.0| == n && |r.value.1| == |input| - n
  {
    if |input| < n then Err(EndOfInput) else Ok((input[..n], input[n..]))
  }

  /** Takes `n` bytes into a buffer that must have room for them. */
  function TakeInto(input: seq<byte>, n: nat, room: int): (r: Read)
    ensures r.Ok? ==> |r.value.0| == n && |r.value.1| == |input| - n
  {
    if n == 0 then Ok(([], input)) else if room < n then Err(BufferTooSmall) else Take(input, n)
  }

  /** Takes the first `keep` of `length` bytes into a buffer that must have room for them, and reads past the others. */
  function TakeChunk(input: seq<byte>, length: nat, keep: nat, room: int): (r: Read)
    requires keep <= length
    ensures r.Ok? ==> |r.value.0| == keep && |r.value.1| == |input| - length
  {
    match TakeInto(input, keep, room)
    case Err(e) => Err(e)
    case Ok((kept, rest)) =>
      match Take(rest, length - keep)
      case Err(e) => Err(e)
      case Ok((_, rest')) => Ok((kept, rest'))
  }

  /** The chunk loop of the bounded reader: it keeps what fits below `maxSize` and reads past the rest. */
  function ReadChunks(f: Format, input: seq<byte>, capacity: nat, maxSize: nat, got: seq<byte>): Read
    requires |got| <= maxSize
    decreases |input|
  {
    match Decode(f, SB4, input)
    case Err(e) => Err(e)
    case Ok((length, rest)) =>
      if length == 0 then Ok((got, rest))
      else if length < 0 then Err(BadLength)
      else
        match TakeChunk(rest, length, Least(maxSize - |got|, length), capacity - |got|)
        case Err(e) => Err(e)
        case Ok((kept, rest')) => ReadChunks(f, rest', capacity, maxSize, got + kept)
  }

  /** The bounded reader fills a buffer of `capacity` bytes. Its short form does not look at `maxSize`. */
  function ReadClr(f: Format, input: seq<byte>, capacity: nat, maxSize: nat): Read {
    if input == [] then Err(EndOfInput)
    else if input[0] == ESCAPE then Err(ProtocolViolation)
    else if input[0] == NULL_MARKER then Ok(([], input[1..]))
    else if input[0] <= MAXIMUM_SHORT_LENGTH then TakeInto(input[1..], input[0], capacity)
    else ReadChunks(f, input[1..], capacity, maxSize, [])
  }

  function ReadColumnChunks(f: Format, input: seq<byte>, limit: int, got: seq<byte>): Read
    decreases |input|
  {
    match Decode(f, SB4, input)
    case Err(e) => Err(e)
    case Ok((length, rest)) =>
      if length == 0 then Ok((got, rest))
      else if length < 0 || MAXIMUM_CHUNK < length then Err(ProtocolViolation)
      else
        match Take(rest, length)
        case Err(e) => Err(e)
        case Ok((chunk, rest')) =>
          if limit < |got| + length then Err(ProtocolViolation)
          else ReadColumnChunks(f, rest', limit, got + chunk)
  }

  /** The reader of column data allocates its result and enforces an aggregate limit. */
  function ReadColumn(f: Format, input: seq<byte>, limit: int): Read {
    if input == [] then Err(EndOfInput)
    else if input[0] == ESCAPE then Err(ProtocolViolation)
    else if input[0] == NULL_MARKER then Ok(([], input[1..]))
    else if input[0] <= MAXIMUM_SHORT_LENGTH then Take(input[1..], input[0])
    else ReadColumnChunks(f, input[1..], limit, [])
  }

  function ColumnLimit(lobPrefetch: int): int {
    if SCALAR_LIMIT < 2 * lobPrefetch then 2 * lobPrefetch else SCALAR_LIMIT
  }

  // ---------------------------------------------------------------------------------------------
  // The engine
  // ---------------------------------------------------------------------------------------------

  /** The buffer `now` is `was` with its front replaced by `got`. */
  ghost predicate Overwritten(was: seq<byte>, got: seq<byte>, now: seq<byte>) {
    |got| <= |was| && now == got + was[|got|..]
  }

  /** The marshal engine over a data buffer: bytes written so far and bytes still to be read. */
  class Engine {
    const format: Format
    var output: seq<byte>
    var input: seq<byte>
    var lobPrefetch: int

    constructor (format: Format, input: seq<byte>)
      ensures this.format == format && this.input == input && output == [] && lobPrefetch == 0
    {
      this.format, this.input, output, lobPrefetch := format, input, [], 0;
    }

    method MarshalNumeric(t: Numeric, v: int)
      requires Supported(t) && InRange(t, v)
      modifies this`output
      ensures output == old(output) + Encode(format, t, v)
    {
      output := output + Encode(format, t, v);
    }

    method UnmarshalNumeric(t: Numeric) returns (r: Result<int, DecodeError>)
      requires Supported(t)
      modifies this`input
      ensures match Decode(format, t, old(input))
              case Ok((v, rest)) => r == Ok(v) && input == rest
              case Err(e) => r == Err(e)
    {
      match Decode(format, t, input)
      case Ok((v, rest)) =>
        input := rest;
        r := Ok(v);
      case Err(e) =>
        r := Err(e);
    }

    /** Writes `total` bytes of `value` from `offset` on. An empty value is not sliced, so only its length byte is
        written then. */
    method MarshalCLR(value: seq<byte>, offset: nat, total: nat)
      requires offset + total <= |value| || (value == [] && total <= MAXIMUM_SHORT_LENGTH)
      modifies this`output
      ensures output == old(output) + if value == [] then [total] else ClrBytes(format, value[offset..offset + total])
    {
      if MAXIMUM_SHORT_LENGTH < total {
        var part := value[offset..offset + total];
        ghost var before := output;
        output := output + [LONG_MARKER];
        MarshalChunks(part);
        Associates(before, [LONG_MARKER], LongBody(format, Cut(part)));
      } else {
        output := output + [total];
        if value != [] {
          ghost var part := value[offset..offset + total];
          Associates(old(output), [total], part);
          output := output + value[offset..offset + total];
        }
      }
    }

    method MarshalChunks(value: seq<byte>)
      modifies this`output
      ensures output == old(output) + LongBody(format, Cut(value))
    {
      ghost var goal := output + LongBody(format, Cut(value));
      var left := value;
      while left != []
        invariant output + LongBody(format, Cut(left)) == goal
        decreases |left|
      {
        var length := Least(|left|, CHUNK_SIZE);
        FirstChunk(format, left, output);
        SmallLength(length);
        MarshalNumeric(SB4, length);
        output := output + left[..length];
        left := left[length..];
      }
      SmallLength(0);
      MarshalNumeric(SB4, 0);
    }

    /** Reads bytes into a slice of the destination buffer. */
    method UnmarshalBuffer(destination: array<byte>, offset: nat, length: nat) returns (r: Result<(), DecodeError>)
      modifies this`input, destination
      ensures match TakeInto(old(input), length, destination.Length - offset)
              case Ok((data, rest)) =>
                && r == Ok(()) && input == rest
                && (0 < length ==> destination[..] == old(destination[..offset]) + data + old(destination[offset + length..]))
                && (length == 0 ==> destination[..] == old(destination[..]))
              case Err(e) => r == Err(e)
    {
      if length == 0 {
        return Ok(());
      }
      if destination.Length < offset + length {
        return Err(BufferTooSmall);
      }
      if |input| < length {
        return Err(EndOfInput);
      }
      ghost var was := destination[..];
      var data := input[..length];
      input := input[length..];
      forall i | 0 <= i < length {
        destination[offset + i] := data[i];
      }
      assert destination[..] == was[..offset] + data + was[offset + length..];
      r := Ok(());
    }

    method UnmarshalCLR(destination: array<byte>, maxSize: nat) returns (r: Result<nat, DecodeError>)
      modifies this`input, destination
      ensures match ReadClr(format, old(input), destination.Length, maxSize)
              case Ok((data, rest)) =>
                && r == Ok(|data|) && input == rest && |data| <= destination.Length
                && destination[..] == data + old(destination[..])[|data|..]
              case Err(e) => r == Err(e)
    {
      if input == [] {
        return Err(EndOfInput);
      }
      var flag := input[0];
      input := input[1..];
      if flag == ESCAPE {
        return Err(ProtocolViolation);
      }
      if flag == NULL_MARKER {
        return Ok(0);
      }
      if flag <= MAXIMUM_SHORT_LENGTH {
        var copied := UnmarshalBuffer(destination, 0, flag);
        return if copied.Ok? then Ok(flag) else Err(copied.error);
      }
      r := UnmarshalChunks(destination, maxSize);
    }

    method UnmarshalChunks(destination: array<byte>, maxSize: nat) returns (r: Result<nat, DecodeError>)
      modifies this`input, destination
      ensures match ReadChunks(format, old(input), destination.Length, maxSize, [])
              case Ok((data, rest)) => r == Ok(|data|) && input == rest && Overwritten(old(destination[..]), data, destination[..])
              case Err(e) => r == Err(e)
    {
      var n := 0;
      ghost var got := [];
      while true
        invariant n == |got| <= maxSize && Overwritten(old(destination[..]), got, destination[..])
        invariant ReadChunks(format, input, destination.Length, maxSize, got)
               == ReadChunks(format, old(input), destination.Length, maxSize, [])
        decreases |input|
      {
        var next;
        next, got := UnmarshalNext(destination, n, maxSize, old(destination[..]), got);
        if next.Err? {
          return Err(next.error);
        }
        if next.value.None? {
          return Ok(n);
        }
        n := next.value.value;
      }
    }

    /** One turn of the loop: the number of bytes kept so far, or none at the closing length zero. */
    method UnmarshalNext(destination: array<byte>, n: nat, maxSize: nat, ghost was: seq<byte>, ghost got: seq<byte>)
      returns (r: Result<Option<nat>, DecodeError>, ghost data: seq<byte>)
      requires n == |got| <= maxSize && Overwritten(was, got, destination[..])
      modifies this`input, destination
      ensures r.Err? ==> ReadChunks(format, old(input), destination.Length, maxSize, got) == Err(r.error)
      ensures r == Ok(None) ==>
                && ReadChunks(format, old(input), destination.Length, maxSize, got) == Ok((got, input))
                && data == got && Overwritten(was, got, destination[..])
      ensures r.Ok? && r.value.Some? ==>
                && r.value.value == |data| <= maxSize && Overwritten(was, data, destination[..]) && |input| < |old(input)|
                && ReadChunks(format, old(input), destination.Length, maxSize, got) == ReadChunks(format, input, destination.Length, maxSize, data)
    {
      data := got;
      var length := UnmarshalNumeric(SB4);
      if length.Err? {
        return Err(length.error), got;
      }
      if length.value == 0 {
        return Ok(None), got;
      }
      if length.value < 0 {
        return Err(BadLength), got;
      }
      r, data := UnmarshalAnnounced(destination, n, maxSize, length.value, was, got, old(input));
    }

    /** The chunk of an announced length. */
    method UnmarshalAnnounced(destination: array<byte>, n: nat, maxSize: nat, length: nat, ghost was: seq<byte>, ghost got: seq<byte>,
                              ghost before: seq<byte>)
      returns (r: Result<Option<nat>, DecodeError>, ghost data: seq<byte>)
      requires n == |got| <= maxSize && Overwritten(was, got, destination[..])
      requires 0 < length && Decode(format, SB4, before) == Ok((length, input))
      modifies this`input, destination
      ensures r != Ok(None)
      ensures r.Err? ==> ReadChunks(format, before, destination.Length, maxSize, got) == Err(r.error)
      ensures r.Ok? ==>
                && r.value.value == |data| <= maxSize && Overwritten(was, data, destination[..]) && |input| <= |old(input)|
                && ReadChunks(format, before, destination.Length, maxSize, got) == ReadChunks(format, input, destination.Length, maxSize, data)
    {
      ChunksUnfold(format, before, destination.Length, maxSize, got, length, input);
      var kept;
      kept, data := UnmarshalChunk(destination, n, maxSize, length, was, got);
      r := if kept.Err? then Err(kept.error) else Ok(Some(kept.value));
    }

    /** One chunk: what fits below `maxSize` is copied behind the `n` bytes already there, the rest is read past. */
    method UnmarshalChunk(destination: array<byte>, n: nat, maxSize: nat, length: nat, ghost was: seq<byte>, ghost got: seq<byte>)
      returns (r: Result<nat, DecodeError>, ghost data: seq<byte>)
      requires n == |got| <= maxSize && Overwritten(was, got, destination[..])
      modifies this`input, destination
      ensures match TakeChunk(old(input), length, Least(maxSize - n, length), destination.Length - n)
              case Err(e) => r == Err(e)
              case Ok((kept, rest)) =>
                && data == got + kept && r == Ok(|data|) && input == rest && |data| <= maxSize
                && Overwritten(was, data, destination[..])
    {
      var keep := Least(maxSize - n, length);
      ghost var kept := TakeInto(input, keep, destination.Length - n);
      var copied := UnmarshalBuffer(destination, n, keep);
      if copied.Err? {
        return Err(copied.error), [];
      }
      data := got + kept.value.0;
      if |input| < length - keep {
        return Err(EndOfInput), [];
      }
      input := input[length - keep..];
      r := Ok(n + keep);
    }

    method UnmarshalCLRColumnData() returns (r: Result<seq<byte>, DecodeError>)
      modifies this`input
      ensures match ReadColumn(format, old(input), ColumnLimit(lobPrefetch))
              case Ok((data, rest)) => r == Ok(data) && input == rest
              case Err(e) => r == Err(e)
    {
      var limit := ColumnLimit(lobPrefetch);
      if input == [] {
        return Err(EndOfInput);
      }
      var flag := input[0];
      input := input[1..];
      if flag == ESCAPE {
        return Err(ProtocolViolation);
      }
      if flag == NULL_MARKER {
        return Ok([]);
      }
      if flag <= MAXIMUM_SHORT_LENGTH {
        if |input| < flag {
          return Err(EndOfInput);
        }
        r := Ok(input[..flag]);
        input := input[flag..];
        return;
      }
      var bytes := [];
      ghost var spec := ReadColumnChunks(format, input, limit, []);
      while true
        invariant ReadColumnChunks(format, input, limit, bytes) == spec
        decreases |input|
      {
        var length := UnmarshalNumeric(SB4);
        if length.Err? {
          return Err(length.error);
        }
        if length.value == 0 {
          break;
        }
        if length.value < 0 || MAXIMUM_CHUNK < length.value {
          return Err(ProtocolViolation);
        }
        if |input| < length.value {
          return Err(EndOfInput);
        }
        var chunk := input[..length.value];
        input := input[length.value..];
        if limit < |bytes| + length.value {
          return Err(ProtocolViolation);
        }
        bytes := bytes + chunk;
      }
      r := Ok(bytes);
    }
  }

  lemma ChunksUnfold(f: Format, input: seq<byte>, capacity: nat, maxSize: nat, got: seq<byte>, length: int, rest: seq<byte>)
    requires Decode(f, SB4, input) == Ok((length, rest)) && 0 < length && |got| <= maxSize
    ensures var chunk := TakeChunk(rest, length, Least(maxSize - |got|, length), capacity - |got|);
            if chunk.Err? then ReadChunks(f, input, capacity, maxSize, got) == Err(chunk.error)
            else
              && |got + chunk.value.0| <= maxSize
              && ReadChunks(f, input, capacity, maxSize, got) == ReadChunks(f, chunk.value.1, capacity, maxSize, got + chunk.value.0)
  {
  }

  lemma SmallLength(n: nat)
    requires n <= 0x7FFF_FFFF
    ensures InRange(SB4, n) && InRange(UB4, n)
  {
    assert Pow256(1) == 256 && Pow256(2) == 65536 && Pow256(3) == 0x100_0000;
  }

  lemma FirstChunk(f: Format, value: seq<byte>, before: seq<byte>)
    requires value != []
    ensures var n := Least(|value|, CHUNK_SIZE);
      before + LongBody(f, Cut(value)) == before + Encode(f, SB4, n) + value[..n] + LongBody(f, Cut(value[n..]))
  {
    var n := Least(|value|, CHUNK_SIZE);
    assert Cut(value)[1..] == Cut(value[n..]);
    Regroup(before, Encode(f, SB4, n), value[..n], LongBody(f, Cut(value[n..])));
  }

  lemma Associates(a: seq<byte>, b: seq<byte>, c: seq<byte>)
    ensures a + (b + c) == a + b + c
  {
  }

  lemma Regroup(a: seq<byte>, b: seq<byte>, c: seq<byte>, d: seq<byte>)
    ensures a + (b + c + d) == a + b + c + d
  {
  }

  // ---------------------------------------------------------------------------------------------
  // Both readers on every long frame a peer may send
  // ---------------------------------------------------------------------------------------------

  /** Chunks with lengths that a signed four-byte integer can announce; a chunk of length zero would end the value. */
  predicate Announceable(chunks: seq<seq<byte>>) {
    forall i :: 0 <= i < |chunks| ==> 1 <= |chunks[i]| <= 0x7FFF_FFFF
  }

  /** `input` announces and carries these chunks, closes the value and goes on with `rest`. How a peer writes the
      lengths, with leading zeros say, is up to the peer. */
  ghost predicate Carries(f: Format, input: seq<byte>, chunks: seq<seq<byte>>, rest: seq<byte>)
    decreases |chunks|
  {
    if chunks == [] then Decode(f, SB4, input) == Ok((0, rest))
    else exists tail :: Decode(f, SB4, input) == Ok((|chunks[0]|, chunks[0] + tail)) && Carries(f, tail, chunks[1..], rest)
  }

  lemma {:induction false} BodyCarriesChunks(f: Format, chunks: seq<seq<byte>>, rest: seq<byte>)
    requires Announceable(chunks)
    ensures Carries(f, LongBody(f, chunks) + rest, chunks, rest)
    decreases |chunks|
  {
    if chunks == [] {
      SmallLength(0);
      IntegerRoundTrip(f, SB4, 0, rest);
    } else {
      var tail := LongBody(f, chunks[1..]) + rest;
      BodyCarriesChunks(f, chunks[1..], rest);
      SmallLength(|chunks[0]|);
      IntegerRoundTrip(f, SB4, |chunks[0]|, chunks[0] + tail);
      RegroupRight(Encode(f, SB4, |chunks[0]|), chunks[0], LongBody(f, chunks[1..]), rest);
    }
  }

  lemma RegroupRight(a: seq<byte>, b: seq<byte>, c: seq<byte>, d: seq<byte>)
    ensures a + b + c + d == a + (b + (c + d))
  {
  }

  lemma TakeFront(front: seq<byte>, back: seq<byte>, n: nat)
    requires n <= |front|
    ensures Take(front + back, n) == Ok((front[..n], front[n..] + back))
  {
    assert (front + back)[..n] == front[..n] && (front + back)[n..] == front[n..] + back;
  }

  /** One turn of the bounded reader's loop. */
  lemma ChunkIsKept(f: Format, input: seq<byte>, chunk: seq<byte>, tail: seq<byte>, capacity: nat, maxSize: nat, got: seq<byte>)
    requires Decode(f, SB4, input) == Ok((|chunk|, chunk + tail)) && chunk != []
    requires |got| <= maxSize && Least(maxSize, |got| + |chunk|) <= capacity
    ensures ReadChunks(f, input, capacity, maxSize, got)
         == ReadChunks(f, tail, capacity, maxSize, got + chunk[..Least(maxSize - |got|, |chunk|)])
  {
    var keep := Least(maxSize - |got|, |chunk|);
    TakeFront(chunk, tail, keep);
    TakeFront(chunk[keep..], tail, |chunk| - keep);
    assert chunk[keep..][|chunk| - keep..] + tail == tail;
    if keep == 0 {
      assert chunk[..0] == [] && chunk[0..] + tail == chunk + tail;
    }
  }

  /** What the bounded reader keeps of a sequence of chunks. */
  function Kept(chunks: seq<seq<byte>>, maxSize: nat, got: seq<byte>): (r: seq<byte>)
    requires |got| <= maxSize
    ensures |got| <= |r| <= maxSize
  {
    if chunks == [] then got
    else Kept(chunks[1..], maxSize, got + chunks[0][..Least(maxSize - |got|, |chunks[0]|)])
  }

  lemma {:induction false} KeptIsPrefix(chunks: seq<seq<byte>>, maxSize: nat, got: seq<byte>)
    requires |got| <= maxSize
    ensures Kept(chunks, maxSize, got) == (got + Flatten(chunks))[..Least(maxSize, |got| + |Flatten(chunks)|)]
    decreases |chunks|
  {
    if chunks == [] {
      assert (got + Flatten(chunks))[..|got|] == got;
    } else {
      KeptIsPrefix(chunks[1..], maxSize, got + chunks[0][..Least(maxSize - |got|, |chunks[0]|)]);
      KeptPrefix(got, chunks[0], Flatten(chunks[1..]), maxSize);
    }
  }

  lemma KeptPrefix(got: seq<byte>, chunk: seq<byte>, later: seq<byte>, maxSize: nat)
    requires |got| <= maxSize
    ensures var kept := got + chunk[..Least(maxSize - |got|, |chunk|)];
      (kept + later)[..Least(maxSize, |kept| + |later|)]
      == (got + (chunk + later))[..Least(maxSize, |got| + |chunk + later|)]
  {
  }

  lemma CarrierStep(f: Format, input: seq<byte>, chunks: seq<seq<byte>>, rest: seq<byte>) returns (tail: seq<byte>)
    requires Carries(f, input, chunks, rest) && chunks != []
    ensures Decode(f, SB4, input) == Ok((|chunks[0]|, chunks[0] + tail)) && Carries(f, tail, chunks[1..], rest)
  {
    tail :| Decode(f, SB4, input) == Ok((|chunks[0]|, chunks[0] + tail)) && Carries(f, tail, chunks[1..], rest);
  }

  lemma {:induction false} ReadChunksOfCarrier(
      f: Format, input: seq<byte>, chunks: seq<seq<byte>>, rest: seq<byte>, capacity: nat, maxSize: nat, got: seq<byte>)
    requires Carries(f, input, chunks, rest) && Announceable(chunks)
    requires |got| <= maxSize && |Kept(chunks, maxSize, got)| <= capacity
    ensures ReadChunks(f, input, capacity, maxSize, got) == Ok((Kept(chunks, maxSize, got), rest))
    decreases |chunks|
  {
    if chunks != [] {
      var tail := CarrierStep(f, input, chunks, rest);
      var next := got + chunks[0][..Least(maxSize - |got|, |chunks[0]|)];
      ChunkIsKept(f, input, chunks[0], tail, capacity, maxSize, got);
      ReadChunksOfCarrier(f, tail, chunks[1..], rest, capacity, maxSize, next);
    }
  }

  /** In the long form the bounded reader returns the prefix that `maxSize` allows, yet consumes the whole value,
      however the peer cut it into chunks. */
  lemma LongFrameIsReadWhole(f: Format, body: seq<byte>, chunks: seq<seq<byte>>, rest: seq<byte>, capacity: nat, maxSize: nat)
    requires Carries(f, body, chunks, rest) && Announceable(chunks) && Least(maxSize, |Flatten(chunks)|) <= capacity
    ensures ReadClr(f, [LONG_MARKER] + body, capacity, maxSize)
         == Ok((Flatten(chunks)[..Least(maxSize, |Flatten(chunks)|)], rest))
  {
    assert ([LONG_MARKER] + body)[1..] == body;
    KeptIsPrefix(chunks, maxSize, []);
    assert [] + Flatten(chunks) == Flatten(chunks);
    ReadChunksOfCarrier(f, body, chunks, rest, capacity, maxSize, []);
  }

  predicate Acceptable(chunks: seq<seq<byte>>) { forall i :: 0 <= i < |chunks| ==> |chunks[i]| <= MAXIMUM_CHUNK }

  /** One turn of the column reader's loop. */
  lemma ColumnChunkIsChecked(f: Format, input: seq<byte>, chunk: seq<byte>, tail: seq<byte>, limit: int, got: seq<byte>)
    requires Decode(f, SB4, input) == Ok((|chunk|, chunk + tail)) && chunk != []
    ensures ReadColumnChunks(f, input, limit, got)
         == if |chunk| <= MAXIMUM_CHUNK && |got| + |chunk| <= limit then ReadColumnChunks(f, tail, limit, got + chunk)
            else Err(ProtocolViolation)
  {
    TakeFront(chunk, tail, |chunk|);
    assert chunk[|chunk|..] + tail == tail && chunk[..|chunk|] == chunk;
  }

  lemma FlattenHead(chunks: seq<seq<byte>>, got: seq<byte>)
    requires chunks != []
    ensures got + Flatten(chunks) == got + chunks[0] + Flatten(chunks[1..])
    ensures Acceptable(chunks) <==> |chunks[0]| <= MAXIMUM_CHUNK && Acceptable(chunks[1..])
  {
    Associates(got, chunks[0], Flatten(chunks[1..]));
    assert forall i :: 0 < i < |chunks| ==> chunks[i] == chunks[1..][i - 1];
  }

  lemma {:induction false} ReadColumnChunksOfCarrier(
      f: Format, input: seq<byte>, chunks: seq<seq<byte>>, rest: seq<byte>, limit: int, got: seq<byte>)
    requires Carries(f, input, chunks, rest) && Announceable(chunks) && |got| <= limit
    ensures ReadColumnChunks(f, input, limit, got)
         == if Acceptable(chunks) && |got| + |Flatten(chunks)| <= limit then Ok((got + Flatten(chunks), rest))
            else Err(ProtocolViolation)
    decreases |chunks|
  {
    if chunks == [] {
      assert got + Flatten(chunks) == got;
    } else {
      var tail := CarrierStep(f, input, chunks, rest);
      ColumnChunkIsChecked(f, input, chunks[0], tail, limit, got);
      FlattenHead(chunks, got);
      if |chunks[0]| <= MAXIMUM_CHUNK && |got| + |chunks[0]| <= limit {
        ReadColumnChunksOfCarrier(f, tail, chunks[1..], rest, limit, got + chunks[0]);
      }
    }
  }

  /** The column reader accepts a long frame exactly when no chunk and no total exceeds its limits, and then returns the
      whole value and stops at its end. */
  lemma ColumnFrameIsReadExactly(f: Format, body: seq<byte>, chunks: seq<seq<byte>>, rest: seq<byte>, lobPrefetch: int)
    requires Carries(f, body, chunks, rest) && Announceable(chunks)
    ensures ReadColumn(f, [LONG_MARKER] + body, ColumnLimit(lobPrefetch))
         == if Acceptable(chunks) && |Flatten(chunks)| <= ColumnLimit(lobPrefetch) then Ok((Flatten(chunks), rest))
            else Err(ProtocolViolation)
  {
    assert ([LONG_MARKER] + body)[1..] == body;
    ReadColumnChunksOfCarrier(f, body, chunks, rest, ColumnLimit(lobPrefetch), []);
    assert [] + Flatten(chunks) == Flatten(chunks);
  }

  lemma {:induction false} ColumnChunksStayBelow(f: Format, input: seq<byte>, limit: int, got: seq<byte>)
    requires |got| <= limit && ReadColumnChunks(f, input, limit, got).Ok?
    ensures |ReadColumnChunks(f, input, limit, got).value.0| <= limit
    decreases |input|
  {
    var d := Decode(f, SB4, input);
    if d.value.0 != 0 {
      var t := Take(d.value.1, d.value.0);
      ColumnChunksStayBelow(f, t.value.1, limit, got + t.value.0);
    }
  }

  /** Whatever arrives, the column reader never returns more than its aggregate limit. */
  lemma ColumnNeverExceedsLimit(f: Format, input: seq<byte>, lobPrefetch: int)
    requires ReadColumn(f, input, ColumnLimit(lobPrefetch)).Ok?
    ensures |ReadColumn(f, input, ColumnLimit(lobPrefetch)).value.0| <= ColumnLimit(lobPrefetch)
  {
    if input[0] == LONG_MARKER {
      ColumnChunksStayBelow(f, input[1..], ColumnLimit(lobPrefetch), []);
    }
  }

  // ---------------------------------------------------------------------------------------------
  // What the writer writes
  // ---------------------------------------------------------------------------------------------

  lemma {:induction false} CutIsFaithful(value: seq<byte>)
    ensures Flatten(Cut(value)) == value && Announceable(Cut(value)) && Acceptable(Cut(value))
    decreases |value|
  {
    if value != [] {
      var n := Least(|value|, CHUNK_SIZE);
      CutIsFaithful(value[n..]);
      assert Cut(value)[1..] == Cut(value[n..]);
      assert value == value[..n] + value[n..];
    }
  }

  lemma {:induction false} ChunksStayBelow(f: Format, input: seq<byte>, capacity: nat, maxSize: nat, got: seq<byte>)
    requires |got| <= maxSize
    ensures var r := ReadChunks(f, input, capacity, maxSize, got); r.Ok? ==> |r.value.0| <= maxSize
    decreases |input|
  {
    var decoded := Decode(f, SB4, input);
    if decoded.Ok? && decoded.value.0 > 0 {
      var (length, rest) := decoded.value;
      var chunk := TakeChunk(rest, length, Least(maxSize - |got|, length), capacity - |got|);
      if chunk.Ok? {
        ChunksStayBelow(f, chunk.value.1, capacity, maxSize, got + chunk.value.0);
      }
    }
  }

  /** On any input, a destination that is `maxSize` bytes long is never overrun. */
  lemma ReadClrStaysBelow(f: Format, input: seq<byte>, maxSize: nat)
    ensures var r := ReadClr(f, input, maxSize, maxSize); r.Ok? ==> |r.value.0| <= maxSize
  {
    if input != [] && MAXIMUM_SHORT_LENGTH < input[0] {
      ChunksStayBelow(f, input[1..], maxSize, maxSize, []);
    }
  }

  /** What the bounded reader makes of a written value, for every `maxSize`: the short form comes back whole, the long form
      cut to `maxSize`; in both cases it is consumed to its end. */
  lemma ClrIsReadBounded(f: Format, value: seq<byte>, rest: seq<byte>, capacity: nat, maxSize: nat)
    requires |BoundedPart(value, maxSize)| <= capacity
    ensures ReadClr(f, ClrBytes(f, value) + rest, capacity, maxSize) == Ok((BoundedPart(value, maxSize), rest))
  {
    if |value| <= MAXIMUM_SHORT_LENGTH {
      assert (ClrBytes(f, value) + rest)[1..] == value + rest;
      TakeFront(value, rest, |value|);
      assert value[..|value|] == value && value[|value|..] + rest == rest;
    } else {
      CutIsFaithful(value);
      var body := LongBody(f, Cut(value)) + rest;
      BodyCarriesChunks(f, Cut(value), rest);
      LongFrameIsReadWhole(f, body, Cut(value), rest, capacity, maxSize);
      assert ClrBytes(f, value) + rest == [LONG_MARKER] + body;
    }
  }

  function BoundedPart(value: seq<byte>, maxSize: nat): seq<byte> {
    if |value| <= MAXIMUM_SHORT_LENGTH then value else value[..Least(maxSize, |value|)]
  }

  /** `maxSize` bounds what the reader returns for a written value exactly when the value is written in chunks or is that
      short anyway. */
  lemma MaximumHoldsExactlyWhen(f: Format, value: seq<byte>, rest: seq<byte>, capacity: nat, maxSize: nat)
    requires |value| <= capacity
    ensures var r := ReadClr(f, ClrBytes(f, value) + rest, capacity, maxSize);
            r.Ok? && (|r.value.0| <= maxSize <==> MAXIMUM_SHORT_LENGTH < |value| || |value| <= maxSize)
  {
    ClrIsReadBounded(f, value, rest, capacity, maxSize);
  }

  /** Two bytes are returned although one was asked for. */
  lemma ShortFormCanExceedMaximum(f: Format, rest: seq<byte>)
    ensures ReadClr(f, ClrBytes(f, [7, 8]) + rest, 2, 1) == Ok(([7, 8], rest))
  {
    ClrIsReadBounded(f, [7, 8], rest, 2, 1);
  }

  /** A written value is read back by both readers, which stop exactly at its end, if the destination has room (for
      the first) and the aggregate limit allows it (for the second). */
  lemma ClrRoundTrip(f: Format, value: seq<byte>, rest: seq<byte>, capacity: nat, maxSize: nat, lobPrefetch: int)
    requires |value| <= capacity && (|value| <= MAXIMUM_SHORT_LENGTH || |value| <= maxSize)
    ensures ReadClr(f, ClrBytes(f, value) + rest, capacity, maxSize) == Ok((value, rest))
    ensures ReadColumn(f, ClrBytes(f, value) + rest, ColumnLimit(lobPrefetch))
         == if |value| <= ColumnLimit(lobPrefetch) then Ok((value, rest)) else Err(ProtocolViolation)
  {
    assert value[..|value|] == value;
    ClrIsReadBounded(f, value, rest, capacity, maxSize);
    ClrIsReadByColumn(f, value, rest, lobPrefetch);
  }

  lemma ClrIsReadByColumn(f: Format, value: seq<byte>, rest: seq<byte>, lobPrefetch: int)
    ensures ReadColumn(f, ClrBytes(f, value) + rest, ColumnLimit(lobPrefetch))
         == if |value| <= ColumnLimit(lobPrefetch) then Ok((value, rest)) else Err(ProtocolViolation)
  {
    if |value| <= MAXIMUM_SHORT_LENGTH {
      assert (ClrBytes(f, value) + rest)[1..] == value + rest;
      TakeFront(value, rest, |value|);
      assert value[..|value|] == value && value[|value|..] + rest == rest;
    } else {
      CutIsFaithful(value);
      var body := LongBody(f, Cut(value)) + rest;
      BodyCarriesChunks(f, Cut(value), rest);
      ColumnFrameIsReadExactly(f, body, Cut(value), rest, lobPrefetch);
      assert ClrBytes(f, value) + rest == [LONG_MARKER] + body;
    }
  }

  /** The framing is self-delimiting: no written value is a proper prefix of another, so a byte stream of values has
      one reading. */
  lemma ClrIsSelfDelimiting(f: Format, a: seq<byte>, x: seq<byte>, b: seq<byte>, y: seq<byte>)
    requires ClrBytes(f, a) + x == ClrBytes(f, b) + y
    ensures a == b && x == y
  {
    OneReading(f, a, x, b, y, ClrBytes(f, a) + x);
  }

  lemma OneReading(f: Format, a: seq<byte>, x: seq<byte>, b: seq<byte>, y: seq<byte>, input: seq<byte>)
    requires input == ClrBytes(f, a) + x && input == ClrBytes(f, b) + y
    ensures a == b && x == y
  {
    var limit := |a| + |b|;
    var r := ReadClr(f, input, limit, limit);
    ReadBack(f, a, x, limit, input, r);
    ReadBack(f, b, y, limit, input, r);
    assert r.value.0 == a && r.value.0 == b && r.value.1 == x && r.value.1 == y;
  }

  lemma ReadBack(f: Format, value: seq<byte>, rest: seq<byte>, limit: nat, input: seq<byte>, r: Read)
    requires |value| <= limit
    ensures input == ClrBytes(f, value) + rest && r == ReadClr(f, input, limit, limit) ==> r == Ok((value, rest))
  {
    ClrRoundTrip(f, value, rest, limit, limit, 0);
  }

  // ---------------------------------------------------------------------------------------------
  // The bytes themselves
  // ---------------------------------------------------------------------------------------------

  /** Up to 252 bytes stand behind their length; up to 32767 more form one chunk between the marker and a closing zero. */
  lemma {:induction false} ClrLayout(f: Format, value: seq<byte>)
    ensures |value| <= 252 ==> ClrBytes(f, value) == [|value|] + value
    ensures 252 < |value| <= 32767 ==> ClrBytes(f, value) == [0xFE] + (Encode(f, SB4, |value|) + value + Encode(f, SB4, 0))
  {
    if 252 < |value| <= 32767 {
      assert value[..|value|] == value && value[|value|..] == [];
      assert Cut(value) == [value] + Cut([]) == [value];
      var none: seq<seq<byte>> := [];
      assert [value][1..] == none;
      assert LongBody(f, [value]) == Encode(f, SB4, |value|) + value + LongBody(f, none);
    }
  }

  /** A null indicator is an empty value, an escape byte a protocol violation, and no input an end of input, for both readers. */
  lemma MarkersAreAnswered(f: Format, rest: seq<byte>, capacity: nat, maxSize: nat, limit: int)
    ensures ReadClr(f, [0xFF] + rest, capacity, maxSize) == Ok(([], rest)) && ReadColumn(f, [0xFF] + rest, limit) == Ok(([], rest))
    ensures ReadClr(f, [0xFD] + rest, capacity, maxSize) == Err(ProtocolViolation)
    ensures ReadColumn(f, [0xFD] + rest, limit) == Err(ProtocolViolation)
    ensures ReadClr(f, [], capacity, maxSize) == Err(EndOfInput) && ReadColumn(f, [], limit) == Err(EndOfInput)
  {
    assert ([0xFF] + rest)[1..] == rest;
  }

  /** A column value may have 64 MiB, or twice the prefetch size if that is more; a chunk at most 65534 bytes. */
  lemma LimitsAre(lobPrefetch: int)
    ensures ColumnLimit(lobPrefetch) == if 0x200_0000 < lobPrefetch then 2 * lobPrefetch else 0x400_0000
    ensures MAXIMUM_CHUNK == 65534
  {
  }
}
