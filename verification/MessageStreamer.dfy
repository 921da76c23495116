/** The TTC message streamer: outgoing messages queue up until a flush marshals them, and incoming messages
    that nobody asked for yet are parked until a `Pull` names their type. */
module MessageStreamer {
  import opened Results

  type MessageType = nat
  type Error = string

  const OUTGOING_LIMIT := 50
  const INCOMING_LIMIT := 1024

  datatype Message = Message(code: MessageType, body: string)

  /** A message together with the error that its processing recorded. */
  datatype Element = Element(message: Message, error: Option<Error>)

  /** A message object allocated for a header, before its bytes are read. */
  datatype Blank = Blank(code: MessageType, unmarshallable: bool)

  /** What arrives on the wire: a header that cannot be read, or a header with a body whose unmarshalling
      may fail. */
  datatype Frame = BadHeader | Frame(kind: MessageType, body: string, fault: Option<Error>)

  type PreCallback = MessageType -> (Option<Blank>, Option<Error>)
  type PostCallback = (Message, Option<Error>) -> (bool, Option<Error>)

  /** The message factory and the registered callbacks. */
  datatype Hooks = Hooks(
    factory: MessageType -> Option<Blank>,
    pre: map<MessageType, PreCallback>,
    post: map<MessageType, PostCallback>)

  datatype Verdict = Broken | Dropped | Kept(element: Element)

  /** What the streamer makes of one frame. The bytes are read even when the pre-callback reports an error, and
      the post-callback sees, and may replace, the error recorded so far. */
  function Process(h: Hooks, f: Frame): Verdict {
    if f.BadHeader? then Broken
    else
      var (offered, preError) := if f.kind in h.pre then h.pre[f.kind](f.kind) else (None, None);
      var blank := if offered.Some? then offered else h.factory(f.kind);
      if blank.None? || !blank.value.unmarshallable then Broken
      else
        var message := Message(blank.value.code, f.body);
        var error := if f.fault.Some? then f.fault else preError;
        if f.kind in h.post then
          var (keep, postError) := h.post[f.kind](message, error);
          if keep then Kept(Element(message, postError)) else Dropped
        else
          Kept(Element(message, error))
  }

  datatype Pulled = Delivered(element: Element) | ReadError | Overflow

  datatype Inbox = Inbox(parked: seq<Element>, wire: seq<Frame>)

  /** The position of the first element whose type is asked for, or the length. */
  function FirstMatch(s: seq<Element>, expected: seq<MessageType>): (n: nat)
    ensures n <= |s|
    ensures n < |s| ==> s[n].message.code in expected
    ensures forall i :: 0 <= i < n ==> s[i].message.code !in expected
  {
    if s == [] || s[0].message.code in expected then 0 else 1 + FirstMatch(s[1..], expected)
  }

  function Without<T>(s: seq<T>, n: nat): seq<T>
    requires n < |s|
  {
    s[..n] + s[n + 1..]
  }

  function PullFromWire(h: Hooks, inbox: Inbox, expected: seq<MessageType>): (Pulled, Inbox)
    decreases |inbox.wire|
  {
    if inbox.wire == [] then (ReadError, inbox)
    else
      var f, rest := inbox.wire[0], inbox.(wire := inbox.wire[1..]);
      match Process(h, f)
      case Broken => (ReadError, rest)
      case Dropped => PullFromWire(h, rest, expected)
      case Kept(e) =>
        if f.kind in expected then (Delivered(e), rest)
        else if INCOMING_LIMIT <= |inbox.parked| then (Overflow, rest)
        else PullFromWire(h, rest.(parked := inbox.parked + [e]), expected)
  }

  function PullSpec(h: Hooks, inbox: Inbox, expected: seq<MessageType>): (Pulled, Inbox) {
    var n := FirstMatch(inbox.parked, expected);
    if n < |inbox.parked| then (Delivered(inbox.parked[n]), inbox.(parked := Without(inbox.parked, n)))
    else PullFromWire(h, inbox, expected)
  }

  // ---------------------------------------------------------------------------------------------
  // Outgoing side
  // ---------------------------------------------------------------------------------------------

  /** What reaches the marshaller for a message: all or part of its header, then all or part of its body. */
  datatype Piece =
    | Header(code: MessageType)
    | PartialHeader(code: MessageType)
    | Complete(message: Message)
    | Partial(message: Message)

  /** How the marshaller answers the attempt to write one message; a header that fails may have been begun. */
  datatype Attempt = Accepted | HeaderFault(begun: bool) | BodyFault

  datatype Outbox = Outbox(outgoing: seq<Message>, written: seq<Piece>)

  /** How many of `n` messages are written before the first fault; attempts that are not listed succeed. */
  function SentCount(n: nat, attempts: seq<Attempt>): (k: nat)
    ensures k <= n
    ensures k < n ==> k < |attempts| && !attempts[k].Accepted?
    ensures forall i :: 0 <= i < k && i < |attempts| ==> attempts[i].Accepted?
  {
    if n == 0 || (attempts != [] && !attempts[0].Accepted?) then 0
    else 1 + SentCount(n - 1, if attempts == [] then [] else attempts[1..])
  }

  function Pieces(messages: seq<Message>): seq<Piece> {
    if messages == [] then []
    else Pieces(messages[..|messages| - 1]) + [Header(messages[|messages| - 1].code), Complete(messages[|messages| - 1])]
  }

  lemma PiecesOneMore(messages: seq<Message>, k: nat)
    requires k < |messages|
    ensures Pieces(messages[..k + 1]) == Pieces(messages[..k]) + [Header(messages[k].code), Complete(messages[k])]
    ensures messages[k..][0] == messages[k] && messages[k..][1..] == messages[k + 1..]
  {
    assert messages[..k + 1][..k] == messages[..k];
  }

  function Remnant(message: Message, attempt: Attempt): seq<Piece> {
    match attempt
    case Accepted => []
    case HeaderFault(begun) => if begun then [PartialHeader(message.code)] else []
    case BodyFault => [Header(message.code), Partial(message)]
  }

  function Flushed(o: Outbox, attempts: seq<Attempt>): Outbox {
    var k := SentCount(|o.outgoing|, attempts);
    Outbox(
      o.outgoing[k..],
      o.written + Pieces(o.outgoing[..k]) + if k < |o.outgoing| then Remnant(o.outgoing[k], attempts[k]) else [])
  }

  /** Whether `Flush` reports success: everything was written and the layer below flushed. */
  predicate FlushSucceeds(o: Outbox, attempts: seq<Attempt>, layerFlushed: bool) {
    SentCount(|o.outgoing|, attempts) == |o.outgoing| && layerFlushed
  }

  function PushedSpec(o: Outbox, message: Message, attempts: seq<Attempt>, layerFlushed: bool): Outbox {
    var room :=
      if |o.outgoing| <= OUTGOING_LIMIT then o
      else if FlushSucceeds(o, attempts, layerFlushed) then Flushed(o, attempts)
      else Flushed(o, attempts).(outgoing := []);
    room.(outgoing := room.outgoing + [message])
  }

  datatype Direction = In | Out | InOut

  /** The streamer object. The parameters `attempts` and `layerFlushed` are the marshaller's answers during the
      call. */
  class Streamer {
    var incoming: seq<Element>
    var wire: seq<Frame>
    var outgoing: seq<Message>
    var written: seq<Piece>
    const factory: MessageType -> Option<Blank>
    var pre: map<MessageType, PreCallback>
    var post: map<MessageType, PostCallback>

    constructor (factory: MessageType -> Option<Blank>, wire: seq<Frame>)
      ensures InView() == Inbox([], wire) && OutView() == Outbox([], [])
    {
      this.factory := factory;
      this.wire := wire;
      incoming, outgoing, written, pre, post := [], [], [], map[], map[];
    }

    function InView(): Inbox reads this { Inbox(incoming, wire) }

    function OutView(): Outbox reads this { Outbox(outgoing, written) }

    function Callbacks(): Hooks reads this { Hooks(factory, pre, post) }

    method Pull(expected: seq<MessageType>) returns (r: Pulled)
      modifies this`incoming, this`wire
      ensures (r, InView()) == PullSpec(Callbacks(), old(InView()), expected)
    {
      var i := 0;
      while i < |incoming|
        invariant i <= |incoming| && incoming == old(incoming) && wire == old(wire)
        invariant FirstMatch(incoming, expected) == i + FirstMatch(incoming[i..], expected)
      {
        if incoming[i].message.code in expected {
          r := Delivered(incoming[i]);
          incoming := incoming[..i] + incoming[i + 1..];
          return;
        }
        assert incoming[i..][1..] == incoming[i + 1..];
        i := i + 1;
      }
      while wire != []
        invariant PullFromWire(Callbacks(), InView(), expected) == PullFromWire(Callbacks(), old(InView()), expected)
        decreases |wire|
      {
        var f := wire[0];
        var verdict := Process(Callbacks(), f);
        wire := wire[1..];
        if verdict.Broken? {
          return ReadError;
        }
        if verdict.Kept? {
          if f.kind in expected {
            return Delivered(verdict.element);
          }
          if INCOMING_LIMIT <= |incoming| {
            return Overflow;
          }
          incoming := incoming + [verdict.element];
        }
      }
      r := ReadError;
    }

    method Flush(attempts: seq<Attempt>, layerFlushed: bool) returns (ok: bool)
      modifies this`outgoing, this`written
      ensures OutView() == Flushed(old(OutView()), attempts)
      ensures ok <==> FlushSucceeds(old(OutView()), attempts, layerFlushed)
      ensures ok <==> outgoing == [] && layerFlushed
    {
      ghost var all := outgoing;
      ghost var total := SentCount(|all|, attempts);
      var k := 0;
      while outgoing != []
        invariant k <= total && outgoing == all[k..]
        invariant written == old(written) + Pieces(all[..k])
        decreases |outgoing|
      {
        var message := outgoing[0];
        if k < |attempts| && !attempts[k].Accepted? {
          written := written + Remnant(message, attempts[k]);
          return false;
        }
        PiecesOneMore(all, k);
        written := written + [Header(message.code), Complete(message)];
        outgoing := outgoing[1..];
        k := k + 1;
      }
      ok := layerFlushed;
    }

    method Drain(direction: Direction) returns (drainedIn: int, drainedOut: int)
      modifies this`incoming, this`outgoing
      ensures drainedIn == (if direction == Out then -1 else |old(incoming)|)
      ensures drainedOut == (if direction == In then -1 else |old(outgoing)|)
      ensures incoming == (if direction == Out then old(incoming) else [])
      ensures outgoing == (if direction == In then old(outgoing) else [])
    {
      drainedIn, drainedOut := -1, -1;
      if direction == In || direction == InOut {
        drainedIn, incoming := |incoming|, [];
      }
      if direction == Out || direction == InOut {
        drainedOut, outgoing := |outgoing|, [];
      }
    }

    /** A nil message is refused; otherwise the message is queued, after an emergency flush if the queue is over
        its limit. */
    method Push(message: Option<Message>, attempts: seq<Attempt>, layerFlushed: bool) returns (ok: bool)
      modifies this`outgoing, this`written, this`incoming
      ensures ok <==> message.Some?
      ensures OutView() == if ok then PushedSpec(old(OutView()), message.value, attempts, layerFlushed) else old(OutView())
      ensures incoming == old(incoming)
    {
      if message.None? {
        return false;
      }
      if OUTGOING_LIMIT < |outgoing| {
        var flushed := Flush(attempts, layerFlushed);
        if !flushed {
          var _, _ := Drain(Out);
        }
      }
      outgoing := outgoing + [message.value];
      ok := true;
    }

    /** The validity check of the connection: messages left over from an earlier exchange are dropped and make it
        fail. */
    method IsValid() returns (valid: bool)
      modifies this`incoming, this`outgoing
      ensures valid <==> old(incoming) == []
      ensures incoming == [] && outgoing == old(outgoing)
    {
      var drained, _ := Drain(In);
      valid := drained == 0;
    }
  }

  // ---------------------------------------------------------------------------------------------
  // Pull refines one pending sequence
  // ---------------------------------------------------------------------------------------------

  /** The elements that the frames still to come will yield. */
  function Future(h: Hooks, wire: seq<Frame>): seq<Element> {
    if wire == [] then []
    else
      var v := Process(h, wire[0]);
      (if v.Kept? then [v.element] else []) + Future(h, wire[1..])
  }

  /** One sequence: what is parked, then what will be read and kept. */
  function Pending(h: Hooks, inbox: Inbox): seq<Element> { inbox.parked + Future(h, inbox.wire) }

  /** The factory and the pre-callbacks allocate messages of the type the header announced. */
  ghost predicate Faithful(h: Hooks) {
    && (forall kind :: h.factory(kind).Some? ==> h.factory(kind).value.code == kind)
    && (forall kind :: kind in h.pre && h.pre[kind](kind).0.Some? ==> h.pre[kind](kind).0.value.code == kind)
  }

  /** What one `Pull` does to the pending sequence: a delivery removes and returns its first element of a type asked
      for and leaves the rest in order; a read error changes nothing; an overflow loses exactly the element that
      found the parking full. */
  ghost predicate PullEffect(before: seq<Element>, expected: seq<MessageType>, r: Pulled, after: seq<Element>) {
    var n := FirstMatch(before, expected);
    match r
    case Delivered(e) => n < |before| && e == before[n] && after == Without(before, n)
    case ReadError => after == before
    case Overflow => INCOMING_LIMIT < |before| && INCOMING_LIMIT < n && after == Without(before, INCOMING_LIMIT)
  }

  lemma FirstMatchIs(s: seq<Element>, expected: seq<MessageType>, n: nat)
    requires n <= |s| && (n < |s| ==> s[n].message.code in expected)
    requires forall i :: 0 <= i < n ==> s[i].message.code !in expected
    ensures FirstMatch(s, expected) == n
  {
    var m := FirstMatch(s, expected);
    assert !(m < n) && !(n < m);
  }

  lemma FirstMatchPast(a: seq<Element>, b: seq<Element>, expected: seq<MessageType>)
    requires FirstMatch(a, expected) == |a|
    ensures FirstMatch(a + b, expected) == |a| + FirstMatch(b, expected)
  {
    FirstMatchIs(a + b, expected, |a| + FirstMatch(b, expected));
  }

  lemma FirstMatchWithin(a: seq<Element>, b: seq<Element>, expected: seq<MessageType>)
    requires FirstMatch(a, expected) < |a|
    ensures FirstMatch(a + b, expected) == FirstMatch(a, expected)
  {
    FirstMatchIs(a + b, expected, FirstMatch(a, expected));
  }

  lemma {:induction false} PullFromWireRefines(h: Hooks, inbox: Inbox, expected: seq<MessageType>)
    requires Faithful(h) && |inbox.parked| <= INCOMING_LIMIT
    requires FirstMatch(inbox.parked, expected) == |inbox.parked|
    ensures var (r, next) := PullFromWire(h, inbox, expected);
      PullEffect(Pending(h, inbox), expected, r, Pending(h, next)) && |next.parked| <= INCOMING_LIMIT
    decreases |inbox.wire|
  {
    if inbox.wire != [] {
      var f, rest := inbox.wire[0], inbox.(wire := inbox.wire[1..]);
      var later := Future(h, rest.wire);
      match Process(h, f)
      case Broken => assert Pending(h, inbox) == Pending(h, rest);
      case Dropped =>
        PullFromWireRefines(h, rest, expected);
        assert Pending(h, inbox) == Pending(h, rest);
      case Kept(e) =>
        assert e.message.code == f.kind;
        if f.kind !in expected && |inbox.parked| < INCOMING_LIMIT {
          FirstMatchPast(inbox.parked, [e], expected);
          PullFromWireRefines(h, rest.(parked := inbox.parked + [e]), expected);
          assert inbox.parked + ([e] + later) == (inbox.parked + [e]) + later;
        } else {
          NextTakesEffect(inbox.parked, e, later, expected);
        }
    }
  }

  /** The next kept message stands right behind the parked ones, whether it is taken or dropped for lack of room. */
  lemma NextTakesEffect(parked: seq<Element>, e: Element, later: seq<Element>, expected: seq<MessageType>)
    requires FirstMatch(parked, expected) == |parked| <= INCOMING_LIMIT
    ensures e.message.code in expected ==> PullEffect(parked + ([e] + later), expected, Delivered(e), parked + later)
    ensures e.message.code !in expected && |parked| == INCOMING_LIMIT ==>
              PullEffect(parked + ([e] + later), expected, Overflow, parked + later)
  {
    FirstMatchPast(parked, [e] + later, expected);
    assert Without(parked + ([e] + later), |parked|) == parked + later;
  }

  lemma WithoutInFront<T>(a: seq<T>, b: seq<T>, n: nat)
    requires n < |a|
    ensures Without(a + b, n) == Without(a, n) + b && (a + b)[n] == a[n]
  {
    assert (a + b)[..n] == a[..n] && (a + b)[n + 1..] == a[n + 1..] + b;
  }

  lemma PullRefinesPending(h: Hooks, inbox: Inbox, expected: seq<MessageType>)
    requires Faithful(h) && |inbox.parked| <= INCOMING_LIMIT
    ensures var (r, next) := PullSpec(h, inbox, expected);
      PullEffect(Pending(h, inbox), expected, r, Pending(h, next)) && |next.parked| <= INCOMING_LIMIT
  {
    var n := FirstMatch(inbox.parked, expected);
    if n < |inbox.parked| {
      FirstMatchWithin(inbox.parked, Future(h, inbox.wire), expected);
      WithoutInFront(inbox.parked, Future(h, inbox.wire), n);
    } else {
      PullFromWireRefines(h, inbox, expected);
    }
  }

  /** The frames up to the first one that cannot be processed. */
  function UntilBroken(h: Hooks, wire: seq<Frame>): seq<Frame> {
    if wire == [] || Process(h, wire[0]).Broken? then [] else [wire[0]] + UntilBroken(h, wire[1..])
  }

  /** What is parked, then what will be read and kept before the first broken frame. */
  function Deliverable(h: Hooks, inbox: Inbox): seq<Element> { inbox.parked + Future(h, UntilBroken(h, inbox.wire)) }

  /** A `Pull` succeeds exactly when a wanted element is pending before the first broken frame and no more than the parking
      limit of unwanted ones stand before it. */
  lemma PullSucceedsExactly(h: Hooks, inbox: Inbox, expected: seq<MessageType>)
    requires Faithful(h) && |inbox.parked| <= INCOMING_LIMIT
    ensures var n := FirstMatch(Deliverable(h, inbox), expected);
      PullSpec(h, inbox, expected).0.Delivered? <==> n < |Deliverable(h, inbox)| && n <= 1024
  {
    if FirstMatch(inbox.parked, expected) < |inbox.parked| {
      FirstMatchWithin(inbox.parked, Future(h, UntilBroken(h, inbox.wire)), expected);
    } else {
      WireDeliversExactly(h, inbox, expected);
    }
  }

  /** The inbox after one frame that is not wanted. */
  function Parked(h: Hooks, inbox: Inbox): Inbox
    requires inbox.wire != []
  {
    var v := Process(h, inbox.wire[0]);
    Inbox(inbox.parked + (if v.Kept? then [v.element] else []), inbox.wire[1..])
  }

  predicate Passes(h: Hooks, inbox: Inbox, expected: seq<MessageType>)
    requires inbox.wire != []
  {
    var v := Process(h, inbox.wire[0]);
    v.Dropped? || (v.Kept? && inbox.wire[0].kind !in expected && |inbox.parked| < INCOMING_LIMIT)
  }

  lemma PassingFrame(h: Hooks, inbox: Inbox, expected: seq<MessageType>)
    requires Faithful(h) && inbox.wire != [] && Passes(h, inbox, expected)
    requires FirstMatch(inbox.parked, expected) == |inbox.parked|
    ensures PullFromWire(h, inbox, expected) == PullFromWire(h, Parked(h, inbox), expected)
    ensures Deliverable(h, inbox) == Deliverable(h, Parked(h, inbox))
    ensures FirstMatch(Parked(h, inbox).parked, expected) == |Parked(h, inbox).parked|
  {
    var v := Process(h, inbox.wire[0]);
    assert UntilBroken(h, inbox.wire)[1..] == UntilBroken(h, inbox.wire[1..]);
    if v.Kept? {
      FirstMatchPast(inbox.parked, [v.element], expected);
    } else {
      assert inbox.parked + [] == inbox.parked;
    }
  }

  /** A frame that ends the pull: the wanted one, or one too many. */
  lemma FinalFrame(h: Hooks, inbox: Inbox, expected: seq<MessageType>)
    requires Faithful(h) && inbox.wire != [] && !Passes(h, inbox, expected)
    requires FirstMatch(inbox.parked, expected) == |inbox.parked| <= INCOMING_LIMIT
    requires !Process(h, inbox.wire[0]).Broken?
    ensures var n := FirstMatch(Deliverable(h, inbox), expected);
      PullFromWire(h, inbox, expected).0.Delivered? <==> n < |Deliverable(h, inbox)| && n <= INCOMING_LIMIT
  {
    assert UntilBroken(h, inbox.wire)[1..] == UntilBroken(h, inbox.wire[1..]);
    var tail := [Process(h, inbox.wire[0]).element] + Future(h, UntilBroken(h, inbox.wire[1..]));
    assert Deliverable(h, inbox) == inbox.parked + tail;
    FirstMatchPast(inbox.parked, tail, expected);
  }

  lemma {:induction false} WireDeliversExactly(h: Hooks, inbox: Inbox, expected: seq<MessageType>)
    requires Faithful(h) && |inbox.parked| <= INCOMING_LIMIT
    requires FirstMatch(inbox.parked, expected) == |inbox.parked|
    ensures var n := FirstMatch(Deliverable(h, inbox), expected);
      PullFromWire(h, inbox, expected).0.Delivered? <==> n < |Deliverable(h, inbox)| && n <= INCOMING_LIMIT
    decreases |inbox.wire|
  {
    if inbox.wire == [] || Process(h, inbox.wire[0]).Broken? {
      assert Deliverable(h, inbox) == inbox.parked;
    } else if Passes(h, inbox, expected) {
      PassingFrame(h, inbox, expected);
      WireDeliversExactly(h, Parked(h, inbox), expected);
    } else {
      FinalFrame(h, inbox, expected);
    }
  }

  // ---------------------------------------------------------------------------------------------
  // What a frame turns into
  // ---------------------------------------------------------------------------------------------

  /** Nothing parked is wanted, and the next frame is `f`. */
  predicate Next(inbox: Inbox, f: Frame, expected: seq<MessageType>) {
    inbox.wire != [] && inbox.wire[0] == f && FirstMatch(inbox.parked, expected) == |inbox.parked|
  }

  function Behind(inbox: Inbox): Inbox
    requires inbox.wire != []
  {
    inbox.(wire := inbox.wire[1..])
  }

  /** The message object for a header: the pre-callback's, or else the factory's. */
  ghost predicate Allocates(h: Hooks, kind: MessageType, blank: Option<Blank>) {
    if kind in h.pre && h.pre[kind](kind).0.Some? then blank == h.pre[kind](kind).0 else blank == h.factory(kind)
  }

  /** A header that cannot be read, or for which there is no object that can be unmarshalled, is a read error. */
  lemma UnreadableFrameIsReadError(h: Hooks, inbox: Inbox, f: Frame, expected: seq<MessageType>, blank: Option<Blank>)
    requires Next(inbox, f, expected)
    requires f.BadHeader? || (Allocates(h, f.kind, blank) && (blank.None? || !blank.value.unmarshallable))
    ensures PullSpec(h, inbox, expected) == (ReadError, Behind(inbox))
  {
  }

  /** Without callbacks a wanted message is delivered with its body and the fault of its unmarshalling. */
  lemma PlainFrameIsDelivered(h: Hooks, inbox: Inbox, f: Frame, expected: seq<MessageType>)
    requires Faithful(h) && f.Frame? && Next(inbox, f, expected) && f.kind in expected
    requires f.kind !in h.pre && f.kind !in h.post && h.factory(f.kind).Some? && h.factory(f.kind).value.unmarshallable
    ensures PullSpec(h, inbox, expected) == (Delivered(Element(Message(f.kind, f.body), f.fault)), Behind(inbox))
  {
  }

  /** The error a pre-callback reports is recorded unless unmarshalling fails as well, whose fault takes precedence. */
  lemma PreCallbackErrorIsRecorded(h: Hooks, inbox: Inbox, f: Frame, expected: seq<MessageType>, blank: Blank)
    requires Faithful(h) && f.Frame? && Next(inbox, f, expected) && f.kind in expected
    requires f.kind in h.pre && f.kind !in h.post && Allocates(h, f.kind, Some(blank)) && blank.unmarshallable
    ensures PullSpec(h, inbox, expected)
         == (Delivered(Element(Message(f.kind, f.body), if f.fault.Some? then f.fault else h.pre[f.kind](f.kind).1)), Behind(inbox))
  {
  }

  /** A post-callback sees the message with the error recorded so far. Kept, the message is delivered with the callback's own
      error; discarded, the pull goes on as if the frame had not come. */
  lemma PostCallbackDecides(h: Hooks, inbox: Inbox, f: Frame, expected: seq<MessageType>, blank: Blank)
    requires Faithful(h) && f.Frame? && Next(inbox, f, expected) && f.kind in h.post
    requires Allocates(h, f.kind, Some(blank)) && blank.unmarshallable
    ensures var error := if f.fault.Some? then f.fault else if f.kind in h.pre then h.pre[f.kind](f.kind).1 else None;
            var (keep, own) := h.post[f.kind](Message(f.kind, f.body), error);
            && (keep && f.kind in expected ==> PullSpec(h, inbox, expected) == (Delivered(Element(Message(f.kind, f.body), own)), Behind(inbox)))
            && (!keep ==> PullSpec(h, inbox, expected) == PullSpec(h, Behind(inbox), expected))
  {
  }

  /** A kept message that is not wanted is parked behind the others, or lost with an overflow error when the parking is full. */
  lemma UnwantedFrameIsParked(h: Hooks, inbox: Inbox, f: Frame, expected: seq<MessageType>, element: Element)
    requires Faithful(h) && f.Frame? && Next(inbox, f, expected) && f.kind !in expected
    requires PullSpec(h, Inbox([], inbox.wire), [f.kind]) == (Delivered(element), Behind(Inbox([], inbox.wire)))
    ensures PullSpec(h, inbox, expected)
         == if INCOMING_LIMIT <= |inbox.parked| then (Overflow, Behind(inbox))
            else PullSpec(h, Behind(inbox).(parked := inbox.parked + [element]), expected)
  {
    if Process(h, f).Dropped? {
      DeliveredComesLater(h, Inbox([], inbox.wire[1..]), [f.kind]);
    } else if |inbox.parked| < INCOMING_LIMIT {
      FirstMatchPast(inbox.parked, [element], expected);
    }
  }

  /** A delivery consumes at least one frame when nothing wanted is parked. */
  lemma {:induction false} DeliveredComesLater(h: Hooks, inbox: Inbox, expected: seq<MessageType>)
    ensures |PullFromWire(h, inbox, expected).1.wire| <= |inbox.wire|
    ensures PullFromWire(h, inbox, expected).0.Delivered? ==> |PullFromWire(h, inbox, expected).1.wire| < |inbox.wire|
    decreases |inbox.wire|
  {
    if inbox.wire != [] {
      var rest := inbox.(wire := inbox.wire[1..]);
      match Process(h, inbox.wire[0])
      case Broken =>
      case Dropped => DeliveredComesLater(h, rest, expected);
      case Kept(e) => DeliveredComesLater(h, rest.(parked := inbox.parked + [e]), expected);
    }
  }

  // ---------------------------------------------------------------------------------------------
  // Runs of Pull
  // ---------------------------------------------------------------------------------------------

  /** What a run of pulls has handed out and lost, and the inbox it leaves. */
  datatype Delivery = Delivery(delivered: seq<Element>, lost: seq<Element>, inbox: Inbox)

  ghost function PullStep(h: Hooks, d: Delivery, expected: seq<MessageType>): Delivery {
    var (r, next) := PullSpec(h, d.inbox, expected);
    var pending := Pending(h, d.inbox);
    match r
    case Delivered(e) => Delivery(d.delivered + [e], d.lost, next)
    case ReadError => Delivery(d.delivered, d.lost, next)
    case Overflow => Delivery(d.delivered, d.lost + if INCOMING_LIMIT < |pending| then [pending[INCOMING_LIMIT]] else [], next)
  }

  ghost function PullRun(h: Hooks, inbox: Inbox, wanted: seq<seq<MessageType>>): Delivery {
    if wanted == [] then Delivery([], [], inbox)
    else PullStep(h, PullRun(h, inbox, wanted[..|wanted| - 1]), wanted[|wanted| - 1])
  }

  function OfType(s: seq<Element>, t: MessageType): seq<Element> {
    if s == [] then []
    else OfType(s[..|s| - 1], t) + if s[|s| - 1].message.code == t then [s[|s| - 1]] else []
  }

  lemma {:induction false} OfTypeConcat(a: seq<Element>, b: seq<Element>, t: MessageType)
    ensures OfType(a + b, t) == OfType(a, t) + OfType(b, t)
  {
    if b == [] {
      assert a + b == a;
    } else {
      OfTypeConcat(a, b[..|b| - 1], t);
      assert (a + b)[..|a + b| - 1] == a + b[..|b| - 1];
    }
  }

  lemma {:induction false} OfTypeAbsent(s: seq<Element>, t: MessageType)
    requires forall i :: 0 <= i < |s| ==> s[i].message.code != t
    ensures OfType(s, t) == []
  {
    if s != [] {
      OfTypeAbsent(s[..|s| - 1], t);
    }
  }

  /** Removing the element at `n` takes it out of its own type's subsequence, at the front if no earlier element has
      that type, and leaves every other type alone. */
  lemma OfTypeSplit(s: seq<Element>, n: nat, t: MessageType)
    requires n < |s|
    ensures OfType(s, t) == OfType(s[..n], t) + (if s[n].message.code == t then [s[n]] else []) + OfType(s[n + 1..], t)
  {
    assert s == s[..n] + [s[n]] + s[n + 1..];
    OfTypeConcat(s[..n] + [s[n]], s[n + 1..], t);
    OfTypeConcat(s[..n], [s[n]], t);
    OfTypeSingle(s[n], t);
  }

  lemma OfTypeWithout(s: seq<Element>, n: nat, t: MessageType)
    requires n < |s|
    ensures s[n].message.code != t ==> OfType(Without(s, n), t) == OfType(s, t)
    ensures s[n].message.code == t && (forall i :: 0 <= i < n ==> s[i].message.code != t) ==>
              OfType(s, t) == [s[n]] + OfType(Without(s, n), t)
  {
    OfTypeSplit(s, n, t);
    OfTypeConcat(s[..n], s[n + 1..], t);
    if forall i :: 0 <= i < n ==> s[i].message.code != t {
      OfTypeAbsent(s[..n], t);
    }
  }

  lemma OfTypeSingle(e: Element, t: MessageType)
    ensures OfType([e], t) == if e.message.code == t then [e] else []
  {
    assert [e][..0] == [];
  }

  lemma EffectPerType(before: seq<Element>, expected: seq<MessageType>, r: Pulled, after: seq<Element>, t: MessageType)
    requires PullEffect(before, expected, r, after)
    ensures r.Delivered? ==> OfType(before, t) == OfType([r.element], t) + OfType(after, t)
    ensures r.ReadError? ==> OfType(before, t) == OfType(after, t)
    ensures r.Overflow? && OfType([before[INCOMING_LIMIT]], t) == [] ==> OfType(before, t) == OfType(after, t)
  {
    match r
    case Delivered(e) =>
      OfTypeSingle(e, t);
      OfTypeWithout(before, FirstMatch(before, expected), t);
    case ReadError =>
    case Overflow =>
      OfTypeSingle(before[INCOMING_LIMIT], t);
      OfTypeWithout(before, INCOMING_LIMIT, t);
  }

  lemma StepPerType(h: Hooks, d: Delivery, expected: seq<MessageType>, t: MessageType)
    requires Faithful(h) && |d.inbox.parked| <= INCOMING_LIMIT
    ensures var next := PullStep(h, d, expected);
      && |next.inbox.parked| <= INCOMING_LIMIT
      && (OfType(next.lost, t) == [] ==>
            && OfType(d.lost, t) == []
            && OfType(next.delivered, t) + OfType(Pending(h, next.inbox), t)
            == OfType(d.delivered, t) + OfType(Pending(h, d.inbox), t))
  {
    var pending := Pending(h, d.inbox);
    var (r, next) := PullSpec(h, d.inbox, expected);
    PullRefinesPending(h, d.inbox, expected);
    EffectPerType(pending, expected, r, Pending(h, next), t);
    match r
    case Delivered(e) => OfTypeConcat(d.delivered, [e], t);
    case ReadError =>
    case Overflow => OfTypeConcat(d.lost, [pending[INCOMING_LIMIT]], t);
  }

  /** Exactly-once delivery, in order per type, over any run of pulls: what was handed out followed by what is
      still pending, restricted to a type of which nothing was lost, is what was pending at the start. */
  lemma {:induction false} PullsAreFifoPerType(h: Hooks, inbox: Inbox, wanted: seq<seq<MessageType>>, t: MessageType)
    requires Faithful(h) && |inbox.parked| <= INCOMING_LIMIT
    ensures var d := PullRun(h, inbox, wanted);
      && |d.inbox.parked| <= INCOMING_LIMIT
      && (OfType(d.lost, t) == [] ==> OfType(d.delivered, t) + OfType(Pending(h, d.inbox), t) == OfType(Pending(h, inbox), t))
  {
    if wanted != [] {
      PullsAreFifoPerType(h, inbox, wanted[..|wanted| - 1], t);
      StepPerType(h, PullRun(h, inbox, wanted[..|wanted| - 1]), wanted[|wanted| - 1], t);
    }
  }

  ghost function Everything(h: Hooks, d: Delivery): multiset<Element> {
    multiset(d.delivered) + multiset(d.lost) + multiset(Pending(h, d.inbox))
  }

  lemma WithoutIsMultisetMinus<T>(s: seq<T>, n: nat)
    requires n < |s|
    ensures multiset(s) == multiset(Without(s, n)) + multiset{s[n]}
  {
    assert s == s[..n] + [s[n]] + s[n + 1..];
  }

  lemma StepConserves(h: Hooks, d: Delivery, expected: seq<MessageType>)
    requires Faithful(h) && |d.inbox.parked| <= INCOMING_LIMIT
    ensures |PullStep(h, d, expected).inbox.parked| <= INCOMING_LIMIT
    ensures Everything(h, PullStep(h, d, expected)) == Everything(h, d)
  {
    var pending := Pending(h, d.inbox);
    PullRefinesPending(h, d.inbox, expected);
    match PullSpec(h, d.inbox, expected).0
    case Delivered(_) => WithoutIsMultisetMinus(pending, FirstMatch(pending, expected));
    case ReadError =>
    case Overflow => WithoutIsMultisetMinus(pending, INCOMING_LIMIT);
  }

  /** Nothing is invented or duplicated: delivered, lost and still pending elements together are the elements that were
      pending at the start. */
  lemma {:induction false} PullsConserveElements(h: Hooks, inbox: Inbox, wanted: seq<seq<MessageType>>)
    requires Faithful(h) && |inbox.parked| <= INCOMING_LIMIT
    ensures |PullRun(h, inbox, wanted).inbox.parked| <= INCOMING_LIMIT
    ensures Everything(h, PullRun(h, inbox, wanted)) == multiset(Pending(h, inbox))
  {
    if wanted != [] {
      PullsConserveElements(h, inbox, wanted[..|wanted| - 1]);
      StepConserves(h, PullRun(h, inbox, wanted[..|wanted| - 1]), wanted[|wanted| - 1]);
    }
  }

  // ---------------------------------------------------------------------------------------------
  // Runs of Push and Flush
  // ---------------------------------------------------------------------------------------------

  datatype OutOp =
    | PushOp(message: Message, attempts: seq<Attempt>, layerFlushed: bool)
    | FlushOp(attempts: seq<Attempt>)

  function ApplyOut(o: Outbox, op: OutOp): Outbox {
    match op
    case PushOp(message, attempts, layerFlushed) => PushedSpec(o, message, attempts, layerFlushed)
    case FlushOp(attempts) => Flushed(o, attempts)
  }

  ghost function OutRun(ops: seq<OutOp>): Outbox {
    if ops == [] then Outbox([], []) else ApplyOut(OutRun(ops[..|ops| - 1]), ops[|ops| - 1])
  }

  datatype Fate = Marshalled | Drained

  ghost function Times(fate: Fate, k: nat): (fates: seq<Fate>)
    ensures |fates| == k && forall i :: 0 <= i < k ==> fates[i] == fate
  {
    if k == 0 then [] else Times(fate, k - 1) + [fate]
  }

  /** The fates, in queue order, of the messages that leave the queue in one operation. */
  ghost function Leaving(o: Outbox, op: OutOp): seq<Fate> {
    var k := SentCount(|o.outgoing|, op.attempts);
    var sent := Times(Marshalled, k);
    if op.FlushOp? then sent
    else if |o.outgoing| <= OUTGOING_LIMIT then []
    else if FlushSucceeds(o, op.attempts, op.layerFlushed) then sent
    else sent + Times(Drained, |o.outgoing| - k)
  }

  ghost function Fates(ops: seq<OutOp>): seq<Fate> {
    if ops == [] then []
    else Fates(ops[..|ops| - 1]) + Leaving(OutRun(ops[..|ops| - 1]), ops[|ops| - 1])
  }

  ghost function PushOrder(ops: seq<OutOp>): seq<Message> {
    if ops == [] then []
    else PushOrder(ops[..|ops| - 1]) + if ops[|ops| - 1].PushOp? then [ops[|ops| - 1].message] else []
  }

  function CompletelyWritten(written: seq<Piece>): seq<Message> {
    if written == [] then []
    else CompletelyWritten(written[..|written| - 1]) +
         if written[|written| - 1].Complete? then [written[|written| - 1].message] else []
  }

  /** The messages of `messages` whose fate is to be marshalled, in order. */
  ghost function MarshalledOnes(messages: seq<Message>, fates: seq<Fate>): seq<Message>
    requires |fates| <= |messages|
  {
    if fates == [] then []
    else MarshalledOnes(messages, fates[..|fates| - 1]) +
         if fates[|fates| - 1] == Marshalled then [messages[|fates| - 1]] else []
  }

  lemma {:induction false} CompletelyWrittenConcat(a: seq<Piece>, b: seq<Piece>)
    ensures CompletelyWritten(a + b) == CompletelyWritten(a) + CompletelyWritten(b)
  {
    if b == [] {
      assert a + b == a;
    } else {
      CompletelyWrittenConcat(a, b[..|b| - 1]);
      assert (a + b)[..|a + b| - 1] == a + b[..|b| - 1];
    }
  }

  lemma CompletelyWrittenSingle(piece: Piece)
    ensures CompletelyWritten([piece]) == if piece.Complete? then [piece.message] else []
  {
    assert [piece][..0] == [];
  }

  /** A header and what follows it contribute the message exactly if its body is complete. */
  lemma CompletelyWrittenPair(code: MessageType, body: Piece)
    ensures CompletelyWritten([Header(code), body]) == if body.Complete? then [body.message] else []
  {
    assert [Header(code), body] == [Header(code)] + [body];
    CompletelyWrittenConcat([Header(code)], [body]);
    CompletelyWrittenSingle(Header(code));
    CompletelyWrittenSingle(body);
  }

  lemma {:induction false} PiecesAreComplete(messages: seq<Message>)
    ensures CompletelyWritten(Pieces(messages)) == messages
  {
    if messages != [] {
      var m := messages[|messages| - 1];
      PiecesAreComplete(messages[..|messages| - 1]);
      CompletelyWrittenConcat(Pieces(messages[..|messages| - 1]), [Header(m.code), Complete(m)]);
      CompletelyWrittenPair(m.code, Complete(m));
    }
  }

  lemma RemnantIsIncomplete(message: Message, attempt: Attempt)
    ensures CompletelyWritten(Remnant(message, attempt)) == []
  {
    CompletelyWrittenPair(message.code, Partial(message));
    CompletelyWrittenSingle(PartialHeader(message.code));
  }

  /** A flush writes a prefix of the queue, completely and in order, and keeps exactly the rest. */
  lemma FlushKeepsUnsentSuffix(o: Outbox, attempts: seq<Attempt>)
    ensures var k := SentCount(|o.outgoing|, attempts);
      && CompletelyWritten(Flushed(o, attempts).written) == CompletelyWritten(o.written) + o.outgoing[..k]
      && Flushed(o, attempts).outgoing == o.outgoing[k..]
      && (k < |o.outgoing| ==> k < |attempts| && !attempts[k].Accepted?)
  {
    var k := SentCount(|o.outgoing|, attempts);
    var rest := if k < |o.outgoing| then Remnant(o.outgoing[k], attempts[k]) else [];
    if k < |o.outgoing| {
      RemnantIsIncomplete(o.outgoing[k], attempts[k]);
    }
    var sent := Pieces(o.outgoing[..k]);
    PiecesAreComplete(o.outgoing[..k]);
    CompletelyWrittenConcat(o.written, sent);
    CompletelyWrittenConcat(o.written + sent, rest);
  }

  /** More messages behind do not matter. */
  lemma {:induction false} MarshalledIgnoresLater(messages: seq<Message>, more: seq<Message>, fates: seq<Fate>)
    requires |fates| <= |messages|
    ensures MarshalledOnes(messages + more, fates) == MarshalledOnes(messages, fates)
  {
    if fates != [] {
      MarshalledIgnoresLater(messages, more, fates[..|fates| - 1]);
    }
  }

  lemma {:induction false} MarshalledConcat(messages: seq<Message>, fates: seq<Fate>, more: seq<Fate>)
    requires |fates| + |more| <= |messages|
    ensures MarshalledOnes(messages, fates + more) == MarshalledOnes(messages, fates) + MarshalledOnes(messages[|fates|..], more)
  {
    if more == [] {
      assert fates + more == fates;
    } else {
      var most, last := more[..|more| - 1], more[|more| - 1];
      MarshalledConcat(messages, fates, most);
      assert (fates + more)[..|fates + more| - 1] == fates + most;
      var tail := if last == Marshalled then [messages[|fates| + |more| - 1]] else [];
      Associate(MarshalledOnes(messages, fates), MarshalledOnes(messages[|fates|..], most), tail);
    }
  }

  lemma {:induction false} AllMarshalled(messages: seq<Message>, k: nat)
    requires k <= |messages|
    ensures MarshalledOnes(messages, Times(Marshalled, k)) == messages[..k]
  {
    if k > 0 {
      AllMarshalled(messages, k - 1);
      assert Times(Marshalled, k)[..k - 1] == Times(Marshalled, k - 1);
    }
  }

  lemma {:induction false} AllDrained(messages: seq<Message>, k: nat)
    requires k <= |messages|
    ensures MarshalledOnes(messages, Times(Drained, k)) == []
  {
    if k > 0 {
      AllDrained(messages, k - 1);
      assert Times(Drained, k)[..k - 1] == Times(Drained, k - 1);
    }
  }

  lemma SuffixOfSuffix<T>(s: seq<T>, a: nat, k: nat)
    requires a + k <= |s|
    ensures s[a..][k..] == s[a + k..]
  {
  }

  ghost predicate Accounted(o: Outbox, pushed: seq<Message>, fates: seq<Fate>) {
    && |fates| <= |pushed|
    && o.outgoing == pushed[|fates|..]
    && CompletelyWritten(o.written) == MarshalledOnes(pushed, fates)
  }

  lemma FlushIsAccounted(o: Outbox, pushed: seq<Message>, fates: seq<Fate>, attempts: seq<Attempt>)
    requires Accounted(o, pushed, fates)
    ensures Accounted(Flushed(o, attempts), pushed, fates + Times(Marshalled, SentCount(|o.outgoing|, attempts)))
  {
    var k := SentCount(|o.outgoing|, attempts);
    FlushKeepsUnsentSuffix(o, attempts);
    SuffixOfSuffix(pushed, |fates|, k);
    MarshalledConcat(pushed, fates, Times(Marshalled, k));
    AllMarshalled(pushed[|fates|..], k);
  }

  lemma DrainIsAccounted(o: Outbox, pushed: seq<Message>, fates: seq<Fate>)
    requires Accounted(o, pushed, fates)
    ensures Accounted(o.(outgoing := []), pushed, fates + Times(Drained, |o.outgoing|))
  {
    MarshalledConcat(pushed, fates, Times(Drained, |o.outgoing|));
    AllDrained(pushed[|fates|..], |o.outgoing|);
  }

  lemma QueueingIsAccounted(o: Outbox, pushed: seq<Message>, fates: seq<Fate>, message: Message)
    requires Accounted(o, pushed, fates)
    ensures Accounted(o.(outgoing := o.outgoing + [message]), pushed + [message], fates)
  {
    MarshalledIgnoresLater(pushed, [message], fates);
  }

  lemma OutStepIsAccounted(o: Outbox, pushed: seq<Message>, fates: seq<Fate>, op: OutOp)
    requires Accounted(o, pushed, fates) && |o.outgoing| <= OUTGOING_LIMIT + 1
    ensures Accounted(ApplyOut(o, op), pushed + (if op.PushOp? then [op.message] else []), fates + Leaving(o, op))
    ensures |ApplyOut(o, op).outgoing| <= OUTGOING_LIMIT + 1
  {
    if op.FlushOp? {
      FlushIsAccounted(o, pushed, fates, op.attempts);
      assert pushed + [] == pushed;
    } else if |o.outgoing| <= OUTGOING_LIMIT {
      QueueingIsAccounted(o, pushed, fates, op.message);
      assert fates + [] == fates;
    } else {
      OverflowIsAccounted(o, pushed, fates, op);
    }
  }

  lemma OverflowIsAccounted(o: Outbox, pushed: seq<Message>, fates: seq<Fate>, op: OutOp)
    requires Accounted(o, pushed, fates) && op.PushOp? && OUTGOING_LIMIT < |o.outgoing|
    ensures Accounted(ApplyOut(o, op), pushed + [op.message], fates + Leaving(o, op))
    ensures |ApplyOut(o, op).outgoing| == 1
  {
    var k := SentCount(|o.outgoing|, op.attempts);
    var flushed := Flushed(o, op.attempts);
    FlushIsAccounted(o, pushed, fates, op.attempts);
    if FlushSucceeds(o, op.attempts, op.layerFlushed) {
      QueueingIsAccounted(flushed, pushed, fates + Times(Marshalled, k), op.message);
    } else {
      DrainIsAccounted(flushed, pushed, fates + Times(Marshalled, k));
      Associate(fates, Times(Marshalled, k), Times(Drained, |flushed.outgoing|));
      QueueingIsAccounted(flushed.(outgoing := []), pushed, fates + Leaving(o, op), op.message);
    }
  }

  lemma Associate<T>(a: seq<T>, b: seq<T>, c: seq<T>)
    ensures (a + b) + c == a + (b + c)
  {
  }

  /** Over any run of pushes and flushes: the queue is a suffix of the push order, every message before it has been
      marshalled or drained, and the messages written completely are the marshalled ones, in push order and
      once each. The queue never exceeds its limit by more than one. */
  lemma {:induction false} OutgoingRunIsOrdered(ops: seq<OutOp>)
    ensures Accounted(OutRun(ops), PushOrder(ops), Fates(ops))
    ensures |OutRun(ops).outgoing| <= OUTGOING_LIMIT + 1
  {
    if ops != [] {
      var before := ops[..|ops| - 1];
      OutgoingRunIsOrdered(before);
      OutStepIsAccounted(OutRun(before), PushOrder(before), Fates(before), ops[|ops| - 1]);
    }
  }

  /** Operation `i` is a push that finds the queue over its limit and whose flush leaves messages unsent. */
  ghost predicate Emergency(ops: seq<OutOp>, i: int) {
    && 0 <= i < |ops| && ops[i].PushOp?
    && OUTGOING_LIMIT < |OutRun(ops[..i]).outgoing|
    && SentCount(|OutRun(ops[..i]).outgoing|, ops[i].attempts) < |OutRun(ops[..i]).outgoing|
  }

  ghost predicate HasEmergency(ops: seq<OutOp>) { exists i :: Emergency(ops, i) }

  /** A message is lost exactly when some push runs into the emergency drain. */
  lemma {:induction false} LossExactlyInEmergency(ops: seq<OutOp>)
    ensures Drained in Fates(ops) <==> HasEmergency(ops)
  {
    if ops != [] {
      var before := ops[..|ops| - 1];
      LossExactlyInEmergency(before);
      DrainedExactlyWhen(OutRun(before), ops[|ops| - 1]);
      EmergencyExtends(ops);
    }
  }

  lemma EmergencyIsPast(ops: seq<OutOp>, i: int)
    requires ops != [] && i < |ops| - 1
    ensures Emergency(ops, i) <==> Emergency(ops[..|ops| - 1], i)
  {
    if 0 <= i {
      assert ops[..|ops| - 1][..i] == ops[..i];
    }
  }

  lemma EmergencyExtends(ops: seq<OutOp>)
    requires ops != []
    ensures HasEmergency(ops) <==> HasEmergency(ops[..|ops| - 1]) || Emergency(ops, |ops| - 1)
  {
    var before := ops[..|ops| - 1];
    if HasEmergency(ops) && !Emergency(ops, |ops| - 1) {
      var i :| Emergency(ops, i);
      EmergencyIsPast(ops, i);
    }
    if HasEmergency(before) {
      var i :| Emergency(before, i);
      EmergencyIsPast(ops, i);
    }
  }

  lemma DrainedExactlyWhen(o: Outbox, op: OutOp)
    ensures Drained in Leaving(o, op)
       <==> op.PushOp? && OUTGOING_LIMIT < |o.outgoing| && SentCount(|o.outgoing|, op.attempts) < |o.outgoing|
  {
    var k := SentCount(|o.outgoing|, op.attempts);
    if op.PushOp? && OUTGOING_LIMIT < |o.outgoing| && k < |o.outgoing| {
      assert Leaving(o, op)[k] == Drained;
    }
  }

  // ---------------------------------------------------------------------------------------------
  // The queue does reach its bound, and messages do get lost
  // ---------------------------------------------------------------------------------------------

  /** A push leaves the queue above its limit exactly when it found it at the limit. */
  lemma PushExceedsLimitExactlyWhen(o: Outbox, message: Message, attempts: seq<Attempt>, layerFlushed: bool)
    ensures 50 < |PushedSpec(o, message, attempts, layerFlushed).outgoing| <==> |o.outgoing| == 50
  {
  }

  ghost function Pushes(n: nat, message: Message): seq<OutOp> { seq(n, _ => PushOp(message, [], true)) }

  lemma {:induction false} PushesQueueUp(n: nat, message: Message)
    requires n <= OUTGOING_LIMIT + 1
    ensures |OutRun(Pushes(n, message)).outgoing| == n && Drained !in Fates(Pushes(n, message))
  {
    var ops := Pushes(n, message);
    if n > 0 {
      PushesQueueUp(n - 1, message);
      assert ops[..n - 1] == Pushes(n - 1, message);
    }
  }

  /** Fifty-one pushes fill the queue above its limit; if the peer then refuses the next message's header, all of them are
      lost. */
  lemma QueueOverflows(message: Message, begun: bool)
    ensures var full := Pushes(OUTGOING_LIMIT + 1, message);
            var overflow := full + [PushOp(message, [HeaderFault(begun)], true)];
            && |OutRun(full).outgoing| == OUTGOING_LIMIT + 1
            && Emergency(overflow, OUTGOING_LIMIT + 1) && Drained in Fates(overflow)
            && OutRun(overflow).outgoing == [message]
  {
    var full := Pushes(OUTGOING_LIMIT + 1, message);
    var overflow := full + [PushOp(message, [HeaderFault(begun)], true)];
    PushesQueueUp(OUTGOING_LIMIT + 1, message);
    assert overflow[..OUTGOING_LIMIT + 1] == full;
    assert Emergency(overflow, OUTGOING_LIMIT + 1);
    LossExactlyInEmergency(overflow);
  }

  // ---------------------------------------------------------------------------------------------
  // What reaches the marshaller
  // ---------------------------------------------------------------------------------------------

  /** Every body, complete or not, comes right behind its own header. */
  ghost predicate WellFramed(written: seq<Piece>) {
    forall i :: 0 <= i < |written| && (written[i].Complete? || written[i].Partial?) ==>
      0 < i && written[i - 1] == Header(written[i].message.code)
  }

  lemma WellFramedConcat(a: seq<Piece>, b: seq<Piece>)
    requires WellFramed(a) && WellFramed(b)
    ensures WellFramed(a + b)
  {
    forall i | 0 <= i < |a + b| && ((a + b)[i].Complete? || (a + b)[i].Partial?)
      ensures 0 < i && (a + b)[i - 1] == Header((a + b)[i].message.code)
    {
      if i >= |a| {
        assert (a + b)[i] == b[i - |a|];
      }
    }
  }

  lemma {:induction false} PiecesAreWellFramed(messages: seq<Message>)
    ensures WellFramed(Pieces(messages))
  {
    if messages != [] {
      var m := messages[|messages| - 1];
      PiecesAreWellFramed(messages[..|messages| - 1]);
      WellFramedConcat(Pieces(messages[..|messages| - 1]), [Header(m.code), Complete(m)]);
    }
  }

  lemma FlushStaysWellFramed(o: Outbox, attempts: seq<Attempt>)
    requires WellFramed(o.written)
    ensures WellFramed(Flushed(o, attempts).written)
  {
    var k := SentCount(|o.outgoing|, attempts);
    var rest := if k < |o.outgoing| then Remnant(o.outgoing[k], attempts[k]) else [];
    PiecesAreWellFramed(o.outgoing[..k]);
    WellFramedConcat(o.written, Pieces(o.outgoing[..k]));
    WellFramedConcat(o.written + Pieces(o.outgoing[..k]), rest);
  }

  /** Over any run of pushes and flushes, every message body written stands right behind its own header. */
  lemma {:induction false} RunStaysWellFramed(ops: seq<OutOp>)
    ensures WellFramed(OutRun(ops).written)
  {
    if ops != [] {
      RunStaysWellFramed(ops[..|ops| - 1]);
      FlushStaysWellFramed(OutRun(ops[..|ops| - 1]), ops[|ops| - 1].attempts);
    }
  }
}
