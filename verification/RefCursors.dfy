/** Closing REF CURSORs. A cursor's rows may hold further cursors, shared or in cycles; closing a cursor closes those first
    and then queues its own server-side close on its connection's shelf. */
module RefCursors {
  import opened Results

  type Error = string

  datatype Payload = CursorValue(cursor: RefCursor) | NilCursor | OtherValue

  /** The part of a connection that cursors use: the closes queued for the next round trip and the registered cursors. */
  class Shelf {
    var queue: seq<int>
    var registered: set<RefCursor>

    constructor ()
      ensures queue == [] && registered == {}
    {
      queue, registered := [], {};
    }
  }

  // ---------------------------------------------------------------------------------------------
  // Values: the graph of cursors, which closing only looks at, and the world, which it changes
  // ---------------------------------------------------------------------------------------------

  /** `answer` is the outcome of creating and pushing this cursor's close message; `kids` are the cursors in its rows. */
  datatype Node = Node(shelf: Shelf?, answer: Option<Error>, kids: seq<RefCursor>)
  datatype State = State(closed: bool, error: Option<Error>, id: int)
  datatype ShelfState = ShelfState(queue: seq<int>, registered: set<RefCursor>)

  type Graph = map<RefCursor, Node>
  type States = map<RefCursor, State>
  type ShelfStates = map<Shelf, ShelfState>

  datatype World = World(cursors: States, shelves: ShelfStates)

  /** Every cursor in a row, and every shelf, is among those considered. */
  ghost predicate Complete(graph: Graph, w: World) {
    && w.cursors.Keys == graph.Keys
    && (forall c :: c in graph ==> graph[c].shelf != null ==> graph[c].shelf in w.shelves)
    && (forall c :: c in graph ==> AllIn(graph[c].kids, graph))
  }

  ghost function OpenIn(w: World): set<RefCursor> { set c | c in w.cursors && !w.cursors[c].closed }

  /** The non-nil cursors of a row, and of a list of rows, in order. */
  ghost function KidsOfRow(row: seq<Payload>): seq<RefCursor> {
    if row == [] then []
    else KidsOfRow(row[..|row| - 1]) + if row[|row| - 1].CursorValue? then [row[|row| - 1].cursor] else []
  }

  ghost function KidsOf(rows: seq<seq<Payload>>): seq<RefCursor> {
    if rows == [] then [] else KidsOf(rows[..|rows| - 1]) + KidsOfRow(rows[|rows| - 1])
  }

  // ---------------------------------------------------------------------------------------------
  // The effect of closing
  // ---------------------------------------------------------------------------------------------

  /** The conversion of a signed identifier to the unsigned one in the close message. */
  function Unsigned(id: int): int { id % 0x1_0000_0000 }

  predicate IsSigned32(id: int) { -0x8000_0000 <= id <= 0x7FFF_FFFF }

  /** A non-negative identifier is sent as itself, and no two identifiers are sent alike. */
  lemma {:induction false} UnsignedIsExact(id: int, other: int)
    requires IsSigned32(id) && IsSigned32(other)
    ensures 0 <= Unsigned(id) <= 0xFFFF_FFFF
    ensures Unsigned(id) == if 0 <= id then id else id + 0x1_0000_0000
    ensures Unsigned(id) == Unsigned(other) <==> id == other
  {
  }

  datatype Queued = Queued(cursor: RefCursor, shelf: Shelf, id: int)

  ghost function IdsFor(order: seq<Queued>, s: Shelf): seq<int> {
    if order == [] then []
    else IdsFor(order[..|order| - 1], s) + if order[|order| - 1].shelf == s then [order[|order| - 1].id] else []
  }

  ghost function CursorsFor(order: seq<Queued>, s: Shelf): set<RefCursor> {
    set k | 0 <= k < |order| && order[k].shelf == s :: order[k].cursor
  }

  ghost predicate Eligible(graph: Graph, before: States, c: RefCursor)
    requires c in graph && c in before
  {
    before[c].id != 0 && graph[c].shelf != null
  }

  /** Each entry of the queue order is a settled cursor with a shelf and its identifier, and no cursor comes twice. */
  ghost predicate OrderIsSound(graph: Graph, before: States, settled: set<RefCursor>, order: seq<Queued>)
    requires settled <= before.Keys && before.Keys == graph.Keys
  {
    && (forall k :: 0 <= k < |order| ==>
          && order[k].cursor in settled && Eligible(graph, before, order[k].cursor)
          && graph[order[k].cursor].answer == None
          && order[k].shelf == graph[order[k].cursor].shelf && order[k].id == Unsigned(before[order[k].cursor].id))
    && (forall k, l :: 0 <= k < l < |order| ==> order[k].cursor != order[l].cursor)
  }

  ghost predicate InOrder(order: seq<Queued>, c: RefCursor) { exists k :: 0 <= k < |order| && order[k].cursor == c }

  /** A settled cursor has had its server-side close queued if it has an identifier and a shelf and the push succeeds; if
      the push fails it keeps its identifier and records an error. */
  ghost predicate IsSettled(graph: Graph, before: States, after: States, order: seq<Queued>, c: RefCursor)
    requires c in graph && c in before && c in after
  {
    if Eligible(graph, before, c) && graph[c].answer == None then InOrder(order, c) && after[c].id == 0
    else after[c].id == before[c].id && (Eligible(graph, before, c) ==> after[c].error.Some?)
  }

  /** `newly` are the cursors closed meanwhile, `settled` those of them that are done with. */
  ghost predicate Effect(graph: Graph, before: States, shelvesBefore: ShelfStates, after: States, shelvesAfter: ShelfStates,
                         newly: set<RefCursor>, settled: set<RefCursor>, order: seq<Queued>)
  {
    CursorEffect(graph, before, after, newly, settled, order) && ShelvesFollow(shelvesBefore, shelvesAfter, order)
  }

  ghost predicate CursorEffect(graph: Graph, before: States, after: States, newly: set<RefCursor>, settled: set<RefCursor>,
                               order: seq<Queued>)
  {
    && before.Keys == after.Keys == graph.Keys
    && settled <= newly <= before.Keys
    && (forall c :: c in newly ==> !before[c].closed && after[c].closed)
    && (forall c :: c in before && c !in newly ==> after[c] == before[c])
    && (forall c :: c in newly && c !in settled ==> after[c].id == before[c].id)
    && (forall c :: c in settled ==> IsSettled(graph, before, after, order, c))
    && OrderIsSound(graph, before, settled, order)
  }

  /** The shelves have queued and unregistered what the queue order says. */
  ghost predicate ShelvesFollow(shelvesBefore: ShelfStates, shelvesAfter: ShelfStates, order: seq<Queued>) {
    && shelvesBefore.Keys == shelvesAfter.Keys
    && (forall s :: s in shelvesBefore ==>
          && shelvesAfter[s].queue == shelvesBefore[s].queue + IdsFor(order, s)
          && shelvesAfter[s].registered == shelvesBefore[s].registered - CursorsFor(order, s))
  }

  lemma {:induction false} IdsForConcat(a: seq<Queued>, b: seq<Queued>, s: Shelf)
    ensures IdsFor(a + b, s) == IdsFor(a, s) + IdsFor(b, s)
  {
    if b == [] {
      assert a + b == a;
    } else {
      IdsForConcat(a, b[..|b| - 1], s);
      assert (a + b)[..|a + b| - 1] == a + b[..|b| - 1];
    }
  }

  lemma {:induction false} CursorsForConcat(a: seq<Queued>, b: seq<Queued>, s: Shelf)
    ensures CursorsFor(a + b, s) == CursorsFor(a, s) + CursorsFor(b, s)
  {
    forall c | c in CursorsFor(a, s) + CursorsFor(b, s)
      ensures c in CursorsFor(a + b, s)
    {
      if c in CursorsFor(a, s) {
        var k :| 0 <= k < |a| && a[k].shelf == s && a[k].cursor == c;
        assert (a + b)[k] == a[k];
      } else {
        var k :| 0 <= k < |b| && b[k].shelf == s && b[k].cursor == c;
        assert (a + b)[|a| + k] == b[k];
      }
    }
  }

  lemma {:induction false} InOrderConcat(a: seq<Queued>, b: seq<Queued>, c: RefCursor)
    ensures InOrder(a + b, c) <==> InOrder(a, c) || InOrder(b, c)
  {
    if InOrder(a, c) {
      var k :| 0 <= k < |a| && a[k].cursor == c;
      assert (a + b)[k].cursor == c;
    }
    if InOrder(b, c) {
      var k :| 0 <= k < |b| && b[k].cursor == c;
      assert (a + b)[|a| + k].cursor == c;
    }
  }

  /** One effect after another. */
  lemma {:induction false} EffectsCompose(graph: Graph, s0: States, h0: ShelfStates, s1: States, h1: ShelfStates, s2: States, h2: ShelfStates,
                       newly: set<RefCursor>, settled: set<RefCursor>, order: seq<Queued>,
                       newly': set<RefCursor>, order': seq<Queued>)
    requires Effect(graph, s0, h0, s1, h1, newly, settled, order)
    requires Effect(graph, s1, h1, s2, h2, newly', newly', order')
    ensures newly !! newly'
    ensures Effect(graph, s0, h0, s2, h2, newly + newly', settled + newly', order + order')
  {
    assert forall c :: c in newly' ==> s1[c] == s0[c] && c !in newly;
    forall c | c in settled + newly'
      ensures IsSettled(graph, s0, s2, order + order', c)
    {
      InOrderConcat(order, order', c);
      if c in settled {
        assert IsSettled(graph, s0, s1, order, c);
      } else {
        assert IsSettled(graph, s1, s2, order', c);
      }
    }
    OrdersCompose(graph, s0, s1, newly, settled, order, newly', order');
    ShelvesCompose(h0, h1, h2, order, order');
  }

  lemma {:induction false} ShelvesCompose(h0: ShelfStates, h1: ShelfStates, h2: ShelfStates, order: seq<Queued>, order': seq<Queued>)
    requires ShelvesFollow(h0, h1, order) && ShelvesFollow(h1, h2, order')
    ensures ShelvesFollow(h0, h2, order + order')
  {
    forall s | s in h0
      ensures h2[s].queue == h0[s].queue + IdsFor(order + order', s)
      ensures h2[s].registered == h0[s].registered - CursorsFor(order + order', s)
    {
      IdsForConcat(order, order', s);
      CursorsForConcat(order, order', s);
    }
  }

  lemma {:induction false} OrdersCompose(graph: Graph, s0: States, s1: States, newly: set<RefCursor>, settled: set<RefCursor>, order: seq<Queued>,
                      newly': set<RefCursor>, order': seq<Queued>)
    requires settled <= newly <= s0.Keys && newly' <= s1.Keys && s0.Keys == s1.Keys == graph.Keys && newly !! newly'
    requires forall c :: c in newly' ==> s1[c] == s0[c]
    requires OrderIsSound(graph, s0, settled, order) && OrderIsSound(graph, s1, newly', order')
    ensures OrderIsSound(graph, s0, settled + newly', order + order')
  {
  }

  /** The error of a cursor that is not settled yet may still change. */
  lemma {:induction false} UnsettledErrorMayChange(graph: Graph, s0: States, h0: ShelfStates, s1: States, h1: ShelfStates,
                                newly: set<RefCursor>, settled: set<RefCursor>, order: seq<Queued>, c: RefCursor, error: Option<Error>)
    requires Effect(graph, s0, h0, s1, h1, newly, settled, order) && c in newly && c !in settled
    ensures Effect(graph, s0, h0, s1[c := s1[c].(error := error)], h1, newly, settled, order)
  {
    var s2 := s1[c := s1[c].(error := error)];
    forall d | d in settled
      ensures IsSettled(graph, s0, s2, order, d)
    {
      assert IsSettled(graph, s0, s1, order, d);
    }
  }

  /** A cursor whose close is not queued, because there is nothing to close or because the push failed. */
  lemma {:induction false} SettleWithoutQueueing(graph: Graph, s0: States, h0: ShelfStates, s1: States, h1: ShelfStates,
                              newly: set<RefCursor>, order: seq<Queued>, c: RefCursor)
    requires c in newly && Effect(graph, s0, h0, s1, h1, newly, newly - {c}, order)
    requires !Eligible(graph, s0, c) || (graph[c].answer.Some? && s1[c].error.Some?)
    ensures Effect(graph, s0, h0, s1, h1, newly, newly, order)
  {
    assert newly == (newly - {c}) + {c};
  }

  /** A cursor whose close is queued last. */
  lemma {:induction false} SettleByQueueing(graph: Graph, s0: States, h0: ShelfStates, s1: States, h1: ShelfStates,
                         newly: set<RefCursor>, order: seq<Queued>, c: RefCursor, q: Queued)
    requires c in newly && Effect(graph, s0, h0, s1, h1, newly, newly - {c}, order)
    requires Eligible(graph, s0, c) && graph[c].answer == None && graph[c].shelf in h1
    requires q == Queued(c, graph[c].shelf, Unsigned(s0[c].id))
    ensures Effect(graph, s0, h0, s1[c := s1[c].(id := 0)],
                   h1[q.shelf := ShelfState(h1[q.shelf].queue + [q.id], h1[q.shelf].registered - {c})],
                   newly, newly, order + [q])
  {
    CursorSettles(graph, s0, s1, newly, order, c, q);
    ShelvesOneMore(h0, h1, order, q);
  }

  lemma {:induction false} CursorSettles(graph: Graph, s0: States, s1: States, newly: set<RefCursor>, order: seq<Queued>,
                                         c: RefCursor, q: Queued)
    requires c in newly && CursorEffect(graph, s0, s1, newly, newly - {c}, order)
    requires Eligible(graph, s0, c) && graph[c].answer == None && q == Queued(c, graph[c].shelf, Unsigned(s0[c].id))
    ensures CursorEffect(graph, s0, s1[c := s1[c].(id := 0)], newly, newly, order + [q])
  {
    var s2 := s1[c := s1[c].(id := 0)];
    forall d | d in newly
      ensures IsSettled(graph, s0, s2, order + [q], d)
    {
      SettledOneMore(graph, s0, s1, newly, order, c, q, d);
    }
    OrderOneMore(graph, s0, newly, order, c, q);
  }

  lemma {:induction false} ShelvesOneMore(h0: ShelfStates, h1: ShelfStates, order: seq<Queued>, q: Queued)
    requires ShelvesFollow(h0, h1, order) && q.shelf in h1
    ensures ShelvesFollow(h0, h1[q.shelf := ShelfState(h1[q.shelf].queue + [q.id], h1[q.shelf].registered - {q.cursor})], order + [q])
  {
    var h2 := h1[q.shelf := ShelfState(h1[q.shelf].queue + [q.id], h1[q.shelf].registered - {q.cursor})];
    forall s | s in h0
      ensures h2[s].queue == h0[s].queue + IdsFor(order + [q], s)
      ensures h2[s].registered == h0[s].registered - CursorsFor(order + [q], s)
    {
      ShelfOneMore(order, q, s);
      if s == q.shelf {
        QueueOneMore(h0[s].queue, IdsFor(order, s), q.id);
      } else {
        assert IdsFor(order + [q], s) == IdsFor(order, s);
      }
    }
  }

  lemma {:induction false} QueueOneMore(queue: seq<int>, ids: seq<int>, id: int)
    ensures (queue + ids) + [id] == queue + (ids + [id])
  {
  }

  lemma {:induction false} ShelfOneMore(order: seq<Queued>, q: Queued, s: Shelf)
    ensures IdsFor(order + [q], s) == IdsFor(order, s) + if s == q.shelf then [q.id] else []
    ensures CursorsFor(order + [q], s) == CursorsFor(order, s) + if s == q.shelf then {q.cursor} else {}
  {
    IdsForConcat(order, [q], s);
    assert [q][..0] == [];
    CursorsForConcat(order, [q], s);
    assert [q][0] == q;
  }

  lemma {:induction false} SettledOneMore(graph: Graph, s0: States, s1: States, newly: set<RefCursor>, order: seq<Queued>,
                       c: RefCursor, q: Queued, d: RefCursor)
    requires c in newly && d in newly && newly <= s0.Keys && s0.Keys == s1.Keys == graph.Keys && q.cursor == c
    requires Eligible(graph, s0, c) && graph[c].answer == None
    requires d != c ==> IsSettled(graph, s0, s1, order, d)
    ensures IsSettled(graph, s0, s1[c := s1[c].(id := 0)], order + [q], d)
  {
    InOrderConcat(order, [q], d);
    if d == c {
      assert [q][0].cursor == c;
      assert InOrder([q], c);
    }
  }

  lemma {:induction false} OrderOneMore(graph: Graph, s0: States, newly: set<RefCursor>, order: seq<Queued>, c: RefCursor, q: Queued)
    requires c in newly && newly <= s0.Keys && s0.Keys == graph.Keys
    requires OrderIsSound(graph, s0, newly - {c}, order)
    requires Eligible(graph, s0, c) && graph[c].answer == None
    requires q == Queued(c, graph[c].shelf, Unsigned(s0[c].id))
    ensures OrderIsSound(graph, s0, newly, order + [q])
  {
  }

  // ---------------------------------------------------------------------------------------------
  // Closing on values
  // ---------------------------------------------------------------------------------------------

  /** The world afterwards, the server-side closes in the order they were queued, and the cursors for which a push was
      attempted, in that order. */
  datatype Outcome = Outcome(world: World, order: seq<Queued>, attempts: seq<RefCursor>)

  ghost function Marked(w: World, c: RefCursor): World
    requires c in w.cursors
  {
    w.(cursors := w.cursors[c := w.cursors[c].(closed := true)])
  }

  /** A parent records the first error. */
  ghost function Noted(w: World, parent: RefCursor, error: Option<Error>): World
    requires parent in w.cursors
  {
    if error.Some? && w.cursors[parent].error.None?
    then w.(cursors := w.cursors[parent := w.cursors[parent].(error := error)])
    else w
  }

  /** The server-side part of closing a cursor. */
  ghost function Released(graph: Graph, w: World, c: RefCursor): Outcome
    requires Complete(graph, w) && c in graph
  {
    var id, shelf := w.cursors[c].id, graph[c].shelf;
    if id == 0 || shelf == null then Outcome(w, [], [])
    else if graph[c].answer.Some? then Outcome(Noted(w, c, graph[c].answer), [], [c])
    else Outcome(
        World(w.cursors[c := w.cursors[c].(id := 0)],
              w.shelves[shelf := ShelfState(w.shelves[shelf].queue + [Unsigned(id)], w.shelves[shelf].registered - {c})]),
        [Queued(c, shelf, Unsigned(id))], [c])
  }

  ghost function Closing(graph: Graph, w: World, c: RefCursor): (r: Outcome)
    requires Complete(graph, w) && c in graph
    ensures Complete(graph, r.world) && r.world.shelves.Keys == w.shelves.Keys && OpenIn(r.world) <= OpenIn(w)
    decreases OpenIn(w), 0, 0
  {
    if w.cursors[c].closed then Outcome(w, [], [])
    else
      assert c in OpenIn(w) && OpenIn(Marked(w, c)) <= OpenIn(w) - {c};
      var inner := ClosingAll(graph, Marked(w, c), c, graph[c].kids);
      var last := Released(graph, inner.world, c);
      Outcome(last.world, inner.order + last.order, inner.attempts + last.attempts)
  }

  /** Closing the listed cursors one after the other on behalf of `parent`. */
  ghost function ClosingAll(graph: Graph, w: World, parent: RefCursor, kids: seq<RefCursor>): (r: Outcome)
    requires Complete(graph, w) && parent in graph && AllIn(kids, graph)
    ensures Complete(graph, r.world) && r.world.shelves.Keys == w.shelves.Keys && OpenIn(r.world) <= OpenIn(w)
    decreases OpenIn(w), 2, |kids|
  {
    if kids == [] then Outcome(w, [], [])
    else
      var most := ClosingAll(graph, w, parent, kids[..|kids| - 1]);
      var last := ClosingChild(graph, most.world, parent, kids[|kids| - 1]);
      Outcome(last.world, most.order + last.order, most.attempts + last.attempts)
  }

  /** Closing one cursor on behalf of `parent`. */
  ghost function ClosingChild(graph: Graph, w: World, parent: RefCursor, kid: RefCursor): (r: Outcome)
    requires Complete(graph, w) && parent in graph && kid in graph
    ensures Complete(graph, r.world) && r.world.shelves.Keys == w.shelves.Keys && OpenIn(r.world) <= OpenIn(w)
    decreases OpenIn(w), 1, 0
  {
    var closed := Closing(graph, w, kid);
    Outcome(Noted(closed.world, parent, closed.world.cursors[kid].error), closed.order, closed.attempts)
  }

  ghost predicate AllIn(kids: seq<RefCursor>, graph: Graph) { forall i :: 0 <= i < |kids| ==> kids[i] in graph }

  ghost predicate IsWorldAfter(graph: Graph, w: World, parent: RefCursor, kids: seq<RefCursor>, now: World)
    requires Complete(graph, w) && parent in graph
  {
    AllIn(kids, graph) && now == ClosingAll(graph, w, parent, kids).world
  }

  lemma {:induction false} OneMore(graph: Graph, w: World, parent: RefCursor, kids: seq<RefCursor>, now: World, kid: RefCursor)
    requires Complete(graph, w) && parent in graph && kid in graph && IsWorldAfter(graph, w, parent, kids, now)
    ensures Complete(graph, now) && now.shelves.Keys == w.shelves.Keys && OpenIn(now) <= OpenIn(w)
    ensures IsWorldAfter(graph, w, parent, kids + [kid], ClosingChild(graph, now, parent, kid).world)
  {
    assert (kids + [kid])[..|kids|] == kids;
  }

  // ---------------------------------------------------------------------------------------------
  // What closing does
  // ---------------------------------------------------------------------------------------------

  ghost function Newly(w: World, later: World): set<RefCursor> { OpenIn(w) - OpenIn(later) }

  ghost predicate AllClosed(kids: seq<RefCursor>, w: World) { forall i :: 0 <= i < |kids| ==> kids[i] !in OpenIn(w) }

  ghost predicate KidsClosed(graph: Graph, w: World, c: RefCursor) { c in graph && AllClosed(graph[c].kids, w) }

  /** The errors recorded in cursors, and those that pushing for the given cursors yields. */
  ghost function Recorded(w: World): set<Error> {
    set c | c in w.cursors && w.cursors[c].error.Some? :: w.cursors[c].error.value
  }

  ghost function Failures(graph: Graph, w: World, newly: set<RefCursor>): set<Error> {
    set c | c in newly && c in graph && c in w.cursors && Eligible(graph, w.cursors, c) && graph[c].answer.Some? :: graph[c].answer.value
  }

  /** All that is known of closing, once every cursor it closed except possibly `pending` is done with. */
  ghost predicate Progress(graph: Graph, w: World, now: World, root: RefCursor, pending: set<RefCursor>, order: seq<Queued>) {
    var newly := Newly(w, now);
    && Effect(graph, w.cursors, w.shelves, now.cursors, now.shelves, newly, newly - pending, order)
    && root in now.cursors && now.cursors[root].closed
    && (forall c :: c in newly - pending ==> KidsClosed(graph, now, c))
    && (now.cursors[root].error == None ==> forall c :: c in newly ==> now.cursors[c].error == None)
    && Recorded(now) <= Recorded(w) + Failures(graph, w, newly)
  }

  lemma {:induction false} EffectDeterminesNewly(graph: Graph, w: World, later: World, newly: set<RefCursor>, settled: set<RefCursor>, order: seq<Queued>)
    requires Effect(graph, w.cursors, w.shelves, later.cursors, later.shelves, newly, settled, order)
    ensures newly == Newly(w, later)
  {
  }

  lemma {:induction false} ErrorsThrough(graph: Graph, w: World, now: World, later: World, newly: set<RefCursor>, more: set<RefCursor>)
    requires Recorded(now) <= Recorded(w) + Failures(graph, w, newly)
    requires Recorded(later) <= Recorded(now) + Failures(graph, now, more)
    requires forall c :: c in more ==> c in w.cursors && c in now.cursors && now.cursors[c] == w.cursors[c]
    ensures Recorded(later) <= Recorded(w) + Failures(graph, w, newly + more)
  {
    assert Failures(graph, now, more) == Failures(graph, w, more);
  }

  lemma {:induction false} ErrorsWithin(w: World, errors: set<Error>)
    requires forall c :: c in w.cursors && w.cursors[c].error.Some? ==> w.cursors[c].error.value in errors
    ensures Recorded(w) <= errors
  {
  }

  lemma {:induction false} ErrorIsRecorded(w: World, c: RefCursor)
    requires c in w.cursors && w.cursors[c].error.Some?
    ensures w.cursors[c].error.value in Recorded(w)
  {
  }

  lemma {:induction false} MarkingAddsNoError(w: World, c: RefCursor)
    requires c in w.cursors
    ensures Recorded(Marked(w, c)) <= Recorded(w)
  {
    forall d | d in w.cursors && w.cursors[d].error.Some?
      ensures w.cursors[d].error.value in Recorded(w)
    {
      ErrorIsRecorded(w, d);
    }
    ErrorsWithin(Marked(w, c), Recorded(w));
  }

  lemma {:induction false} ReleaseAddsOwnError(graph: Graph, w: World, now: World, c: RefCursor, newly: set<RefCursor>)
    requires Complete(graph, now) && c in graph && c in newly && c in w.cursors && w.cursors[c].id == now.cursors[c].id
    requires Recorded(now) <= Recorded(w) + Failures(graph, w, newly)
    ensures Recorded(Released(graph, now, c).world) <= Recorded(w) + Failures(graph, w, newly)
  {
    var later := Released(graph, now, c).world;
    forall d | d in later.cursors && later.cursors[d].error.Some?
      ensures later.cursors[d].error.value in Recorded(w) + Failures(graph, w, newly)
    {
      if later.cursors[d].error == now.cursors[d].error {
        ErrorIsRecorded(now, d);
      }
    }
    ErrorsWithin(later, Recorded(w) + Failures(graph, w, newly));
  }

  lemma {:induction false} NotingAddsNoError(w: World, c: RefCursor, kid: RefCursor)
    requires c in w.cursors && kid in w.cursors
    ensures Recorded(Noted(w, c, w.cursors[kid].error)) <= Recorded(w)
  {
    var later := Noted(w, c, w.cursors[kid].error);
    forall e | e in Recorded(later)
      ensures e in Recorded(w)
    {
      var d :| d in later.cursors && later.cursors[d].error == Some(e);
      if d == c && later != w {
        assert w.cursors[kid].error == Some(e);
      }
    }
  }

  lemma {:induction false} MarkedIsSmaller(graph: Graph, w: World, c: RefCursor)
    requires Complete(graph, w) && c in graph && !w.cursors[c].closed
    ensures Complete(graph, Marked(w, c)) && OpenIn(Marked(w, c)) < OpenIn(w)
  {
    assert c in OpenIn(w) && c !in OpenIn(Marked(w, c));
  }

  lemma {:induction false} ClosingEndsWithRelease(graph: Graph, w: World, c: RefCursor, now: World)
    requires Complete(graph, w) && c in OpenIn(w) && Complete(graph, Marked(w, c))
    requires IsWorldAfter(graph, Marked(w, c), c, graph[c].kids, now)
    ensures Complete(graph, now) && Closing(graph, w, c).world == Released(graph, now, c).world
    ensures now.cursors.Keys == graph.Keys && now.shelves.Keys == w.shelves.Keys
  {
  }

  lemma {:induction false} StartsWithProgress(graph: Graph, w: World, c: RefCursor)
    requires Complete(graph, w) && c in OpenIn(w)
    ensures Newly(w, Marked(w, c)) == {c} && Progress(graph, w, Marked(w, c), c, {c}, [])
  {
    MarkingAddsNoError(w, c);
  }

  /** The loop over the rows keeps progress; `closed` is the world after one more child, before its error is noted. */
  lemma {:induction false} ChildKeepsProgress(graph: Graph, w: World, now: World, c: RefCursor, order: seq<Queued>, kid: RefCursor, closed: World, queued: seq<Queued>)
    requires Complete(graph, w) && c in OpenIn(w) && c in graph && kid in graph
    requires Progress(graph, w, now, c, {c}, order) && Progress(graph, now, closed, kid, {}, queued)
    ensures Progress(graph, w, Noted(closed, c, closed.cursors[kid].error), c, {c}, order + queued)
    ensures OpenIn(Noted(closed, c, closed.cursors[kid].error)) <= OpenIn(now) - {kid}
  {
    var newly, more := Newly(w, now), Newly(now, closed);
    var later := Noted(closed, c, closed.cursors[kid].error);
    ChildKeepsEffect(graph, w, now, c, order, closed, queued, closed.cursors[kid].error);
    ErrorsThrough(graph, w, now, closed, newly, more);
    NotingAddsNoError(closed, c, kid);
    ChildrenStayClosed(graph, w, now, c, closed, later);
  }

  lemma {:induction false} ChildKeepsEffect(graph: Graph, w: World, now: World, c: RefCursor, order: seq<Queued>, closed: World, queued: seq<Queued>,
                         error: Option<Error>)
    requires c in Newly(w, now) && now.cursors.Keys == closed.cursors.Keys
    requires Effect(graph, w.cursors, w.shelves, now.cursors, now.shelves, Newly(w, now), Newly(w, now) - {c}, order)
    requires Effect(graph, now.cursors, now.shelves, closed.cursors, closed.shelves, Newly(now, closed), Newly(now, closed) - {}, queued)
    ensures var later, newly := Noted(closed, c, error), Newly(w, now) + Newly(now, closed);
            && newly == Newly(w, later)
            && Effect(graph, w.cursors, w.shelves, later.cursors, later.shelves, newly, newly - {c}, order + queued)
  {
    var newly, more := Newly(w, now), Newly(now, closed);
    var later := Noted(closed, c, error);
    assert more - {} == more;
    EffectsCompose(graph, w.cursors, w.shelves, now.cursors, now.shelves, closed.cursors, closed.shelves,
                   newly, newly - {c}, order, more, queued);
    assert (newly - {c}) + more == newly + more - {c};
    if later != closed {
      UnsettledErrorMayChange(graph, w.cursors, w.shelves, closed.cursors, closed.shelves, newly + more, newly + more - {c},
                              order + queued, c, error);
    }
    EffectDeterminesNewly(graph, w, later, newly + more, newly + more - {c}, order + queued);
  }

  lemma {:induction false} ChildrenStayClosed(graph: Graph, w: World, now: World, c: RefCursor, closed: World, later: World)
    requires OpenIn(later) == OpenIn(closed) <= OpenIn(now)
    requires forall d :: d in Newly(w, now) - {c} ==> KidsClosed(graph, now, d)
    requires forall d :: d in Newly(now, closed) - {} ==> KidsClosed(graph, closed, d)
    ensures forall d :: d in Newly(w, now) + Newly(now, closed) - {c} ==> KidsClosed(graph, later, d)
  {
    forall d | d in Newly(w, now) + Newly(now, closed) - {c}
      ensures KidsClosed(graph, later, d)
    {
      if d in Newly(w, now) - {c} {
        assert KidsClosed(graph, now, d);
      } else {
        assert KidsClosed(graph, closed, d);
      }
    }
  }

  lemma {:induction false} ReleaseKeepsClosed(graph: Graph, now: World, c: RefCursor)
    requires Complete(graph, now) && c in graph
    ensures var later := Released(graph, now, c).world;
            && OpenIn(later) == OpenIn(now)
            && (later.cursors[c].error == None ==> now.cursors[c].error == None)
            && (forall d :: d in now.cursors && d != c ==> later.cursors[d] == now.cursors[d])
  {
  }

  lemma {:induction false} ReleaseKeepsProgress(graph: Graph, w: World, now: World, c: RefCursor, order: seq<Queued>)
    requires Complete(graph, w) && Complete(graph, now) && c in OpenIn(w) && KidsClosed(graph, now, c)
    requires Progress(graph, w, now, c, {c}, order)
    ensures Progress(graph, w, Released(graph, now, c).world, c, {}, order + Released(graph, now, c).order)
  {
    var newly, r := Newly(w, now), Released(graph, now, c);
    assert newly - {} == newly;
    ReleaseSettles(graph, w, now, c, order);
    EffectDeterminesNewly(graph, w, r.world, newly, newly, order + r.order);
    ReleaseAddsOwnError(graph, w, now, c, newly);
    ReleaseKeepsClosed(graph, now, c);
    forall d | d in newly
      ensures KidsClosed(graph, r.world, d)
    {
      assert d == c || d in newly - {c};
      assert KidsClosed(graph, now, d);
    }
  }

  lemma {:induction false} ReleaseSettles(graph: Graph, w: World, now: World, c: RefCursor, order: seq<Queued>)
    requires Complete(graph, w) && Complete(graph, now) && c in Newly(w, now)
    requires Effect(graph, w.cursors, w.shelves, now.cursors, now.shelves, Newly(w, now), Newly(w, now) - {c}, order)
    ensures var r := Released(graph, now, c);
            Effect(graph, w.cursors, w.shelves, r.world.cursors, r.world.shelves, Newly(w, now), Newly(w, now), order + r.order)
  {
    var newly, r := Newly(w, now), Released(graph, now, c);
    if !Eligible(graph, w.cursors, c) {
      assert order + [] == order;
      SettleWithoutQueueing(graph, w.cursors, w.shelves, now.cursors, now.shelves, newly, order, c);
    } else if graph[c].answer.Some? {
      assert order + [] == order;
      if now.cursors[c].error.None? {
        UnsettledErrorMayChange(graph, w.cursors, w.shelves, now.cursors, now.shelves, newly, newly - {c}, order, c, graph[c].answer);
      }
      SettleWithoutQueueing(graph, w.cursors, w.shelves, r.world.cursors, now.shelves, newly, order, c);
    } else {
      var q := Queued(c, graph[c].shelf, Unsigned(w.cursors[c].id));
      SettleByQueueing(graph, w.cursors, w.shelves, now.cursors, now.shelves, newly, order, c, q);
    }
  }

  /** Closing any cursor of any graph. */
  lemma {:induction false} ClosingMakesProgress(graph: Graph, w: World, c: RefCursor)
    requires Complete(graph, w) && c in OpenIn(w)
    ensures Progress(graph, w, Closing(graph, w, c).world, c, {}, Closing(graph, w, c).order)
    decreases OpenIn(w), 0, 0
  {
    MarkedIsSmaller(graph, w, c);
    ClosingAllMakesProgress(graph, w, c, graph[c].kids);
    var inner := ClosingAll(graph, Marked(w, c), c, graph[c].kids);
    ReleaseKeepsProgress(graph, w, inner.world, c, inner.order);
  }

  lemma {:induction false} ClosedIsIdle(graph: Graph, w: World, c: RefCursor)
    requires Complete(graph, w) && c in graph && w.cursors[c].closed
    ensures Closing(graph, w, c) == Outcome(w, [], []) && Newly(w, w) == {} && Progress(graph, w, w, c, {}, [])
  {
    assert Newly(w, w) == {};
  }

  lemma {:induction false} ClosingAllMakesProgress(graph: Graph, w: World, c: RefCursor, kids: seq<RefCursor>)
    requires Complete(graph, w) && c in OpenIn(w) && AllIn(kids, graph)
    ensures var r := ClosingAll(graph, Marked(w, c), c, kids);
            && Progress(graph, w, r.world, c, {c}, r.order)
            && AllClosed(kids, r.world)
    decreases OpenIn(Marked(w, c)), 2, |kids|
  {
    if kids == [] {
      StartsWithProgress(graph, w, c);
    } else {
      var most, kid := ClosingAll(graph, Marked(w, c), c, kids[..|kids| - 1]), kids[|kids| - 1];
      ClosingAllMakesProgress(graph, w, c, kids[..|kids| - 1]);
      ClosingChildMakesProgress(graph, w, c, most.world, most.order, kid);
      AllClosedOneMore(kids, most.world, ClosingChild(graph, most.world, c, kid).world);
    }
  }

  lemma {:induction false} AllClosedOneMore(kids: seq<RefCursor>, now: World, later: World)
    requires kids != [] && AllClosed(kids[..|kids| - 1], now) && OpenIn(later) <= OpenIn(now) - {kids[|kids| - 1]}
    ensures AllClosed(kids, later)
  {
    forall i | 0 <= i < |kids|
      ensures kids[i] !in OpenIn(later)
    {
      if i < |kids| - 1 {
        assert kids[i] == kids[..|kids| - 1][i];
      }
    }
  }

  lemma {:induction false} ClosingChildMakesProgress(graph: Graph, w: World, c: RefCursor, now: World, order: seq<Queued>, kid: RefCursor)
    requires Complete(graph, w) && Complete(graph, now) && c in OpenIn(w) && OpenIn(now) <= OpenIn(Marked(w, c))
    requires kid in graph && Progress(graph, w, now, c, {c}, order)
    ensures var r := ClosingChild(graph, now, c, kid);
            Progress(graph, w, r.world, c, {c}, order + r.order) && OpenIn(r.world) <= OpenIn(now) - {kid}
    decreases OpenIn(Marked(w, c)), 1, 0
  {
    if now.cursors[kid].closed {
      ClosedIsIdle(graph, now, kid);
    } else {
      ClosingMakesProgress(graph, now, kid);
    }
    var closed := Closing(graph, now, kid);
    ChildKeepsProgress(graph, w, now, c, order, kid, closed.world, closed.order);
  }

  // ---------------------------------------------------------------------------------------------
  // Which cursors are closed
  // ---------------------------------------------------------------------------------------------

  /** A chain of `n` rows leads from `a` to `b`, through open cursors only. */
  ghost predicate OpenChain(graph: Graph, w: World, a: RefCursor, b: RefCursor, n: nat) {
    && a in OpenIn(w)
    && if n == 0 then a == b else a in graph && exists k :: k in graph[a].kids && OpenChain(graph, w, k, b, n - 1)
  }

  ghost predicate OpenPath(graph: Graph, w: World, a: RefCursor, b: RefCursor) { exists n: nat :: OpenChain(graph, w, a, b, n) }

  lemma {:induction false} FewerOpen(graph: Graph, w: World, now: World, a: RefCursor, b: RefCursor, n: nat)
    requires OpenIn(now) <= OpenIn(w) && OpenChain(graph, now, a, b, n)
    ensures OpenChain(graph, w, a, b, n)
  {
    if n > 0 {
      var k :| k in graph[a].kids && OpenChain(graph, now, k, b, n - 1);
      FewerOpen(graph, w, now, k, b, n - 1);
    }
  }

  lemma {:induction false} PathWithFewerOpen(graph: Graph, w: World, now: World, a: RefCursor, b: RefCursor)
    requires OpenIn(now) <= OpenIn(w) && OpenPath(graph, now, a, b)
    ensures OpenPath(graph, w, a, b)
  {
    var n: nat :| OpenChain(graph, now, a, b, n);
    FewerOpen(graph, w, now, a, b, n);
  }

  /** Every cursor closed on behalf of `parent` lies on a chain of open cursors from one of `kids`. */
  ghost predicate FromKids(graph: Graph, w: World, kids: seq<RefCursor>, d: RefCursor) {
    exists i :: 0 <= i < |kids| && OpenPath(graph, w, kids[i], d)
  }

  lemma {:induction false} ClosedOnPaths(graph: Graph, w: World, c: RefCursor, d: RefCursor)
    requires Complete(graph, w) && c in graph && d in Newly(w, Closing(graph, w, c).world)
    ensures OpenPath(graph, w, c, d)
    decreases OpenIn(w), 0, 0
  {
    assert !w.cursors[c].closed;
    if d == c {
      assert OpenChain(graph, w, c, c, 0);
    } else {
      MarkedIsSmaller(graph, w, c);
      var marked := Marked(w, c);
      var inner := ClosingAll(graph, marked, c, graph[c].kids);
      ReleaseKeepsClosed(graph, inner.world, c);
      assert d in Newly(marked, inner.world);
      ClosedFromKids(graph, marked, c, graph[c].kids, d);
      var i :| 0 <= i < |graph[c].kids| && OpenPath(graph, marked, graph[c].kids[i], d);
      var kid := graph[c].kids[i];
      var n: nat :| OpenChain(graph, marked, kid, d, n);
      FewerOpen(graph, w, marked, kid, d, n);
      assert kid in graph[c].kids && OpenChain(graph, w, kid, d, n + 1 - 1);
      assert OpenChain(graph, w, c, d, n + 1);
    }
  }

  lemma {:induction false} ClosedFromKids(graph: Graph, w: World, c: RefCursor, kids: seq<RefCursor>, d: RefCursor)
    requires Complete(graph, w) && c in graph && AllIn(kids, graph) && d in Newly(w, ClosingAll(graph, w, c, kids).world)
    ensures FromKids(graph, w, kids, d)
    decreases OpenIn(w), 2, |kids|
  {
    if kids != [] {
      var most, kid := ClosingAll(graph, w, c, kids[..|kids| - 1]).world, kids[|kids| - 1];
      if d in Newly(w, most) {
        ClosedFromKids(graph, w, c, kids[..|kids| - 1], d);
        FromFewerKids(graph, w, kids, d);
      } else {
        ClosedByChild(graph, w, most, c, kid, d);
        assert OpenPath(graph, w, kids[|kids| - 1], d);
      }
    }
  }

  lemma {:induction false} FromFewerKids(graph: Graph, w: World, kids: seq<RefCursor>, d: RefCursor)
    requires kids != [] && FromKids(graph, w, kids[..|kids| - 1], d)
    ensures FromKids(graph, w, kids, d)
  {
    var i :| 0 <= i < |kids[..|kids| - 1]| && OpenPath(graph, w, kids[..|kids| - 1][i], d);
    assert kids[i] == kids[..|kids| - 1][i];
  }

  lemma {:induction false} ClosedByChild(graph: Graph, w: World, now: World, c: RefCursor, kid: RefCursor, d: RefCursor)
    requires Complete(graph, now) && c in graph && kid in graph && OpenIn(now) <= OpenIn(w)
    requires d in Newly(now, ClosingChild(graph, now, c, kid).world)
    ensures OpenPath(graph, w, kid, d)
    decreases OpenIn(w), 1, 0
  {
    NotingKeepsOpen(Closing(graph, now, kid).world, c, Closing(graph, now, kid).world.cursors[kid].error);
    ClosedOnPaths(graph, now, kid, d);
    PathWithFewerOpen(graph, w, now, kid, d);
  }

  lemma {:induction false} NotingKeepsOpen(w: World, c: RefCursor, error: Option<Error>)
    requires c in w.cursors
    ensures OpenIn(Noted(w, c, error)) == OpenIn(w)
  {
  }

  lemma {:induction false} OnPathsClosed(graph: Graph, w: World, later: World, a: RefCursor, b: RefCursor, n: nat)
    requires OpenChain(graph, w, a, b, n) && a in Newly(w, later)
    requires forall c :: c in Newly(w, later) ==> KidsClosed(graph, later, c)
    ensures b in Newly(w, later)
  {
    if n > 0 {
      var k :| k in graph[a].kids && OpenChain(graph, w, k, b, n - 1);
      assert KidsClosed(graph, later, a);
      OnPathsClosed(graph, w, later, k, b, n - 1);
    }
  }

  /** `Close` closes exactly the cursors that a chain of open cursors leads to. */
  lemma {:induction false} ClosesExactly(graph: Graph, w: World, c: RefCursor, d: RefCursor)
    requires Complete(graph, w) && c in graph
    ensures d in Newly(w, Closing(graph, w, c).world) <==> OpenPath(graph, w, c, d)
  {
    var later := Closing(graph, w, c).world;
    if d in Newly(w, later) {
      ClosedOnPaths(graph, w, c, d);
    }
    if OpenPath(graph, w, c, d) {
      var n: nat :| OpenChain(graph, w, c, d, n);
      ClosingMakesProgress(graph, w, c);
      assert c in Newly(w, later);
      assert Newly(w, later) - {} == Newly(w, later);
      OnPathsClosed(graph, w, later, c, d, n);
    }
  }

  /** A chain of `n` rows leads from `a` to `b`. */
  ghost predicate Chain(graph: Graph, a: RefCursor, b: RefCursor, n: nat) {
    if n == 0 then a == b else a in graph && exists k :: k in graph[a].kids && Chain(graph, k, b, n - 1)
  }

  ghost predicate Reachable(graph: Graph, a: RefCursor, b: RefCursor) { exists n: nat :: Chain(graph, a, b, n) }

  /** No closed cursor has an open one in its rows. */
  ghost predicate Sealed(graph: Graph, w: World) { forall c :: c in graph && c !in OpenIn(w) ==> KidsClosed(graph, w, c) }

  lemma {:induction false} SealedBelow(graph: Graph, w: World, a: RefCursor, b: RefCursor, n: nat)
    requires Complete(graph, w) && Sealed(graph, w) && a in graph && a !in OpenIn(w) && Chain(graph, a, b, n)
    ensures b in graph && b !in OpenIn(w)
  {
    if n > 0 {
      var k :| k in graph[a].kids && Chain(graph, k, b, n - 1);
      var i :| 0 <= i < |graph[a].kids| && graph[a].kids[i] == k;
      SealedBelow(graph, w, k, b, n - 1);
    }
  }

  lemma {:induction false} ClosingKeepsSealed(graph: Graph, w: World, c: RefCursor)
    requires Complete(graph, w) && c in graph && Sealed(graph, w)
    ensures Sealed(graph, Closing(graph, w, c).world)
  {
    var later := Closing(graph, w, c).world;
    if !w.cursors[c].closed {
      ClosingMakesProgress(graph, w, c);
      forall d | d in graph && d !in OpenIn(later)
        ensures KidsClosed(graph, later, d)
      {
        if d in OpenIn(w) {
          assert d in Newly(w, later) - {};
        } else {
          assert KidsClosed(graph, w, d);
        }
      }
    }
  }

  /** Whatever the graph, shared or cyclic, `Close` leaves every reachable cursor closed. */
  lemma {:induction false} ClosesEverythingReachable(graph: Graph, w: World, c: RefCursor, d: RefCursor)
    requires Complete(graph, w) && c in graph && Sealed(graph, w) && Reachable(graph, c, d)
    ensures d in graph && Closing(graph, w, c).world.cursors[d].closed
  {
    ClosingKeepsSealed(graph, w, c);
    if !w.cursors[c].closed {
      ClosingMakesProgress(graph, w, c);
    }
    var n: nat :| Chain(graph, c, d, n);
    SealedBelow(graph, Closing(graph, w, c).world, c, d, n);
  }

  // ---------------------------------------------------------------------------------------------
  // Runs of `Close` calls
  // ---------------------------------------------------------------------------------------------

  ghost function ClosingEach(graph: Graph, w: World, calls: seq<RefCursor>): (r: Outcome)
    requires Complete(graph, w) && AllIn(calls, graph)
    ensures Complete(graph, r.world) && r.world.shelves.Keys == w.shelves.Keys
  {
    if calls == [] then Outcome(w, [], [])
    else
      var most := ClosingEach(graph, w, calls[..|calls| - 1]);
      var last := Closing(graph, most.world, calls[|calls| - 1]);
      Outcome(last.world, most.order + last.order, most.attempts + last.attempts)
  }

  lemma {:induction false} NothingHasHappened(graph: Graph, w: World)
    requires Complete(graph, w)
    ensures Newly(w, w) == {} && Effect(graph, w.cursors, w.shelves, w.cursors, w.shelves, {}, {}, [])
  {
  }

  lemma {:induction false} CallHasEffect(graph: Graph, w: World, c: RefCursor)
    requires Complete(graph, w) && c in graph
    ensures var r := Closing(graph, w, c);
            Effect(graph, w.cursors, w.shelves, r.world.cursors, r.world.shelves, Newly(w, r.world), Newly(w, r.world), r.order)
  {
    var r := Closing(graph, w, c);
    if w.cursors[c].closed {
      ClosedIsIdle(graph, w, c);
    } else {
      ClosingMakesProgress(graph, w, c);
    }
    assert Newly(w, r.world) - {} == Newly(w, r.world);
  }

  lemma {:induction false} RunHasEffect(graph: Graph, w: World, calls: seq<RefCursor>)
    requires Complete(graph, w) && AllIn(calls, graph)
    ensures var r := ClosingEach(graph, w, calls);
            Effect(graph, w.cursors, w.shelves, r.world.cursors, r.world.shelves, Newly(w, r.world), Newly(w, r.world), r.order)
  {
    if calls == [] {
      NothingHasHappened(graph, w);
    } else {
      var most, c := ClosingEach(graph, w, calls[..|calls| - 1]), calls[|calls| - 1];
      var last := Closing(graph, most.world, c);
      RunHasEffect(graph, w, calls[..|calls| - 1]);
      CallHasEffect(graph, most.world, c);
      var newly, more := Newly(w, most.world), Newly(most.world, last.world);
      EffectsCompose(graph, w.cursors, w.shelves, most.world.cursors, most.world.shelves, last.world.cursors, last.world.shelves,
                     newly, newly, most.order, more, last.order);
      EffectDeterminesNewly(graph, w, last.world, newly + more, newly + more, most.order + last.order);
    }
  }

  /** In any run of `Close` calls, a cursor's server-side close is queued if and only if the run closed the cursor, it has an
      identifier and a shelf and the push succeeds; it is then queued once, under its identifier, and nothing else is queued
      or unregistered. */
  lemma {:induction false} QueuedExactlyOnce(graph: Graph, w: World, calls: seq<RefCursor>, c: RefCursor)
    requires Complete(graph, w) && AllIn(calls, graph) && c in graph
    ensures var r := ClosingEach(graph, w, calls);
            && (InOrder(r.order, c) <==> c in Newly(w, r.world) && Eligible(graph, w.cursors, c) && graph[c].answer == None)
            && (InOrder(r.order, c) ==> r.world.cursors[c].id == 0)
            && (forall k, l :: 0 <= k < |r.order| && 0 <= l < |r.order| && r.order[k].cursor == r.order[l].cursor ==> k == l)
            && (forall k :: 0 <= k < |r.order| && r.order[k].cursor == c ==>
                  r.order[k] == Queued(c, graph[c].shelf, Unsigned(w.cursors[c].id)))
            && (forall k :: 0 <= k < |r.order| && r.order[k].cursor == c && IsSigned32(w.cursors[c].id) ==>
                  r.order[k].id == if 0 <= w.cursors[c].id then w.cursors[c].id else w.cursors[c].id + 0x1_0000_0000)
            && (forall s :: s in w.shelves ==>
                  && r.world.shelves[s].queue == w.shelves[s].queue + IdsFor(r.order, s)
                  && r.world.shelves[s].registered == w.shelves[s].registered - CursorsFor(r.order, s))
  {
    var r := ClosingEach(graph, w, calls);
    RunHasEffect(graph, w, calls);
    if IsSigned32(w.cursors[c].id) {
      UnsignedIsExact(w.cursors[c].id, w.cursors[c].id);
    }
    if c in Newly(w, r.world) {
      assert IsSettled(graph, w.cursors, r.world.cursors, r.order, c);
    }
    assert OrderIsSound(graph, w.cursors, Newly(w, r.world), r.order);
  }

  /** Cursors with different identifiers are queued under different numbers. */
  lemma {:induction false} QueuedIdsDiffer(graph: Graph, w: World, calls: seq<RefCursor>, k: nat, l: nat)
    requires Complete(graph, w) && AllIn(calls, graph)
    ensures var order := ClosingEach(graph, w, calls).order;
            k < |order| && l < |order| && order[k].cursor in graph && order[l].cursor in graph
            && IsSigned32(w.cursors[order[k].cursor].id) && IsSigned32(w.cursors[order[l].cursor].id) ==>
              (order[k].id == order[l].id <==> w.cursors[order[k].cursor].id == w.cursors[order[l].cursor].id)
  {
    var order := ClosingEach(graph, w, calls).order;
    if k < |order| && l < |order| && order[k].cursor in graph && order[l].cursor in graph {
      QueuedExactlyOnce(graph, w, calls, order[k].cursor);
      QueuedExactlyOnce(graph, w, calls, order[l].cursor);
    }
  }

  /** Once a cursor is closed, no run of `Close` calls changes its recorded error, and closing it again does nothing. */
  lemma {:induction false} LaterClosesAreIdle(graph: Graph, w: World, calls: seq<RefCursor>, c: RefCursor)
    requires Complete(graph, w) && AllIn(calls, graph) && c in graph && w.cursors[c].closed
    ensures var r := ClosingEach(graph, w, calls);
            && r.world.cursors[c] == w.cursors[c] && !InOrder(r.order, c)
            && Closing(graph, r.world, c) == Outcome(r.world, [], [])
  {
    RunHasEffect(graph, w, calls);
    QueuedExactlyOnce(graph, w, calls, c);
  }

  /** A cursor that is being closed keeps the first error it meets, whatever comes after. */
  lemma {:induction false} FirstErrorIsKept(graph: Graph, w: World, c: RefCursor, kids: seq<RefCursor>, now: World,
                                            more: seq<RefCursor>, later: World)
    requires Complete(graph, w) && c in graph && w.cursors[c].closed
    requires IsWorldAfter(graph, w, c, kids, now) && IsWorldAfter(graph, w, c, kids + more, later)
    requires now.cursors[c].error.Some?
    ensures later.cursors[c].error == now.cursors[c].error
  {
    if more == [] {
      assert kids + more == kids;
    } else {
      var fewer, kid := kids + more[..|more| - 1], more[|more| - 1];
      assert kids + more == fewer + [kid];
      assert (kids + more)[|kids + more| - 1] == kid;
      AllInPrefix(fewer, kid, graph);
      var before := ClosingAll(graph, w, c, fewer).world;
      FirstErrorIsKept(graph, w, c, kids, now, more[..|more| - 1], before);
      OneMore(graph, w, c, fewer, before, kid);
      ChildKeepsError(graph, w, c, before, kid);
    }
  }

  lemma {:induction false} AllInPrefix(kids: seq<RefCursor>, kid: RefCursor, graph: Graph)
    requires AllIn(kids + [kid], graph)
    ensures AllIn(kids, graph) && kid in graph
  {
    assert (kids + [kid])[|kids|] == kid;
    forall i | 0 <= i < |kids|
      ensures kids[i] in graph
    {
      assert (kids + [kid])[i] == kids[i];
    }
  }

  lemma {:induction false} ChildKeepsError(graph: Graph, w: World, c: RefCursor, now: World, kid: RefCursor)
    requires Complete(graph, w) && Complete(graph, now) && c in graph && kid in graph
    requires w.cursors[c].closed && OpenIn(now) <= OpenIn(w) && now.cursors[c].error.Some?
    ensures ClosingChild(graph, now, c, kid).world.cursors[c].error == now.cursors[c].error
    ensures Released(graph, now, c).world.cursors[c].error == now.cursors[c].error
  {
    CallHasEffect(graph, now, kid);
    assert c !in OpenIn(w);
    assert c !in Newly(now, Closing(graph, now, kid).world);
  }

  // ---------------------------------------------------------------------------------------------
  // Which error is returned
  // ---------------------------------------------------------------------------------------------

  /** The answer of the first failing push. */
  ghost function FirstFailure(graph: Graph, attempts: seq<RefCursor>): Option<Error>
    requires AllIn(attempts, graph)
  {
    if attempts == [] then None
    else if graph[attempts[0]].answer.Some? then graph[attempts[0]].answer
    else
      assert AllIn(attempts[1..], graph);
      FirstFailure(graph, attempts[1..])
  }

  lemma {:induction false} FirstFailureConcat(graph: Graph, a: seq<RefCursor>, b: seq<RefCursor>)
    requires AllIn(a, graph) && AllIn(b, graph)
    ensures AllIn(a + b, graph)
    ensures FirstFailure(graph, a + b) == if FirstFailure(graph, a).Some? then FirstFailure(graph, a) else FirstFailure(graph, b)
  {
    if a == [] {
      assert a + b == b;
    } else {
      assert AllIn(a[1..], graph);
      FirstFailureConcat(graph, a[1..], b);
      assert (a + b)[1..] == a[1..] + b;
    }
  }

  /** `c` holds the first failure, and nobody holds an error where there is none. */
  ghost predicate HoldsFirstFailure(graph: Graph, r: Outcome, c: RefCursor) {
    && AllIn(r.attempts, graph) && c in r.world.cursors
    && r.world.cursors[c].error == FirstFailure(graph, r.attempts)
    && (FirstFailure(graph, r.attempts).None? ==> Recorded(r.world) == {})
  }

  lemma {:induction false} NoErrorNowhere(w: World, c: RefCursor)
    requires Recorded(w) == {} && c in w.cursors
    ensures w.cursors[c].error == None
  {
    if w.cursors[c].error.Some? {
      ErrorIsRecorded(w, c);
    }
  }

  lemma {:induction false} SameErrors(w: World, later: World)
    requires later.cursors.Keys == w.cursors.Keys && Recorded(w) == {}
    requires forall c :: c in w.cursors ==> later.cursors[c].error == w.cursors[c].error
    ensures Recorded(later) == {}
  {
    forall c | c in w.cursors
      ensures later.cursors[c].error == None
    {
      NoErrorNowhere(w, c);
    }
  }

  lemma {:induction false} ReleaseHoldsFirstFailure(graph: Graph, inner: Outcome, c: RefCursor)
    requires Complete(graph, inner.world) && c in graph && HoldsFirstFailure(graph, inner, c)
    ensures var last := Released(graph, inner.world, c);
            HoldsFirstFailure(graph, Outcome(last.world, inner.order + last.order, inner.attempts + last.attempts), c)
  {
    var last := Released(graph, inner.world, c);
    FirstFailureConcat(graph, inner.attempts, last.attempts);
    if last.attempts != [] {
      assert FirstFailure(graph, [c]) == graph[c].answer by {
        assert [c][1..] == [];
      }
    }
    if FirstFailure(graph, inner.attempts).None? && FirstFailure(graph, last.attempts).None? {
      SameErrors(inner.world, last.world);
    }
  }

  lemma {:induction false} ChildHoldsFirstFailure(graph: Graph, w: World, c: RefCursor, most: Outcome, kid: RefCursor, closed: Outcome)
    requires Complete(graph, w) && Complete(graph, most.world) && c in graph && kid in graph
    requires w.cursors[c].closed && OpenIn(most.world) <= OpenIn(w) && closed == Closing(graph, most.world, kid)
    requires HoldsFirstFailure(graph, most, c)
    requires AllIn(closed.attempts, graph)
    requires FirstFailure(graph, most.attempts).None? ==> HoldsFirstFailure(graph, closed, kid)
    ensures var last := ClosingChild(graph, most.world, c, kid);
            HoldsFirstFailure(graph, Outcome(last.world, most.order + last.order, most.attempts + last.attempts), c)
  {
    FirstFailureConcat(graph, most.attempts, closed.attempts);
    if FirstFailure(graph, most.attempts).Some? {
      ChildKeepsError(graph, w, c, most.world, kid);
    } else {
      NoErrorNowhere(most.world, c);
      CallHasEffect(graph, most.world, kid);
      assert c !in OpenIn(w) && c !in Newly(most.world, closed.world);
    }
  }

  lemma {:induction false} AttemptsAreKnown(graph: Graph, w: World, c: RefCursor)
    requires Complete(graph, w) && c in graph
    ensures AllIn(Closing(graph, w, c).attempts, graph)
    decreases OpenIn(w), 0, 0
  {
    if !w.cursors[c].closed {
      MarkedIsSmaller(graph, w, c);
      AllAttemptsAreKnown(graph, Marked(w, c), c, graph[c].kids);
    }
  }

  lemma {:induction false} AllAttemptsAreKnown(graph: Graph, w: World, c: RefCursor, kids: seq<RefCursor>)
    requires Complete(graph, w) && c in graph && AllIn(kids, graph)
    ensures AllIn(ClosingAll(graph, w, c, kids).attempts, graph)
    decreases OpenIn(w), 1, |kids|
  {
    if kids != [] {
      AllAttemptsAreKnown(graph, w, c, kids[..|kids| - 1]);
      AttemptsAreKnown(graph, ClosingAll(graph, w, c, kids[..|kids| - 1]).world, kids[|kids| - 1]);
    }
  }

  lemma {:induction false} ChildKeepsOtherIds(graph: Graph, w: World, c: RefCursor, kid: RefCursor, d: RefCursor)
    requires Complete(graph, w) && c in graph && kid in graph && d in graph
    ensures var later := ClosingChild(graph, w, c, kid).world;
            d !in Newly(w, later) ==> later.cursors[d].id == w.cursors[d].id
  {
    var closed := Closing(graph, w, kid).world;
    CallHasEffect(graph, w, kid);
    NotingKeepsOpen(closed, c, closed.cursors[kid].error);
  }

  lemma {:induction false} IdsChangeOnlyByClosing(graph: Graph, w: World, c: RefCursor, kids: seq<RefCursor>, d: RefCursor)
    requires Complete(graph, w) && c in graph && AllIn(kids, graph) && d in graph
    ensures var later := ClosingAll(graph, w, c, kids).world;
            d !in Newly(w, later) ==> later.cursors[d].id == w.cursors[d].id
    decreases |kids|
  {
    if kids != [] {
      IdsChangeOnlyByClosing(graph, w, c, kids[..|kids| - 1], d);
      ChildKeepsOtherIds(graph, ClosingAll(graph, w, c, kids[..|kids| - 1]).world, c, kids[|kids| - 1], d);
    }
  }

  /** A push is attempted exactly for the cursors that are closed and have an identifier and a shelf. */
  lemma {:induction false} AttemptsAreExact(graph: Graph, w: World, c: RefCursor, d: RefCursor)
    requires Complete(graph, w) && c in graph && d in graph
    ensures d in Closing(graph, w, c).attempts <==> d in Newly(w, Closing(graph, w, c).world) && Eligible(graph, w.cursors, d)
    decreases OpenIn(w), 0, 0
  {
    if !w.cursors[c].closed {
      MarkedIsSmaller(graph, w, c);
      var m := Marked(w, c);
      var inner := ClosingAll(graph, m, c, graph[c].kids);
      AllAttemptsAreExact(graph, m, c, graph[c].kids, d);
      IdsChangeOnlyByClosing(graph, m, c, graph[c].kids, c);
      NewlyOfClosing(graph, w, c);
      assert Closing(graph, w, c).attempts == inner.attempts + Released(graph, inner.world, c).attempts;
    }
  }

  lemma {:induction false} NewlyOfClosing(graph: Graph, w: World, c: RefCursor)
    requires Complete(graph, w) && c in OpenIn(w) && c in graph && Complete(graph, Marked(w, c))
    ensures var inner := ClosingAll(graph, Marked(w, c), c, graph[c].kids).world;
            Newly(w, Closing(graph, w, c).world) == Newly(Marked(w, c), inner) + {c} && c !in Newly(Marked(w, c), inner)
  {
    var inner := ClosingAll(graph, Marked(w, c), c, graph[c].kids).world;
    ReleaseKeepsClosed(graph, inner, c);
    assert OpenIn(Marked(w, c)) == OpenIn(w) - {c};
  }

  lemma {:induction false} AllAttemptsAreExact(graph: Graph, w: World, c: RefCursor, kids: seq<RefCursor>, d: RefCursor)
    requires Complete(graph, w) && c in graph && AllIn(kids, graph) && d in graph
    ensures var r := ClosingAll(graph, w, c, kids);
            d in r.attempts <==> d in Newly(w, r.world) && Eligible(graph, w.cursors, d)
    decreases OpenIn(w), 1, |kids|
  {
    if kids != [] {
      var most, kid := ClosingAll(graph, w, c, kids[..|kids| - 1]), kids[|kids| - 1];
      var closed := Closing(graph, most.world, kid);
      AllAttemptsAreExact(graph, w, c, kids[..|kids| - 1], d);
      AttemptsAreExact(graph, most.world, kid, d);
      IdsChangeOnlyByClosing(graph, w, c, kids[..|kids| - 1], d);
      NotingKeepsOpen(closed.world, c, closed.world.cursors[kid].error);
    }
  }

  lemma {:induction false} ClosingHoldsFirstFailure(graph: Graph, w: World, c: RefCursor)
    requires Complete(graph, w) && c in graph && Recorded(w) == {}
    ensures HoldsFirstFailure(graph, Closing(graph, w, c), c)
    decreases OpenIn(w), 0, 0
  {
    if w.cursors[c].closed {
      NoErrorNowhere(w, c);
    } else {
      MarkedIsSmaller(graph, w, c);
      MarkingAddsNoError(w, c);
      ClosingAllHoldsFirstFailure(graph, Marked(w, c), c, graph[c].kids);
      ReleaseHoldsFirstFailure(graph, ClosingAll(graph, Marked(w, c), c, graph[c].kids), c);
    }
  }

  lemma {:induction false} ClosingAllHoldsFirstFailure(graph: Graph, w: World, c: RefCursor, kids: seq<RefCursor>)
    requires Complete(graph, w) && c in graph && w.cursors[c].closed && AllIn(kids, graph) && Recorded(w) == {}
    ensures HoldsFirstFailure(graph, ClosingAll(graph, w, c, kids), c)
    decreases OpenIn(w), 1, |kids|
  {
    if kids == [] {
      NoErrorNowhere(w, c);
    } else {
      var most, kid := ClosingAll(graph, w, c, kids[..|kids| - 1]), kids[|kids| - 1];
      ClosingAllHoldsFirstFailure(graph, w, c, kids[..|kids| - 1]);
      AttemptsAreKnown(graph, most.world, kid);
      if FirstFailure(graph, most.attempts).None? {
        ClosingHoldsFirstFailure(graph, most.world, kid);
      }
      ChildHoldsFirstFailure(graph, w, c, most, kid, Closing(graph, most.world, kid));
    }
  }

  /** Where no error is recorded yet, `Close` returns the error of the first push that fails, in the order in which pushes are
      attempted, and none if all succeed. */
  lemma {:induction false} ErrorIsExact(graph: Graph, w: World, c: RefCursor)
    requires Complete(graph, w) && c in graph && Recorded(w) == {}
    ensures var r := Closing(graph, w, c);
            && AllIn(r.attempts, graph)
            && (forall d :: d in graph ==> (d in r.attempts <==> d in Newly(w, r.world) && Eligible(graph, w.cursors, d)))
            && r.world.cursors[c].error == FirstFailure(graph, r.attempts)
  {
    ClosingHoldsFirstFailure(graph, w, c);
    forall d | d in graph
      ensures d in Closing(graph, w, c).attempts <==> d in Newly(w, Closing(graph, w, c).world) && Eligible(graph, w.cursors, d)
    {
      AttemptsAreExact(graph, w, c, d);
    }
  }

  /** It is none exactly when the push for every cursor closed, with an identifier and a shelf, succeeds. */
  lemma {:induction false} ErrorIsAFailure(graph: Graph, w: World, c: RefCursor)
    requires Complete(graph, w) && c in graph && Recorded(w) == {}
    ensures var r := Closing(graph, w, c).world;
            var failures := Failures(graph, w, Newly(w, r));
            if r.cursors[c].error == None then failures == {} else r.cursors[c].error.value in failures
  {
    var r := Closing(graph, w, c).world;
    if w.cursors[c].closed {
      if w.cursors[c].error.Some? {
        ErrorIsRecorded(w, c);
      }
      ClosedIsIdle(graph, w, c);
    } else {
      ClosingMakesProgress(graph, w, c);
      CallHasEffect(graph, w, c);
      if r.cursors[c].error.Some? {
        ErrorIsRecorded(r, c);
      } else {
        forall d | d in Newly(w, r) && Eligible(graph, w.cursors, d)
          ensures graph[d].answer == None
        {
          assert IsSettled(graph, w.cursors, r.cursors, Closing(graph, w, c).order, d);
        }
      }
    }
  }

  // ---------------------------------------------------------------------------------------------
  // In which order
  // ---------------------------------------------------------------------------------------------

  /** A cursor's own close comes after all those of the cursors in its rows. */
  lemma {:induction false} OwnCloseComesLast(graph: Graph, w: World, c: RefCursor)
    requires Complete(graph, w) && c in graph
    ensures var r := Closing(graph, w, c);
            && (c in r.attempts ==> r.attempts[|r.attempts| - 1] == c && forall k :: 0 <= k < |r.attempts| - 1 ==> r.attempts[k] != c)
            && (InOrder(r.order, c) ==> r.order[|r.order| - 1].cursor == c)
  {
    if !w.cursors[c].closed {
      MarkedIsSmaller(graph, w, c);
      var m := Marked(w, c);
      var inner := ClosingAll(graph, m, c, graph[c].kids);
      AllAttemptsAreExact(graph, m, c, graph[c].kids, c);
      NewlyOfClosing(graph, w, c);
      ClosingAllMakesProgress(graph, w, c, graph[c].kids);
      OwnCloseIsNotQueuedBefore(graph, w, inner, c);
      ReleaseComesLast(graph, inner, c);
    }
  }

  lemma {:induction false} ReleaseComesLast(graph: Graph, inner: Outcome, c: RefCursor)
    requires Complete(graph, inner.world) && c in graph && c !in inner.attempts && !InOrder(inner.order, c)
    ensures var last := Released(graph, inner.world, c);
            var attempts, order := inner.attempts + last.attempts, inner.order + last.order;
            && (c in attempts ==> attempts[|attempts| - 1] == c && forall k :: 0 <= k < |attempts| - 1 ==> attempts[k] != c)
            && (InOrder(order, c) ==> order[|order| - 1].cursor == c)
  {
    InOrderConcat(inner.order, Released(graph, inner.world, c).order, c);
  }

  lemma {:induction false} OwnCloseIsNotQueuedBefore(graph: Graph, w: World, inner: Outcome, c: RefCursor)
    requires Progress(graph, w, inner.world, c, {c}, inner.order)
    ensures !InOrder(inner.order, c)
  {
  }

  /** Cursors met earlier are dealt with completely before those met later. */
  lemma {:induction false} EarlierKidsComeFirst(graph: Graph, w: World, c: RefCursor, kids: seq<RefCursor>, more: seq<RefCursor>)
    requires Complete(graph, w) && c in graph && AllIn(kids, graph) && AllIn(more, graph) && AllIn(kids + more, graph)
    ensures var some, all := ClosingAll(graph, w, c, kids), ClosingAll(graph, w, c, kids + more);
            some.order <= all.order && some.attempts <= all.attempts
    decreases |more|
  {
    if more == [] {
      assert kids + more == kids;
    } else {
      var fewer := more[..|more| - 1];
      assert (kids + more)[..|kids + more| - 1] == kids + fewer;
      EarlierKidsComeFirst(graph, w, c, kids, fewer);
    }
  }

  /** The cursors of a row are met from left to right, and those of a list of rows from the first row on. */
  lemma {:induction false} KidsFromTheFront(payload: Payload, row: seq<Payload>)
    ensures KidsOfRow([payload] + row) == (if payload.CursorValue? then [payload.cursor] else []) + KidsOfRow(row)
  {
    if row == [] {
      assert [payload] + row == [payload] && [payload][..0] == [];
    } else {
      var most := row[..|row| - 1];
      KidsFromTheFront(payload, most);
      assert ([payload] + row)[..|row|] == [payload] + most;
    }
  }

  lemma {:induction false} RowsFromTheFront(row: seq<Payload>, rows: seq<seq<Payload>>)
    ensures KidsOf([row] + rows) == KidsOfRow(row) + KidsOf(rows)
  {
    if rows == [] {
      assert [row] + rows == [row] && [row][..0] == [];
    } else {
      var most := rows[..|rows| - 1];
      RowsFromTheFront(row, most);
      assert ([row] + rows)[..|rows|] == [row] + most;
    }
  }

  // ---------------------------------------------------------------------------------------------
  // Implicit result sets
  // ---------------------------------------------------------------------------------------------

  ghost function NonNil(results: seq<RefCursor?>): seq<RefCursor> {
    if results == [] then []
    else
      var last := results[|results| - 1];
      NonNil(results[..|results| - 1]) + if last == null then [] else [last]
  }

  /** Closing the wrapper `base` of a list of result sets; the wrapper has no server cursor of its own. */
  ghost function ClosingResults(graph: Graph, w: World, base: RefCursor, results: seq<RefCursor?>): (r: Outcome)
    requires Complete(graph, w) && base in graph && AllIn(NonNil(results), graph)
  {
    if w.cursors[base].closed then Outcome(w, [], []) else ClosingAll(graph, Marked(w, base), base, NonNil(results))
  }

  /** All result sets end up closed, and queueing obeys the same rules as for a single cursor. */
  lemma {:induction false} ClosingResultsHasEffect(graph: Graph, w: World, base: RefCursor, results: seq<RefCursor?>)
    requires Complete(graph, w) && base in OpenIn(w) && AllIn(NonNil(results), graph) && !Eligible(graph, w.cursors, base)
    ensures var r, newly := ClosingResults(graph, w, base, results), Newly(w, ClosingResults(graph, w, base, results).world);
            && Effect(graph, w.cursors, w.shelves, r.world.cursors, r.world.shelves, newly, newly, r.order)
            && AllClosed(NonNil(results), r.world) && r.world.cursors[base].closed
            && (r.world.cursors[base].error == None ==> forall c :: c in newly ==> r.world.cursors[c].error == None)
            && (forall c :: c in newly ==> c == base || FromKids(graph, w, NonNil(results), c))
  {
    var r := ClosingResults(graph, w, base, results);
    var newly := Newly(w, r.world);
    MarkedIsSmaller(graph, w, base);
    ClosingAllMakesProgress(graph, w, base, NonNil(results));
    SettleWithoutQueueing(graph, w.cursors, w.shelves, r.world.cursors, r.world.shelves, newly, r.order, base);
    forall c | c in newly && c != base
      ensures FromKids(graph, w, NonNil(results), c)
    {
      assert c in Newly(Marked(w, base), r.world);
      ClosedFromKids(graph, Marked(w, base), base, NonNil(results), c);
      var i :| 0 <= i < |NonNil(results)| && OpenPath(graph, Marked(w, base), NonNil(results)[i], c);
      PathWithFewerOpen(graph, w, Marked(w, base), NonNil(results)[i], c);
      assert OpenPath(graph, w, NonNil(results)[i], c);
    }
  }

  /** The result sets met once `i` entries have been visited. */
  ghost function MetResults(results: seq<RefCursor?>, i: nat): seq<RefCursor>
    requires i <= |results|
  {
    if i == 0 then []
    else if results[i - 1] == null then MetResults(results, i - 1)
    else MetResults(results, i - 1) + [results[i - 1]]
  }

  lemma {:induction false} MetResultsIs(results: seq<RefCursor?>, i: nat)
    requires i <= |results|
    ensures MetResults(results, i) == NonNil(results[..i])
  {
    if i > 0 {
      MetResultsIs(results, i - 1);
      assert results[..i][..i - 1] == results[..i - 1];
    }
  }

  lemma {:induction false} MetAllResults(results: seq<RefCursor?>)
    ensures MetResults(results, |results|) == NonNil(results)
  {
    MetResultsIs(results, |results|);
    assert results[..|results|] == results;
  }

  ghost predicate ResultsAreKnown(results: seq<RefCursor?>, graph: Graph) {
    forall i :: 0 <= i < |results| && results[i] != null ==> results[i] in graph
  }

  lemma {:induction false} ResultsInGraph(results: seq<RefCursor?>, graph: Graph)
    requires AllIn(NonNil(results), graph)
    ensures ResultsAreKnown(results, graph)
  {
    forall i | 0 <= i < |results| && results[i] != null
      ensures results[i] in graph
    {
      NonNilHas(results, i);
    }
  }

  lemma {:induction false} NonNilHas(results: seq<RefCursor?>, i: nat)
    requires i < |results| && results[i] != null
    ensures results[i] in NonNil(results)
  {
    if i < |results| - 1 {
      NonNilHas(results[..|results| - 1], i);
    }
  }

  // ---------------------------------------------------------------------------------------------
  // Closing on the heap
  // ---------------------------------------------------------------------------------------------

  ghost predicate IsGraph(graph: Graph)
    reads graph.Keys`shelf, graph.Keys`rows
  {
    forall c :: c in graph ==> graph[c].shelf == c.shelf && graph[c].answer == c.answer && graph[c].kids == KidsOf(c.rows)
  }

  /** The heap holds this world. */
  ghost predicate Mirrors(w: World)
    reads w.cursors.Keys`closed, w.cursors.Keys`closeErr, w.cursors.Keys`cursorID, w.shelves.Keys`queue, w.shelves.Keys`registered
  {
    && (forall c :: c in w.cursors ==> w.cursors[c] == State(c.closed, c.closeErr, c.cursorID))
    && (forall s :: s in w.shelves ==> w.shelves[s] == ShelfState(s.queue, s.registered))
  }

  /** The cursors met once `j` payloads of a row have been visited. */
  ghost function Met(before: seq<RefCursor>, row: seq<Payload>, j: nat): seq<RefCursor>
    requires j <= |row|
  {
    if j == 0 then before
    else if row[j - 1].CursorValue? then Met(before, row, j - 1) + [row[j - 1].cursor]
    else Met(before, row, j - 1)
  }

  lemma {:induction false} MetIs(before: seq<RefCursor>, row: seq<Payload>, j: nat)
    requires j <= |row|
    ensures Met(before, row, j) == before + KidsOfRow(row[..j])
  {
    if j > 0 {
      MetIs(before, row, j - 1);
      assert row[..j][..j - 1] == row[..j - 1];
    }
  }

  lemma {:induction false} MetAll(before: seq<RefCursor>, row: seq<Payload>)
    ensures Met(before, row, |row|) == before + KidsOfRow(row)
  {
    MetIs(before, row, |row|);
    assert row[..|row|] == row;
  }

  ghost predicate RowIsKnown(row: seq<Payload>, graph: Graph) {
    forall j :: 0 <= j < |row| && row[j].CursorValue? ==> row[j].cursor in graph
  }

  lemma {:induction false} KidInRow(row: seq<Payload>, j: nat)
    requires j < |row|
    ensures row[j].CursorValue? ==> row[j].cursor in KidsOfRow(row)
  {
    if j < |row| - 1 {
      KidInRow(row[..|row| - 1], j);
    }
  }

  ghost predicate RowsAreKnown(rows: seq<seq<Payload>>, graph: Graph) {
    forall i :: 0 <= i < |rows| ==> RowIsKnown(rows[i], graph)
  }

  lemma {:induction false} RowsInGraph(rows: seq<seq<Payload>>, graph: Graph)
    requires AllIn(KidsOf(rows), graph)
    ensures RowsAreKnown(rows, graph)
  {
    forall i, j | 0 <= i < |rows| && 0 <= j < |rows[i]| && rows[i][j].CursorValue?
      ensures rows[i][j].cursor in graph
    {
      RowInRows(rows, i);
      KidInRow(rows[i], j);
    }
  }

  /** The cursors met once `i` rows have been visited. */
  ghost function MetInRows(rows: seq<seq<Payload>>, i: nat): seq<RefCursor>
    requires i <= |rows|
  {
    if i == 0 then [] else Met(MetInRows(rows, i - 1), rows[i - 1], |rows[i - 1]|)
  }

  lemma {:induction false} MetInRowsIs(rows: seq<seq<Payload>>, i: nat)
    requires i <= |rows|
    ensures MetInRows(rows, i) == KidsOf(rows[..i])
  {
    if i > 0 {
      MetInRowsIs(rows, i - 1);
      MetAll(MetInRows(rows, i - 1), rows[i - 1]);
      assert rows[..i][..i - 1] == rows[..i - 1];
    }
  }

  lemma {:induction false} MetInAllRows(rows: seq<seq<Payload>>)
    ensures MetInRows(rows, |rows|) == KidsOf(rows)
  {
    MetInRowsIs(rows, |rows|);
    assert rows[..|rows|] == rows;
  }

  lemma {:induction false} RowInRows(rows: seq<seq<Payload>>, i: nat)
    requires i < |rows|
    ensures forall k :: 0 <= k < |KidsOfRow(rows[i])| ==> KidsOfRow(rows[i])[k] in KidsOf(rows)
  {
    if i < |rows| - 1 {
      RowInRows(rows[..|rows| - 1], i);
    }
  }

  class RefCursor {
    var cursorID: int
    var closed: bool
    var closeErr: Option<Error>
    var rows: seq<seq<Payload>>
    var shelf: Shelf?
    const answer: Option<Error>

    constructor (id: int, shelf: Shelf?, answer: Option<Error>)
      ensures cursorID == id && !closed && closeErr == None && rows == [] && this.shelf == shelf && this.answer == answer
    {
      this.cursorID, this.shelf, this.answer := id, shelf, answer;
      closed, closeErr, rows := false, None, [];
    }

    /** Queues the server-side close; `answer` is what creating and pushing the message yields. */
    method CloseServerCursor() returns (error: Option<Error>)
      requires shelf != null
      modifies this`cursorID, shelf`queue, shelf`registered
      ensures error == answer
      ensures error.Some? ==> cursorID == old(cursorID) && shelf.queue == old(shelf.queue) && shelf.registered == old(shelf.registered)
      ensures error.None? ==>
                && cursorID == 0 && shelf.queue == old(shelf.queue) + [Unsigned(old(cursorID))]
                && shelf.registered == old(shelf.registered) - {this}
      ensures error.None? && 0 <= old(cursorID) <= 0x7FFF_FFFF ==> shelf.queue == old(shelf.queue) + [old(cursorID)]
    {
      if answer.Some? {
        return answer;
      }
      shelf.queue := shelf.queue + [Unsigned(cursorID)];
      shelf.registered := shelf.registered - {this};
      cursorID := 0;
      error := None;
    }

    method Close(ghost graph: Graph, ghost w: World) returns (r: Option<Error>)
      requires this in graph && Complete(graph, w) && IsGraph(graph) && Mirrors(w)
      modifies graph.Keys`closed, graph.Keys`closeErr, graph.Keys`cursorID, w.shelves.Keys`queue, w.shelves.Keys`registered
      ensures Mirrors(Closing(graph, w, this).world) && IsGraph(graph)
      ensures r == Closing(graph, w, this).world.cursors[this].error
      decreases OpenIn(w), 1
    {
      if closed {
        return closeErr;
      }
      r := CloseOpen(graph, w);
    }

    method CloseOpen(ghost graph: Graph, ghost w: World) returns (r: Option<Error>)
      requires this in graph && Complete(graph, w) && IsGraph(graph) && Mirrors(w) && this in OpenIn(w)
      modifies graph.Keys`closed, graph.Keys`closeErr, graph.Keys`cursorID, w.shelves.Keys`queue, w.shelves.Keys`registered
      ensures Mirrors(Closing(graph, w, this).world) && IsGraph(graph)
      ensures r == Closing(graph, w, this).world.cursors[this].error
      decreases OpenIn(w), 0
    {
      MarkClosed(graph, w);
      MarkedIsSmaller(graph, w, this);
      RowsInGraph(rows, graph);
      MetInAllRows(rows);
      ghost var now := CloseRows(rows, graph, Marked(w, this));
      ClosingEndsWithRelease(graph, w, this, now);
      Release(graph, now);
      r := closeErr;
    }

    method CloseRows(rows: seq<seq<Payload>>, ghost graph: Graph, ghost w: World) returns (ghost now: World)
      requires this in graph && Complete(graph, w) && IsGraph(graph) && Mirrors(w) && RowsAreKnown(rows, graph)
      modifies graph.Keys`closed, graph.Keys`closeErr, graph.Keys`cursorID, w.shelves.Keys`queue, w.shelves.Keys`registered
      ensures IsWorldAfter(graph, w, this, MetInRows(rows, |rows|), now) && Mirrors(now) && IsGraph(graph)
      decreases OpenIn(w), 5
    {
      now := w;
      for i := 0 to |rows|
        invariant IsWorldAfter(graph, w, this, MetInRows(rows, i), now) && Mirrors(now) && IsGraph(graph)
      {
        now := CloseRow(rows[i], graph, w, now, MetInRows(rows, i));
      }
    }

    method CloseRow(row: seq<Payload>, ghost graph: Graph, ghost w: World, ghost before: World, ghost kids: seq<RefCursor>)
      returns (ghost now: World)
      requires this in graph && Complete(graph, w) && IsGraph(graph) && Mirrors(before)
      requires RowIsKnown(row, graph) && IsWorldAfter(graph, w, this, kids, before)
      modifies graph.Keys`closed, graph.Keys`closeErr, graph.Keys`cursorID, w.shelves.Keys`queue, w.shelves.Keys`registered
      ensures IsWorldAfter(graph, w, this, Met(kids, row, |row|), now) && Mirrors(now) && IsGraph(graph)
      decreases OpenIn(w), 4
    {
      now := before;
      for j := 0 to |row|
        invariant IsWorldAfter(graph, w, this, Met(kids, row, j), now) && Mirrors(now) && IsGraph(graph)
      {
        now := ClosePayload(row, j, graph, w, now, kids);
      }
    }

    method ClosePayload(row: seq<Payload>, j: nat, ghost graph: Graph, ghost w: World, ghost before: World, ghost kids: seq<RefCursor>)
      returns (ghost now: World)
      requires this in graph && Complete(graph, w) && IsGraph(graph) && Mirrors(before)
      requires j < |row| && RowIsKnown(row, graph) && IsWorldAfter(graph, w, this, Met(kids, row, j), before)
      modifies graph.Keys`closed, graph.Keys`closeErr, graph.Keys`cursorID, w.shelves.Keys`queue, w.shelves.Keys`registered
      ensures IsWorldAfter(graph, w, this, Met(kids, row, j + 1), now) && Mirrors(now) && IsGraph(graph)
      decreases OpenIn(w), 3
    {
      now := before;
      if row[j].CursorValue? {
        ghost var more;
        now, more := CloseChild(row[j].cursor, graph, w, before, Met(kids, row, j));
      }
    }

    /** One turn of the loop: the child is closed and its error noted. */
    method CloseChild(child: RefCursor, ghost graph: Graph, ghost w: World, ghost before: World, ghost kidsBefore: seq<RefCursor>)
      returns (ghost now: World, ghost kids: seq<RefCursor>)
      requires this in graph && child in graph && Complete(graph, w) && IsGraph(graph) && Mirrors(before)
      requires IsWorldAfter(graph, w, this, kidsBefore, before)
      modifies graph.Keys`closed, graph.Keys`closeErr, graph.Keys`cursorID, w.shelves.Keys`queue, w.shelves.Keys`registered
      ensures kids == kidsBefore + [child] && IsWorldAfter(graph, w, this, kids, now) && Mirrors(now) && IsGraph(graph)
      decreases OpenIn(w), 2
    {
      OneMore(graph, w, this, kidsBefore, before, child);
      now, kids := ClosingChild(graph, before, this, child).world, kidsBefore + [child];
      var error := child.Close(graph, before);
      NoteError(error, graph, Closing(graph, before, child).world);
    }

    /** The result sets of a wrapper around this cursor, in order. */
    method CloseResults(results: seq<RefCursor?>, ghost graph: Graph, ghost w: World) returns (ghost now: World)
      requires this in graph && ResultsAreKnown(results, graph) && Complete(graph, w) && IsGraph(graph) && Mirrors(w)
      modifies graph.Keys`closed, graph.Keys`closeErr, graph.Keys`cursorID, w.shelves.Keys`queue, w.shelves.Keys`registered
      ensures IsWorldAfter(graph, w, this, MetResults(results, |results|), now) && Mirrors(now) && IsGraph(graph)
    {
      now := w;
      for i := 0 to |results|
        invariant IsWorldAfter(graph, w, this, MetResults(results, i), now) && Mirrors(now) && IsGraph(graph)
      {
        now := CloseResult(results, i, graph, w, now);
      }
    }

    method CloseResult(results: seq<RefCursor?>, i: nat, ghost graph: Graph, ghost w: World, ghost before: World) returns (ghost now: World)
      requires i < |results| && this in graph && ResultsAreKnown(results, graph) && Complete(graph, w) && IsGraph(graph)
      requires IsWorldAfter(graph, w, this, MetResults(results, i), before) && Mirrors(before)
      modifies graph.Keys`closed, graph.Keys`closeErr, graph.Keys`cursorID, w.shelves.Keys`queue, w.shelves.Keys`registered
      ensures IsWorldAfter(graph, w, this, MetResults(results, i + 1), now) && Mirrors(now) && IsGraph(graph)
    {
      now := before;
      if results[i] != null {
        ghost var kids;
        now, kids := CloseChild(results[i], graph, w, before, MetResults(results, i));
      }
    }

    method MarkClosed(ghost graph: Graph, ghost w: World)
      requires this in w.cursors && Mirrors(w) && IsGraph(graph)
      modifies this`closed
      ensures closed && Mirrors(Marked(w, this)) && IsGraph(graph)
    {
      closed := true;
    }

    method NoteError(error: Option<Error>, ghost graph: Graph, ghost w: World)
      requires this in w.cursors && Mirrors(w) && IsGraph(graph)
      modifies this`closeErr
      ensures Mirrors(Noted(w, this, error)) && IsGraph(graph)
    {
      if error.Some? && closeErr.None? {
        closeErr := error;
      }
    }

    /** The server-side part of closing this cursor. */
    method Release(ghost graph: Graph, ghost w: World)
      requires this in graph && Complete(graph, w) && IsGraph(graph) && Mirrors(w)
      modifies this`closeErr, this`cursorID, w.shelves.Keys`queue, w.shelves.Keys`registered
      ensures Mirrors(Released(graph, w, this).world) && IsGraph(graph)
    {
      if cursorID != 0 && shelf != null {
        var error := CloseServerCursor();
        if error.Some? {
          NoteError(error, graph, w);
        }
      }
    }
  }

  /** Implicit result sets presented one after the other; `base` carries the wrapper's own `closed` and `closeErr`. */
  class ImplicitRows {
    const base: RefCursor
    const results: seq<RefCursor?>

    constructor (base: RefCursor, results: seq<RefCursor?>)
      ensures this.base == base && this.results == results
    {
      this.base, this.results := base, results;
    }

    method Close(ghost graph: Graph, ghost w: World) returns (r: Option<Error>)
      requires base in graph && AllIn(NonNil(results), graph) && Complete(graph, w) && IsGraph(graph) && Mirrors(w)
      modifies graph.Keys`closed, graph.Keys`closeErr, graph.Keys`cursorID, w.shelves.Keys`queue, w.shelves.Keys`registered
      ensures Mirrors(ClosingResults(graph, w, base, results).world)
      ensures r == ClosingResults(graph, w, base, results).world.cursors[base].error
    {
      if base.closed {
        return base.closeErr;
      }
      base.MarkClosed(graph, w);
      MarkedIsSmaller(graph, w, base);
      ResultsInGraph(results, graph);
      MetAllResults(results);
      ghost var now := base.CloseResults(results, graph, Marked(w, base));
      r := base.closeErr;
    }
  }
}
