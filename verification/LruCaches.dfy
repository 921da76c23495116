/** The cache that evicts the least recently used entry: a map from keys to list elements and a recency list of those
    elements, together refining one association list in recency order. */
module LruCaches {
  import opened Results

  datatype Item<+T> = Item(key: string, value: T)

  // ---------------------------------------------------------------------------------------------
  // The association list, most recently used first
  // ---------------------------------------------------------------------------------------------

  function Cut<A>(s: seq<A>, at: nat): seq<A>
    requires at < |s|
  {
    s[..at] + s[at + 1..]
  }

  ghost predicate Has<T>(items: seq<Item<T>>, key: string) { exists i :: 0 <= i < |items| && items[i].key == key }

  ghost predicate Distinct<T>(items: seq<Item<T>>) {
    forall i, j :: 0 <= i < j < |items| ==> items[i].key != items[j].key
  }

  ghost function Find<T>(items: seq<Item<T>>, key: string): (r: Option<T>)
    ensures r.Some? <==> Has(items, key)
  {
    if items == [] then None
    else if items[0].key == key then Some(items[0].value)
    else
      assert forall i :: 1 <= i < |items| ==> items[1..][i - 1] == items[i];
      Find(items[1..], key)
  }

  ghost function Drop<T>(items: seq<Item<T>>, key: string): seq<Item<T>> {
    if items == [] then []
    else if items[0].key == key then items[1..]
    else [items[0]] + Drop(items[1..], key)
  }

  ghost function AfterGet<T>(items: seq<Item<T>>, key: string): seq<Item<T>> {
    match Find(items, key)
    case None => items
    case Some(value) => [Item(key, value)] + Drop(items, key)
  }

  ghost function AfterPut<T>(maxSize: nat, items: seq<Item<T>>, key: string, value: T): seq<Item<T>> {
    if Has(items, key) then [Item(key, value)] + Drop(items, key)
    else if |items| == maxSize && items != [] then [Item(key, value)] + items[..|items| - 1]
    else [Item(key, value)] + items
  }

  lemma {:induction false} DropAt<T>(items: seq<Item<T>>, key: string, at: nat)
    requires at < |items| && items[at].key == key && forall i :: 0 <= i < at ==> items[i].key != key
    ensures |Drop(items, key)| == |items| - 1
    ensures forall j :: 0 <= j < |items| - 1 ==> Drop(items, key)[j] == items[if j < at then j else j + 1]
    ensures Find(items, key) == Some(items[at].value)
  {
    if at > 0 {
      var rest := items[1..];
      assert forall j :: 0 <= j < |rest| ==> rest[j] == items[j + 1];
      DropAt(rest, key, at - 1);
      forall j | 0 <= j < |items| - 1
        ensures Drop(items, key)[j] == items[if j < at then j else j + 1]
      {
        if j > 0 {
          assert Drop(items, key)[j] == Drop(rest, key)[j - 1];
        }
      }
    }
  }

  lemma DropIs<T>(items: seq<Item<T>>, key: string, at: nat)
    requires at < |items| && items[at].key == key && Distinct(items)
    ensures Drop(items, key) == Cut(items, at)
    ensures Find(items, key) == Some(items[at].value)
  {
    DropAt(items, key, at);
  }

  lemma {:induction false} DropAbsent<T>(items: seq<Item<T>>, key: string)
    requires !Has(items, key)
    ensures Drop(items, key) == items
  {
    if items != [] {
      assert forall i :: 0 <= i < |items[1..]| ==> items[1..][i] == items[i + 1];
      DropAbsent(items[1..], key);
    }
  }

  lemma {:induction false} DropFinds<T>(items: seq<Item<T>>, key: string, other: string)
    requires other != key
    ensures Find(Drop(items, key), other) == Find(items, other)
  {
    if items != [] && items[0].key != key {
      assert Drop(items, key)[1..] == Drop(items[1..], key);
      DropFinds(items[1..], key, other);
    }
  }

  lemma DropIsDistinct<T>(items: seq<Item<T>>, key: string)
    requires Distinct(items)
    ensures Distinct(Drop(items, key)) && !Has(Drop(items, key), key)
    ensures Has(items, key) ==> |Drop(items, key)| == |items| - 1
  {
    if Has(items, key) {
      var at :| 0 <= at < |items| && items[at].key == key;
      DropAt(items, key, at);
      var rest := Drop(items, key);
      forall i, j | 0 <= i < j < |rest|
        ensures rest[i].key != rest[j].key
      {
        assert rest[i] == items[if i < at then i else i + 1] && rest[j] == items[if j < at then j else j + 1];
      }
    } else {
      DropAbsent(items, key);
    }
  }

  // ---------------------------------------------------------------------------------------------
  // Runs
  // ---------------------------------------------------------------------------------------------

  datatype Event<T> = Getting(key: string) | Putting(key: string, value: T) | Removing(key: string) | Clearing

  ghost function Step<T>(maxSize: nat, items: seq<Item<T>>, e: Event<T>): seq<Item<T>> {
    match e
    case Getting(key) => AfterGet(items, key)
    case Putting(key, value) => AfterPut(maxSize, items, key, value)
    case Removing(key) => Drop(items, key)
    case Clearing => []
  }

  ghost function After<T>(maxSize: nat, run: seq<Event<T>>): seq<Item<T>> {
    if run == [] then [] else Step(maxSize, After(maxSize, run[..|run| - 1]), run[|run| - 1])
  }

  ghost predicate Mentions<T>(e: Event<T>, key: string) { (e.Getting? || e.Putting?) && e.key == key }

  /** One more than the position of the last `Get` or `Put` of the key. */
  ghost function LastUse<T>(run: seq<Event<T>>, key: string): (n: nat)
    ensures n <= |run|
  {
    if run == [] then 0
    else if Mentions(run[|run| - 1], key) then |run|
    else LastUse(run[..|run| - 1], key)
  }

  /** The value last put under the key and not since removed or cleared. */
  ghost function Written<T>(run: seq<Event<T>>, key: string): Option<T> {
    if run == [] then None
    else
      match run[|run| - 1]
      case Putting(k, value) => if k == key then Some(value) else Written(run[..|run| - 1], key)
      case Removing(k) => if k == key then None else Written(run[..|run| - 1], key)
      case Clearing => None
      case Getting(_) => Written(run[..|run| - 1], key)
  }

  /** Distinct keys, bounded size, and strictly decreasing last use. */
  ghost predicate Ordered<T>(maxSize: nat, items: seq<Item<T>>, run: seq<Event<T>>) {
    && |items| <= maxSize
    && (forall i, j :: 0 <= i < j < |items| ==> LastUse(run, items[i].key) > LastUse(run, items[j].key))
  }

  lemma OrderedIsDistinct<T>(maxSize: nat, items: seq<Item<T>>, run: seq<Event<T>>)
    requires Ordered(maxSize, items, run)
    ensures Distinct(items)
  {
  }

  /** What a step leaves behind the front element: some of the old elements, in the old order. */
  lemma FrontIsOrdered<T>(maxSize: nat, items: seq<Item<T>>, run: seq<Event<T>>, e: Event<T>, rest: seq<Item<T>>, front: Item<T>)
    requires run != [] && e == run[|run| - 1] && Mentions(e, front.key) && |rest| < maxSize
    requires Ordered(maxSize, rest, run[..|run| - 1]) && !Has(rest, front.key)
    ensures Ordered(maxSize, [front] + rest, run)
  {
    forall i | 0 <= i < |rest|
      ensures LastUse(run, rest[i].key) == LastUse(run[..|run| - 1], rest[i].key)
    {
      assert rest[i].key != front.key;
    }
  }

  lemma DropIsOrdered<T>(maxSize: nat, items: seq<Item<T>>, run: seq<Event<T>>, key: string)
    requires Ordered(maxSize, items, run)
    ensures Ordered(maxSize, Drop(items, key), run) && !Has(Drop(items, key), key)
    ensures Has(items, key) ==> |Drop(items, key)| < |items|
  {
    DropIsDistinct(items, key);
    if Has(items, key) {
      var at :| 0 <= at < |items| && items[at].key == key;
      DropIs(items, key, at);
      CutIsOrdered(maxSize, items, run, at);
    } else {
      DropAbsent(items, key);
    }
  }

  lemma CutIsOrdered<T>(maxSize: nat, items: seq<Item<T>>, run: seq<Event<T>>, at: nat)
    requires Ordered(maxSize, items, run) && at < |items|
    ensures Ordered(maxSize, Cut(items, at), run)
  {
    var rest := Cut(items, at);
    forall i, j | 0 <= i < j < |rest|
      ensures LastUse(run, rest[i].key) > LastUse(run, rest[j].key)
    {
      var i', j' := if i < at then i else i + 1, if j < at then j else j + 1;
      assert rest[i] == items[i'] && rest[j] == items[j'];
    }
  }

  /** Over any run the list stays within its bound, holds no key twice and is in strict order of last use. */
  lemma {:induction false} RunIsOrdered<T>(maxSize: nat, run: seq<Event<T>>)
    requires maxSize > 0
    ensures Ordered(maxSize, After(maxSize, run), run)
  {
    if run != [] {
      var most, e := run[..|run| - 1], run[|run| - 1];
      var items := After(maxSize, most);
      RunIsOrdered(maxSize, most);
      match e {
        case Getting(key) =>
          if Has(items, key) {
            DropIsOrdered(maxSize, items, most, key);
            FrontIsOrdered(maxSize, items, run, e, Drop(items, key), Item(key, Find(items, key).value));
          } else {
            MissIsOrdered(maxSize, items, run, key);
          }
        case Putting(key, value) =>
          if Has(items, key) {
            DropIsOrdered(maxSize, items, most, key);
            FrontIsOrdered(maxSize, items, run, e, Drop(items, key), Item(key, value));
          } else {
            var rest := if |items| == maxSize then items[..|items| - 1] else items;
            FrontIsOrdered(maxSize, items, run, e, rest, Item(key, value));
          }
        case Removing(key) =>
          DropIsOrdered(maxSize, items, most, key);
          assert forall k :: LastUse(run, k) == LastUse(most, k);
        case Clearing =>
      }
    }
  }

  /** A `Get` that finds nothing counts as a use of a key that is not in the list. */
  lemma MissIsOrdered<T>(maxSize: nat, items: seq<Item<T>>, run: seq<Event<T>>, key: string)
    requires run != [] && run[|run| - 1] == Getting(key) && Ordered(maxSize, items, run[..|run| - 1]) && !Has(items, key)
    ensures Ordered(maxSize, items, run)
  {
    forall i | 0 <= i < |items|
      ensures LastUse(run, items[i].key) == LastUse(run[..|run| - 1], items[i].key)
    {
      assert items[i].key != key;
    }
  }

  ghost predicate IsLeastUsed<T>(items: seq<Item<T>>, run: seq<Event<T>>, key: string) {
    forall i :: 0 <= i < |items| ==> LastUse(run, key) <= LastUse(run, items[i].key)
  }

  /** A `Put` of a new key into a full cache evicts exactly the key used least recently; any other `Put` evicts none. */
  lemma EvictsLeastRecentlyUsed<T>(maxSize: nat, run: seq<Event<T>>, key: string, value: T, other: string)
    requires maxSize > 0 && other != key
    ensures var items := After(maxSize, run);
            var later := AfterPut(maxSize, items, key, value);
            && Find(later, key) == Some(value)
            && Find(later, other) == (if !Has(items, key) && |items| == maxSize && IsLeastUsed(items, run, other) then None
                                      else Find(items, other))
  {
    var items := After(maxSize, run);
    RunIsOrdered(maxSize, run);
    OrderedIsDistinct(maxSize, items, run);
    PutFinds(maxSize, items, key, value, other);
    if Has(items, other) {
      LastIsLeastUsed(maxSize, items, run, other);
    }
  }

  lemma LastIsLeastUsed<T>(maxSize: nat, items: seq<Item<T>>, run: seq<Event<T>>, key: string)
    requires Ordered(maxSize, items, run) && Has(items, key)
    ensures items[|items| - 1].key == key <==> IsLeastUsed(items, run, key)
  {
    var i :| 0 <= i < |items| && items[i].key == key;
    if i < |items| - 1 {
      assert LastUse(run, items[i].key) > LastUse(run, items[|items| - 1].key);
    }
  }

  lemma PutFinds<T>(maxSize: nat, items: seq<Item<T>>, key: string, value: T, other: string)
    requires Distinct(items) && other != key && maxSize > 0
    ensures var later := AfterPut(maxSize, items, key, value);
            && Find(later, key) == Some(value)
            && Find(later, other) == (if !Has(items, key) && |items| == maxSize && items[|items| - 1].key == other then None
                                      else Find(items, other))
  {
    if Has(items, key) {
      DropFinds(items, key, other);
      FindBehind(Item(key, value), Drop(items, key), other);
    } else if |items| == maxSize {
      EvictedIsLast(items, other);
      FindBehind(Item(key, value), items[..|items| - 1], other);
    } else {
      FindBehind(Item(key, value), items, other);
    }
  }

  lemma FindBehind<T>(front: Item<T>, rest: seq<Item<T>>, other: string)
    ensures Find([front] + rest, front.key) == Some(front.value)
    ensures other != front.key ==> Find([front] + rest, other) == Find(rest, other)
  {
    assert ([front] + rest)[1..] == rest;
  }

  lemma {:induction false} EvictedIsLast<T>(items: seq<Item<T>>, other: string)
    requires items != [] && Distinct(items)
    ensures Find(items[..|items| - 1], other) == if items[|items| - 1].key == other then None else Find(items, other)
  {
    if |items| > 1 && items[0].key != other {
      var rest := items[1..];
      assert items[..|items| - 1][1..] == rest[..|rest| - 1];
      assert rest[|rest| - 1] == items[|items| - 1];
      EvictedIsLast(rest, other);
    }
  }

  /** Position `n` of the run evicts the key. */
  ghost predicate EvictsAt<T>(maxSize: nat, run: seq<Event<T>>, n: nat, key: string) {
    && n < |run| && run[n].Putting? && run[n].key != key
    && Has(After(maxSize, run[..n]), key) && !Has(After(maxSize, run[..n + 1]), key)
  }

  ghost predicate NotPutSince<T>(run: seq<Event<T>>, n: nat, key: string) {
    forall m :: n <= m < |run| ==> !(run[m].Putting? && run[m].key == key)
  }

  ghost predicate WasEvicted<T>(maxSize: nat, run: seq<Event<T>>, key: string) {
    exists n: nat :: EvictsAt(maxSize, run, n, key) && NotPutSince(run, n, key)
  }

  /** A hit returns the value last put, and a value that was put and not removed can only be missing because it was evicted,
      after which it was not put again. */
  lemma {:induction false} HitsAreExact<T>(maxSize: nat, run: seq<Event<T>>, key: string)
    requires maxSize > 0
    ensures Find(After(maxSize, run), key).Some? ==> Find(After(maxSize, run), key) == Written(run, key)
    ensures Find(After(maxSize, run), key).None? && Written(run, key).Some? ==> WasEvicted(maxSize, run, key)
  {
    if run != [] {
      var most, e := run[..|run| - 1], run[|run| - 1];
      HitsAreExact(maxSize, most, key);
      StepFinds(maxSize, most, e, key);
      if Find(After(maxSize, run), key).None? && Written(run, key).Some? {
        if Find(After(maxSize, most), key).Some? {
          assert run[..|most| + 1] == run;
          assert EvictsAt(maxSize, run, |most|, key) && NotPutSince(run, |most|, key);
        } else {
          StaysEvicted(maxSize, run, key);
        }
      }
    }
  }

  /** An evicted key stays missing until it is put again. */
  lemma {:induction false} EvictedIsMissing<T>(maxSize: nat, run: seq<Event<T>>, key: string, n: nat)
    requires maxSize > 0 && EvictsAt(maxSize, run, n, key) && NotPutSince(run, n, key)
    ensures Find(After(maxSize, run), key).None?
  {
    var most := run[..|run| - 1];
    if n == |run| - 1 {
      assert run[..n + 1] == run;
    } else {
      SamePrefix(run, n);
      SamePrefix(run, n + 1);
      assert forall m :: 0 <= m < |most| ==> most[m] == run[m];
      EvictedIsMissing(maxSize, most, key, n);
      StepFinds(maxSize, most, run[|run| - 1], key);
    }
  }

  lemma StaysEvicted<T>(maxSize: nat, run: seq<Event<T>>, key: string)
    requires run != [] && WasEvicted(maxSize, run[..|run| - 1], key)
    requires !(run[|run| - 1].Putting? && run[|run| - 1].key == key)
    ensures WasEvicted(maxSize, run, key)
  {
    var most := run[..|run| - 1];
    var n: nat :| EvictsAt(maxSize, most, n, key) && NotPutSince(most, n, key);
    EvictsAtExtends(maxSize, run, n, key);
    assert forall m :: 0 <= m < |most| ==> most[m] == run[m];
    assert NotPutSince(run, n, key);
  }

  lemma EvictsAtExtends<T>(maxSize: nat, run: seq<Event<T>>, n: nat, key: string)
    requires run != [] && EvictsAt(maxSize, run[..|run| - 1], n, key)
    ensures EvictsAt(maxSize, run, n, key)
  {
    SamePrefix(run, n);
    SamePrefix(run, n + 1);
  }

  lemma SamePrefix<T>(run: seq<Event<T>>, n: nat)
    requires n < |run|
    ensures run[..|run| - 1][..n] == run[..n]
  {
  }

  /** What one step does to what is found under a key. */
  lemma StepFinds<T>(maxSize: nat, run: seq<Event<T>>, e: Event<T>, key: string)
    requires maxSize > 0
    ensures var items := After(maxSize, run);
            var found := Find(Step(maxSize, items, e), key);
            match e
            case Getting(_) => found == Find(items, key)
            case Putting(k, value) => if k == key then found == Some(value) else found == None || found == Find(items, key)
            case Removing(k) => found == if k == key then None else Find(items, key)
            case Clearing => found == None
  {
    var items := After(maxSize, run);
    RunIsOrdered(maxSize, run);
    OrderedIsDistinct(maxSize, items, run);
    match e
    case Getting(k) =>
      if Has(items, k) {
        if k != key {
          DropFinds(items, k, key);
        }
        FindBehind(Item(k, Find(items, k).value), Drop(items, k), key);
      }
    case Putting(k, value) =>
      var later := AfterPut(maxSize, items, k, value);
      assert later == [Item(k, value)] + later[1..];
      FindBehind(Item(k, value), later[1..], key);
      if k != key {
        EvictsLeastRecentlyUsed(maxSize, run, k, value, key);
      }
    case Removing(k) =>
      if k == key {
        DropIsDistinct(items, k);
      } else {
        DropFinds(items, k, key);
      }
    case Clearing =>
  }

  // ---------------------------------------------------------------------------------------------
  // The cache object
  // ---------------------------------------------------------------------------------------------

  class Element<T> {
    const key: string
    var value: T

    constructor (key: string, value: T)
      ensures this.key == key && this.value == value
    {
      this.key, this.value := key, value;
    }
  }

  type Elements<!T> = seq<Element<T>>

  /** The list elements hold these items. */
  ghost predicate Holds<T>(order: Elements<T>, items: seq<Item<T>>)
    reads order
  {
    |order| == |items| && forall i :: 0 <= i < |items| ==> order[i].key == items[i].key && order[i].value == items[i].value
  }

  /** The map and the list hold the same elements, each under its own key, and no key twice. */
  ghost predicate Indexed<T>(entries: map<string, Element<T>>, order: Elements<T>) {
    && (forall i, j :: 0 <= i < j < |order| ==> order[i].key != order[j].key)
    && (forall i :: 0 <= i < |order| ==> order[i].key in entries && entries[order[i].key] == order[i])
    && (forall k :: k in entries ==> entries[k].key == k && entries[k] in order)
  }

  function Position<T>(order: Elements<T>, element: Element<T>): (i: nat)
    requires element in order
    ensures i < |order| && order[i] == element
  {
    if order[0] == element then 0 else Position(order[1..], element) + 1
  }

  lemma {:induction false} UnlinkedIsIndexed<T>(entries: map<string, Element<T>>, order: Elements<T>, i: nat)
    requires Indexed(entries, order) && i < |order|
    ensures Indexed(entries - {order[i].key}, Cut(order, i))
  {
    var rest := Cut(order, i);
    assert forall j :: 0 <= j < |rest| ==> rest[j] == order[if j < i then j else j + 1];
    forall k | k in entries && k != order[i].key
      ensures entries[k] in rest
    {
      var j :| 0 <= j < |order| && order[j] == entries[k];
      assert rest[if j < i then j else j - 1] == entries[k];
    }
  }

  lemma {:induction false} LinkedIsIndexed<T>(entries: map<string, Element<T>>, order: Elements<T>, element: Element<T>)
    requires Indexed(entries, order) && element.key !in entries
    ensures Indexed(entries[element.key := element], [element] + order)
  {
    forall k | k in entries && k != element.key
      ensures entries[k] in [element] + order
    {
    }
  }

  lemma {:induction false} MovedIsIndexed<T>(entries: map<string, Element<T>>, order: Elements<T>, i: nat)
    requires Indexed(entries, order) && i < |order|
    ensures Indexed(entries, [order[i]] + Cut(order, i))
  {
    UnlinkedIsIndexed(entries, order, i);
    var fewer := entries - {order[i].key};
    LinkedIsIndexed(fewer, Cut(order, i), order[i]);
    assert fewer[order[i].key := order[i]] == entries;
  }

  lemma {:induction false} IndexedIsDistinct<T>(entries: map<string, Element<T>>, order: Elements<T>, items: seq<Item<T>>)
    requires Indexed(entries, order) && Holds(order, items)
    ensures Distinct(items)
  {
  }

  /** Looking a key up in the map finds its place in the list. */
  lemma {:induction false} Located<T>(entries: map<string, Element<T>>, order: Elements<T>, items: seq<Item<T>>, key: string)
    requires Indexed(entries, order) && Holds(order, items)
    ensures key in entries <==> Has(items, key)
    ensures key in entries ==>
              && Find(items, key) == Some(entries[key].value)
              && Drop(items, key) == Cut(items, Position(order, entries[key]))
              && items[Position(order, entries[key])] == Item(key, entries[key].value)
  {
    SameKeys(entries, order, items, key);
    if key in entries {
      IndexedIsDistinct(entries, order, items);
      DropIs(items, key, Position(order, entries[key]));
    }
  }

  lemma {:induction false} SameKeys<T>(entries: map<string, Element<T>>, order: Elements<T>, items: seq<Item<T>>, key: string)
    requires Indexed(entries, order) && Holds(order, items)
    ensures key in entries <==> Has(items, key)
  {
    if key in entries {
      assert items[Position(order, entries[key])].key == key;
    }
  }

  lemma {:induction false} UnlinkedHolds<T>(order: Elements<T>, items: seq<Item<T>>, i: nat)
    requires Holds(order, items) && i < |order|
    ensures Holds(Cut(order, i), Cut(items, i))
  {
  }

  lemma {:induction false} FrontHolds<T>(element: Element<T>, rest: Elements<T>, items: seq<Item<T>>)
    requires Holds(rest, items)
    ensures Holds([element] + rest, [Item(element.key, element.value)] + items)
  {
  }

  /** Taking a key's element out of the list and out of the map. */
  lemma {:induction false} Unlinking<T>(entries: map<string, Element<T>>, order: Elements<T>, items: seq<Item<T>>, key: string)
    requires Indexed(entries, order) && Holds(order, items) && key in entries
    ensures var rest := Cut(order, Position(order, entries[key]));
            && |rest| == |order| - 1
            && Indexed(entries - {key}, rest)
            && Holds(rest, Drop(items, key))
  {
    var i := Position(order, entries[key]);
    Located(entries, order, items, key);
    UnlinkedIsIndexed(entries, order, i);
    UnlinkedHolds(order, items, i);
  }

  /** Moving a key's element to the front of the list. */
  lemma {:induction false} Moving<T>(entries: map<string, Element<T>>, order: Elements<T>, items: seq<Item<T>>, key: string)
    requires Indexed(entries, order) && Holds(order, items) && key in entries
    ensures var moved := [entries[key]] + Cut(order, Position(order, entries[key]));
            && |moved| == |order|
            && Indexed(entries, moved)
            && Holds(moved, [Item(key, entries[key].value)] + Drop(items, key))
            && (forall e :: e in moved ==> e in order)
  {
    var i := Position(order, entries[key]);
    Unlinking(entries, order, items, key);
    MovedIsIndexed(entries, order, i);
    FrontHolds(order[i], Cut(order, i), Drop(items, key));
  }

  lemma DropReplaced<T>(items: seq<Item<T>>, key: string, value: T, at: nat)
    requires at < |items| && items[at].key == key && Distinct(items)
    ensures Drop(items[at := Item(key, value)], key) == Drop(items, key)
  {
    DropAt(items, key, at);
    DropAt(items[at := Item(key, value)], key, at);
  }

  method NewLruCache<T>(maxSize: int) returns (c: LruCache?<T>)
    ensures (c == null) == (maxSize <= 0)
    ensures c != null ==> fresh(c) && c.maxSize == maxSize && c.Valid() && c.contents == []
  {
    if maxSize <= 0 {
      return null;
    }
    c := new LruCache(maxSize);
  }

  class LruCache<T> {
    const maxSize: nat
    var entries: map<string, Element<T>>
    var order: Elements<T>
    ghost var contents: seq<Item<T>>

    constructor (maxSize: nat)
      requires maxSize > 0
      ensures this.maxSize == maxSize && Valid() && contents == []
    {
      this.maxSize := maxSize;
      entries, order, contents := map[], [], [];
    }

    ghost predicate Valid()
      reads this, order
    {
      maxSize > 0 && |order| <= maxSize && Indexed(entries, order) && Holds(order, contents)
    }

    method Get(key: string) returns (r: Option<T>)
      requires Valid()
      modifies this`order, this`contents
      ensures Valid() && contents == AfterGet(old(contents), key)
      ensures r == Find(old(contents), key)
    {
      Located(entries, order, contents, key);
      if key !in entries {
        return None;
      }
      MoveToFront(key);
      r := Some(entries[key].value);
    }

    method MoveToFront(key: string)
      requires Valid() && key in entries
      modifies this`order, this`contents
      ensures forall e :: e in order ==> e in old(order)
      ensures Valid() && contents == [Item(key, entries[key].value)] + Drop(old(contents), key)
    {
      Moving(entries, order, contents, key);
      contents := [Item(key, entries[key].value)] + Drop(contents, key);
      order := [entries[key]] + Cut(order, Position(order, entries[key]));
    }

    method Put(key: string, value: T) returns (previous: Option<T>)
      requires Valid()
      modifies this, order
      ensures Valid() && contents == AfterPut(maxSize, old(contents), key, value)
      ensures previous == Find(old(contents), key)
      ensures forall e :: e in order ==> e in old(order) || fresh(e)
    {
      Located(entries, order, contents, key);
      if key in entries {
        previous := Some(entries[key].value);
        Replace(key, value);
        return;
      }
      if |order| == maxSize {
        RemoveOldest();
      }
      Insert(key, value);
      previous := None;
    }

    /** An existing key is updated in place and promoted. */
    method Replace(key: string, value: T)
      requires Valid() && key in entries
      modifies this`order, this`contents, {entries[key]}`value
      ensures Valid() && contents == [Item(key, value)] + Drop(old(contents), key)
      ensures forall e :: e in order ==> e in old(order)
    {
      IndexedIsDistinct(entries, order, contents);
      DropReplaced(contents, key, value, Position(order, entries[key]));
      SetValue(key, value);
      MoveToFront(key);
    }

    method SetValue(key: string, value: T)
      requires Valid() && key in entries
      modifies this`contents, {entries[key]}`value
      ensures Valid() && entries[key].value == value
      ensures contents == old(contents)[Position(order, entries[key]) := Item(key, value)]
    {
      ghost var i := Position(order, entries[key]);
      entries[key].value := value;
      contents := contents[i := Item(key, value)];
    }

    method Insert(key: string, value: T)
      requires Valid() && key !in entries && |order| < maxSize
      modifies this
      ensures Valid() && contents == [Item(key, value)] + old(contents)
      ensures forall e :: e in order ==> e in old(order) || fresh(e)
    {
      var element := new Element(key, value);
      LinkedIsIndexed(entries, order, element);
      FrontHolds(element, order, contents);
      order := [element] + order;
      entries := entries[key := element];
      contents := [Item(key, value)] + contents;
    }

    method RemoveOldest()
      requires Valid()
      modifies this
      ensures Valid() && contents == if old(contents) == [] then [] else old(contents)[..|old(contents)| - 1]
      ensures |order| == |contents| && forall e :: e in order ==> e in old(order)
      ensures forall k :: k in entries ==> k in old(entries)
    {
      if order == [] {
        return;
      }
      var i := |order| - 1;
      UnlinkedIsIndexed(entries, order, i);
      UnlinkedHolds(order, contents, i);
      contents := Cut(contents, i);
      entries := entries - {order[i].key};
      order := Cut(order, i);
    }

    method Remove(key: string) returns (removed: bool)
      requires Valid()
      modifies this
      ensures Valid() && contents == Drop(old(contents), key)
      ensures removed == Has(old(contents), key)
    {
      Located(entries, order, contents, key);
      if key !in entries {
        DropAbsent(contents, key);
        return false;
      }
      Unlinking(entries, order, contents, key);
      contents := Drop(contents, key);
      order := Cut(order, Position(order, entries[key]));
      entries := entries - {key};
      return true;
    }

    method Clear()
      requires Valid()
      modifies this
      ensures Valid() && contents == []
    {
      entries := map[];
      order, contents := [], [];
    }
  }
}
