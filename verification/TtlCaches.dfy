/** The cache of bounded size whose entries expire a fixed time after they were put. `nextExpiration` lets `Get` skip the
    sweep for expired entries; the lemmas show that skipping it is never noticed. */
module TtlCaches {
  import opened Results

  type Time = int

  datatype Entry<+T> = Entry(value: T, ctime: Time)

  type Entries<T> = map<string, Entry<T>>

  datatype Config = Config(maxSize: nat, ttl: Time)

  datatype Cache<T> = Cache(entries: Entries<T>, next: Option<Time>)

  ghost predicate Sound(config: Config) { config.maxSize > 0 && config.ttl > 0 }

  ghost function Live<T>(ttl: Time, entries: Entries<T>, now: Time): Entries<T> {
    map k | k in entries && now < entries[k].ctime + ttl :: entries[k]
  }

  ghost predicate IsOldestOf<T>(entries: Entries<T>, keys: set<string>, key: string)
    requires keys <= entries.Keys
  {
    key in keys && forall k :: k in keys ==> entries[key].ctime <= entries[k].ctime
  }

  ghost predicate IsOldest<T>(entries: Entries<T>, key: string) {
    key in entries && forall k :: k in entries ==> entries[key].ctime <= entries[k].ctime
  }

  lemma {:induction false} OldestExists<T>(entries: Entries<T>, keys: set<string>)
    requires keys != {} && keys <= entries.Keys
    ensures exists key :: IsOldestOf(entries, keys, key)
    decreases keys
  {
    var some :| some in keys;
    var rest := keys - {some};
    assert forall k :: k in keys ==> k == some || k in rest;
    if rest == {} {
      assert IsOldestOf(entries, keys, some);
    } else {
      OldestExists(entries, rest);
      var key :| IsOldestOf(entries, rest, key);
      var best := if entries[some].ctime <= entries[key].ctime then some else key;
      assert IsOldestOf(entries, keys, best);
    }
  }

  lemma SomeIsOldest<T>(entries: Entries<T>)
    requires entries.Keys != {}
    ensures exists key :: IsOldest(entries, key)
  {
    OldestExists(entries, entries.Keys);
    var key :| IsOldestOf(entries, entries.Keys, key);
    assert IsOldest(entries, key);
  }

  /** The earliest expiry of any entry. */
  ghost function Earliest<T>(ttl: Time, entries: Entries<T>): Option<Time> {
    if entries.Keys == {} then None
    else
      SomeIsOldest(entries);
      var key :| IsOldest(entries, key);
      Some(entries[key].ctime + ttl)
  }

  lemma EarliestIs<T>(ttl: Time, entries: Entries<T>, key: string)
    requires IsOldest(entries, key)
    ensures Earliest(ttl, entries) == Some(entries[key].ctime + ttl)
  {
  }

  // ---------------------------------------------------------------------------------------------
  // The operations on values
  // ---------------------------------------------------------------------------------------------

  ghost function Swept<T>(config: Config, c: Cache<T>, now: Time): Cache<T> {
    var live := Live(config.ttl, c.entries, now);
    Cache(live, Earliest(config.ttl, live))
  }

  /** `Get` reads the clock once to decide about the sweep and once more in the sweep. */
  ghost function AfterGet<T>(config: Config, c: Cache<T>, asked: Time, sweep: Time): Cache<T> {
    if c.next.Some? && c.next.value <= asked then Swept(config, c, sweep) else c
  }

  ghost function Without<T>(config: Config, c: Cache<T>, key: string): Cache<T> {
    Cache(c.entries - {key}, Earliest(config.ttl, c.entries - {key}))
  }

  ghost function AfterRemove<T>(config: Config, c: Cache<T>, key: string): Cache<T> {
    if key in c.entries then Without(config, c, key) else c
  }

  ghost function AfterPut<T>(config: Config, c: Cache<T>, key: string, value: T, now: Time, victim: string): Cache<T> {
    var kept := if |c.entries| == config.maxSize then Without(config, c, victim) else c;
    Cache(kept.entries[key := Entry(value, now)],
          if kept.next.None? || now + config.ttl < kept.next.value then Some(now + config.ttl) else kept.next)
  }

  function Lookup<T>(entries: Entries<T>, key: string): Option<T> {
    if key in entries then Some(entries[key].value) else None
  }

  /** `nextExpiration` is a lower bound on all expiries, unset exactly when there are no entries. */
  ghost predicate Valid<T>(config: Config, c: Cache<T>) {
    && Sound(config)
    && |c.entries| <= config.maxSize
    && (c.next == None <==> c.entries.Keys == {})
    && (forall k :: k in c.entries && c.next.Some? ==> c.next.value <= c.entries[k].ctime + config.ttl)
  }

  lemma EarliestIsValid<T>(config: Config, entries: Entries<T>)
    requires Sound(config) && |entries| <= config.maxSize
    ensures Valid(config, Cache(entries, Earliest(config.ttl, entries)))
  {
    if entries.Keys != {} {
      SomeIsOldest(entries);
      var key :| IsOldest(entries, key);
      EarliestIs(config.ttl, entries, key);
    }
  }

  lemma FewerEntries<T>(entries: Entries<T>, fewer: Entries<T>)
    requires fewer.Keys <= entries.Keys
    ensures |fewer| <= |entries|
    ensures fewer.Keys != entries.Keys ==> |fewer| < |entries|
  {
    KeysCount(entries);
    KeysCount(fewer);
    SubsetSize(fewer.Keys, entries.Keys);
  }

  lemma KeysCount<T>(entries: Entries<T>)
    ensures |entries| == |entries.Keys|
  {
  }

  lemma SubsetSize(a: set<string>, b: set<string>)
    requires a <= b
    ensures |a| <= |b| && (a != b ==> |a| < |b|)
  {
    assert b == a + (b - a);
  }

  lemma OneMoreEntry<T>(entries: Entries<T>, key: string, entry: Entry<T>)
    ensures |entries[key := entry]| == if key in entries then |entries| else |entries| + 1
  {
    var more := entries[key := entry];
    KeysCount(entries);
    KeysCount(more);
    assert more.Keys == entries.Keys + {key};
  }

  lemma GetKeepsValid<T>(config: Config, c: Cache<T>, asked: Time, sweep: Time)
    requires Valid(config, c)
    ensures Valid(config, AfterGet(config, c, asked, sweep))
  {
    var live := Live(config.ttl, c.entries, sweep);
    FewerEntries(c.entries, live);
    EarliestIsValid(config, live);
  }

  lemma RemoveKeepsValid<T>(config: Config, c: Cache<T>, key: string)
    requires Valid(config, c)
    ensures Valid(config, AfterRemove(config, c, key))
  {
    FewerEntries(c.entries, c.entries - {key});
    EarliestIsValid(config, c.entries - {key});
  }

  lemma PutKeepsValid<T>(config: Config, c: Cache<T>, key: string, value: T, now: Time, victim: string)
    requires Valid(config, c) && (|c.entries| == config.maxSize ==> victim in c.entries)
    ensures Valid(config, AfterPut(config, c, key, value, now, victim))
  {
    var kept := if |c.entries| == config.maxSize then Without(config, c, victim) else c;
    if |c.entries| == config.maxSize {
      FewerEntries(c.entries, c.entries - {victim});
      EarliestIsValid(config, c.entries - {victim});
    }
    assert Valid(config, kept) && |kept.entries| < config.maxSize;
    OneMoreEntry(kept.entries, key, Entry(value, now));
    assert key in AfterPut(config, c, key, value, now, victim).entries;
  }

  /** The shortcut: when `Get` skips the sweep, nothing has expired. */
  lemma SkippedSweepIsIdle<T>(config: Config, c: Cache<T>, asked: Time, sweep: Time)
    requires Valid(config, c)
    ensures var swept := c.next.Some? && c.next.value <= asked;
            AfterGet(config, c, asked, sweep).entries == Live(config.ttl, c.entries, if swept then sweep else asked)
  {
    if !(c.next.Some? && c.next.value <= asked) {
      assert Live(config.ttl, c.entries, asked) == c.entries;
    }
  }

  // ---------------------------------------------------------------------------------------------
  // Runs
  // ---------------------------------------------------------------------------------------------

  /** One call with the clock readings it takes and, for a `Put` that finds the cache full, the entry it evicts. */
  datatype Event<T> =
    | Getting(key: string, asked: Time, sweep: Time)
    | Putting(key: string, value: T, now: Time, victim: string)
    | Removing(key: string)
    | Clearing

  ghost function Step<T>(config: Config, c: Cache<T>, e: Event<T>): Cache<T> {
    match e
    case Getting(_, asked, sweep) => AfterGet(config, c, asked, sweep)
    case Putting(key, value, now, victim) => AfterPut(config, c, key, value, now, victim)
    case Removing(key) => AfterRemove(config, c, key)
    case Clearing => Cache(map[], None)
  }

  /** A full cache evicts an oldest entry; iteration order decides which one. */
  ghost predicate Allowed<T>(config: Config, c: Cache<T>, e: Event<T>) {
    e.Putting? && |c.entries| == config.maxSize ==> IsOldest(c.entries, e.victim)
  }

  ghost function After<T>(config: Config, run: seq<Event<T>>): Cache<T> {
    if run == [] then Cache(map[], None) else Step(config, After(config, run[..|run| - 1]), run[|run| - 1])
  }

  ghost predicate IsRun<T>(config: Config, run: seq<Event<T>>) {
    run != [] ==>
      && IsRun(config, run[..|run| - 1])
      && Allowed(config, After(config, run[..|run| - 1]), run[|run| - 1])
  }

  lemma {:induction false} RunKeepsValid<T>(config: Config, run: seq<Event<T>>)
    requires Sound(config) && IsRun(config, run)
    ensures Valid(config, After(config, run))
  {
    if run != [] {
      var before, e := After(config, run[..|run| - 1]), run[|run| - 1];
      RunKeepsValid(config, run[..|run| - 1]);
      match e
      case Getting(_, asked, sweep) => GetKeepsValid(config, before, asked, sweep);
      case Putting(key, value, now, victim) => PutKeepsValid(config, before, key, value, now, victim);
      case Removing(key) => RemoveKeepsValid(config, before, key);
      case Clearing =>
    }
  }

  // ---------------------------------------------------------------------------------------------
  // The reference: a cache that keeps no schedule and never sweeps
  // ---------------------------------------------------------------------------------------------

  /** Whether the event finds the cache full. */
  ghost predicate Overflows<T>(config: Config, c: Cache<T>, e: Event<T>) { e.Putting? && |c.entries| == config.maxSize }

  /** Everything put and not since replaced, removed, cleared or evicted, whatever its age. */
  ghost function Written<T>(config: Config, run: seq<Event<T>>): Entries<T> {
    if run == [] then map[]
    else
      var most, e := run[..|run| - 1], run[|run| - 1];
      WrittenNext(Written(config, most), e, Overflows(config, After(config, most), e))
  }

  ghost function WrittenNext<T>(before: Entries<T>, e: Event<T>, overflows: bool): Entries<T> {
    match e
    case Getting(_, _, _) => before
    case Putting(key, value, now, victim) => (if overflows then before - {victim} else before)[key := Entry(value, now)]
    case Removing(key) => before - {key}
    case Clearing => map[]
  }

  ghost function FirstReading<T>(e: Event<T>, clock: Time): Time {
    match e
    case Getting(_, asked, _) => asked
    case Putting(_, _, now, _) => now
    case Removing(_) => clock
    case Clearing => clock
  }

  ghost function LastReading<T>(e: Event<T>, clock: Time): Time {
    match e
    case Getting(_, _, sweep) => sweep
    case Putting(_, _, now, _) => now
    case Removing(_) => clock
    case Clearing => clock
  }

  ghost function Clock<T>(start: Time, run: seq<Event<T>>): Time {
    if run == [] then start else LastReading(run[|run| - 1], Clock(start, run[..|run| - 1]))
  }

  /** The clock never goes back. */
  ghost predicate IsMonotone<T>(start: Time, run: seq<Event<T>>) {
    run != [] ==>
      && IsMonotone(start, run[..|run| - 1])
      && var clock := Clock(start, run[..|run| - 1]);
         clock <= FirstReading(run[|run| - 1], clock) <= LastReading(run[|run| - 1], clock)
  }

  /** The cache holds only what was written, and everything written that has not expired by `clock`. */
  ghost predicate Agrees<T>(ttl: Time, entries: Entries<T>, written: Entries<T>, clock: Time) {
    && (forall k :: k in entries ==> k in written && entries[k] == written[k])
    && (forall k :: k in written && clock < written[k].ctime + ttl ==> k in entries)
  }

  lemma {:induction false} RunAgrees<T>(config: Config, run: seq<Event<T>>, start: Time)
    requires Sound(config) && IsRun(config, run) && IsMonotone(start, run)
    ensures Agrees(config.ttl, After(config, run).entries, Written(config, run), Clock(start, run))
  {
    if run != [] {
      var most, e := run[..|run| - 1], run[|run| - 1];
      RunAgrees(config, most, start);
      RunKeepsValid(config, most);
      StepAgrees(config, After(config, most), Written(config, most), e, Clock(start, most));
    }
  }

  lemma StepAgrees<T>(config: Config, c: Cache<T>, written: Entries<T>, e: Event<T>, clock: Time)
    requires Valid(config, c) && Agrees(config.ttl, c.entries, written, clock)
    requires clock <= FirstReading(e, clock) <= LastReading(e, clock)
    ensures Agrees(config.ttl, Step(config, c, e).entries, WrittenNext(written, e, Overflows(config, c, e)), LastReading(e, clock))
  {
    match e
    case Getting(_, asked, sweep) =>
      SkippedSweepIsIdle(config, c, asked, sweep);
      LiveAgrees(config.ttl, c.entries, written, clock, if c.next.Some? && c.next.value <= asked then sweep else asked, sweep);
    case Putting(_, _, _, _) =>
    case Removing(_) =>
    case Clearing =>
  }

  lemma LiveAgrees<T>(ttl: Time, entries: Entries<T>, written: Entries<T>, clock: Time, now: Time, later: Time)
    requires Agrees(ttl, entries, written, clock) && clock <= now <= later
    ensures Agrees(ttl, Live(ttl, entries, now), written, later)
  {
  }

  /** Over any run under a clock that never goes back, `Get` returns a value if and only if it was the last one put under the
      key, has not been removed, cleared or evicted by an overflow, and has not expired at the clock reading used. */
  lemma GetAnswersExactly<T>(config: Config, run: seq<Event<T>>, start: Time, key: string, asked: Time, sweep: Time)
    requires Sound(config) && IsRun(config, run) && IsMonotone(start, run + [Getting(key, asked, sweep)])
    ensures var c, written := After(config, run), Written(config, run);
            var now := if c.next.Some? && c.next.value <= asked then sweep else asked;
            && asked <= now <= sweep
            && Lookup(AfterGet(config, c, asked, sweep).entries, key)
               == (if key in written && now < written[key].ctime + config.ttl then Some(written[key].value) else None)
  {
    var all := run + [Getting(key, asked, sweep)];
    assert all[..|all| - 1] == run;
    RunAgrees(config, run, start);
    RunKeepsValid(config, run);
    SkippedSweepIsIdle(config, After(config, run), asked, sweep);
  }

  // ---------------------------------------------------------------------------------------------
  // Eviction
  // ---------------------------------------------------------------------------------------------

  /** Since all entries live equally long, a full cache evicts a live entry only when nothing in it has expired. */
  lemma EvictsLiveOnlyWhenAllLive<T>(config: Config, c: Cache<T>, e: Event<T>)
    requires Allowed(config, c, e) && Overflows(config, c, e)
    ensures e.now < c.entries[e.victim].ctime + config.ttl ==> Live(config.ttl, c.entries, e.now) == c.entries
  {
  }

  ghost predicate KeepsOthers<T>(before: Entries<T>, after: Entries<T>, key: string) {
    forall k :: k in before && k != key ==> k in after && after[k] == before[k]
  }

  /** A `Put` leaves the other entries alone, whichever oldest entry iteration meets first, exactly when the cache is not full
      or the key put is older than all others; replacing any other key of a full cache costs an unrelated entry. */
  lemma PutKeepsOthersExactlyWhen<T>(config: Config, c: Cache<T>, key: string, value: T, now: Time)
    requires Valid(config, c)
    ensures (forall victim :: IsOldest(c.entries, victim) ==>
               KeepsOthers(c.entries, AfterPut(config, c, key, value, now, victim).entries, key))
       <==> (|c.entries| < config.maxSize
             || (key in c.entries && forall k :: k in c.entries && k != key ==> c.entries[key].ctime < c.entries[k].ctime))
  {
    KeysCount(c.entries);
    if |c.entries| == config.maxSize {
      assert c.entries.Keys != {};
      SomeIsOldest(c.entries);
      var some :| IsOldest(c.entries, some);
      if !(key in c.entries && forall k :: k in c.entries && k != key ==> c.entries[key].ctime < c.entries[k].ctime) {
        var victim := if some != key then some
                      else var k :| k in c.entries && k != key && c.entries[k].ctime <= c.entries[key].ctime; k;
        assert IsOldest(c.entries, victim) && victim != key;
        assert victim !in AfterPut(config, c, key, value, now, victim).entries;
      }
    }
  }

  /** Two puts fill a cache of size two; putting the newer key again evicts the older entry although it has not expired. */
  lemma ReplacingCanEvictAnother()
    ensures var config, run := Config(2, 10), [Putting("a", 1, 0, ""), Putting("b", 2, 5, "")];
            var replaced := run + [Putting("b", 3, 6, "a")];
            && IsRun(config, replaced) && IsMonotone(0, replaced)
            && "a" in Live(config.ttl, After(config, run).entries, 6)
            && "a" !in After(config, replaced).entries
  {
    var config, run := Config(2, 10), [Putting("a", 1, 0, ""), Putting("b", 2, 5, "")];
    var first, last: Event<int> := Putting("a", 1, 0, ""), Putting("b", 3, 6, "a");
    var none: seq<Event<int>> := [];
    var replaced := run + [last];
    assert [first][..0] == none && run[..1] == [first] && replaced[..2] == run;
    var one: Entries<int> := map["a" := Entry(1, 0)];
    assert After(config, none) == Cache(map[], None) && IsRun(config, none) && IsMonotone(0, none) && Clock(0, none) == 0;
    assert After(config, [first]) == Cache(one, Some(10)) && IsRun(config, [first]) && IsMonotone(0, [first]) && Clock(0, [first]) == 0;
    var two := one["b" := Entry(2, 5)];
    assert After(config, run) == Cache(two, Some(10)) && IsRun(config, run) && IsMonotone(0, run) && Clock(0, run) == 5;
    KeysCount(two);
    assert two.Keys == {"a", "b"} && IsOldest(two, "a");
    assert After(config, replaced) == AfterPut(config, After(config, run), "b", 3, 6, "a");
  }

  // ---------------------------------------------------------------------------------------------
  // The cache object
  // ---------------------------------------------------------------------------------------------

  method NewTtlCache<T>(maxSize: int, ttl: Time) returns (c: TtlCache?<T>)
    ensures (c == null) == (maxSize <= 0 || ttl <= 0)
    ensures c != null ==> fresh(c) && c.config == Config(maxSize, ttl) && c.View() == Cache(map[], None) && Valid(c.config, c.View())
  {
    if maxSize <= 0 || ttl <= 0 {
      return null;
    }
    c := new TtlCache(maxSize, ttl);
  }

  class TtlCache<T> {
    const config: Config
    var nextExpiration: Option<Time>
    var entries: Entries<T>

    constructor (maxSize: nat, ttl: Time)
      requires maxSize > 0 && ttl > 0
      ensures config == Config(maxSize, ttl) && View() == Cache(map[], None) && Valid(config, View())
    {
      config := Config(maxSize, ttl);
      nextExpiration, entries := None, map[];
    }

    ghost function View(): Cache<T>
      reads this
    {
      Cache(entries, nextExpiration)
    }

    method Get(key: string, asked: Time, sweep: Time) returns (r: Option<T>)
      requires Valid(config, View())
      modifies this
      ensures View() == AfterGet(config, old(View()), asked, sweep) && Valid(config, View())
      ensures r == Lookup(entries, key)
    {
      GetKeepsValid(config, View(), asked, sweep);
      if nextExpiration.Some? && !(asked < nextExpiration.value) {
        RemoveExpired(sweep);
      }
      if key !in entries {
        return None;
      }
      r := Some(entries[key].value);
    }

    method Put(key: string, value: T, now: Time) returns (previous: Option<T>, ghost victim: string)
      requires Valid(config, View())
      modifies this
      ensures previous == Lookup(old(entries), key)
      ensures |old(entries)| == config.maxSize ==> IsOldest(old(entries), victim)
      ensures View() == AfterPut(config, old(View()), key, value, now, victim) && Valid(config, View())
    {
      previous := None;
      victim := "";
      if key in entries {
        previous := Some(entries[key].value);
      }
      if |entries| == config.maxSize {
        KeysCount(entries);
        victim := RemoveOldest();
      }
      PutKeepsValid(config, old(View()), key, value, now, victim);
      entries := entries[key := Entry(value, now)];
      var expiresAt := now + config.ttl;
      if nextExpiration.None? || expiresAt < nextExpiration.value {
        nextExpiration := Some(expiresAt);
      }
    }

    method Remove(key: string) returns (removed: bool)
      requires Valid(config, View())
      modifies this
      ensures removed == (key in old(entries))
      ensures View() == AfterRemove(config, old(View()), key) && Valid(config, View())
    {
      RemoveKeepsValid(config, View(), key);
      if key in entries {
        entries := entries - {key};
        RecomputeNextExpiration();
        return true;
      }
      return false;
    }

    method Clear()
      requires Valid(config, View())
      modifies this
      ensures View() == Cache(map[], None) && Valid(config, View())
    {
      entries := map[];
      nextExpiration := None;
    }

    /** Removes the expired entries in one pass that also finds the earliest expiry of the others. */
    method RemoveExpired(now: Time)
      modifies this
      ensures View() == Swept(config, old(View()), now)
    {
      ghost var live := Live(config.ttl, entries, now);
      var next: Time := 0;
      var first := true;
      ghost var earliest := "";
      var todo := entries.Keys;
      while todo != {}
        invariant todo <= old(entries).Keys
        invariant forall k :: k in entries <==> k in old(entries) && (k in todo || k in live)
        invariant forall k :: k in entries ==> entries[k] == old(entries)[k]
        invariant first ==> forall k :: k in live ==> k in todo
        invariant !first ==> earliest in live && earliest !in todo && next == live[earliest].ctime + config.ttl
        invariant !first ==> forall k :: k in live && k !in todo ==> live[earliest].ctime <= live[k].ctime
        decreases todo
      {
        var key :| key in todo;
        todo := todo - {key};
        var expiresAt := entries[key].ctime + config.ttl;
        if !(now < expiresAt) {
          entries := entries - {key};
        } else if first || expiresAt < next {
          next := expiresAt;
          first := false;
          earliest := key;
        }
      }
      assert entries == live;
      if first {
        nextExpiration := None;
        return;
      }
      EarliestIs(config.ttl, live, earliest);
      nextExpiration := Some(next);
    }

    method RemoveOldest() returns (ghost victim: string)
      requires entries.Keys != {}
      modifies this
      ensures IsOldest(old(entries), victim)
      ensures View() == Without(config, old(View()), victim)
    {
      var oldestKey := "";
      var oldestTime: Time := 0;
      var first := true;
      var todo := entries.Keys;
      while todo != {}
        invariant todo <= entries.Keys
        invariant first ==> todo == entries.Keys
        invariant !first ==> oldestKey in entries && oldestKey !in todo && oldestTime == entries[oldestKey].ctime
        invariant !first ==> forall k :: k in entries && k !in todo ==> oldestTime <= entries[k].ctime
        decreases todo
      {
        var key :| key in todo;
        todo := todo - {key};
        if first || entries[key].ctime < oldestTime {
          oldestKey := key;
          oldestTime := entries[key].ctime;
          first := false;
        }
      }
      victim := oldestKey;
      if !first {
        entries := entries - {oldestKey};
        RecomputeNextExpiration();
      }
    }

    method RecomputeNextExpiration()
      modifies this`nextExpiration
      ensures nextExpiration == Earliest(config.ttl, entries)
    {
      KeysCount(entries);
      if |entries| == 0 {
        nextExpiration := None;
        return;
      }
      var next: Time := 0;
      var first := true;
      ghost var earliest := "";
      var todo := entries.Keys;
      while todo != {}
        invariant todo <= entries.Keys
        invariant first ==> todo == entries.Keys
        invariant !first ==> earliest in entries && earliest !in todo && next == entries[earliest].ctime + config.ttl
        invariant !first ==> forall k :: k in entries && k !in todo ==> entries[earliest].ctime <= entries[k].ctime
        decreases todo
      {
        var key :| key in todo;
        todo := todo - {key};
        var expiresAt := entries[key].ctime + config.ttl;
        if first || expiresAt < next {
          next := expiresAt;
          first := false;
          earliest := key;
        }
      }
      EarliestIs(config.ttl, entries, earliest);
      nextExpiration := Some(next);
    }
  }
}
