/** The OCI IAM token provider: a single-flight refresh whose result is published under a mutex,
    and a store that keeps the private key of every issued token until that token expires.

    `Provider` holds the fields that the mutex protects; each of its methods is one mutex-held section.
    `System` interleaves those sections for any number of `Token` callers, a clock that never goes back
    and an identity service that answers as it likes. */
module TokenProvider {
  import opened Results

  type Time = int
  type Digest = nat
  type Channel = nat

  datatype Generation = Generation(key: string, expires: Time)

  /** What the provider is given: the token digest, the expiry claim read out of a token, and how long
      before expiry a cached token is replaced. */
  datatype Env = Env(digest: string -> Digest, expiry: string -> Time, refreshBefore: Time)

  /** The digest has no collisions, and configuration normalisation has rejected a negative window. */
  ghost predicate Sound(env: Env) {
    && 0 <= env.refreshBefore
    && forall a, b :: env.digest(a) == env.digest(b) ==> a == b
  }

  /** The fields protected by the mutex. */
  datatype Shared = Shared(
    token: string,
    expires: Time,
    generations: map<Digest, Generation>,
    refreshing: bool,
    refreshDone: Option<Channel>)

  /** What the first mutex-held section of `Token` tells its caller to do. A caller that joins waits on the
      completion channel it read, which would be nil if none were installed. */
  datatype Decision = Served(token: string) | Join(done: Option<Channel>) | Lead

  datatype Outcome = RequestFailed | Issued(token: string, key: string)

  function Pruned(generations: map<Digest, Generation>, now: Time): map<Digest, Generation> {
    map d | d in generations && now < generations[d].expires :: generations[d]
  }

  function Decide(env: Env, p: Shared, now: Time): Decision {
    if p.token != "" && now + env.refreshBefore < p.expires then Served(p.token)
    else if p.refreshing then Join(p.refreshDone)
    else Lead
  }

  function Entered(env: Env, p: Shared, now: Time, made: Channel): Shared {
    match Decide(env, p, now)
    case Served(_) => p
    case Join(_) => p.(generations := Pruned(p.generations, now))
    case Lead => p.(generations := Pruned(p.generations, now), refreshing := true, refreshDone := Some(made))
  }

  function Published(env: Env, p: Shared, outcome: Outcome): Shared {
    match outcome
    case RequestFailed => p.(refreshing := false, refreshDone := None)
    case Issued(token, key) =>
      var g := Generation(key, env.expiry(token));
      Shared(token, g.expires, p.generations[env.digest(token) := g], false, None)
  }

  /** The answer of `PrivateKeyForToken`: it prunes first, so an expired key is never handed out. */
  function KeyFor(env: Env, p: Shared, token: string, now: Time): Option<string> {
    var kept := Pruned(p.generations, now);
    if env.digest(token) in kept then Some(kept[env.digest(token)].key) else None
  }

  /** The provider's mutable state; every method is one critical section. */
  class Provider {
    const env: Env
    var token: string
    var expires: Time
    var generations: map<Digest, Generation>
    var refreshing: bool
    var refreshDone: Option<Channel>

    constructor (env: Env)
      ensures this.env == env && View() == Shared("", 0, map[], false, None)
    {
      this.env := env;
      token, expires, generations, refreshing, refreshDone := "", 0, map[], false, None;
    }

    function View(): Shared
      reads this
    {
      Shared(token, expires, generations, refreshing, refreshDone)
    }

    method PruneExpiredGenerations(now: Time)
      modifies this`generations
      ensures generations == Pruned(old(generations), now)
    {
      var pending := generations.Keys;
      while pending != {}
        invariant pending <= generations.Keys <= old(generations).Keys
        invariant forall d :: d in generations ==> generations[d] == old(generations)[d]
        invariant forall d :: d in old(generations) && now < old(generations)[d].expires ==> d in generations
        invariant forall d :: d in generations && d !in pending ==> now < generations[d].expires
        decreases pending
      {
        var d :| d in pending;
        if generations[d].expires <= now {
          generations := generations - {d};
        }
        pending := pending - {d};
      }
    }

    /** The section of `Token` that serves the cached token, joins the refresh in flight or starts one. */
    method Enter(now: Time, made: Channel) returns (decision: Decision)
      modifies this
      ensures decision == Decide(env, old(View()), now)
      ensures View() == Entered(env, old(View()), now, made)
    {
      if token != "" && now + env.refreshBefore < expires {
        return Served(token);
      }
      PruneExpiredGenerations(now);
      if refreshing {
        return Join(refreshDone);
      }
      refreshing := true;
      refreshDone := Some(made);
      return Lead;
    }

    /** The section of `Token` that publishes the result of a refresh. */
    method Publish(outcome: Outcome)
      modifies this
      ensures View() == Published(env, old(View()), outcome)
    {
      if outcome.Issued? {
        token := outcome.token;
        expires := env.expiry(outcome.token);
        generations := generations[env.digest(outcome.token) := Generation(outcome.key, expires)];
      }
      refreshing := false;
      refreshDone := None;
    }

    method PrivateKeyForToken(wanted: string, now: Time) returns (key: Option<string>)
      modifies this`generations
      ensures generations == Pruned(old(generations), now)
      ensures key == KeyFor(env, old(View()), wanted, now)
    {
      PruneExpiredGenerations(now);
      if env.digest(wanted) in generations {
        key := Some(generations[env.digest(wanted)].key);
      } else {
        key := None;
      }
    }
  }

  // ---------------------------------------------------------------------------------------------
  // Interleavings
  // ---------------------------------------------------------------------------------------------

  datatype Caller =
    | Idle
    | AtLoopHead
    | Waiting(done: Option<Channel>)
    | Leading(own: Channel, started: Time)
    | Returned(token: string)
    | Rejected

  /** `closes[ch]` counts how often channel `ch` has been closed; `issued` remembers the generation most
      recently published for each token. */
  datatype System = System(
    p: Shared,
    now: Time,
    callers: seq<Caller>,
    closes: seq<nat>,
    issued: map<string, Generation>)

  datatype Step =
    | Tick(now: Time)                        // the clock moves forward
    | Call(c: nat)                           // a caller invokes Token
    | Cancel(c: nat)                         // its context ends, before the section or while it waits
    | EnterSection(c: nat)                   // it runs the first critical section
    | Wake(c: nat)                           // its completion channel is closed
    | PublishSection(c: nat, outcome: Outcome) // the leader's request returns and is published
    | LookUp(token: string)                  // someone runs PrivateKeyForToken

  predicate Enabled(env: Env, s: System, step: Step) {
    match step
    case Tick(now) => s.now <= now
    case Call(c) => c < |s.callers| && (s.callers[c].Idle? || s.callers[c].Returned? || s.callers[c].Rejected?)
    case Cancel(c) => c < |s.callers| && (s.callers[c].AtLoopHead? || s.callers[c].Waiting?)
    case EnterSection(c) => c < |s.callers| && s.callers[c].AtLoopHead?
    case Wake(c) =>
      && c < |s.callers| && s.callers[c].Waiting? && s.callers[c].done.Some?
      && s.callers[c].done.value < |s.closes| && 0 < s.closes[s.callers[c].done.value]
    case PublishSection(c, outcome) =>
      && c < |s.callers| && s.callers[c].Leading? && s.callers[c].own < |s.closes|
      && (outcome.Issued? ==> outcome.token != "" && s.callers[c].started < env.expiry(outcome.token))
    case LookUp(_) => true
  }

  function AfterEnter(env: Env, s: System, c: nat): System
    requires c < |s.callers|
  {
    var made := |s.closes|;
    var p := Entered(env, s.p, s.now, made);
    match Decide(env, s.p, s.now)
    case Served(token) => s.(p := p, callers := s.callers[c := Returned(token)])
    case Join(done) => s.(p := p, callers := s.callers[c := Waiting(done)])
    case Lead => s.(p := p, callers := s.callers[c := Leading(made, s.now)], closes := s.closes + [0])
  }

  function AfterPublish(env: Env, s: System, c: nat, outcome: Outcome): System
    requires Enabled(env, s, PublishSection(c, outcome))
  {
    var done := s.callers[c].own;
    System(
      Published(env, s.p, outcome),
      s.now,
      s.callers[c := if outcome.Issued? then Returned(outcome.token) else Rejected],
      s.closes[done := s.closes[done] + 1],
      if outcome.Issued? then s.issued[outcome.token := Generation(outcome.key, env.expiry(outcome.token))] else s.issued)
  }

  function Apply(env: Env, s: System, step: Step): System
    requires Enabled(env, s, step)
  {
    match step
    case Tick(now) => s.(now := now)
    case Call(c) => s.(callers := s.callers[c := AtLoopHead])
    case Cancel(c) => s.(callers := s.callers[c := Rejected])
    case EnterSection(c) => AfterEnter(env, s, c)
    case Wake(c) => s.(callers := s.callers[c := AtLoopHead])
    case PublishSection(c, outcome) => AfterPublish(env, s, c, outcome)
    case LookUp(_) => s.(p := s.p.(generations := Pruned(s.p.generations, s.now)))
  }

  ghost predicate Initial(s: System) {
    && s.p == Shared("", 0, map[], false, None)
    && (forall c :: 0 <= c < |s.callers| ==> s.callers[c] == Idle)
    && s.closes == [] && s.issued == map[]
  }

  ghost predicate IsRun(env: Env, states: seq<System>, steps: seq<Step>) {
    && |states| == |steps| + 1
    && Initial(states[0])
    && forall i :: 0 <= i < |steps| ==> Enabled(env, states[i], steps[i]) && states[i + 1] == Apply(env, states[i], steps[i])
  }

  // ---------------------------------------------------------------------------------------------
  // What every reachable state satisfies
  // ---------------------------------------------------------------------------------------------

  /** At most one refresh is in flight; `refreshing` holds exactly while `refreshDone` is the open channel of
      that one leader; every other channel ever made has been closed exactly once; and every waiter holds
      a channel that is closed or is the leader's. */
  ghost predicate SingleFlight(s: System) {
    && (s.p.refreshing <==> s.p.refreshDone.Some?)
    && (s.p.refreshing <==> exists c :: 0 <= c < |s.callers| && s.callers[c].Leading?)
    && (forall c :: 0 <= c < |s.callers| && s.callers[c].Leading? ==> s.p.refreshDone == Some(s.callers[c].own))
    && (forall c, d :: 0 <= c < |s.callers| && 0 <= d < |s.callers| && s.callers[c].Leading? && s.callers[d].Leading? ==> c == d)
    && (s.p.refreshDone.Some? ==> s.p.refreshDone.value < |s.closes|)
    && (forall ch :: 0 <= ch < |s.closes| ==> s.closes[ch] == if s.p.refreshDone == Some(ch) then 0 else 1)
    && (forall c :: 0 <= c < |s.callers| && s.callers[c].Waiting? ==>
          s.callers[c].done.Some? && s.callers[c].done.value < |s.closes|)
  }

  ghost predicate Backed(env: Env, s: System, d: Digest)
    requires d in s.p.generations
  {
    exists token :: token in s.issued && env.digest(token) == d && s.issued[token] == s.p.generations[d]
  }

  /** The store holds the key of every issued token that has not expired, and nothing that was never issued. */
  ghost predicate Retained(env: Env, s: System) {
    && (forall token :: token in s.issued ==> s.issued[token].expires == env.expiry(token))
    && (forall token :: token in s.issued && s.now < env.expiry(token) ==>
          env.digest(token) in s.p.generations && s.p.generations[env.digest(token)] == s.issued[token])
    && (forall d :: d in s.p.generations ==> Backed(env, s, d))
    && (s.p.token != "" ==> s.p.token in s.issued && s.p.expires == env.expiry(s.p.token))
    && (forall c :: 0 <= c < |s.callers| && s.callers[c].Returned? ==> s.callers[c].token in s.issued)
  }

  lemma StepKeepsSingleFlight(env: Env, s: System, step: Step)
    requires SingleFlight(s) && Enabled(env, s, step)
    ensures SingleFlight(Apply(env, s, step))
  {
    var t := Apply(env, s, step);
    match step
    case Tick(_) =>
    case LookUp(_) =>
    case Call(c) => LeadersUnchanged(s, t);
    case Cancel(c) => LeadersUnchanged(s, t);
    case Wake(c) => LeadersUnchanged(s, t);
    case EnterSection(c) => EnterKeepsSingleFlight(env, s, step);
    case PublishSection(c, _) => PublishKeepsSingleFlight(env, s, step);
  }

  lemma EnterKeepsSingleFlight(env: Env, s: System, step: Step)
    requires SingleFlight(s) && step.EnterSection? && Enabled(env, s, step)
    ensures SingleFlight(Apply(env, s, step))
  {
    var t := Apply(env, s, step);
    if Decide(env, s.p, s.now).Lead? {
      assert t.callers[step.c].Leading?;
    } else {
      LeadersUnchanged(s, t);
    }
  }

  lemma PublishKeepsSingleFlight(env: Env, s: System, step: Step)
    requires SingleFlight(s) && step.PublishSection? && Enabled(env, s, step)
    ensures SingleFlight(Apply(env, s, step))
  {
    var t := Apply(env, s, step);
    assert forall d :: 0 <= d < |t.callers| && d != step.c ==> t.callers[d] == s.callers[d];
  }

  lemma LeadersUnchanged(s: System, t: System)
    requires |s.callers| == |t.callers|
    requires forall c :: 0 <= c < |s.callers| ==> s.callers[c].Leading? == t.callers[c].Leading?
    ensures (exists c :: 0 <= c < |s.callers| && s.callers[c].Leading?)
       <==> (exists c :: 0 <= c < |t.callers| && t.callers[c].Leading?)
  {
  }

  lemma StepKeepsRetained(env: Env, s: System, step: Step)
    requires Sound(env) && Retained(env, s) && Enabled(env, s, step)
    ensures Retained(env, Apply(env, s, step))
  {
    var t := Apply(env, s, step);
    forall d | d in t.p.generations
      ensures Backed(env, t, d)
    {
      if step.PublishSection? && step.outcome.Issued? && d == env.digest(step.outcome.token) {
        assert step.outcome.token in t.issued;
      } else {
        assert d in s.p.generations && Backed(env, s, d);
        var token :| token in s.issued && env.digest(token) == d && s.issued[token] == s.p.generations[d];
        assert token in t.issued && t.issued[token] == s.issued[token];
      }
    }
  }

  lemma {:induction false} RunKeepsInvariants(env: Env, states: seq<System>, steps: seq<Step>, i: nat)
    requires Sound(env) && IsRun(env, states, steps) && i < |states|
    ensures SingleFlight(states[i]) && Retained(env, states[i])
  {
    if i == 0 {
    } else {
      RunKeepsInvariants(env, states, steps, i - 1);
      StepKeepsSingleFlight(env, states[i - 1], steps[i - 1]);
      StepKeepsRetained(env, states[i - 1], steps[i - 1]);
    }
  }

  // ---------------------------------------------------------------------------------------------
  // Main results
  // ---------------------------------------------------------------------------------------------

  /** No waiter is stuck: it can wake now, or another caller leads, that leader's publication is enabled
      however its request ended, and every such publication wakes the waiter. */
  lemma WaiterIsReleasable(env: Env, states: seq<System>, steps: seq<Step>, i: nat, c: nat)
    requires Sound(env) && IsRun(env, states, steps) && i < |states|
    requires c < |states[i].callers| && states[i].callers[c].Waiting?
    ensures
      || Enabled(env, states[i], Wake(c))
      || exists l ::
           && 0 <= l < |states[i].callers| && states[i].callers[l].Leading?
           && Enabled(env, states[i], PublishSection(l, RequestFailed))
           && forall outcome :: Enabled(env, states[i], PublishSection(l, outcome)) ==>
                                  Enabled(env, Apply(env, states[i], PublishSection(l, outcome)), Wake(c))
  {
    RunKeepsInvariants(env, states, steps, i);
    var s := states[i];
    if s.p.refreshDone == s.callers[c].done {
      var l :| 0 <= l < |s.callers| && s.callers[l].Leading?;
      assert Enabled(env, s, PublishSection(l, RequestFailed));
    }
  }

  /** `PrivateKeyForToken` answers exactly for the published tokens that have not expired, with the key
      published last for that token. */
  lemma KeyForIsExact(env: Env, s: System, token: string)
    requires Sound(env) && Retained(env, s)
    ensures KeyFor(env, s.p, token, s.now)
         == if token in s.issued && s.now < env.expiry(token) then Some(s.issued[token].key) else None
  {
    var d := env.digest(token);
    if d in s.p.generations {
      assert Backed(env, s, d);
    }
  }

  /** A token that the cache serves always has its key in the store. */
  lemma ServedTokenHasItsKey(env: Env, states: seq<System>, steps: seq<Step>, i: nat)
    requires Sound(env) && IsRun(env, states, steps) && i < |states|
    requires Decide(env, states[i].p, states[i].now).Served?
    ensures KeyFor(env, states[i].p, states[i].p.token, states[i].now).Some?
    ensures states[i].now + env.refreshBefore < env.expiry(states[i].p.token)
  {
    RunKeepsInvariants(env, states, steps, i);
    KeyForIsExact(env, states[i], states[i].p.token);
  }

  ghost predicate IssuedAt(steps: seq<Step>, k: int, token: string, key: string) {
    0 <= k < |steps| && steps[k].PublishSection? && steps[k].outcome == Issued(token, key)
  }

  /** The service never issues the same token string twice. */
  ghost predicate NeverReissued(steps: seq<Step>, token: string) {
    forall k, l, key, key' :: IssuedAt(steps, k, token, key) && IssuedAt(steps, l, token, key') ==> k == l
  }

  /** The recorded generation of a token is the one of a publication before this point. */
  lemma {:induction false} IssuedHasSource(env: Env, states: seq<System>, steps: seq<Step>, i: nat, token: string)
    requires IsRun(env, states, steps) && i < |states| && token in states[i].issued
    ensures exists k :: k < i && IssuedAt(steps, k, token, states[i].issued[token].key)
  {
    var step := steps[i - 1];
    if step.PublishSection? && step.outcome.Issued? && step.outcome.token == token {
      assert IssuedAt(steps, i - 1, token, states[i].issued[token].key);
    } else {
      IssuedHasSource(env, states, steps, i - 1, token);
    }
  }

  lemma {:induction false} IssuedStaysIssued(env: Env, states: seq<System>, steps: seq<Step>, i: nat, j: nat, token: string)
    requires IsRun(env, states, steps) && i <= j < |states| && token in states[i].issued
    ensures token in states[j].issued
    decreases j
  {
    if i < j {
      IssuedStaysIssued(env, states, steps, i, j - 1, token);
    }
  }

  /** Key retention over whole runs: once `Token` has returned a token, every later lookup before that token's
      expiry yields the key generated with it, whatever refreshes, failures and prunes ran in between. */
  lemma ReturnedTokenKeepsItsKey(env: Env, states: seq<System>, steps: seq<Step>, i: nat, j: nat, c: nat)
    requires Sound(env) && IsRun(env, states, steps) && i <= j < |states|
    requires c < |states[i].callers| && states[i].callers[c].Returned?
    requires NeverReissued(steps, states[i].callers[c].token)
    requires states[j].now < env.expiry(states[i].callers[c].token)
    ensures exists k, key ::
              && k < i && IssuedAt(steps, k, states[i].callers[c].token, key)
              && KeyFor(env, states[j].p, states[i].callers[c].token, states[j].now) == Some(key)
  {
    var token := states[i].callers[c].token;
    RunKeepsInvariants(env, states, steps, i);
    RunKeepsInvariants(env, states, steps, j);
    IssuedStaysIssued(env, states, steps, i, j, token);
    IssuedHasSource(env, states, steps, i, token);
    IssuedHasSource(env, states, steps, j, token);
    KeyForIsExact(env, states[j], token);
    var k :| k < i && IssuedAt(steps, k, token, states[i].issued[token].key);
    var l :| l < j && IssuedAt(steps, l, token, states[j].issued[token].key);
    assert k == l;
  }

  // ---------------------------------------------------------------------------------------------
  // What `Token` answers
  // ---------------------------------------------------------------------------------------------

  /** The token issued last in the first `i` steps. */
  ghost function LastIssued(steps: seq<Step>, i: nat): Option<string>
    requires i <= |steps|
  {
    if i == 0 then None
    else if steps[i - 1].PublishSection? && steps[i - 1].outcome.Issued? then Some(steps[i - 1].outcome.token)
    else LastIssued(steps, i - 1)
  }

  /** It is the outcome of a publication after which no other token was issued, or none has been. */
  lemma {:induction false} LastIssuedIs(steps: seq<Step>, i: nat)
    requires i <= |steps|
    ensures LastIssued(steps, i).Some? ==> exists k, key ::
              && k < i && IssuedAt(steps, k, LastIssued(steps, i).value, key)
              && forall l, t, x :: k < l < i ==> !IssuedAt(steps, l, t, x)
    ensures LastIssued(steps, i).None? ==> forall l, t, x :: l < i ==> !IssuedAt(steps, l, t, x)
  {
    if i > 0 {
      if steps[i - 1].PublishSection? && steps[i - 1].outcome.Issued? {
        assert IssuedAt(steps, i - 1, steps[i - 1].outcome.token, steps[i - 1].outcome.key);
      } else {
        LastIssuedIs(steps, i - 1);
        if LastIssued(steps, i).Some? {
          var k, key :| && k < i - 1 && IssuedAt(steps, k, LastIssued(steps, i - 1).value, key)
                        && forall l, t, x :: k < l < i - 1 ==> !IssuedAt(steps, l, t, x);
          assert forall l, t, x :: k < l < i ==> !IssuedAt(steps, l, t, x);
        }
      }
    }
  }

  /** The cache holds the token issued last, with its expiry. */
  ghost predicate Caches(env: Env, p: Shared, last: Option<string>) {
    if last.None? then p.token == "" else p.token == last.value != "" && p.expires == env.expiry(last.value)
  }

  lemma StepKeepsCache(env: Env, s: System, step: Step, last: Option<string>)
    requires Enabled(env, s, step) && Caches(env, s.p, last)
    ensures Caches(env, Apply(env, s, step).p,
                   if step.PublishSection? && step.outcome.Issued? then Some(step.outcome.token) else last)
  {
  }

  lemma {:induction false} RunCachesLastIssued(env: Env, states: seq<System>, steps: seq<Step>, i: nat)
    requires IsRun(env, states, steps) && i < |states|
    ensures Caches(env, states[i].p, LastIssued(steps, i))
  {
    if i > 0 {
      RunCachesLastIssued(env, states, steps, i - 1);
      StepKeepsCache(env, states[i - 1], steps[i - 1], LastIssued(steps, i - 1));
    }
  }

  /** The token issued last is further from expiry than the refresh window. */
  ghost predicate IsFresh(env: Env, steps: seq<Step>, i: nat, now: Time)
    requires i <= |steps|
  {
    LastIssued(steps, i).Some? && now + env.refreshBefore < env.expiry(LastIssued(steps, i).value)
  }

  /** What a caller that enters gets, in any run: the token issued last, exactly while it is fresh; otherwise it waits for the
      leader if there is one and leads if there is none. Nobody else is affected, and a caller that is not served leaves no
      expired key behind. */
  lemma EntryAnswersExactly(env: Env, states: seq<System>, steps: seq<Step>, i: nat, c: nat)
    requires Sound(env) && IsRun(env, states, steps) && i < |steps| && steps[i] == EnterSection(c)
    ensures c < |states[i].callers| == |states[i + 1].callers|
    ensures var s, t := states[i], states[i + 1];
            && (IsFresh(env, steps, i, s.now) <==> t.callers[c].Returned?)
            && (IsFresh(env, steps, i, s.now) ==> t.callers[c] == Returned(LastIssued(steps, i).value))
            && (!IsFresh(env, steps, i, s.now) ==>
                  if exists l :: 0 <= l < |s.callers| && s.callers[l].Leading?
                  then exists l :: 0 <= l < |s.callers| && s.callers[l].Leading? && t.callers[c] == Waiting(Some(s.callers[l].own))
                  else t.callers[c] == Leading(|s.closes|, s.now))
            && (forall d :: 0 <= d < |s.callers| && d != c ==> t.callers[d] == s.callers[d])
            && (!IsFresh(env, steps, i, s.now) ==> forall g :: g in t.p.generations ==> s.now < t.p.generations[g].expires)
  {
    RunKeepsInvariants(env, states, steps, i);
    RunCachesLastIssued(env, states, steps, i);
  }

  /** The leader returns the token it was issued, which the next caller is then served if it is fresh; or it fails. */
  lemma PublicationAnswersExactly(env: Env, states: seq<System>, steps: seq<Step>, i: nat)
    requires IsRun(env, states, steps) && i < |steps| && steps[i].PublishSection?
    ensures var c, outcome, t := steps[i].c, steps[i].outcome, states[i + 1];
            && c < |t.callers|
            && (outcome.Issued? ==>
                  && t.callers[c] == Returned(outcome.token)
                  && Decide(env, t.p, t.now)
                     == (if t.now + env.refreshBefore < env.expiry(outcome.token) then Served(outcome.token) else Lead))
            && (outcome.RequestFailed? ==> t.callers[c] == Rejected && LastIssued(steps, i + 1) == LastIssued(steps, i))
  {
    RunCachesLastIssued(env, states, steps, i + 1);
  }

  /** A caller that is woken starts over, so the next section it runs answers it as above; one that is cancelled fails. */
  lemma WokenCallerStartsOver(env: Env, states: seq<System>, steps: seq<Step>, i: nat)
    requires IsRun(env, states, steps) && i < |steps|
    ensures steps[i].Wake? ==> Enabled(env, states[i + 1], EnterSection(steps[i].c))
    ensures steps[i].Cancel? ==> steps[i].c < |states[i + 1].callers| && states[i + 1].callers[steps[i].c] == Rejected
    ensures steps[i].Wake? || steps[i].Cancel? ==> states[i + 1].p == states[i].p
  {
  }
}
