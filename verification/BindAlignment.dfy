/** Aligning the arguments of an execution with the placeholders of its statement: for SQL every occurrence of a name
    gets a value, for PL/SQL every distinct name does. */
module BindAlignment {
  import opened Results
  import opened Placeholders

  datatype Argument<V> = Argument(name: string, ordinal: int, value: V)

  datatype AlignError =
    | NameNotFound(name: string)
    | DuplicateArgument(name: string, position: nat)
    | InvalidOrdinal(ordinal: int, count: nat)

  // ---------------------------------------------------------------------------------------------
  // SQL
  // ---------------------------------------------------------------------------------------------

  /** The placeholder name an argument speaks of: its own name, or the name found at its ordinal. */
  function Resolve<V>(d: BindDetails, arg: Argument<V>): Result<string, AlignError> {
    if arg.name != "" then if arg.name in d.bindMap then Ok(arg.name) else Err(NameNotFound(arg.name))
    else if arg.ordinal <= 0 || |d.bindNames| < arg.ordinal then Err(InvalidOrdinal(arg.ordinal, |d.bindNames|))
    else Ok(d.bindNames[arg.ordinal - 1])
  }

  /** The value that the arguments supply for each name, or the error of the first argument that cannot be placed. */
  function Supply<V>(d: BindDetails, args: seq<Argument<V>>): Result<map<string, V>, AlignError> {
    if args == [] then Ok(map[]) else Add(d, Supply(d, args[..|args| - 1]), args[|args| - 1])
  }

  function Add<V>(d: BindDetails, supplied: Result<map<string, V>, AlignError>, arg: Argument<V>)
    : Result<map<string, V>, AlignError>
  {
    if supplied.Err? then supplied
    else
      match Resolve(d, arg)
      case Err(e) => Err(e)
      case Ok(n) =>
        if n in supplied.value then Err(DuplicateArgument(n, FirstPosition(d, n))) else Ok(supplied.value[n := arg.value])
  }

  function FirstPosition(d: BindDetails, n: string): nat {
    if n in d.bindMap && d.bindMap[n] != [] then d.bindMap[n][0] + 1 else 0
  }

  /** The values of the supplied names at all their occurrences, in order. */
  function Select<V>(names: seq<string>, m: map<string, V>): seq<V> {
    if names == [] then []
    else Select(names[..|names| - 1], m) + if names[|names| - 1] in m then [m[names[|names| - 1]]] else []
  }

  function Extract<V>(d: BindDetails, args: seq<Argument<V>>): Result<seq<V>, AlignError> {
    match Supply(d, args)
    case Ok(m) => Ok(Select(d.bindNames, m))
    case Err(e) => Err(e)
  }

  function Count(filled: seq<bool>): (n: nat)
    ensures n <= |filled|
  {
    if filled == [] then 0 else Count(filled[..|filled| - 1]) + if filled[|filled| - 1] then 1 else 0
  }

  lemma {:induction false} CountSet(filled: seq<bool>, i: nat)
    requires i < |filled| && !filled[i]
    ensures Count(filled[i := true]) == Count(filled) + 1
  {
    var last := |filled| - 1;
    if i == last {
      assert filled[i := true][..last] == filled[..last];
    } else {
      CountSet(filled[..last], i);
      assert filled[i := true][..last] == filled[..last][i := true];
    }
  }

  /** The buffers hold exactly the supplied values. */
  ghost predicate Holds<V>(names: seq<string>, m: map<string, V>, values: seq<V>, filled: seq<bool>) {
    && |values| == |filled| == |names|
    && forall i :: 0 <= i < |names| ==> (filled[i] <==> names[i] in m) && (filled[i] ==> values[i] == m[names[i]])
  }

  lemma {:induction false} HeldCount<V>(names: seq<string>, m: map<string, V>, values: seq<V>, filled: seq<bool>)
    requires Holds(names, m, values, filled)
    ensures Count(filled) == |Select(names, m)|
  {
    if names != [] {
      var last := |names| - 1;
      HeldCount(names[..last], m, values[..last], filled[..last]);
    }
  }

  lemma {:induction false} SelectGrows<V>(names: seq<string>, m: map<string, V>, i: nat)
    requires i <= |names|
    ensures |Select(names[..i], m)| <= |Select(names, m)|
    decreases |names|
  {
    if i < |names| {
      SelectGrows(names[..|names| - 1], m, i);
      assert names[..|names| - 1][..i] == names[..i];
    } else {
      assert names[..i] == names;
    }
  }

  /** The buffers hold the supplied values and `value` at the positions in `placed`, where `key` occurs. */
  ghost predicate Partly<V>(names: seq<string>, m: map<string, V>, key: string, value: V, placed: seq<nat>,
                            values: seq<V>, filled: seq<bool>) {
    && |values| == |filled| == |names|
    && (forall i :: 0 <= i < |names| && names[i] != key ==>
          (filled[i] <==> names[i] in m) && (filled[i] ==> values[i] == m[names[i]]))
    && (forall i :: 0 <= i < |names| && names[i] == key ==> (filled[i] <==> i in placed) && (filled[i] ==> values[i] == value))
  }

  lemma PlaceOne<V>(names: seq<string>, m: map<string, V>, key: string, value: V, placed: seq<nat>,
                    values: seq<V>, filled: seq<bool>, idx: nat)
    requires Partly(names, m, key, value, placed, values, filled)
    requires idx < |names| && names[idx] == key && idx !in placed
    ensures Partly(names, m, key, value, placed + [idx], values[idx := value], filled[idx := true])
    ensures Count(filled[idx := true]) == Count(filled) + 1
  {
    CountSet(filled, idx);
    assert forall i :: i in placed + [idx] <==> i in placed || i == idx;
  }

  lemma PlacedAll<V>(d: BindDetails, m: map<string, V>, key: string, value: V, values: seq<V>, filled: seq<bool>)
    requires Consistent(d) && key in d.bindMap
    requires Partly(d.bindNames, m, key, value, d.bindMap[key], values, filled)
    ensures Holds(d.bindNames, m[key := value], values, filled)
  {
    forall i | 0 <= i < |d.bindNames| && d.bindNames[i] == key
      ensures filled[i]
    {
      assert i in d.bindMap[d.bindNames[i]];
    }
  }

  lemma IncreasingIsFresh(s: seq<nat>, k: nat)
    requires Increasing(s) && k < |s|
    ensures s[k] !in s[..k]
  {
  }

  lemma OccursSomewhere(d: BindDetails, key: string)
    requires Consistent(d) && key in d.bindMap
    ensures d.bindMap[key] != [] && forall a :: 0 <= a < |d.bindMap[key]| ==>
              d.bindMap[key][a] < |d.bindNames| && d.bindNames[d.bindMap[key][a]] == key
  {
    assert key in d.bindNames;
    var i :| 0 <= i < |d.bindNames| && d.bindNames[i] == key;
    assert i in d.bindMap[d.bindNames[i]];
  }

  method PlaceByKey<V>(d: BindDetails, key: string, value: V, values: array<V>, filled: array<bool>, total: nat,
                       ghost m: map<string, V>) returns (r: Result<nat, AlignError>)
    requires Consistent(d) && key in d.bindMap && values != filled
    requires Holds(d.bindNames, m, values[..], filled[..]) && total == Count(filled[..])
    modifies values, filled
    ensures if key in m then r == Err(DuplicateArgument(key, FirstPosition(d, key)))
            else r == Ok(Count(filled[..])) && Holds(d.bindNames, m[key := value], values[..], filled[..])
  {
    OccursSomewhere(d, key);
    r := PlaceAll(d.bindNames, d.bindMap[key], key, value, values, filled, total, m);
    if r.Ok? {
      PlacedAll(d, m, key, value, values[..], filled[..]);
    }
  }

  method PlaceAll<V>(names: seq<string>, indices: seq<nat>, key: string, value: V, values: array<V>, filled: array<bool>,
                     total: nat, ghost m: map<string, V>) returns (r: Result<nat, AlignError>)
    requires indices != [] && Increasing(indices) && values != filled
    requires forall a :: 0 <= a < |indices| ==> indices[a] < |names| && names[indices[a]] == key
    requires Holds(names, m, values[..], filled[..]) && total == Count(filled[..])
    modifies values, filled
    ensures if key in m then r == Err(DuplicateArgument(key, indices[0] + 1))
            else r == Ok(Count(filled[..])) && Partly(names, m, key, value, indices, values[..], filled[..])
  {
    var count := total;
    var k := 0;
    while k < |indices|
      invariant k <= |indices| && count == Count(filled[..])
      invariant if key in m then k == 0 && Holds(names, m, values[..], filled[..])
                else Partly(names, m, key, value, indices[..k], values[..], filled[..])
    {
      var idx := indices[k];
      IncreasingIsFresh(indices, k);
      if filled[idx] {
        return Err(DuplicateArgument(names[idx], idx + 1));
      }
      PlaceOne(names, m, key, value, indices[..k], values[..], filled[..], idx);
      ghost var values', filled' := values[..][idx := value], filled[..][idx := true];
      values[idx] := value;
      filled[idx] := true;
      assert values[..] == values' && filled[..] == filled';
      assert indices[..k + 1] == indices[..k] + [idx];
      count := count + 1;
      k := k + 1;
    }
    assert indices[..k] == indices;
    r := Ok(count);
  }

  method ExtractInputBindValues<V(0)>(d: BindDetails, args: seq<Argument<V>>) returns (r: Result<seq<V>, AlignError>)
    requires Consistent(d)
    ensures r == Extract(d, args)
  {
    var n := |d.bindNames|;
    var values := new V[n];
    var filled := new bool[n](_ => false);
    AllEmpty(filled[..]);
    var total := PlaceArguments(d, args, values, filled);
    if total.Err? {
      return Err(total.error);
    }
    ghost var m := Supply(d, args).value;
    HeldCount(d.bindNames, m, values[..], filled[..]);
    var result := Compact(d.bindNames, m, values, filled, total.value);
    r := Ok(result);
  }

  /** Resolves the arguments one after the other and fills in their values, counting the positions filled. */
  method PlaceArguments<V>(d: BindDetails, args: seq<Argument<V>>, values: array<V>, filled: array<bool>)
    returns (r: Result<nat, AlignError>)
    requires Consistent(d) && values != filled && Holds(d.bindNames, map[], values[..], filled[..]) && Count(filled[..]) == 0
    modifies values, filled
    ensures match Supply(d, args)
            case Err(e) => r == Err(e)
            case Ok(m) => Holds(d.bindNames, m, values[..], filled[..]) && r == Ok(Count(filled[..]))
  {
    var total := 0;
    ghost var m: map<string, V> := map[];
    var k := 0;
    while k < |args|
      invariant k <= |args| && Supply(d, args[..k]) == Ok(m)
      invariant Holds(d.bindNames, m, values[..], filled[..]) && total == Count(filled[..])
    {
      var arg := args[k];
      SupplyNext(d, args, k);
      var key := Resolve(d, arg);
      if key.Err? {
        return Err(key.error);
      }
      var placed := PlaceByKey(d, key.value, arg.value, values, filled, total, m);
      if placed.Err? {
        return Err(placed.error);
      }
      total := placed.value;
      m := m[key.value := arg.value];
      k := k + 1;
    }
    assert args[..k] == args;
    r := Ok(total);
  }

  /** Copies the filled positions into a buffer of the right size. */
  method Compact<V(0)>(ghost names: seq<string>, ghost m: map<string, V>, values: array<V>, filled: array<bool>, total: nat)
    returns (out: seq<V>)
    requires Holds(names, m, values[..], filled[..]) && total == |Select(names, m)|
    ensures out == Select(names, m)
  {
    var buffer := new V[total];
    var position, i := 0, 0;
    while i < filled.Length
      invariant i <= filled.Length && position == |Select(names[..i], m)| <= total
      invariant buffer[..position] == Select(names[..i], m)
      invariant Holds(names, m, values[..], filled[..])
    {
      SelectGrows(names, m, i + 1);
      assert names[..i + 1][..i] == names[..i];
      if filled[i] {
        ghost var before := buffer[..position];
        buffer[position] := values[i];
        assert buffer[..position + 1] == before + [values[i]];
        position := position + 1;
      }
      i := i + 1;
    }
    assert names[..i] == names && buffer[..] == buffer[..position];
    out := buffer[..];
  }

  lemma {:induction false} AllEmpty(filled: seq<bool>)
    requires forall i :: 0 <= i < |filled| ==> !filled[i]
    ensures Count(filled) == 0
  {
    if filled != [] {
      AllEmpty(filled[..|filled| - 1]);
    }
  }

  lemma {:induction false} SupplyStops<V>(d: BindDetails, args: seq<Argument<V>>, k: nat)
    requires k <= |args| && Supply(d, args[..k]).Err?
    ensures Supply(d, args) == Err(Supply(d, args[..k]).error)
    decreases |args| - k
  {
    if k == |args| {
      assert args[..k] == args;
    } else {
      assert args[..k + 1][..k] == args[..k];
      SupplyStops(d, args, k + 1);
    }
  }

  /** The first argument that cannot be placed decides the outcome. */
  lemma SupplyNext<V>(d: BindDetails, args: seq<Argument<V>>, k: nat)
    requires k < |args| && Supply(d, args[..k]).Ok?
    ensures var m, key := Supply(d, args[..k]).value, Resolve(d, args[k]);
      if key.Err? then Supply(d, args) == Err(key.error)
      else if key.value in m then Supply(d, args) == Err(DuplicateArgument(key.value, FirstPosition(d, key.value)))
      else Supply(d, args[..k + 1]) == Ok(m[key.value := args[k].value])
  {
    assert args[..k + 1][..k] == args[..k];
    if Supply(d, args[..k + 1]).Err? {
      SupplyStops(d, args, k + 1);
    }
  }

  // ---------------------------------------------------------------------------------------------
  // PL/SQL
  // ---------------------------------------------------------------------------------------------

  /** The slot an argument speaks of: the number of its name, or its ordinal taken as a number of a distinct name. */
  function ResolveSlot<V>(d: BindDetails, arg: Argument<V>): Result<nat, AlignError> {
    if arg.name != "" then
      if arg.name in d.uniqueNames then Ok(d.uniqueNames[arg.name]) else Err(NameNotFound(arg.name))
    else if arg.ordinal <= 0 || |d.uniqueNames| < arg.ordinal then Err(InvalidOrdinal(arg.ordinal, |d.uniqueNames|))
    else Ok(arg.ordinal - 1)
  }

  /** The name reported for a slot that is filled twice: the argument's own, or the name at that occurrence. */
  function ReportedName<V>(d: BindDetails, arg: Argument<V>): string {
    if arg.name != "" then arg.name
    else if 0 < arg.ordinal <= |d.bindNames| then d.bindNames[arg.ordinal - 1] else ""
  }

  function SupplySlots<V>(d: BindDetails, args: seq<Argument<V>>): Result<map<nat, V>, AlignError> {
    if args == [] then Ok(map[]) else AddSlot(d, SupplySlots(d, args[..|args| - 1]), args[|args| - 1])
  }

  function AddSlot<V>(d: BindDetails, supplied: Result<map<nat, V>, AlignError>, arg: Argument<V>)
    : Result<map<nat, V>, AlignError>
  {
    if supplied.Err? then supplied
    else
      match ResolveSlot(d, arg)
      case Err(e) => Err(e)
      case Ok(slot) =>
        if slot in supplied.value then Err(DuplicateArgument(ReportedName(d, arg), slot + 1))
        else Ok(supplied.value[slot := arg.value])
  }

  function SelectSlots<V>(count: nat, m: map<nat, V>): seq<V> {
    if count == 0 then [] else SelectSlots(count - 1, m) + if count - 1 in m then [m[count - 1]] else []
  }

  function ExtractPlSql<V>(d: BindDetails, args: seq<Argument<V>>): Result<seq<V>, AlignError> {
    match SupplySlots(d, args)
    case Ok(m) => Ok(SelectSlots(|d.uniqueNames|, m))
    case Err(e) => Err(e)
  }

  ghost predicate HoldsSlots<V>(m: map<nat, V>, values: seq<V>, filled: seq<bool>) {
    && |values| == |filled|
    && forall i :: 0 <= i < |filled| ==> (filled[i] <==> i in m) && (filled[i] ==> values[i] == m[i])
  }

  lemma {:induction false} HeldSlots<V>(m: map<nat, V>, values: seq<V>, filled: seq<bool>)
    requires HoldsSlots(m, values, filled)
    ensures Count(filled) == |SelectSlots(|filled|, m)|
  {
    if filled != [] {
      HeldSlots(m, values[..|filled| - 1], filled[..|filled| - 1]);
    }
  }

  lemma {:induction false} SlotsGrow<V>(m: map<nat, V>, i: nat, count: nat)
    requires i <= count
    ensures |SelectSlots(i, m)| <= |SelectSlots(count, m)|
    decreases count
  {
    if i < count {
      SlotsGrow(m, i, count - 1);
    }
  }

  lemma {:induction false} SupplySlotsStops<V>(d: BindDetails, args: seq<Argument<V>>, k: nat)
    requires k <= |args| && SupplySlots(d, args[..k]).Err?
    ensures SupplySlots(d, args) == Err(SupplySlots(d, args[..k]).error)
    decreases |args| - k
  {
    if k == |args| {
      assert args[..k] == args;
    } else {
      assert args[..k + 1][..k] == args[..k];
      SupplySlotsStops(d, args, k + 1);
    }
  }

  lemma SupplySlotsNext<V>(d: BindDetails, args: seq<Argument<V>>, k: nat)
    requires k < |args| && SupplySlots(d, args[..k]).Ok?
    ensures var m, slot := SupplySlots(d, args[..k]).value, ResolveSlot(d, args[k]);
      if slot.Err? then SupplySlots(d, args) == Err(slot.error)
      else if slot.value in m then SupplySlots(d, args) == Err(DuplicateArgument(ReportedName(d, args[k]), slot.value + 1))
      else SupplySlots(d, args[..k + 1]) == Ok(m[slot.value := args[k].value])
  {
    assert args[..k + 1][..k] == args[..k];
    if SupplySlots(d, args[..k + 1]).Err? {
      SupplySlotsStops(d, args, k + 1);
    }
  }

  lemma SlotIsInBounds<V>(d: BindDetails, arg: Argument<V>)
    requires Consistent(d) && ResolveSlot(d, arg).Ok?
    ensures ResolveSlot(d, arg).value < |d.uniqueNames| <= |d.bindNames|
  {
    DistinctIsShorter(d.bindNames);
    DistinctIsFirstAppearance(d.bindNames);
    if arg.name != "" {
      assert arg.name in Distinct(d.bindNames);
    }
  }

  method ExtractInputBindValuesForPlSql<V(0)>(d: BindDetails, args: seq<Argument<V>>) returns (r: Result<seq<V>, AlignError>)
    requires Consistent(d)
    ensures r == ExtractPlSql(d, args)
  {
    var n := |d.uniqueNames|;
    var values := new V[n];
    var filled := new bool[n](_ => false);
    AllEmpty(filled[..]);
    var total := PlaceInSlots(d, args, values, filled);
    if total.Err? {
      return Err(total.error);
    }
    ghost var m := SupplySlots(d, args).value;
    HeldSlots(m, values[..], filled[..]);
    var result := CompactSlots(m, values, filled, total.value);
    r := Ok(result);
  }

  /** Resolves the arguments one after the other and fills in their slots. */
  method PlaceInSlots<V>(d: BindDetails, args: seq<Argument<V>>, values: array<V>, filled: array<bool>)
    returns (r: Result<nat, AlignError>)
    requires Consistent(d) && values != filled && filled.Length == |d.uniqueNames|
    requires HoldsSlots(map[], values[..], filled[..]) && Count(filled[..]) == 0
    modifies values, filled
    ensures match SupplySlots(d, args)
            case Err(e) => r == Err(e)
            case Ok(m) => HoldsSlots(m, values[..], filled[..]) && r == Ok(Count(filled[..]))
  {
    var total := 0;
    ghost var m: map<nat, V> := map[];
    var k := 0;
    while k < |args|
      invariant k <= |args| && SupplySlots(d, args[..k]) == Ok(m)
      invariant HoldsSlots(m, values[..], filled[..]) && total == Count(filled[..])
    {
      var arg := args[k];
      SupplySlotsNext(d, args, k);
      var slot := ResolveSlot(d, arg);
      if slot.Err? {
        return Err(slot.error);
      }
      SlotIsInBounds(d, arg);
      if filled[slot.value] {
        return Err(DuplicateArgument(ReportedName(d, arg), slot.value + 1));
      }
      CountSet(filled[..], slot.value);
      ghost var values', filled' := values[..][slot.value := arg.value], filled[..][slot.value := true];
      values[slot.value] := arg.value;
      filled[slot.value] := true;
      assert values[..] == values' && filled[..] == filled';
      total := total + 1;
      m := m[slot.value := arg.value];
      k := k + 1;
    }
    assert args[..k] == args;
    r := Ok(total);
  }

  method CompactSlots<V(0)>(ghost m: map<nat, V>, values: array<V>, filled: array<bool>, total: nat) returns (out: seq<V>)
    requires HoldsSlots(m, values[..], filled[..]) && total == |SelectSlots(filled.Length, m)|
    ensures out == SelectSlots(filled.Length, m)
  {
    var buffer := new V[total];
    var position, i := 0, 0;
    while i < filled.Length
      invariant i <= filled.Length && position == |SelectSlots(i, m)| <= total
      invariant buffer[..position] == SelectSlots(i, m)
      invariant HoldsSlots(m, values[..], filled[..])
    {
      SlotsGrow(m, i + 1, filled.Length);
      if filled[i] {
        ghost var before := buffer[..position];
        buffer[position] := values[i];
        assert buffer[..position + 1] == before + [values[i]];
        position := position + 1;
      }
      i := i + 1;
    }
    assert buffer[..] == buffer[..position];
    out := buffer[..];
  }

  // ---------------------------------------------------------------------------------------------
  // When alignment succeeds and what it yields
  // ---------------------------------------------------------------------------------------------

  ghost predicate AllResolve<V>(d: BindDetails, args: seq<Argument<V>>) {
    forall i :: 0 <= i < |args| ==> Resolve(d, args[i]).Ok?
  }

  ghost predicate NoTwoAgree<V>(d: BindDetails, args: seq<Argument<V>>)
    requires AllResolve(d, args)
  {
    forall i, j :: 0 <= i < j < |args| ==> Resolve(d, args[i]).value != Resolve(d, args[j]).value
  }

  /** The supplied map records what the arguments say and nothing else. */
  ghost predicate Records<V>(d: BindDetails, args: seq<Argument<V>>, m: map<string, V>)
    requires AllResolve(d, args)
  {
    && (forall i :: 0 <= i < |args| ==> Resolve(d, args[i]).value in m && m[Resolve(d, args[i]).value] == args[i].value)
    && (forall n :: n in m ==> exists i :: 0 <= i < |args| && Resolve(d, args[i]).value == n)
  }

  lemma {:induction false} SupplySucceedsExactly<V>(d: BindDetails, args: seq<Argument<V>>)
    ensures Supply(d, args).Ok? <==> AllResolve(d, args) && NoTwoAgree(d, args)
    ensures Supply(d, args).Ok? ==> Records(d, args, Supply(d, args).value)
  {
    if args != [] {
      var before, last := args[..|args| - 1], args[|args| - 1];
      assert args == before + [last];
      SupplySucceedsExactly(d, before);
      ResolutionExtends(d, before, last);
      if Supply(d, before).Ok? {
        var m := Supply(d, before).value;
        ResolvedIsRecorded(d, before, last, m);
        if Resolve(d, last).Ok? && Resolve(d, last).value !in m {
          RecordsExtend(d, before, last, m);
        }
      }
    }
  }

  /** The last argument of a list resolves to the name of none of the others. */
  ghost predicate IsNew<V>(d: BindDetails, before: seq<Argument<V>>, last: Argument<V>)
    requires AllResolve(d, before) && Resolve(d, last).Ok?
  {
    forall i :: 0 <= i < |before| ==> Resolve(d, before[i]).value != Resolve(d, last).value
  }

  lemma ResolutionExtends<V>(d: BindDetails, before: seq<Argument<V>>, last: Argument<V>)
    ensures AllResolve(d, before + [last]) <==> AllResolve(d, before) && Resolve(d, last).Ok?
    ensures AllResolve(d, before + [last]) ==> (NoTwoAgree(d, before + [last]) <==> NoTwoAgree(d, before) && IsNew(d, before, last))
  {
    var args := before + [last];
    assert args[|before|] == last && forall i :: 0 <= i < |before| ==> args[i] == before[i];
    if AllResolve(d, before) && Resolve(d, last).Ok? && NoTwoAgree(d, args) {
      forall i | 0 <= i < |before|
        ensures Resolve(d, before[i]).value != Resolve(d, last).value
      {
        assert Resolve(d, args[i]).value != Resolve(d, args[|before|]).value;
      }
    }
  }

  lemma ResolvedIsRecorded<V>(d: BindDetails, before: seq<Argument<V>>, last: Argument<V>, m: map<string, V>)
    requires AllResolve(d, before) && Records(d, before, m)
    ensures Resolve(d, last).Ok? ==> (IsNew(d, before, last) <==> Resolve(d, last).value !in m)
  {
  }

  lemma RecordsExtend<V>(d: BindDetails, before: seq<Argument<V>>, last: Argument<V>, m: map<string, V>)
    requires AllResolve(d, before) && Records(d, before, m)
    requires AllResolve(d, before + [last]) && Resolve(d, last).Ok? && Resolve(d, last).value !in m
    ensures Records(d, before + [last], m[Resolve(d, last).value := last.value])
  {
    var args, m' := before + [last], m[Resolve(d, last).value := last.value];
    assert args[|before|] == last && forall i :: 0 <= i < |before| ==> args[i] == before[i];
    forall k | k in m'
      ensures exists i :: 0 <= i < |args| && Resolve(d, args[i]).value == k
    {
      if k == Resolve(d, last).value {
        assert Resolve(d, args[|before|]).value == k;
      } else {
        var i :| 0 <= i < |before| && Resolve(d, before[i]).value == k;
        assert Resolve(d, args[i]).value == k;
      }
    }
  }

  /** Positions whose name is supplied, in order. */
  ghost function SuppliedPositions<V>(names: seq<string>, m: map<string, V>): seq<nat> {
    if names == [] then []
    else SuppliedPositions(names[..|names| - 1], m) + if names[|names| - 1] in m then [|names| - 1] else []
  }

  /** `values` holds, in increasing order of position, the value of every supplied name at every one of its positions. */
  ghost predicate ListsSupplied<V>(names: seq<string>, m: map<string, V>, at: seq<nat>, values: seq<V>) {
    && |values| == |at| && Increasing(at)
    && (forall i :: 0 <= i < |names| ==> (i in at <==> names[i] in m))
    && (forall k :: 0 <= k < |at| ==> at[k] < |names| && names[at[k]] in m && values[k] == m[names[at[k]]])
  }

  lemma {:induction false} SelectFollowsPositions<V>(names: seq<string>, m: map<string, V>)
    ensures ListsSupplied(names, m, SuppliedPositions(names, m), Select(names, m))
  {
    if names != [] {
      SelectFollowsPositions(names[..|names| - 1], m);
      ListsOneMore(names, m, SuppliedPositions(names[..|names| - 1], m), Select(names[..|names| - 1], m));
    }
  }

  lemma ListsOneMore<V>(names: seq<string>, m: map<string, V>, at: seq<nat>, values: seq<V>)
    requires names != [] && ListsSupplied(names[..|names| - 1], m, at, values)
    ensures var last := names[|names| - 1];
            ListsSupplied(names, m, at + (if last in m then [|names| - 1] else []), values + if last in m then [m[last]] else [])
  {
    var before, last := names[..|names| - 1], names[|names| - 1];
    assert forall i :: 0 <= i < |before| ==> before[i] == names[i];
    var at' := at + if last in m then [|names| - 1] else [];
    forall i | 0 <= i < |names|
      ensures i in at' <==> names[i] in m
    {
      if i < |before| {
        assert i in at' <==> i in at;
      } else if last in m {
        assert at'[|at|] == i;
      }
    }
  }

  /** Extraction succeeds exactly when every argument resolves to a placeholder and no two resolve to the same name. The
      result then lists, in SQL order, the value of its argument at every occurrence of every supplied name,
      and nothing else. */
  lemma ExtractIsExact<V>(d: BindDetails, args: seq<Argument<V>>)
    ensures Extract(d, args).Ok? <==> AllResolve(d, args) && NoTwoAgree(d, args)
    ensures Extract(d, args).Ok? ==> exists m, at :: Records(d, args, m) && ListsSupplied(d.bindNames, m, at, Extract(d, args).value)
  {
    SupplySucceedsExactly(d, args);
    if Supply(d, args).Ok? {
      var m := Supply(d, args).value;
      SelectFollowsPositions(d.bindNames, m);
      assert Records(d, args, m) && ListsSupplied(d.bindNames, m, SuppliedPositions(d.bindNames, m), Extract(d, args).value);
    }
  }

  lemma {:induction false} SelectIsCompleteExactlyWhen<V>(names: seq<string>, m: map<string, V>)
    ensures |Select(names, m)| <= |names|
    ensures |Select(names, m)| == |names| <==> forall i :: 0 <= i < |names| ==> names[i] in m
  {
    if names != [] {
      var before := names[..|names| - 1];
      SelectIsCompleteExactlyWhen(before, m);
      assert forall i :: 0 <= i < |before| ==> before[i] == names[i];
    }
  }

  ghost predicate IsSupplied<V>(d: BindDetails, args: seq<Argument<V>>, name: string) {
    exists i :: 0 <= i < |args| && Resolve(d, args[i]) == Ok(name)
  }

  /** Extraction reports no missing argument: its result has a value for every placeholder exactly when every name is
      supplied, and is shorter otherwise. */
  lemma CompleteExactlyWhen<V>(d: BindDetails, args: seq<Argument<V>>)
    requires Extract(d, args).Ok?
    ensures |Extract(d, args).value| <= |d.bindNames|
    ensures |Extract(d, args).value| == |d.bindNames| <==> forall n :: n in d.bindNames ==> IsSupplied(d, args, n)
  {
    SupplySucceedsExactly(d, args);
    var m := Supply(d, args).value;
    SelectIsCompleteExactlyWhen(d.bindNames, m);
    forall n
      ensures n in m <==> IsSupplied(d, args, n)
    {
      if IsSupplied(d, args, n) {
        var i :| 0 <= i < |args| && Resolve(d, args[i]) == Ok(n);
        assert Resolve(d, args[i]).value in m;
      }
    }
  }

  lemma OneNameDetails()
    ensures WithName(NothingYet.details, "a") == BindDetails(["a"], map["a" := [0]], map["a" := 0])
  {
    var occurrences: map<string, seq<nat>>, unique: map<string, nat>, at: seq<nat> := map[], map[], [];
    assert at + [0] == [0];
    assert WithOccurrence(occurrences, "a", 0) == map["a" := [0]];
    assert unique["a" := 0] == map["a" := 0];
  }

  lemma TwoNameDetails()
    ensures WithName(BindDetails(["a"], map["a" := [0]], map["a" := 0]), "b")
         == BindDetails(["a", "b"], map["a" := [0], "b" := [1]], map["a" := 0, "b" := 1])
  {
    var occurrences: map<string, seq<nat>>, unique: map<string, nat>, at: seq<nat> := map["a" := [0]], map["a" := 0], [];
    assert at + [1] == [1] && "b" !in occurrences && "b" !in ["a"];
    assert WithOccurrence(occurrences, "b", 1) == map["a" := [0], "b" := [1]];
    assert unique.Keys == {"a"} && |unique| == 1;
    assert unique["b" := 1] == map["a" := 0, "b" := 1];
  }

  lemma NothingIsConsistent()
    ensures Consistent(NothingYet.details)
  {
  }

  lemma TwoNamesAreConsistent()
    ensures Consistent(BindDetails(["a", "b"], map["a" := [0], "b" := [1]], map["a" := 0, "b" := 1]))
  {
    var one := WithName(NothingYet.details, "a");
    NothingIsConsistent();
    WithNameIsConsistent(NothingYet.details, "a");
    WithNameIsConsistent(one, "b");
    OneNameDetails();
    TwoNameDetails();
  }

  /** Two placeholders, one argument: the result has one value and no error is reported. */
  lemma MissingArgumentIsDropped<V>(v: V)
    ensures var d := BindDetails(["a", "b"], map["a" := [0], "b" := [1]], map["a" := 0, "b" := 1]);
            Consistent(d) && Extract(d, [Argument("a", 1, v)]) == Ok([v])
  {
    TwoNamesAreConsistent();
    var d := BindDetails(["a", "b"], map["a" := [0], "b" := [1]], map["a" := 0, "b" := 1]);
    var arg := Argument("a", 1, v);
    var none: seq<Argument<V>> := [];
    assert [arg][..0] == none;
    var m := map["a" := v];
    assert Supply(d, none) == Ok(map[]);
    assert Supply(d, [arg]) == Ok(m);
    assert Extract(d, [arg]) == Ok(Select(["a", "b"], m));
    assert ["a", "b"][..1] == ["a"] && ["a"][..0] == [];
    assert Select(["a"], m) == Select([], m) + [v];
    assert Select(["a", "b"], m) == Select(["a"], m) + [];
    assert Select([], m) == [] && Select(["a", "b"], m) == [v];
  }

  // ---------------------------------------------------------------------------------------------
  // The order of the arguments does not matter
  // ---------------------------------------------------------------------------------------------

  lemma {:induction false} TwoPositions<T>(s: seq<T>, e: T)
    requires 2 <= multiset(s)[e]
    ensures exists i, j :: 0 <= i < j < |s| && s[i] == e && s[j] == e
  {
    var front, last := s[..|s| - 1], s[|s| - 1];
    assert s == front + [last];
    if last == e {
      assert e in front;
      var i :| 0 <= i < |front| && front[i] == e;
      assert s[i] == e && s[|s| - 1] == e;
    } else {
      TwoPositions(front, e);
      var i, j :| 0 <= i < j < |front| && front[i] == e && front[j] == e;
      assert s[i] == e && s[j] == e;
    }
  }

  lemma TwoOccurrences<T>(s: seq<T>, i: nat, j: nat)
    requires i < j < |s| && s[i] == s[j]
    ensures 2 <= multiset(s)[s[i]]
  {
    assert s == s[..j] + [s[j]] + s[j + 1..];
    assert s[i] in s[..j];
  }

  lemma {:induction false} SameElements<T>(s: seq<T>, t: seq<T>)
    requires multiset(s) == multiset(t)
    ensures forall e :: e in s <==> e in t
  {
    assert forall e :: e in s <==> e in multiset(s);
    assert forall e :: e in t <==> e in multiset(t);
  }

  lemma DistinctnessPermutes<V>(d: BindDetails, args: seq<Argument<V>>, args': seq<Argument<V>>)
    requires multiset(args) == multiset(args') && AllResolve(d, args) && NoTwoAgree(d, args)
    ensures AllResolve(d, args') && NoTwoAgree(d, args')
  {
    SameElements(args, args');
    forall i | 0 <= i < |args'|
      ensures Resolve(d, args'[i]).Ok?
    {
      assert args'[i] in args;
    }
    forall i, j | 0 <= i < j < |args'|
      ensures Resolve(d, args'[i]).value != Resolve(d, args'[j]).value
    {
      if args'[i] == args'[j] {
        TwoOccurrences(args', i, j);
        TwoPositions(args, args'[i]);
      } else {
        assert args'[i] in args && args'[j] in args;
        var a :| 0 <= a < |args| && args[a] == args'[i];
        var b :| 0 <= b < |args| && args[b] == args'[j];
        var lo, hi := if a < b then a else b, if a < b then b else a;
        assert Resolve(d, args[lo]).value != Resolve(d, args[hi]).value;
      }
    }
  }

  lemma RecordsDetermine<V>(d: BindDetails, args: seq<Argument<V>>, m: map<string, V>, args': seq<Argument<V>>, m': map<string, V>)
    requires multiset(args) == multiset(args') && AllResolve(d, args) && AllResolve(d, args')
    requires Records(d, args, m) && Records(d, args', m')
    ensures forall n :: n in m ==> n in m' && m'[n] == m[n]
  {
    SameElements(args, args');
    forall n | n in m
      ensures n in m' && m'[n] == m[n]
    {
      var i :| 0 <= i < |args| && Resolve(d, args[i]).value == n;
      assert args[i] in args';
      var j :| 0 <= j < |args'| && args'[j] == args[i];
    }
  }

  /** Permuting the arguments changes neither whether extraction succeeds nor what it yields. */
  lemma OrderDoesNotMatter<V>(d: BindDetails, args: seq<Argument<V>>, args': seq<Argument<V>>)
    requires multiset(args) == multiset(args')
    ensures Extract(d, args).Ok? <==> Extract(d, args').Ok?
    ensures Extract(d, args).Ok? ==> Extract(d, args) == Extract(d, args')
  {
    SupplySucceedsExactly(d, args);
    SupplySucceedsExactly(d, args');
    if Supply(d, args).Ok? {
      DistinctnessPermutes(d, args, args');
      RecordsDetermine(d, args, Supply(d, args).value, args', Supply(d, args').value);
      RecordsDetermine(d, args', Supply(d, args').value, args, Supply(d, args).value);
      assert Supply(d, args).value == Supply(d, args').value;
    } else if Supply(d, args').Ok? {
      DistinctnessPermutes(d, args', args);
    }
  }

  // ---------------------------------------------------------------------------------------------
  // SQL and PL/SQL alignment compared
  // ---------------------------------------------------------------------------------------------

  /** Slot `k` stands for the name that appears `k`-th. */
  ghost predicate Related<V>(distinct: seq<string>, m: map<string, V>, m': map<nat, V>) {
    && (forall n :: n in m ==> n in distinct)
    && (forall k :: k in m' ==> k < |distinct|)
    && (forall k :: 0 <= k < |distinct| ==> (k in m' <==> distinct[k] in m) && (k in m' ==> m'[k] == m[distinct[k]]))
  }

  predicate NoRepeats(names: seq<string>) { forall i, j :: 0 <= i < j < |names| ==> names[i] != names[j] }

  /** An ordinal means the same to both algorithms only if no name repeats; a name always does. */
  predicate Comparable<V>(d: BindDetails, arg: Argument<V>) { arg.name != "" || NoRepeats(d.bindNames) }

  lemma {:induction false} NoRepeatsDistinct(names: seq<string>)
    ensures NoRepeats(names) ==> Distinct(names) == names
    ensures !NoRepeats(names) ==> |Distinct(names)| < |names|
  {
    if names != [] {
      var before, last := names[..|names| - 1], names[|names| - 1];
      NoRepeatsDistinct(before);
      DistinctIsShorter(before);
      assert names == before + [last];
      assert forall i :: 0 <= i < |before| ==> before[i] == names[i];
      if NoRepeats(names) {
        assert NoRepeats(before) && last !in before;
      } else if NoRepeats(before) {
        assert last in before;
      }
    }
  }

  /** The number of a name leads back to it. */
  lemma NumberOfName(d: BindDetails, n: string)
    requires Consistent(d) && n in d.bindNames
    ensures n in d.uniqueNames && d.uniqueNames[n] < |Distinct(d.bindNames)| == |d.uniqueNames|
    ensures Distinct(d.bindNames)[d.uniqueNames[n]] == n
  {
    DistinctIsFirstAppearance(d.bindNames);
    assert n in Distinct(d.bindNames);
  }

  lemma ResolversAgree<V>(d: BindDetails, arg: Argument<V>)
    requires Consistent(d) && Comparable(d, arg)
    ensures Resolve(d, arg).Ok? <==> ResolveSlot(d, arg).Ok?
    ensures Resolve(d, arg).Ok? ==>
              && ResolveSlot(d, arg).value < |Distinct(d.bindNames)|
              && Distinct(d.bindNames)[ResolveSlot(d, arg).value] == Resolve(d, arg).value
    ensures NoRepeats(d.bindNames) && Resolve(d, arg).Err? ==> Resolve(d, arg) == Err(ResolveSlot(d, arg).error)
  {
    if arg.name == "" {
      NoRepeatsDistinct(d.bindNames);
    } else {
      assert arg.name in d.bindMap <==> arg.name in d.bindNames;
      if arg.name in d.bindNames {
        NumberOfName(d, arg.name);
      }
    }
  }

  lemma RelatedExtends<V>(distinct: seq<string>, m: map<string, V>, m': map<nat, V>, k: nat, v: V)
    requires Related(distinct, m, m') && NoRepeats(distinct) && k < |distinct|
    ensures Related(distinct, m[distinct[k] := v], m'[k := v])
  {
  }

  lemma DuplicateReportsAgree<V>(d: BindDetails, arg: Argument<V>)
    requires Consistent(d) && NoRepeats(d.bindNames) && Resolve(d, arg).Ok? && ResolveSlot(d, arg).Ok?
    ensures ReportedName(d, arg) == Resolve(d, arg).value
    ensures FirstPosition(d, Resolve(d, arg).value) == ResolveSlot(d, arg).value + 1
  {
    var slot := ResolveSlot(d, arg).value;
    SlotIsPosition(d, arg, slot);
    FirstPositionOf(d, slot);
  }

  lemma SlotIsPosition<V>(d: BindDetails, arg: Argument<V>, slot: nat)
    requires Consistent(d) && NoRepeats(d.bindNames) && Resolve(d, arg).Ok? && ResolveSlot(d, arg) == Ok(slot)
    ensures slot < |d.bindNames| && d.bindNames[slot] == Resolve(d, arg).value
  {
    ResolversAgree(d, arg);
    NoRepeatsDistinct(d.bindNames);
  }

  lemma FirstPositionOf(d: BindDetails, k: nat)
    requires Consistent(d) && NoRepeats(d.bindNames) && k < |d.bindNames|
    ensures FirstPosition(d, d.bindNames[k]) == k + 1
  {
    var n := d.bindNames[k];
    assert n in d.bindNames && n in d.bindMap;
    OccursSomewhere(d, n);
    assert d.bindNames[d.bindMap[n][0]] == n;
  }

  /** Both fail or both succeed with corresponding values; without repeated names they even fail alike. */
  ghost predicate Agree<V>(d: BindDetails, r: Result<map<string, V>, AlignError>, r': Result<map<nat, V>, AlignError>) {
    && (r.Ok? <==> r'.Ok?)
    && (r.Ok? ==> Related(Distinct(d.bindNames), r.value, r'.value))
    && (NoRepeats(d.bindNames) && r.Err? ==> r'.error == r.error)
  }

  lemma AddsAgree<V>(d: BindDetails, r: Result<map<string, V>, AlignError>, r': Result<map<nat, V>, AlignError>, arg: Argument<V>)
    requires Consistent(d) && Comparable(d, arg) && Agree(d, r, r')
    ensures Agree(d, Add(d, r, arg), AddSlot(d, r', arg))
  {
    ResolversAgree(d, arg);
    if r.Ok? && Resolve(d, arg).Ok? {
      var slot := ResolveSlot(d, arg).value;
      DistinctHasNoRepeats(d.bindNames);
      RelatedExtends(Distinct(d.bindNames), r.value, r'.value, slot, arg.value);
      if NoRepeats(d.bindNames) {
        DuplicateReportsAgree(d, arg);
      }
    }
  }

  lemma DistinctHasNoRepeats(names: seq<string>)
    ensures NoRepeats(Distinct(names))
  {
    DistinctIsFirstAppearance(names);
  }

  lemma {:induction false} SuppliesAgree<V>(d: BindDetails, args: seq<Argument<V>>)
    requires Consistent(d) && forall i :: 0 <= i < |args| ==> Comparable(d, args[i])
    ensures Agree(d, Supply(d, args), SupplySlots(d, args))
  {
    if args != [] {
      SuppliesAgree(d, args[..|args| - 1]);
      AddsAgree(d, Supply(d, args[..|args| - 1]), SupplySlots(d, args[..|args| - 1]), args[|args| - 1]);
    }
  }

  lemma {:induction false} SelectionsAgree<V>(names: seq<string>, m: map<string, V>, m': map<nat, V>, i: nat)
    requires i <= |names| && Related(names, m, m')
    ensures Select(names[..i], m) == SelectSlots(i, m')
  {
    if 0 < i {
      SelectionsAgree(names, m, m', i - 1);
      assert names[..i][..i - 1] == names[..i - 1];
    }
  }

  /** Without repeated names the two algorithms agree on every input, errors included. */
  lemma AgreeWithoutRepeats<V>(d: BindDetails, args: seq<Argument<V>>)
    requires Consistent(d) && NoRepeats(d.bindNames)
    ensures Extract(d, args) == ExtractPlSql(d, args)
  {
    SuppliesAgree(d, args);
    NoRepeatsDistinct(d.bindNames);
    ExtractsAgree(d, args);
  }

  lemma ExtractsAgree<V>(d: BindDetails, args: seq<Argument<V>>)
    requires Agree(d, Supply(d, args), SupplySlots(d, args)) && NoRepeats(d.bindNames)
    requires Distinct(d.bindNames) == d.bindNames && |d.uniqueNames| == |d.bindNames|
    ensures Extract(d, args) == ExtractPlSql(d, args)
  {
    var r, r' := Supply(d, args), SupplySlots(d, args);
    if r.Ok? {
      SelectionsAgree(d.bindNames, r.value, r'.value, |d.bindNames|);
      assert d.bindNames[..|d.bindNames|] == d.bindNames;
    }
  }

  /** They agree on every input exactly when no name repeats: otherwise the ordinal of the last occurrence is valid for SQL
      and out of range for PL/SQL. */
  lemma DisagreeWithRepeats<V>(d: BindDetails, v: V)
    requires Consistent(d) && !NoRepeats(d.bindNames)
    ensures exists args: seq<Argument<V>> :: Extract(d, args).Ok? && ExtractPlSql(d, args).Err?
  {
    NoRepeatsDistinct(d.bindNames);
    var arg := Argument("", |d.bindNames|, v);
    var args := [arg];
    var none: seq<Argument<V>> := [];
    assert args[..0] == none && Supply(d, none).Ok? && SupplySlots(d, none).Ok?;
    assert Supply(d, args) == Add(d, Supply(d, none), arg) && SupplySlots(d, args) == AddSlot(d, SupplySlots(d, none), arg);
    assert Resolve(d, arg).Ok? && ResolveSlot(d, arg).Err?;
    assert Extract(d, args).Ok? && ExtractPlSql(d, args).Err?;
  }

  lemma {:induction false} SelectAll<V>(names: seq<string>, m: map<string, V>)
    requires forall i :: 0 <= i < |names| ==> names[i] in m
    ensures |Select(names, m)| == |names| && forall i :: 0 <= i < |names| ==> Select(names, m)[i] == m[names[i]]
  {
    if names != [] {
      SelectAll(names[..|names| - 1], m);
    }
  }

  lemma {:induction false} SelectAllSlots<V>(count: nat, m: map<nat, V>)
    requires forall k :: 0 <= k < count ==> k in m
    ensures |SelectSlots(count, m)| == count && forall k :: 0 <= k < count ==> SelectSlots(count, m)[k] == m[k]
  {
    if 0 < count {
      SelectAllSlots(count - 1, m);
    }
  }

  lemma AllSlotsSupplied<V>(d: BindDetails, m: map<string, V>, m': map<nat, V>)
    requires Consistent(d) && Related(Distinct(d.bindNames), m, m') && forall n :: n in d.bindNames ==> n in m
    ensures forall k :: 0 <= k < |d.uniqueNames| ==> k in m'
  {
    DistinctIsFirstAppearance(d.bindNames);
    forall k | 0 <= k < |d.uniqueNames|
      ensures k in m'
    {
      assert Distinct(d.bindNames)[k] in Distinct(d.bindNames);
    }
  }

  /** Named arguments that supply every name: the SQL result is the PL/SQL result expanded over the occurrences. */
  lemma SqlExpandsPlSql<V>(d: BindDetails, args: seq<Argument<V>>)
    requires Consistent(d) && forall i :: 0 <= i < |args| ==> args[i].name != ""
    ensures Extract(d, args).Ok? <==> ExtractPlSql(d, args).Ok?
    ensures Extract(d, args).Ok? && (forall n :: n in d.bindNames ==> n in Supply(d, args).value) ==>
              && |Extract(d, args).value| == |d.bindNames| && |ExtractPlSql(d, args).value| == |d.uniqueNames|
              && forall i :: 0 <= i < |d.bindNames| ==>
                   && d.bindNames[i] in d.uniqueNames && d.uniqueNames[d.bindNames[i]] < |d.uniqueNames|
                   && Extract(d, args).value[i] == ExtractPlSql(d, args).value[d.uniqueNames[d.bindNames[i]]]
  {
    SuppliesAgree(d, args);
    if Supply(d, args).Ok? && forall n :: n in d.bindNames ==> n in Supply(d, args).value {
      var m, m', distinct := Supply(d, args).value, SupplySlots(d, args).value, Distinct(d.bindNames);
      SelectAll(d.bindNames, m);
      AllSlotsSupplied(d, m, m');
      SelectAllSlots(|d.uniqueNames|, m');
      forall i | 0 <= i < |d.bindNames|
        ensures d.bindNames[i] in d.uniqueNames && d.uniqueNames[d.bindNames[i]] < |d.uniqueNames|
        ensures Extract(d, args).value[i] == ExtractPlSql(d, args).value[d.uniqueNames[d.bindNames[i]]]
      {
        NumberOfName(d, d.bindNames[i]);
        var k := d.uniqueNames[d.bindNames[i]];
        assert m'[k] == m[distinct[k]];
      }
    }
  }

  // ---------------------------------------------------------------------------------------------
  // What PL/SQL alignment means by a name and by an ordinal
  // ---------------------------------------------------------------------------------------------

  /** Slot `k` belongs to the name that appears `k`-th, repetitions aside; a name stands for its slot, ordinal `k + 1` for
      slot `k`, whether or not names repeat. */
  ghost predicate IsSlotOf<V>(d: BindDetails, arg: Argument<V>, k: nat) {
    && k < |Distinct(d.bindNames)|
    && if arg.name != "" then Distinct(d.bindNames)[k] == arg.name else arg.ordinal == k + 1
  }

  lemma SlotIsExact<V>(d: BindDetails, arg: Argument<V>, k: nat)
    requires Consistent(d)
    ensures ResolveSlot(d, arg) == Ok(k) <==> IsSlotOf(d, arg, k)
  {
    if arg.name != "" {
      DistinctIsFirstAppearance(d.bindNames);
      if arg.name in d.bindNames {
        NumberOfName(d, arg.name);
      }
    }
  }

  function Positional<V>(values: seq<V>): seq<Argument<V>> {
    seq(|values|, i requires 0 <= i < |values| => Argument("", i + 1, values[i]))
  }

  lemma {:induction false} PositionalSupply<V>(d: BindDetails, values: seq<V>)
    requires |values| <= |d.uniqueNames|
    ensures SupplySlots(d, Positional(values)).Ok?
    ensures var m := SupplySlots(d, Positional(values)).value;
            forall k: nat :: (k in m <==> k < |values|) && (k in m ==> m[k] == values[k])
  {
    if values != [] {
      var most := values[..|values| - 1];
      PositionalSupply(d, most);
      assert Positional(values)[..|values| - 1] == Positional(most);
    }
  }

  /** One argument for each distinct name, by position: the values come out in that order, one per name. */
  lemma {:induction false} PositionalArgumentsFillInOrder<V>(d: BindDetails, values: seq<V>)
    requires |values| == |d.uniqueNames|
    ensures ExtractPlSql(d, Positional(values)) == Ok(values)
  {
    PositionalSupply(d, values);
    var m := SupplySlots(d, Positional(values)).value;
    SelectAllSlots(|values|, m);
    assert SelectSlots(|values|, m) == values;
  }

  /** A name stands for itself if it is a placeholder's; an ordinal for the name at that place, counted from one. */
  lemma ResolutionIsExact<V>(d: BindDetails, arg: Argument<V>, n: string)
    requires Consistent(d)
    ensures Resolve(d, arg) == Ok(n)
       <==> if arg.name != "" then n == arg.name && n in d.bindNames
            else 1 <= arg.ordinal <= |d.bindNames| && n == d.bindNames[arg.ordinal - 1]
  {
    assert n in d.bindMap <==> n in d.bindNames;
  }

  /** A second argument for a name is refused, naming its first place in the text. */
  lemma DuplicateIsReported<V>(d: BindDetails, args: seq<Argument<V>>, arg: Argument<V>, p: nat)
    requires Consistent(d) && Supply(d, args).Ok? && Resolve(d, arg).Ok? && Resolve(d, arg).value in Supply(d, args).value
    requires p < |d.bindNames| && d.bindNames[p] == Resolve(d, arg).value && d.bindNames[p] !in d.bindNames[..p]
    ensures Extract(d, args + [arg]) == Err(DuplicateArgument(d.bindNames[p], p + 1))
  {
    var n := d.bindNames[p];
    assert (args + [arg])[..|args|] == args;
    assert n in d.bindNames && n in d.bindMap;
    OccursSomewhere(d, n);
    FirstOccurrence(d, n, p);
  }

  lemma FirstOccurrence(d: BindDetails, n: string, p: nat)
    requires Consistent(d) && n in d.bindMap && d.bindMap[n] != []
    requires p < |d.bindNames| && d.bindNames[p] == n && n !in d.bindNames[..p]
    ensures d.bindMap[n][0] == p
  {
    assert p in d.bindMap[d.bindNames[p]];
    var a :| 0 <= a < |d.bindMap[n]| && d.bindMap[n][a] == p;
    var q := d.bindMap[n][0];
    assert q <= p && d.bindNames[q] == n;
  }
}
