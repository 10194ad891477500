/**
 * The `PropertiesResolver` object: an immutable source map, a cache of resolved values
 * that only grows, and the set of keys whose resolution is under way.
 *
 * Every method is proved against the uncached reference semantics of module `Semantics`:
 * `GetValue(key)` returns exactly `EvalKey(source, old(pending), key)`, so the cache never
 * changes an answer. The ghost `rank` records the order in which keys entered the cache,
 * which is what makes that provable (`Stratified`).
 */
module Resolution {
  import opened Outcomes
  import opened Sequences
  import opened Patterns
  import opened JavaStrings
  import opened BuiltinFunctions
  import opened Semantics

  /** The merge of the list constructor: applied from the last source to the first, so the first wins. */
  function Merged(sources: seq<map<string, string>>): map<string, string>
  {
    if |sources| == 0 then map[] else Merged(sources[1..]) + sources[0]
  }

  /** A key is in the merged map exactly when some source has it. */
  lemma {:induction false} MergedKeys(sources: seq<map<string, string>>, k: string)
    ensures k in Merged(sources) <==> exists i :: 0 <= i < |sources| && k in sources[i]
  {
    if |sources| > 0 {
      MergedKeys(sources[1..], k);
      if exists i :: 0 <= i < |sources| && k in sources[i] {
        var i :| 0 <= i < |sources| && k in sources[i];
        if i > 0 {
          assert k in sources[1..][i - 1];
        }
      }
      if exists i :: 0 <= i < |sources[1..]| && k in sources[1..][i] {
        var i :| 0 <= i < |sources[1..]| && k in sources[1..][i];
        assert k in sources[i + 1];
      }
    }
  }

  /** The merged value of a key is its value in the first source that has it. */
  lemma {:induction false} MergedFirstWins(sources: seq<map<string, string>>, i: nat, k: string)
    requires i < |sources| && k in sources[i]
    requires forall j :: 0 <= j < i ==> k !in sources[j]
    ensures k in Merged(sources) && Merged(sources)[k] == sources[i][k]
  {
    if i > 0 {
      forall j | 0 <= j < i - 1 ensures k !in sources[1..][j] {
        assert sources[1..][j] == sources[j + 1];
      }
      MergedFirstWins(sources[1..], i - 1, k);
    }
  }

  /** Putting a key's own value back leaves a map as it was. */
  lemma PutSame(m: map<string, string>, k: string, v: string)
    requires k in m && m[k] == v
    ensures m[k := v] == m
  {
  }

  /** `m2` keeps every entry of `m1` unchanged. */
  ghost predicate Extends(m1: map<string, string>, m2: map<string, string>)
  {
    forall k :: k in m1 ==> k in m2 && m2[k] == m1[k]
  }

  /** The resolver's invariant, over its fields: see `PropertiesResolver.Valid`. */
  ghost predicate Consistent(source: map<string, string>, resolved: map<string, string>, pending: set<string>,
                             rank: map<string, nat>, stamp: nat)
  {
    resolved.Keys <= source.Keys && pending <= source.Keys && pending !! resolved.Keys &&
    (forall k :: k in rank ==> rank[k] < stamp) &&
    Stratified(source, resolved, rank)
  }

  /**
   * A key whose value was substituted while it was pending, on top of the pending set
   * `outer`, may enter the cache and leave `pending`: the invariant holds again, the cache
   * still extends `before`, and the value is the key's reference value.
   */
  lemma Commit(source: map<string, string>, before: map<string, string>, outer: set<string>,
               resolved: map<string, string>, pending: set<string>, rank: map<string, nat>, stamp: nat,
               key: string, v: string)
    requires Consistent(source, resolved, pending, rank, stamp)
    requires key in source && key !in outer && pending == outer + {key}
    requires Extends(before, resolved)
    requires EvalText(source, Stack(pending), source[key]) == Success(v)
    requires EvalText(source, Cache(resolved), source[key]) == Success(v)
    ensures Consistent(source, resolved[key := v], pending - {key}, rank[key := stamp], stamp + 1)
    ensures pending - {key} == outer
    ensures Extends(before, resolved[key := v]) && key in resolved[key := v] && resolved[key := v][key] == v
    ensures EvalKey(source, outer, key) == Success(Some(v))
  {
    StratifiedAdd(source, resolved, rank, stamp, key, v);
  }

  class PropertiesResolver {
    /** The raw key/value pairs; never modified after construction. */
    const source: map<string, string>
    /** Values resolved so far. */
    var resolved: map<string, string>
    /** Keys whose resolution has started and not finished. */
    var pending: set<string>
    /** The order in which keys were resolved. */
    ghost var rank: map<string, nat>
    /** The rank the next resolved key gets. */
    ghost var stamp: nat

    /**
     * The cache holds only source keys, a pending key is never cached, and every cached value
     * is what substitution gives from the keys cached before it.
     */
    ghost predicate Valid()
      reads this
    {
      Consistent(source, resolved, pending, rank, stamp)
    }

    /** `PropertiesResolver(Map)`: the source is a copy of the properties. */
    constructor (properties: map<string, string>)
      ensures Valid()
      ensures source == properties && resolved == map[] && pending == {}
    {
      source := properties;
      resolved := map[];
      pending := {};
      rank := map[];
      stamp := 0;
    }

    /** `PropertiesResolver(Iterable)`: the sources reversed, then copied in one after another. */
    constructor FromSources(sources: seq<map<string, string>>)
      ensures Valid()
      ensures source == Merged(sources) && resolved == map[] && pending == {}
    {
      var collected: map<string, string> := map[];
      var i := |sources|;
      while i > 0
        invariant 0 <= i <= |sources|
        invariant collected == Merged(sources[i..])
      {
        i := i - 1;
        assert sources[i..][1..] == sources[i + 1..];
        collected := collected + sources[i];
      }
      assert sources[0..] == sources;
      source := collected;
      resolved := map[];
      pending := {};
      rank := map[];
      stamp := 0;
    }

    /**
     * `getResolved`: every source key is resolved, in some order, and the cache is returned.
     * The source iterates in insertion order; any order gives the same map on success.
     */
    method GetResolved() returns (r: Result<map<string, string>>)
      requires Valid()
      modifies this
      ensures Valid()
      ensures Extends(old(resolved), resolved)
      ensures r.Success? ==> r.value == resolved && resolved.Keys == source.Keys
      ensures r.Success? ==> old(pending) == {} && pending == {}
      ensures r.Success? ==> forall k :: k in r.value ==> EvalKey(source, {}, k) == Success(Some(r.value[k]))
      ensures r.Success? ==> forall k :: k in r.value ==> EvalText(source, Cache(r.value), source[k]) == Success(r.value[k])
      ensures r.Failure? ==> pending != {}
      ensures r.Failure? ==> exists k :: k in source && EvalKey(source, old(pending), k) == Failure(r.error)
      ensures r.Failure? ==> !r.error.Unresolved?
      ensures old(resolved).Keys == source.Keys ==>
        r == Success(old(resolved)) && resolved == old(resolved) && pending == old(pending)
    {
      var todo := source.Keys;
      while todo != {}
        invariant todo <= source.Keys
        invariant Valid() && pending == old(pending)
        invariant Extends(old(resolved), resolved)
        invariant source.Keys - todo <= resolved.Keys
        invariant old(resolved).Keys == source.Keys ==> resolved == old(resolved)
        decreases |todo|
      {
        var key :| key in todo;
        var value := GetValue(key);
        if value.Failure? {
          r := Failure(value.error);
          return;
        }
        PutSame(resolved, key, value.value.value);
        resolved := resolved[key := value.value.value];
        todo := todo - {key};
      }
      assert pending <= resolved.Keys;
      r := Success(resolved);
      StratifiedSettled(source, resolved, rank);
    }

    /**
     * `getValue`: the cached value, or the raw value with every region replaced, left to
     * right, while the key is pending. An absent key gives `None`.
     */
    method GetValue(key: string) returns (r: Result<Option<string>>)
      requires Valid()
      modifies this
      ensures Valid()
      ensures r == EvalKey(source, old(pending), key)
      ensures NotUnresolved(r)
      ensures Extends(old(resolved), resolved)
      ensures r.Success? ==> pending == old(pending)
      ensures r.Success? && r.value.Some? ==> key in resolved && resolved[key] == r.value.value
      ensures r.Failure? ==> old(pending) <= pending && pending != {}
      ensures key in old(resolved) ==> resolved == old(resolved) && pending == old(pending)
      decreases |source.Keys - pending|, 0, 1
    {
      KeyNeverUnresolved(source, pending, key);
      if key in resolved {
        CacheAgrees(source, resolved, rank, pending, key);
        return Success(Some(resolved[key]));
      }
      if key !in source {
        return Success(None);
      }
      if key in pending {
        return Failure(Circular(key));
      }
      r := Evaluate(key);
    }

    /**
     * The rest of `getValue` for a key that is neither cached nor pending: mark it pending,
     * substitute its raw value, then cache the result and unmark it.
     */
    method Evaluate(key: string) returns (r: Result<Option<string>>)
      requires Valid() && key in source && key !in pending && key !in resolved
      modifies this
      ensures Valid()
      ensures r == EvalKey(source, old(pending), key)
      ensures Extends(old(resolved), resolved)
      ensures r.Success? ==> pending == old(pending) && r.value.Some? && key in resolved && resolved[key] == r.value.value
      ensures r.Failure? ==> old(pending) + {key} <= pending
      decreases |source.Keys - pending|, 0, 0
    {
      PendingShrinks(source, pending, key);
      pending := pending + {key};
      var value := Substitute(source[key]);
      if value.Failure? {
        return Failure(value.error);
      }
      Commit(source, old(resolved), old(pending), resolved, pending, rank, stamp, key, value.value);
      resolved, rank, stamp := resolved[key := value.value], rank[key := stamp], stamp + 1;
      pending := pending - {key};
      r := Success(Some(value.value));
    }

    /**
     * The matcher loop of `getValue`: each region found, left to right, is replaced by its
     * replacement, and the text between regions is copied.
     */
    method Substitute(value: string) returns (r: Result<string>)
      requires Valid()
      modifies this
      ensures Valid()
      ensures r == EvalText(source, Stack(old(pending)), value)
      ensures Extends(old(resolved), resolved)
      ensures r.Success? ==> pending == old(pending) && EvalText(source, Cache(resolved), value) == r
      ensures r.Failure? ==> old(pending) <= pending
      decreases |source.Keys - pending|, |value|, 3
    {
      ghost var stack := Stack(pending);
      var buffer := "";
      var pos := 0;
      ghost var done: seq<Piece> := [];
      ghost var all := Pieces(value, 0);
      ScanStart(source, stack, resolved, value);
      var found := FindRegion(value, pos);
      while found.Some?
        invariant pos <= |value| && found == FindRegion(value, pos)
        invariant Valid() && stack == Stack(pending) && pending == old(pending)
        invariant Extends(old(resolved), resolved)
        invariant Scanned(source, stack, resolved, value, all, pos, done, buffer)
        decreases |value| - pos
      {
        var start := found.value;
        var end := BraceFreeEnd(value, start + 2);
        var expr := value[start + 2..end];
        ghost var before := resolved;
        var replacement := GetReplacement(expr);
        if replacement.Failure? {
          ScanFails(source, stack, before, value, all, pos, done, buffer, start, end);
          return Failure(replacement.error);
        }
        var text := value[pos..start];
        ghost var pos0, done0, buffer0 := pos, done, buffer;
        done := done + [Text(text), Region(expr)];
        buffer := buffer + text + replacement.value;
        pos := end + 1;
        ScanStep(source, stack, before, resolved, value, all, pos0, done0, buffer0, start, end, text, expr,
                 replacement.value, pos, done, buffer);
        found := FindRegion(value, pos);
      }
      ScanEnd(source, stack, resolved, value, all, pos, done, buffer);
      r := Success(buffer + value[pos..]);
    }

    /**
     * `getReplacement`: the text for the region `${expr}` — a computed value, the key's value,
     * the default, or the region itself when the key is absent and there is no default.
     */
    method GetReplacement(expr: string) returns (r: Result<string>)
      requires Valid()
      modifies this
      ensures Valid()
      ensures r == EvalReplacement(source, Stack(old(pending)), expr)
      ensures Extends(old(resolved), resolved)
      ensures r.Success? ==> pending == old(pending) && EvalReplacement(source, Cache(resolved), expr) == r
      ensures r.Failure? ==> old(pending) <= pending
      decreases |source.Keys - pending|, |expr|, 2
    {
      var parsed := Parse(expr);
      if parsed.None? {
        return Failure(Malformed(expr));
      }
      var x := parsed.value;
      var value: Option<string> := None;
      if !x.compute {
        var v := GetValue(x.name);
        if v.Failure? {
          return Failure(v.error);
        }
        value := v.value;
      }
      if x.compute {
        if x.args.None? {
          return Failure(Fault(expr));
        }
        ParseSizes(expr, x);
        r := GetComputedReplacement(x.name, x.args.value, x.dflt);
      } else if value.None? && x.dflt.None? {
        r := Success("${" + expr + "}");
      } else if value.None? {
        r := Success(x.dflt.value);
      } else {
        r := Success(value.value);
      }
    }

    /**
     * `getComputedReplacement(String, String, String)`: the argument text split at commas,
     * each quoted argument taken literally and any other resolved like a region body; then
     * the named function is applied.
     */
    method GetComputedReplacement(name: string, arguments: string, dflt: Option<string>) returns (r: Result<string>)
      requires Valid()
      modifies this
      ensures Valid()
      ensures r == EvalCompute(source, Stack(old(pending)), name, arguments, dflt)
      ensures Extends(old(resolved), resolved)
      ensures r.Success? ==> pending == old(pending) && EvalCompute(source, Cache(resolved), name, arguments, dflt) == r
      ensures r.Failure? ==> old(pending) <= pending
      decreases |source.Keys - pending|, |arguments| + 1, 5
    {
      var args := Split(arguments);
      SplitWeight(arguments);
      ghost var stack := Stack(pending);
      var values: seq<string> := [];
      var i := 0;
      while i < |args|
        invariant 0 <= i <= |args|
        invariant Valid() && stack == Stack(pending) && pending == old(pending)
        invariant Extends(old(resolved), resolved)
        invariant EvalArgs(source, stack, args[..i]) == Success(values)
        invariant EvalArgs(source, Cache(resolved), args[..i]) == Success(values)
      {
        ghost var before := resolved;
        WeightBoundsPiece(args, i);
        var value := GetArgument(args[i]);
        if value.Failure? {
          EvalArgsFailsAt(source, stack, args, i);
          return Failure(value.error);
        }
        var v := value.value;
        ArgsStep(source, stack, before, resolved, args, i, values, v, values + [v]);
        values := values + [v];
        i := i + 1;
      }
      TakeDrop(args, |args|);
      r := ApplyComputeMethod(name, values, dflt);
    }

    /** One argument: a quoted one stands for its text, any other is resolved like a region body. */
    method GetArgument(arg: string) returns (r: Result<string>)
      requires Valid()
      modifies this
      ensures Valid()
      ensures r == ArgValue(source, Stack(old(pending)), arg)
      ensures Extends(old(resolved), resolved)
      ensures r.Success? ==> pending == old(pending) && ArgValue(source, Cache(resolved), arg) == r
      ensures r.Failure? ==> old(pending) <= pending
      decreases |source.Keys - pending|, |arg|, 3
    {
      if IsLiteral(arg) {
        return Success(LiteralText(arg));
      }
      r := GetReplacement(arg);
    }

    /**
     * `getComputedReplacement(String, ImmutableList, String)`: the function found for the name
     * applied to the values, or the default when it returns null.
     */
    static method ApplyComputeMethod(name: string, values: seq<string>, dflt: Option<string>) returns (r: Result<string>)
      ensures r == ApplyNamed(name, values, dflt)
    {
      var f := GetComputeMethod(name, |values|);
      if f.Failure? {
        return Failure(f.error);
      }
      var result: Option<string>;
      match f.value
      case Echo =>
        var echoed := EchoApply(values);
        result := Some(echoed);
      var outcome := if result.None? then dflt else result;
      if outcome.None? {
        return Failure(Fault(name));
      }
      r := Success(outcome.value);
    }

    /**
     * `getComputeMethod`: the strategies tried in declaration order until one gives a function;
     * a strategy that throws ends the search, and finding none fails the final check.
     */
    static method GetComputeMethod(name: string, count: nat) returns (r: Result<Builtin>)
      ensures r == Dispatch(name, count)
    {
      var found: Option<Builtin> := None;
      var i := 0;
      while i < |Strategies|
        invariant 0 <= i <= |Strategies|
        invariant found.None?
        invariant Chain(Strategies, name, count) == Chain(Strategies[i..], name, count)
      {
        var m := GetMethod(Strategies[i], name, count);
        if m.Failure? {
          return Failure(m.error);
        }
        assert Strategies[i..][1..] == Strategies[i + 1..];
        if m.value.Some? {
          found := m.value;
          break;
        }
        i := i + 1;
      }
      if found.None? {
        return Failure(Unresolvable(name));
      }
      r := Success(found.value);
    }
  }
}
