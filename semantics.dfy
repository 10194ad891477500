/**
 * What resolving a key means, stated without the resolver's mutable cache.
 *
 * `EvalKey(src, pending, key)` is `getValue` with no memoisation: it resolves `key` by
 * substituting every `${...}` region of its raw value, recursing into referenced keys with
 * `key` added to the set of keys under resolution, and fails on re-entering a pending key.
 * The evaluation of one raw value is parametrised by an `Oracle` that answers key
 * references: either this recursion (`Stack`) or a map of values resolved earlier (`Cache`).
 */
module Semantics {
  import opened Outcomes
  import opened Sequences
  import opened Patterns
  import opened JavaStrings
  import opened BuiltinFunctions

  /** Where the value of a key reference comes from. */
  datatype Oracle =
    /** Resolve recursively; `pending` are the keys whose resolution is under way. */
    | Stack(pending: set<string>)
    /** Read a map of values resolved before. */
    | Cache(values: map<string, string>)

  function Budget(src: map<string, string>, o: Oracle): nat
  {
    match o
    case Stack(pending) => |src.Keys - pending|
    case Cache(_) => 0
  }

  lemma PendingShrinks(src: map<string, string>, pending: set<string>, key: string)
    requires key in src && key !in pending
    ensures |src.Keys - (pending + {key})| < |src.Keys - pending|
  {
    assert src.Keys - pending == (src.Keys - (pending + {key})) + {key};
  }

  /** `getValue` without the cache: `None` for a key that is not in the source. */
  function EvalKey(src: map<string, string>, pending: set<string>, key: string): Result<Option<string>>
    decreases |src.Keys - pending|, 0, 0
  {
    if key !in src then Success(None)
    else if key in pending then Failure(Circular(key))
    else
      PendingShrinks(src, pending, key);
      var v :- EvalPieces(src, Stack(pending + {key}), Pieces(src[key], 0));
      Success(Some(v))
  }

  /** The value of a key reference according to the oracle. */
  function Lookup(src: map<string, string>, o: Oracle, key: string): Result<Option<string>>
    decreases Budget(src, o), 0, 1
  {
    match o
    case Stack(pending) => EvalKey(src, pending, key)
    case Cache(values) =>
      if key in values then Success(Some(values[key]))
      else if key in src then Failure(Unresolved(key))
      else Success(None)
  }

  function PiecesWeight(ps: seq<Piece>): nat
  {
    if |ps| == 0 then 0
    else (match ps[0] case Text(t) => |t| case Region(e) => |e|) + 1 + PiecesWeight(ps[1..])
  }

  /** The `matcher.find()` loop: text copied through, each region replaced, left to right. */
  function EvalPieces(src: map<string, string>, o: Oracle, ps: seq<Piece>): Result<string>
    decreases Budget(src, o), PiecesWeight(ps), 3
  {
    if |ps| == 0 then Success("")
    else
      var head :- match ps[0] case Text(t) => Success(t) case Region(e) => EvalReplacement(src, o, e);
      var tail :- EvalPieces(src, o, ps[1..]);
      Success(head + tail)
  }

  /** A raw value with all its regions substituted. */
  function EvalText(src: map<string, string>, o: Oracle, s: string): Result<string>
  {
    EvalPieces(src, o, Pieces(s, 0))
  }

  /** `getReplacement`: the text that replaces the region `${expr}`. */
  function EvalReplacement(src: map<string, string>, o: Oracle, expr: string): Result<string>
    decreases Budget(src, o), |expr|, 2
  {
    match Parse(expr)
    case None => Failure(Malformed(expr))
    case Some(x) =>
      if x.compute then
        match x.args
        case None => Failure(Fault(expr))
        case Some(arguments) =>
          ParseSizes(expr, x);
          EvalCompute(src, o, x.name, arguments, x.dflt)
      else
        var value :- Lookup(src, o, x.name);
        match value
        case Some(v) => Success(v)
        case None =>
          match x.dflt
          case None => Success("${" + expr + "}")
          case Some(d) => Success(d)
  }

  /** `getComputedReplacement` on the argument text: split, evaluate each argument, apply. */
  function EvalCompute(src: map<string, string>, o: Oracle, name: string, arguments: string,
                       dflt: Option<string>): Result<string>
    decreases Budget(src, o), |arguments| + 1, 5
  {
    SplitWeight(arguments);
    var values :- EvalArgs(src, o, Split(arguments));
    ApplyNamed(name, values, dflt)
  }

  /** A quoted argument stands for its text; any other is resolved like a region body. */
  function ArgValue(src: map<string, string>, o: Oracle, arg: string): Result<string>
    decreases Budget(src, o), |arg|, 3
  {
    if IsLiteral(arg) then Success(LiteralText(arg)) else EvalReplacement(src, o, arg)
  }

  /** The values of an argument list, left to right; the first failure ends the evaluation. */
  function EvalArgs(src: map<string, string>, o: Oracle, args: seq<string>): Result<seq<string>>
    decreases Budget(src, o), Weight(args), 4
  {
    if |args| == 0 then Success([])
    else
      var v :- ArgValue(src, o, args[0]);
      var vs :- EvalArgs(src, o, args[1..]);
      Success([v] + vs)
  }

  /** The constants of the `Resolver` enum, each a strategy for finding a named function. */
  datatype Strategy =
    | BuiltinStrategy
    | FunctionClassStrategy
    | StaticMethodStrategy
    | StaticFieldStrategy
    | EnumConstantStrategy

  /** `Resolver.values()`: the strategies in declaration order. */
  const Strategies: seq<Strategy> :=
    [BuiltinStrategy, FunctionClassStrategy, StaticMethodStrategy, StaticFieldStrategy, EnumConstantStrategy]

  /**
   * `Resolver.getMethod`: the built-in strategy looks the upper-cased name up among the
   * built-in functions (`None` for an unknown name, as `Enums.valueOfFunction` gives null);
   * the other four are unimplemented and throw. The argument count plays no part.
   */
  function GetMethod(s: Strategy, name: string, count: nat): Result<Option<Builtin>>
  {
    match s
    case BuiltinStrategy => Success(if UpperCase(name) == "ECHO" then Some(Echo) else None)
    case _ => Failure(Unsupported)
  }

  /** The strategies of `ss` tried in order until one yields a function. */
  function Chain(ss: seq<Strategy>, name: string, count: nat): Result<Option<Builtin>>
  {
    if |ss| == 0 then Success(None)
    else
      var m :- GetMethod(ss[0], name, count);
      if m.Some? then Success(m) else Chain(ss[1..], name, count)
  }

  /** `getComputeMethod`: the chain over all strategies, then the check that one was found. */
  function Dispatch(name: string, count: nat): Result<Builtin>
  {
    var m :- Chain(Strategies, name, count);
    match m
    case None => Failure(Unresolvable(name))
    case Some(f) => Success(f)
  }

  /** `null == result ? dflt : result`. */
  function Fallback(result: Option<string>, dflt: Option<string>): Option<string>
  {
    if result.None? then dflt else result
  }

  /** The list overload of `getComputedReplacement`; a null outcome fails when it is used. */
  function ApplyNamed(name: string, values: seq<string>, dflt: Option<string>): Result<string>
  {
    var f :- Dispatch(name, |values|);
    match Fallback(Apply(f, values), dflt)
    case Some(r) => Success(r)
    case None => Failure(Fault(name))
  }

  // ---------------------------------------------------------------------------
  // Oracle refinement: a successful evaluation only depends on the answers it received
  // ---------------------------------------------------------------------------

  /** `o2` gives every answer that `o1` gives without failing. */
  ghost predicate Refines(src: map<string, string>, o1: Oracle, o2: Oracle)
  {
    forall key :: Lookup(src, o1, key).Success? ==> Lookup(src, o2, key) == Lookup(src, o1, key)
  }

  lemma {:induction false} RefinePieces(src: map<string, string>, o1: Oracle, o2: Oracle, ps: seq<Piece>)
    requires Refines(src, o1, o2)
    requires EvalPieces(src, o1, ps).Success?
    ensures EvalPieces(src, o2, ps) == EvalPieces(src, o1, ps)
    decreases PiecesWeight(ps), 3
  {
    if |ps| > 0 {
      if ps[0].Region? {
        RefineReplacement(src, o1, o2, ps[0].expr);
      }
      RefinePieces(src, o1, o2, ps[1..]);
    }
  }

  lemma {:induction false} RefineReplacement(src: map<string, string>, o1: Oracle, o2: Oracle, expr: string)
    requires Refines(src, o1, o2)
    requires EvalReplacement(src, o1, expr).Success?
    ensures EvalReplacement(src, o2, expr) == EvalReplacement(src, o1, expr)
    decreases |expr|, 2
  {
    match Parse(expr)
    case None =>
    case Some(x) =>
      if x.compute && x.args.Some? {
        ParseSizes(expr, x);
        RefineCompute(src, o1, o2, x.name, x.args.value, x.dflt);
      }
  }

  lemma {:induction false} RefineCompute(src: map<string, string>, o1: Oracle, o2: Oracle, name: string,
                                         arguments: string, dflt: Option<string>)
    requires Refines(src, o1, o2)
    requires EvalCompute(src, o1, name, arguments, dflt).Success?
    ensures EvalCompute(src, o2, name, arguments, dflt) == EvalCompute(src, o1, name, arguments, dflt)
    decreases |arguments| + 1, 4
  {
    SplitWeight(arguments);
    RefineArgs(src, o1, o2, Split(arguments));
  }

  lemma {:induction false} RefineArgs(src: map<string, string>, o1: Oracle, o2: Oracle, args: seq<string>)
    requires Refines(src, o1, o2)
    requires EvalArgs(src, o1, args).Success?
    ensures EvalArgs(src, o2, args) == EvalArgs(src, o1, args)
    decreases Weight(args), 3
  {
    if |args| > 0 {
      if !IsLiteral(args[0]) {
        RefineReplacement(src, o1, o2, args[0]);
      }
      RefineArgs(src, o1, o2, args[1..]);
    }
  }

  /** A larger cache answers everything a smaller one answers, the same way. */
  lemma CacheGrows(src: map<string, string>, m1: map<string, string>, m2: map<string, string>)
    requires m2.Keys <= src.Keys
    requires forall k :: k in m1 ==> k in m2 && m2[k] == m1[k]
    ensures Refines(src, Cache(m1), Cache(m2))
  {
    forall key | Lookup(src, Cache(m1), key).Success?
      ensures Lookup(src, Cache(m2), key) == Lookup(src, Cache(m1), key)
    {
      if key in m1 {
        assert key in m2;
      }
    }
  }

  /** A cache whose every entry is what recursive resolution gives can stand in for it. */
  lemma CacheToStack(src: map<string, string>, m: map<string, string>, pending: set<string>)
    requires forall k :: k in m ==> EvalKey(src, pending, k) == Success(Some(m[k]))
    ensures Refines(src, Cache(m), Stack(pending))
  {
    forall key | Lookup(src, Cache(m), key).Success?
      ensures Lookup(src, Stack(pending), key) == Lookup(src, Cache(m), key)
    {
      if key !in m {
        assert key !in src;
      }
    }
  }

  // ---------------------------------------------------------------------------
  // Stratified caches: every cached value was computed from values cached before it
  // ---------------------------------------------------------------------------

  /** The entries of `R` whose rank is below `n`. */
  function Below(R: map<string, string>, rank: map<string, nat>, n: nat): map<string, string>
  {
    map k | k in R && k in rank && rank[k] < n :: R[k]
  }

  /**
   * Each cached key's value is its raw value with every region substituted, key references
   * being answered only by keys cached strictly earlier (of lower rank).
   */
  ghost predicate Stratified(src: map<string, string>, R: map<string, string>, rank: map<string, nat>)
  {
    rank.Keys == R.Keys && R.Keys <= src.Keys &&
    forall k {:trigger Stratum(src, R, rank, k)} :: k in R ==> Stratum(src, R, rank, k)
  }

  /** The cached value of `k` is its raw value substituted from the keys cached before it. */
  ghost predicate Stratum(src: map<string, string>, R: map<string, string>, rank: map<string, nat>, k: string)
  {
    k in R && k in rank && k in src &&
    EvalText(src, Cache(Below(R, rank, rank[k])), src[k]) == Success(R[k])
  }

  /**
   * Memoisation is transparent: a cached value is exactly what uncached resolution gives,
   * whatever keys are pending, provided none of them was cached before it.
   */
  lemma {:induction false} CacheAgrees(src: map<string, string>, R: map<string, string>,
                                       rank: map<string, nat>, pending: set<string>, k: string)
    requires Stratified(src, R, rank)
    requires k in R
    requires forall p :: p in pending && p in R ==> rank[p] > rank[k]
    ensures EvalKey(src, pending, k) == Success(Some(R[k]))
    decreases rank[k]
  {
    assert Stratum(src, R, rank, k);
    var below := Below(R, rank, rank[k]);
    var pending' := pending + {k};
    forall j | j in below ensures EvalKey(src, pending', j) == Success(Some(below[j])) {
      CacheAgrees(src, R, rank, pending', j);
    }
    CacheToStack(src, below, pending');
    RefinePieces(src, Cache(below), Stack(pending'), Pieces(src[k], 0));
  }

  /** Adding a key computed from the whole cache, with a rank above all others, keeps it stratified. */
  lemma StratifiedAdd(src: map<string, string>, R: map<string, string>, rank: map<string, nat>,
                      stamp: nat, key: string, v: string)
    requires Stratified(src, R, rank)
    requires forall k :: k in rank ==> rank[k] < stamp
    requires key in src && key !in R
    requires EvalText(src, Cache(R), src[key]) == Success(v)
    ensures Stratified(src, R[key := v], rank[key := stamp])
  {
    var R', rank' := R[key := v], rank[key := stamp];
    forall k | k in R' ensures Stratum(src, R', rank', k) {
      if k == key {
        assert Below(R', rank', stamp) == R;
      } else {
        assert Stratum(src, R, rank, k);
        assert Below(R', rank', rank'[k]) == Below(R, rank, rank[k]);
      }
    }
  }

  /** A stratified cache is a fixpoint: each value is its raw value substituted with the cache itself. */
  lemma StratifiedIsFixpoint(src: map<string, string>, R: map<string, string>, rank: map<string, nat>, k: string)
    requires Stratified(src, R, rank) && k in R
    ensures EvalText(src, Cache(R), src[k]) == Success(R[k])
  {
    assert Stratum(src, R, rank, k);
    CacheGrows(src, Below(R, rank, rank[k]), R);
    RefinePieces(src, Cache(Below(R, rank, rank[k])), Cache(R), Pieces(src[k], 0));
  }

  /**
   * A stratified cache read with nothing pending: each entry is the uncached resolution of its
   * key, and substituting into any raw value from the cache reproduces its entry.
   */
  lemma StratifiedSettled(src: map<string, string>, R: map<string, string>, rank: map<string, nat>)
    requires Stratified(src, R, rank)
    ensures forall k :: k in R ==> EvalKey(src, {}, k) == Success(Some(R[k]))
    ensures forall k :: k in R ==> EvalText(src, Cache(R), src[k]) == Success(R[k])
  {
    forall k | k in R
      ensures EvalKey(src, {}, k) == Success(Some(R[k]))
      ensures EvalText(src, Cache(R), src[k]) == Success(R[k])
    {
      CacheAgrees(src, R, rank, {}, k);
      StratifiedIsFixpoint(src, R, rank, k);
    }
  }

  // ---------------------------------------------------------------------------
  // Evaluation step by step, as the resolver's loops perform it
  // ---------------------------------------------------------------------------

  /** Evaluating `ps + qs` evaluates `ps`, then `qs`, and joins the two texts. */
  predicate Concatenates(src: map<string, string>, o: Oracle, ps: seq<Piece>, qs: seq<Piece>)
  {
    EvalPieces(src, o, ps).Success? ==>
      (EvalPieces(src, o, qs).Failure? ==> EvalPieces(src, o, ps + qs) == EvalPieces(src, o, qs)) &&
      (EvalPieces(src, o, qs).Success? ==>
        EvalPieces(src, o, ps + qs) == Success(EvalPieces(src, o, ps).value + EvalPieces(src, o, qs).value))
  }

  lemma {:induction false} EvalPiecesAppend(src: map<string, string>, o: Oracle, ps: seq<Piece>, qs: seq<Piece>)
    ensures Concatenates(src, o, ps, qs)
  {
    if |ps| == 0 {
      ConcatenatesEmpty(src, o, ps, qs);
    } else {
      ConcatenatesStep(src, o, ps, qs);
      EvalPiecesAppend(src, o, ps[1..], qs);
    }
  }

  lemma ConcatenatesEmpty(src: map<string, string>, o: Oracle, ps: seq<Piece>, qs: seq<Piece>)
    requires |ps| == 0
    ensures Concatenates(src, o, ps, qs)
  {
    assert ps + qs == qs;
    if EvalPieces(src, o, qs).Success? {
      assert "" + EvalPieces(src, o, qs).value == EvalPieces(src, o, qs).value;
    }
  }

  lemma ConcatenatesStep(src: map<string, string>, o: Oracle, ps: seq<Piece>, qs: seq<Piece>)
    requires |ps| > 0
    ensures Concatenates(src, o, ps[1..], qs) ==> Concatenates(src, o, ps, qs)
  {
    EvalPiecesUnfold(src, o, ps);
    assert (ps + qs)[1..] == ps[1..] + qs && (ps + qs)[0] == ps[0];
    EvalPiecesUnfold(src, o, ps + qs);
    if Concatenates(src, o, ps[1..], qs) && EvalPieces(src, o, ps).Success? && EvalPieces(src, o, qs).Success? {
      var a := PieceValue(src, o, ps[0]).value;
      var b, c := EvalPieces(src, o, ps[1..]).value, EvalPieces(src, o, qs).value;
      assert a + (b + c) == (a + b) + c;
    }
  }

  /** What the first piece contributes: its text, or its region's replacement. */
  function PieceValue(src: map<string, string>, o: Oracle, p: Piece): Result<string>
  {
    match p
    case Text(t) => Success(t)
    case Region(e) => EvalReplacement(src, o, e)
  }

  /** Two evaluations in sequence: the first failure wins, otherwise the texts are joined. */
  function Joined(h: Result<string>, t: Result<string>): Result<string>
  {
    if h.Failure? then h else if t.Failure? then t else Success(h.value + t.value)
  }

  /** One step of `EvalPieces`, stated through `PieceValue` and `Joined`. */
  lemma EvalPiecesUnfold(src: map<string, string>, o: Oracle, ps: seq<Piece>)
    requires |ps| > 0
    ensures EvalPieces(src, o, ps) == Joined(PieceValue(src, o, ps[0]), EvalPieces(src, o, ps[1..]))
  {
  }


  lemma {:induction false} EvalArgsAppend(src: map<string, string>, o: Oracle, args: seq<string>, more: seq<string>)
    requires EvalArgs(src, o, args).Success?
    ensures EvalArgs(src, o, args + more) ==
      match EvalArgs(src, o, more)
      case Success(vs) => Success(EvalArgs(src, o, args).value + vs)
      case Failure(e) => Failure(e)
  {
    if |args| == 0 {
      assert args + more == more;
      if EvalArgs(src, o, more).Success? {
        assert [] + EvalArgs(src, o, more).value == EvalArgs(src, o, more).value;
      }
    } else {
      assert (args + more)[1..] == args[1..] + more;
      assert (args + more)[0] == args[0];
      EvalArgsAppend(src, o, args[1..], more);
      if EvalArgs(src, o, more).Success? {
        var a := [ArgValue(src, o, args[0]).value];
        var b, c := EvalArgs(src, o, args[1..]).value, EvalArgs(src, o, more).value;
        assert a + (b + c) == (a + b) + c;
      }
    }
  }

  /** Text copied through is prepended to what follows it. */
  lemma EvalPiecesText(src: map<string, string>, o: Oracle, t: string, ps: seq<Piece>)
    ensures EvalPieces(src, o, [Text(t)] + ps) ==
      match EvalPieces(src, o, ps)
      case Failure(e) => Failure(e)
      case Success(u) => Success(t + u)
  {
    assert ([Text(t)] + ps)[1..] == ps;
  }

  /** A region's replacement is prepended to what follows it; its failure ends the evaluation. */
  lemma EvalPiecesRegion(src: map<string, string>, o: Oracle, x: string, ps: seq<Piece>)
    ensures EvalPieces(src, o, [Region(x)] + ps) ==
      match EvalReplacement(src, o, x)
      case Failure(e) => Failure(e)
      case Success(v) =>
        match EvalPieces(src, o, ps)
        case Failure(e) => Failure(e)
        case Success(u) => Success(v + u)
  {
    assert ([Region(x)] + ps)[1..] == ps;
  }

  /** An argument list's head value is prepended to the values of the rest. */
  lemma EvalArgsCons(src: map<string, string>, o: Oracle, a: string, args: seq<string>)
    ensures EvalArgs(src, o, [a] + args) ==
      match ArgValue(src, o, a)
      case Failure(e) => Failure(e)
      case Success(v) =>
        match EvalArgs(src, o, args)
        case Failure(e) => Failure(e)
        case Success(vs) => Success([v] + vs)
  {
    assert ([a] + args)[1..] == args;
  }

  /** The tail copied through after the last region. */
  lemma EvalPiecesOne(src: map<string, string>, o: Oracle, t: string)
    ensures EvalPieces(src, o, [Text(t)]) == Success(t)
  {
    var none: seq<Piece> := [];
    EvalPiecesText(src, o, t, none);
    assert [Text(t)] + none == [Text(t)];
    assert t + "" == t;
  }

  /** One step of the find loop: the text before a region, then its replacement. */
  lemma EvalPiecesPair(src: map<string, string>, o: Oracle, t: string, x: string)
    ensures EvalPieces(src, o, [Text(t), Region(x)]) ==
      match EvalReplacement(src, o, x)
      case Failure(e) => Failure(e)
      case Success(v) => Success(t + v)
  {
    var none: seq<Piece> := [];
    assert EvalPieces(src, o, [Region(x)]) ==
      match EvalReplacement(src, o, x) case Failure(e) => Failure(e) case Success(v) => Success(v)
    by {
      EvalPiecesRegion(src, o, x, none);
      assert [Region(x)] + none == [Region(x)];
      if EvalReplacement(src, o, x).Success? {
        var v := EvalReplacement(src, o, x).value;
        assert v + "" == v;
      }
    }
    EvalPiecesText(src, o, t, [Region(x)]);
    assert [Text(t)] + [Region(x)] == [Text(t), Region(x)];
  }

  /** A region whose replacement fails fails the whole value, whatever follows it. */
  lemma EvalPiecesFailsAt(src: map<string, string>, o: Oracle, done: seq<Piece>, t: string, x: string,
                          rest: seq<Piece>)
    requires EvalPieces(src, o, done).Success?
    requires EvalReplacement(src, o, x).Failure?
    ensures EvalPieces(src, o, done + ([Text(t), Region(x)] + rest)) == Failure(EvalReplacement(src, o, x).error)
  {
    var err := EvalReplacement(src, o, x).error;
    assert EvalPieces(src, o, [Text(t)] + ([Region(x)] + rest)) == Failure(err) by {
      EvalPiecesRegion(src, o, x, rest);
      EvalPiecesText(src, o, t, [Region(x)] + rest);
    }
    ConsPair(Text(t), Region(x), rest);
    EvalPiecesAppend(src, o, done, [Text(t), Region(x)] + rest);
  }

  /** One step of the argument loop: the next argument's value is appended. */
  lemma EvalArgsSnoc(src: map<string, string>, o: Oracle, args: seq<string>, a: string)
    requires EvalArgs(src, o, args).Success?
    requires ArgValue(src, o, a).Success?
    ensures EvalArgs(src, o, args + [a]) == Success(EvalArgs(src, o, args).value + [ArgValue(src, o, a).value])
  {
    var none: seq<string> := [];
    assert EvalArgs(src, o, [a]) == Success([ArgValue(src, o, a).value]) by {
      EvalArgsCons(src, o, a, none);
      AppendNothing([a]);
      AppendNothing([ArgValue(src, o, a).value]);
    }
    EvalArgsAppend(src, o, args, [a]);
  }

  /** An argument whose value fails makes the whole list fail, whatever follows it. */
  lemma EvalArgsFailsAt(src: map<string, string>, o: Oracle, args: seq<string>, i: nat)
    requires i < |args|
    requires EvalArgs(src, o, args[..i]).Success?
    requires ArgValue(src, o, args[i]).Failure?
    ensures EvalArgs(src, o, args) == Failure(ArgValue(src, o, args[i]).error)
  {
    assert EvalArgs(src, o, args[i..]) == Failure(ArgValue(src, o, args[i]).error) by {
      EvalArgsCons(src, o, args[i], args[i + 1..]);
      DropCons(args, i);
    }
    EvalArgsAppend(src, o, args[..i], args[i..]);
    TakeDrop(args, i);
  }

  /**
   * One step of the argument loop of `getComputedReplacement`: the value `v` of the next
   * argument, the same under the recursive reading and under the grown cache `R'`, is
   * appended under both.
   */
  lemma ArgsStep(src: map<string, string>, stack: Oracle, R: map<string, string>, R': map<string, string>,
                 args: seq<string>, i: nat, values: seq<string>, v: string, values': seq<string>)
    requires i < |args|
    requires EvalArgs(src, stack, args[..i]) == Success(values)
    requires EvalArgs(src, Cache(R), args[..i]) == Success(values)
    requires R'.Keys <= src.Keys && forall k :: k in R ==> k in R' && R'[k] == R[k]
    requires ArgValue(src, stack, args[i]) == Success(v)
    requires ArgValue(src, Cache(R'), args[i]) == Success(v)
    requires values' == values + [v]
    ensures EvalArgs(src, stack, args[..i + 1]) == Success(values')
    ensures EvalArgs(src, Cache(R'), args[..i + 1]) == Success(values')
  {
    var before, a := args[..i], args[i];
    TakeOneMore(args, i);
    assert EvalArgs(src, stack, before + [a]) == Success(values') by {
      EvalArgsSnoc(src, stack, before, a);
    }
    assert EvalArgs(src, Cache(R'), before) == Success(values) by {
      CacheGrows(src, R, R');
      RefineArgs(src, Cache(R), Cache(R'), before);
    }
    assert EvalArgs(src, Cache(R'), before + [a]) == Success(values') by {
      EvalArgsSnoc(src, Cache(R'), before, a);
    }
  }

  // ---------------------------------------------------------------------------
  // The find loop of `getValue`, one step at a time
  // ---------------------------------------------------------------------------

  /**
   * What the find loop has established about `all`, the pieces of `value`, after copying
   * the pieces `done` into `buffer`: the same text under the recursive reading and under
   * the cache `R`.
   */
  ghost predicate Scanned(src: map<string, string>, stack: Oracle, R: map<string, string>,
                          value: string, all: seq<Piece>, pos: nat, done: seq<Piece>, buffer: string)
  {
    pos <= |value| && all == done + Pieces(value, pos) &&
    EvalPieces(src, stack, done) == Success(buffer) &&
    EvalPieces(src, Cache(R), done) == Success(buffer)
  }

  /** Nothing scanned yet. */
  lemma ScanStart(src: map<string, string>, stack: Oracle, R: map<string, string>, value: string)
    ensures Scanned(src, stack, R, value, Pieces(value, 0), 0, [], "")
  {
    assert [] + Pieces(value, 0) == Pieces(value, 0);
  }

  /** Copying the text before a region and its replacement `v` extends the result. */
  lemma EvalPiecesExtend(src: map<string, string>, o: Oracle, done: seq<Piece>, buffer: string,
                         text: string, expr: string, v: string)
    requires EvalPieces(src, o, done) == Success(buffer)
    requires EvalReplacement(src, o, expr) == Success(v)
    ensures EvalPieces(src, o, done + [Text(text), Region(expr)]) == Success(buffer + text + v)
  {
    EvalPiecesPair(src, o, text, expr);
    EvalPiecesAppend(src, o, done, [Text(text), Region(expr)]);
    assert buffer + (text + v) == buffer + text + v;
  }

  /** The find loop moves past the region `value[start..end]` it found; the pieces seen so far grow by two. */
  lemma PiecesAdvance(value: string, all: seq<Piece>, pos: nat, start: nat, end: nat, done: seq<Piece>)
    requires pos <= |value| && FindRegion(value, pos) == Some(start)
    requires end == BraceFreeEnd(value, start + 2)
    requires all == done + Pieces(value, pos)
    ensures pos <= start && start + 2 < end && end + 1 <= |value|
    ensures all == (done + [Text(value[pos..start]), Region(value[start + 2..end])]) + Pieces(value, end + 1)
  {
    var step, rest := [Text(value[pos..start]), Region(value[start + 2..end])], Pieces(value, end + 1);
    PiecesStep(value, pos, start, end);
    AppendRegroup(done, step, rest);
  }

  /** A larger cache reads the pieces done so far the same way. */
  lemma CacheLift(src: map<string, string>, R: map<string, string>, R': map<string, string>,
                  done: seq<Piece>, buffer: string)
    requires R'.Keys <= src.Keys && forall k :: k in R ==> k in R' && R'[k] == R[k]
    requires EvalPieces(src, Cache(R), done) == Success(buffer)
    ensures EvalPieces(src, Cache(R'), done) == Success(buffer)
  {
    CacheGrows(src, R, R');
    RefinePieces(src, Cache(R), Cache(R'), done);
  }

  /**
   * The loop goes on with the region `expr` found at `start`, whose replacement is `v` under
   * both readings; `pos'`, `done'` and `buffer'` are the position, the pieces and the text
   * after this step.
   */
  lemma ScanStep(src: map<string, string>, stack: Oracle, R: map<string, string>, R': map<string, string>,
                 value: string, all: seq<Piece>, pos: nat, done: seq<Piece>, buffer: string, start: nat, end: nat,
                 text: string, expr: string, v: string, pos': nat, done': seq<Piece>, buffer': string)
    requires Scanned(src, stack, R, value, all, pos, done, buffer)
    requires FindRegion(value, pos) == Some(start) && end == BraceFreeEnd(value, start + 2)
    requires text == value[pos..start] && expr == value[start + 2..end]
    requires R'.Keys <= src.Keys && forall k :: k in R ==> k in R' && R'[k] == R[k]
    requires EvalReplacement(src, stack, expr) == Success(v)
    requires EvalReplacement(src, Cache(R'), expr) == Success(v)
    requires pos' == end + 1 && done' == done + [Text(text), Region(expr)] && buffer' == buffer + text + v
    ensures pos < pos'
    ensures Scanned(src, stack, R', value, all, pos', done', buffer')
  {
    assert pos' <= |value| && pos < pos' && all == done' + Pieces(value, pos') by {
      PiecesAdvance(value, all, pos, start, end, done);
    }
    assert EvalPieces(src, stack, done') == Success(buffer') by {
      EvalPiecesExtend(src, stack, done, buffer, text, expr, v);
    }
    assert EvalPieces(src, Cache(R'), done') == Success(buffer') by {
      CacheLift(src, R, R', done, buffer);
      EvalPiecesExtend(src, Cache(R'), done, buffer, text, expr, v);
    }
  }

  /** A region whose replacement fails makes the whole value fail. */
  lemma ScanFails(src: map<string, string>, stack: Oracle, R: map<string, string>, value: string,
                  all: seq<Piece>, pos: nat, done: seq<Piece>, buffer: string, start: nat, end: nat)
    requires Scanned(src, stack, R, value, all, pos, done, buffer)
    requires FindRegion(value, pos) == Some(start) && end == BraceFreeEnd(value, start + 2)
    requires start + 2 <= end <= |value|
    requires EvalReplacement(src, stack, value[start + 2..end]).Failure?
    ensures EvalPieces(src, stack, all) == Failure(EvalReplacement(src, stack, value[start + 2..end]).error)
  {
    RegionBounds(value, pos, start, end);
    var text, expr, rest := value[pos..start], value[start + 2..end], Pieces(value, end + 1);
    assert all == done + ([Text(text), Region(expr)] + rest) by {
      PiecesStep(value, pos, start, end);
    }
    EvalPiecesFailsAt(src, stack, done, text, expr, rest);
  }

  /** No region is left: the tail is copied and the value is complete under both readings. */
  lemma ScanEnd(src: map<string, string>, stack: Oracle, R: map<string, string>,
                value: string, all: seq<Piece>, pos: nat, done: seq<Piece>, buffer: string)
    requires Scanned(src, stack, R, value, all, pos, done, buffer)
    requires FindRegion(value, pos) == None
    ensures EvalPieces(src, stack, all) == Success(buffer + value[pos..])
    ensures EvalPieces(src, Cache(R), all) == Success(buffer + value[pos..])
  {
    var tail := value[pos..];
    assert Pieces(value, pos) == [Text(tail)];
    EvalPiecesOne(src, stack, tail);
    EvalPiecesAppend(src, stack, done, [Text(tail)]);
    EvalPiecesOne(src, Cache(R), tail);
    EvalPiecesAppend(src, Cache(R), done, [Text(tail)]);
  }

  // ---------------------------------------------------------------------------
  // The resolver chain
  // ---------------------------------------------------------------------------

  /** Only ECHO is found, under any capitalisation; any other name reaches a strategy that throws. */
  lemma DispatchFindsEchoOnly(name: string, count: nat)
    ensures Dispatch(name, count) ==
      if UpperCase(name) == "ECHO" then Success(Echo) else Failure(Unsupported)
  {
    var rest := Strategies[1..];
    assert Strategies[0] == BuiltinStrategy;
    if UpperCase(name) != "ECHO" {
      assert rest[0] == FunctionClassStrategy;
      assert Chain(rest, name, count) == Failure(Unsupported);
      assert Chain(Strategies, name, count) == Chain(rest, name, count);
    } else {
      assert Chain(Strategies, name, count) == Success(Some(Echo));
    }
  }

  /** The name is matched letter by letter, ignoring case. */
  lemma DispatchIgnoresCase(name: string, count: nat)
    ensures Dispatch(name, count).Success? <==>
      |name| == 4 && forall i :: 0 <= i < 4 ==> name[i] == "ECHO"[i] || name[i] == "echo"[i]
  {
    DispatchFindsEchoOnly(name, count);
    var u := UpperCase(name);
    if |name| == 4 {
      if u == "ECHO" {
        forall i | 0 <= i < 4 ensures name[i] == "ECHO"[i] || name[i] == "echo"[i] {
          assert UpperChar(name[i]) == "ECHO"[i];
        }
      }
      if forall i :: 0 <= i < 4 ==> name[i] == "ECHO"[i] || name[i] == "echo"[i] {
        forall i | 0 <= i < 4 ensures u[i] == "ECHO"[i] {
          assert u[i] == UpperChar(name[i]);
        }
        assert u == "ECHO";
      }
    }
  }

  /** Calling ECHO joins the argument values; the default is never needed. */
  lemma ApplyEcho(name: string, values: seq<string>, dflt: Option<string>)
    requires UpperCase(name) == "ECHO"
    ensures ApplyNamed(name, values, dflt) == Success(Join(values))
  {
    DispatchFindsEchoOnly(name, |values|);
  }

  /** Calling anything else fails, whatever the arguments and the default. */
  lemma ApplyUnknown(name: string, values: seq<string>, dflt: Option<string>)
    requires UpperCase(name) != "ECHO"
    ensures ApplyNamed(name, values, dflt) == Failure(Unsupported)
  {
    DispatchFindsEchoOnly(name, |values|);
  }

  /** The arguments are all evaluated before the function is looked up. */
  lemma ComputeOrder(src: map<string, string>, o: Oracle, name: string, arguments: string, dflt: Option<string>)
    ensures EvalCompute(src, o, name, arguments, dflt) ==
      match EvalArgs(src, o, Split(arguments))
      case Failure(e) => Failure(e)
      case Success(vs) =>
        if UpperCase(name) == "ECHO" then Success(Join(vs)) else Failure(Unsupported)
  {
    if EvalArgs(src, o, Split(arguments)).Success? {
      DispatchFindsEchoOnly(name, |EvalArgs(src, o, Split(arguments)).value|);
    }
  }

  // ---------------------------------------------------------------------------
  // What substitution does to one value
  // ---------------------------------------------------------------------------

  /** A key or function name: what the name group of the expression grammar captures. */
  predicate IsName(b: string)
  {
    |b| > 0 && forall k :: 0 <= k < |b| ==> IsNameChar(b[k])
  }

  /** A value without any `${...}` region is its own resolution. */
  lemma PlainTextUnchanged(src: map<string, string>, o: Oracle, s: string)
    requires forall m :: !MatchAt(s, m)
    ensures EvalText(src, o, s) == Success(s)
  {
    if |s| > 0 {
      assert !MatchAt(s, 0);
    }
    NoMatchNoRegion(s, 0);
    assert s[0..] == s;
    assert Pieces(s, 0) == [Text(s)] + [];
    EvalPiecesText(src, o, s, []);
    assert s + "" == s;
  }

  lemma {:induction false} NoMatchNoRegion(s: string, from: nat)
    requires from <= |s|
    requires forall m :: !MatchAt(s, m)
    ensures FindRegion(s, from) == None
    decreases |s| - from
  {
    if from < |s| {
      assert !MatchAt(s, from);
      NoMatchNoRegion(s, from + 1);
    }
  }

  /** `${b}` becomes the value of key `b`, or stays as written when there is no such key. */
  lemma ReferenceReplaced(src: map<string, string>, o: Oracle, b: string)
    requires IsName(b)
    ensures EvalReplacement(src, o, b) ==
      match Lookup(src, o, b)
      case Failure(e) => Failure(e)
      case Success(None) => Success("${" + b + "}")
      case Success(Some(v)) => Success(v)
  {
    var x := Expr(false, b, None, None);
    assert Render(x) == b;
    ParseRender(x);
  }

  /** `${b:d}` becomes the value of key `b`, or the default text `d` as written when there is none. */
  lemma DefaultReplaced(src: map<string, string>, o: Oracle, b: string, d: string)
    requires IsName(b) && NoLineTerminator(d)
    ensures EvalReplacement(src, o, b + ":" + d) ==
      match Lookup(src, o, b)
      case Failure(e) => Failure(e)
      case Success(None) => Success(d)
      case Success(Some(v)) => Success(v)
  {
    var x := Expr(false, b, None, Some(d));
    assert Render(x) == b + ":" + d;
    ParseRender(x);
  }

  /** `${$f(a)}` evaluates the argument list `a` and calls `f`. */
  lemma ComputedReplaced(src: map<string, string>, o: Oracle, f: string, a: string)
    requires IsName(f) && |a| > 0 && forall k :: 0 <= k < |a| ==> IsArgChar(a[k])
    ensures EvalReplacement(src, o, "$" + f + "(" + a + ")") == EvalCompute(src, o, f, a, None)
  {
    var x := Expr(true, f, Some(a), None);
    assert Render(x) == "$" + f + "(" + a + ")";
    ParseRender(x);
  }

  /** `${$f}` and `${$f:d}`: a computed expression without an argument list fails. */
  lemma ComputedWithoutArguments(src: map<string, string>, o: Oracle, f: string, dflt: Option<string>)
    requires IsName(f) && (dflt.Some? ==> NoLineTerminator(dflt.value))
    ensures EvalReplacement(src, o, "$" + f + DefaultText(dflt)) == Failure(Fault("$" + f + DefaultText(dflt)))
  {
    var x := Expr(true, f, None, dflt);
    assert Render(x) == "$" + f + DefaultText(dflt);
    ParseRender(x);
  }

  /** Text the expression grammar does not match is rejected. */
  lemma MalformedRejected(src: map<string, string>, o: Oracle)
    ensures EvalReplacement(src, o, ":x") == Failure(Malformed(":x"))
    ensures EvalReplacement(src, o, "$$x") == Failure(Malformed("$$x"))
    ensures EvalReplacement(src, o, "a(b") == Failure(Malformed("a(b"))
    ensures EvalReplacement(src, o, "a()") == Failure(Malformed("a()"))
  {
    assert NameRun(":x") == 0;
    assert NameRun("$x") == 0;
    assert NameRun("a(b") == 1;
    assert ArgRun("b") == 1;
    assert NameRun("a()") == 1;
    assert ArgRun(")") == 0;
  }

  /** A computed call begins with `$`, and an argument list opens with `(`. */
  lemma ParseMarks(t: string)
    ensures Parse(t).Some? && Parse(t).value.compute ==> '$' in t
    ensures Parse(t).Some? && Parse(t).value.args.Some? ==> '(' in t
  {
    if Parse(t).Some? {
      var x := Parse(t).value;
      RenderParse(t, x);
      var n := if x.compute then 1 else 0;
      if x.compute {
        assert t[0] == '$';
      }
      if x.args.Some? {
        assert t[n + |x.name|] == '(';
      }
    }
  }

  /**
   * An argument of a computed call is never itself a computed call and never carries an
   * argument list: the argument text has no `$`, `(` or `)`, so at most it is a key with a
   * default.
   */
  lemma ArgumentsArePlain(expr: string, x: Expr, i: nat)
    requires Parse(expr) == Some(x) && x.compute && x.args.Some?
    requires i < |Split(x.args.value)|
    ensures Parse(Split(x.args.value)[i]).Some? ==>
      !Parse(Split(x.args.value)[i]).value.compute && Parse(Split(x.args.value)[i]).value.args.None?
  {
    var a := x.args.value;
    RenderParse(expr, x);
    SplitChars(a);
    var arg := Split(a)[i];
    assert forall c :: c in arg ==> c in a;
    assert forall c :: c in a ==> IsArgChar(c);
    ParseMarks(arg);
  }

  /** The empty argument text is malformed. */
  lemma EmptyArgumentMalformed(src: map<string, string>, o: Oracle)
    ensures ArgValue(src, o, "") == Failure(Malformed(""))
  {
    assert NameRun("") == 0;
  }

  /**
   * An empty piece in a computed call's argument list, after arguments that evaluate, fails
   * the call as malformed.
   */
  lemma EmptyArgumentRejected(src: map<string, string>, o: Oracle, name: string, arguments: string,
                              dflt: Option<string>, i: nat)
    requires i < |Split(arguments)| && Split(arguments)[i] == ""
    requires EvalArgs(src, o, Split(arguments)[..i]).Success?
    ensures EvalCompute(src, o, name, arguments, dflt) == Failure(Malformed(""))
  {
    EmptyArgumentMalformed(src, o);
    EvalArgsFailsAt(src, o, Split(arguments), i);
  }

  /** A leading comma makes the first argument empty, so the call is malformed. */
  lemma LeadingCommaRejected(src: map<string, string>, o: Oracle, name: string, rest: string,
                             dflt: Option<string>)
    requires |rest| > 0 && rest[|rest| - 1] != ','
    ensures EvalCompute(src, o, name, "," + rest, dflt) == Failure(Malformed(""))
  {
    var s := "," + rest;
    assert s == "" + "," + rest;
    SplitAllCons("", rest);
    assert s[|s| - 1] == rest[|rest| - 1];
    SplitKeepsAll(s);
    assert Split(s)[0] == "" && Split(s)[..0] == [];
    EmptyArgumentRejected(src, o, name, s, dflt, 0);
  }

  /** Two commas in a row after an argument that evaluates make the call malformed. */
  lemma DoubledCommaRejected(src: map<string, string>, o: Oracle, name: string, a: string, rest: string,
                             dflt: Option<string>)
    requires ',' !in a && ArgValue(src, o, a).Success?
    requires |rest| > 0 && rest[|rest| - 1] != ','
    ensures EvalCompute(src, o, name, a + ",," + rest, dflt) == Failure(Malformed(""))
  {
    var s := a + ",," + rest;
    assert s == a + "," + ("," + rest);
    assert "," + rest == "" + "," + rest;
    SplitAllCons(a, "," + rest);
    SplitAllCons("", rest);
    assert s[|s| - 1] == rest[|rest| - 1];
    SplitKeepsAll(s);
    var ps := Split(s);
    assert ps == [a] + ([""] + SplitAll(rest));
    assert ps[1] == "" && ps[..1] == [a];
    assert EvalArgs(src, o, [a]).Success? by {
      var none: seq<string> := [];
      EvalArgsCons(src, o, a, none);
      AppendNothing([a]);
    }
    EmptyArgumentRejected(src, o, name, s, dflt, 1);
  }

  /** An argument list of commas only passes no arguments at all: ECHO then gives "". */
  lemma CommasOnlyCall(src: map<string, string>, o: Oracle, name: string, arguments: string,
                       dflt: Option<string>)
    requires |arguments| > 0 && forall k :: 0 <= k < |arguments| ==> arguments[k] == ','
    ensures EvalCompute(src, o, name, arguments, dflt) == ApplyNamed(name, [], dflt)
    ensures UpperCase(name) == "ECHO" ==> EvalCompute(src, o, name, arguments, dflt) == Success("")
  {
    CommasOnly(arguments);
    if UpperCase(name) == "ECHO" {
      ApplyEcho(name, [], dflt);
    }
  }

  // ---------------------------------------------------------------------------
  // Worked examples
  // ---------------------------------------------------------------------------

  lemma EchoIsUpperCaseEcho()
    ensures UpperCase("echo") == "ECHO"
  {
    var u := UpperCase("echo");
    assert u[0] == 'E' && u[1] == 'C' && u[2] == 'H' && u[3] == 'O';
  }

  /** Two arguments, each a literal or a reference to a missing key, evaluate independently. */
  lemma ArgsOfTwo(src: map<string, string>, o: Oracle, x: string, y: string, vx: string, vy: string)
    requires ArgValue(src, o, x) == Success(vx) && ArgValue(src, o, y) == Success(vy)
    ensures EvalArgs(src, o, [x, y]) == Success([vx, vy])
  {
    var none: seq<string> := [];
    assert EvalArgs(src, o, [y]) == Success([vy]) by {
      assert EvalArgs(src, o, none) == Success([]);
      EvalArgsCons(src, o, y, none);
      assert [y] + none == [y];
      assert [vy] + [] == [vy];
    }
    EvalArgsCons(src, o, x, [y]);
    assert [x] + [y] == [x, y];
    assert [vx] + [vy] == [vx, vy];
  }

  /** `${$echo(x,y)}` with two comma-free arguments echoes their two values. */
  lemma EchoOfTwoArguments(src: map<string, string>, o: Oracle, x: string, y: string, vx: string, vy: string)
    requires ',' !in x && ',' !in y && y != ""
    requires forall k :: 0 <= k < |x + "," + y| ==> IsArgChar((x + "," + y)[k])
    requires ArgValue(src, o, x) == Success(vx) && ArgValue(src, o, y) == Success(vy)
    ensures EvalReplacement(src, o, "$echo(" + x + "," + y + ")") == Success(vx + " " + vy)
  {
    EchoIsUpperCaseEcho();
    assert IsName("echo");
    EchoCallText(x, y);
    ComputedReplaced(src, o, "echo", x + "," + y);
    SplitPair(x, y);
    ArgsOfTwo(src, o, x, y, vx, vy);
    ComputeOrder(src, o, "echo", x + "," + y, None);
    EchoOfTwo(vx, vy);
  }

  lemma EchoCallText(x: string, y: string)
    ensures "$echo(" + x + "," + y + ")" == "$" + "echo" + "(" + (x + "," + y) + ")"
  {
  }

  /** A character allowed inside a quoted argument. */
  predicate IsPlainChar(c: char)
  {
    IsArgChar(c) && c != ',' && c != '\''
  }

  /** The text facts about `$echo('a','b')` that its evaluation relies on. */
  lemma QuotedArguments(a: char, b: char, x: string, y: string)
    requires IsPlainChar(a) && IsPlainChar(b)
    requires x == ['\'', a, '\''] && y == ['\'', b, '\'']
    ensures ',' !in x && ',' !in y && y != ""
    ensures forall k :: 0 <= k < |x + "," + y| ==> IsArgChar((x + "," + y)[k])
    ensures IsLiteral(x) && LiteralText(x) == [a] && IsLiteral(y) && LiteralText(y) == [b]
    ensures "$echo(" + x + "," + y + ")" == ['$', 'e', 'c', 'h', 'o', '(', '\'', a, '\'', ',', '\'', b, '\'', ')']
    ensures [a] + " " + [b] == [a, ' ', b]
  {
    QuotedIsLiteral([a]);
    QuotedIsLiteral([b]);
    assert x == "'" + [a] + "'" && y == "'" + [b] + "'";
    var t := x + "," + y;
    assert t == ['\'', a, '\'', ',', '\'', b, '\''];
  }

  /** `${$echo('a','b')}` is "a b", for any two plain characters a and b. */
  lemma EchoOfLiterals(src: map<string, string>, o: Oracle, a: char, b: char)
    requires IsPlainChar(a) && IsPlainChar(b)
    ensures EvalReplacement(src, o, ['$', 'e', 'c', 'h', 'o', '(', '\'', a, '\'', ',', '\'', b, '\'', ')'])
      == Success([a, ' ', b])
  {
    var x, y := ['\'', a, '\''], ['\'', b, '\''];
    QuotedArguments(a, b, x, y);
    EchoOfTwoArguments(src, o, x, y, [a], [b]);
  }

  /** An argument that is not a literal and names no key stays as it was written, in `${...}`. */
  lemma MissingKeyArgument(src: map<string, string>, o: Oracle, x: string)
    requires IsName(x) && !IsLiteral(x) && Lookup(src, o, x) == Success(None)
    ensures ArgValue(src, o, x) == Success("${" + x + "}")
  {
    ReferenceReplaced(src, o, x);
  }

  /**
   * A quoted argument cannot hold a comma: `${$echo('a,b')}` splits into `'a` and `b'`, which
   * are not literals and are looked up as keys; when there are no such keys both stay as written.
   */
  lemma EchoSplitsQuotedComma(src: map<string, string>, o: Oracle, a: char, b: char)
    requires IsPlainChar(a) && IsPlainChar(b) && a != ':' && b != ':'
    requires Lookup(src, o, ['\'', a]) == Success(None) && Lookup(src, o, [b, '\'']) == Success(None)
    ensures var x, y := ['\'', a], [b, '\''];
      EvalReplacement(src, o, "$echo(" + x + "," + y + ")") == Success(("${" + x + "}") + " " + ("${" + y + "}"))
  {
    var x, y := ['\'', a], [b, '\''];
    assert !IsLiteral(x) && IsName(x) && !IsLiteral(y) && IsName(y);
    MissingKeyArgument(src, o, x);
    MissingKeyArgument(src, o, y);
    assert x + "," + y == ['\'', a, ',', b, '\''];
    EchoOfTwoArguments(src, o, x, y, "${" + x + "}", "${" + y + "}");
  }

  /**
   * Substituted text is not scanned again: in `${a${b}}` only the inner `${b}` is a region,
   * so with `b` = "x" the result is the literal text "${ax}".
   */
  lemma SubstitutionIsSinglePass(src: map<string, string>, o: Oracle)
    requires Lookup(src, o, "b") == Success(Some("x"))
    ensures EvalText(src, o, "${a${b}}") == Success("${ax}")
  {
    NestedRegionPieces();
    assert EvalReplacement(src, o, "b") == Success("x") by {
      ReferenceReplaced(src, o, "b");
    }
    EvalTextRegionText(src, o, "${a", "b", "}", "x");
    assert "${a" + "x" + "}" == "${ax}";
  }

  /** Text, one region, text: the region's replacement between the two texts. */
  lemma EvalTextRegionText(src: map<string, string>, o: Oracle, a: string, x: string, c: string, v: string)
    requires EvalReplacement(src, o, x) == Success(v)
    ensures EvalPieces(src, o, [Text(a), Region(x), Text(c)]) == Success(a + v + c)
  {
    var last := [Text(c)];
    assert EvalPieces(src, o, last) == Success(c) by {
      var none: seq<Piece> := [];
      EvalPiecesText(src, o, c, none);
      assert last == [Text(c)] + none;
      assert c + "" == c;
    }
    var tail := [Region(x), Text(c)];
    assert EvalPieces(src, o, tail) == Success(v + c) by {
      EvalPiecesRegion(src, o, x, last);
      assert tail == [Region(x)] + last;
    }
    assert EvalPieces(src, o, [Text(a)] + tail) == Success(a + (v + c)) by {
      EvalPiecesText(src, o, a, tail);
    }
    assert [Text(a)] + tail == [Text(a), Region(x), Text(c)];
    assert a + (v + c) == a + v + c;
  }

  // ---------------------------------------------------------------------------
  // Circular references
  // ---------------------------------------------------------------------------

  /** A value that is one region and nothing else resolves to that region's replacement. */
  lemma SoleRegionEval(src: map<string, string>, o: Oracle, x: string)
    requires BraceFree(x)
    ensures EvalText(src, o, "${" + x + "}") == EvalReplacement(src, o, x)
  {
    SoleRegion(x);
    var none: seq<Piece> := [];
    assert EvalPieces(src, o, [Text("")]) == Success("") by {
      assert EvalPieces(src, o, none) == Success("");
      EvalPiecesText(src, o, "", none);
      assert [Text("")] + none == [Text("")];
      assert "" + "" == "";
    }
    assert EvalPieces(src, o, [Region(x), Text("")]) == EvalReplacement(src, o, x) by {
      EvalPiecesRegion(src, o, x, [Text("")]);
      assert [Region(x)] + [Text("")] == [Region(x), Text("")];
      if EvalReplacement(src, o, x).Success? {
        var v := EvalReplacement(src, o, x).value;
        assert v + "" == v;
      }
    }
    EvalPiecesText(src, o, "", [Region(x), Text("")]);
    assert [Text("")] + [Region(x), Text("")] == [Text(""), Region(x), Text("")];
    if EvalReplacement(src, o, x).Success? {
      var v := EvalReplacement(src, o, x).value;
      assert "" + v == v;
    }
  }

  /** A key whose whole value is `${b}` takes the value of `b`, resolved with the key pending. */
  lemma AliasResolved(src: map<string, string>, pending: set<string>, a: string, b: string)
    requires IsName(b) && a in src && src[a] == "${" + b + "}" && a !in pending
    ensures EvalKey(src, pending, a) ==
      match EvalKey(src, pending + {a}, b)
      case Failure(e) => Failure(e)
      case Success(None) => Success(Some("${" + b + "}"))
      case Success(Some(v)) => Success(Some(v))
  {
    RegionFree(b);
    var o := Stack(pending + {a});
    SoleRegionEval(src, o, b);
    ReferenceReplaced(src, o, b);
    assert Lookup(src, o, b) == EvalKey(src, pending + {a}, b);
  }

  /** A key whose value is exactly `${key}` refers to itself and fails. */
  lemma SelfReferenceFails(src: map<string, string>, pending: set<string>, a: string)
    requires IsName(a) && a in src && src[a] == "${" + a + "}" && a !in pending
    ensures EvalKey(src, pending, a) == Failure(Circular(a))
  {
    AliasResolved(src, pending, a, a);
  }

  /** Two keys that refer to each other fail on re-entering the first one. */
  lemma MutualReferenceFails(src: map<string, string>, pending: set<string>, a: string, b: string)
    requires IsName(a) && IsName(b) && a != b
    requires a in src && src[a] == "${" + b + "}" && b in src && src[b] == "${" + a + "}"
    requires a !in pending && b !in pending
    ensures EvalKey(src, pending, a) == Failure(Circular(a))
  {
    AliasResolved(src, pending + {a}, b, a);
    AliasResolved(src, pending, a, b);
  }

  lemma RegionFree(a: string)
    requires IsName(a)
    ensures |a| > 0 && forall j :: 0 <= j < |a| ==> !IsBrace(a[j])
  {
    forall j | 0 <= j < |a| ensures !IsBrace(a[j]) {
      assert IsNameChar(a[j]);
    }
  }

  /** A successful resolution does not depend on which other keys were pending. */
  lemma {:induction false} PendingIrrelevant(src: map<string, string>, p1: set<string>, p2: set<string>, k: string)
    requires p1 <= p2
    requires EvalKey(src, p2, k).Success?
    ensures EvalKey(src, p1, k) == EvalKey(src, p2, k)
    decreases |src.Keys - p2|
  {
    if k in src {
      PendingShrinks(src, p2, k);
      forall j | Lookup(src, Stack(p2 + {k}), j).Success?
        ensures Lookup(src, Stack(p1 + {k}), j) == Lookup(src, Stack(p2 + {k}), j)
      {
        PendingIrrelevant(src, p1 + {k}, p2 + {k}, j);
      }
      RefinePieces(src, Stack(p2 + {k}), Stack(p1 + {k}), Pieces(src[k], 0));
    }
  }

  // ---------------------------------------------------------------------------
  // The cache-only error never escapes resolution
  // ---------------------------------------------------------------------------

  /** An outcome that is not the cache-only `Unresolved` failure. */
  predicate NotUnresolved<T>(r: Result<T>)
  {
    r.Failure? ==> !r.error.Unresolved?
  }

  /**
   * Recursive resolution never fails with `Unresolved`: that error only arises when a cache
   * is asked for a key it does not hold, and the resolver itself has no such failure.
   */
  lemma {:induction false} KeyNeverUnresolved(src: map<string, string>, pending: set<string>, key: string)
    ensures NotUnresolved(EvalKey(src, pending, key))
    decreases |src.Keys - pending|, 0, 0
  {
    if key in src && key !in pending {
      PendingShrinks(src, pending, key);
      PiecesNeverUnresolved(src, pending + {key}, Pieces(src[key], 0));
    }
  }

  lemma {:induction false} PiecesNeverUnresolved(src: map<string, string>, pending: set<string>, ps: seq<Piece>)
    ensures NotUnresolved(EvalPieces(src, Stack(pending), ps))
    decreases |src.Keys - pending|, PiecesWeight(ps), 3
  {
    if |ps| > 0 {
      if ps[0].Region? {
        ReplacementNeverUnresolved(src, pending, ps[0].expr);
      }
      PiecesNeverUnresolved(src, pending, ps[1..]);
    }
  }

  lemma {:induction false} ReplacementNeverUnresolved(src: map<string, string>, pending: set<string>, expr: string)
    ensures NotUnresolved(EvalReplacement(src, Stack(pending), expr))
    decreases |src.Keys - pending|, |expr|, 2
  {
    match Parse(expr)
    case None =>
    case Some(x) =>
      if x.compute && x.args.Some? {
        ParseSizes(expr, x);
        ComputeNeverUnresolved(src, pending, x.name, x.args.value, x.dflt);
      } else if !x.compute {
        KeyNeverUnresolved(src, pending, x.name);
      }
  }

  lemma {:induction false} ComputeNeverUnresolved(src: map<string, string>, pending: set<string>, name: string,
                                                  arguments: string, dflt: Option<string>)
    ensures NotUnresolved(EvalCompute(src, Stack(pending), name, arguments, dflt))
    decreases |src.Keys - pending|, |arguments| + 1, 5
  {
    SplitWeight(arguments);
    ArgsNeverUnresolved(src, pending, Split(arguments));
    var values := EvalArgs(src, Stack(pending), Split(arguments));
    if values.Success? {
      DispatchFindsEchoOnly(name, |values.value|);
    }
  }

  lemma {:induction false} ArgsNeverUnresolved(src: map<string, string>, pending: set<string>, args: seq<string>)
    ensures NotUnresolved(EvalArgs(src, Stack(pending), args))
    decreases |src.Keys - pending|, Weight(args), 4
  {
    if |args| > 0 {
      if !IsLiteral(args[0]) {
        ReplacementNeverUnresolved(src, pending, args[0]);
      }
      ArgsNeverUnresolved(src, pending, args[1..]);
    }
  }
}
