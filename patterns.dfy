/**
 * The three regular expressions of the resolver, written as exact scanners over strings:
 *   REPLACE_PATTERN      \$\{([^}{]+)\}                                  (found repeatedly)
 *   REPLACE_KEY_PATTERN  (\$)?([^$}{:()]+)(?:\(([^$}{()]+)\))?(?::(.*))?  (matched whole)
 *   LITERAL_PATTERN      '([^}{$]+)'                                      (matched whole)
 */
module Patterns {
  import opened Outcomes
  import opened Sequences

  // ---------------------------------------------------------------------------
  // REPLACE_PATTERN: locating `${...}` regions
  // ---------------------------------------------------------------------------

  predicate IsBrace(c: char) { c == '{' || c == '}' }

  /** What the group `[^}{]+` accepts: a non-empty text without braces. */
  predicate BraceFree(x: string)
  {
    |x| > 0 && forall k :: 0 <= k < |x| ==> !IsBrace(x[k])
  }

  /** The end of the run of non-brace characters that starts at `i`. */
  function BraceFreeEnd(s: string, i: nat): (e: nat)
    requires i <= |s|
    ensures i <= e <= |s|
    decreases |s| - i
  {
    if i == |s| || IsBrace(s[i]) then i else BraceFreeEnd(s, i + 1)
  }

  /** The run really is the longest brace-free stretch from `i`. */
  lemma {:induction false} BraceFreeEndSpec(s: string, i: nat)
    requires i <= |s|
    ensures forall k :: i <= k < BraceFreeEnd(s, i) ==> !IsBrace(s[k])
    ensures BraceFreeEnd(s, i) < |s| ==> IsBrace(s[BraceFreeEnd(s, i)])
    decreases |s| - i
  {
    if i < |s| && !IsBrace(s[i]) {
      BraceFreeEndSpec(s, i + 1);
    }
  }

  /** REPLACE_PATTERN matches at `i`: `${`, at least one non-brace character, then `}`. */
  predicate MatchAt(s: string, i: nat)
  {
    i + 2 <= |s| && s[i] == '$' && s[i + 1] == '{' &&
    var e := BraceFreeEnd(s, i + 2); e > i + 2 && e < |s| && s[e] == '}'
  }

  /** `Matcher.find()` from position `from`: the leftmost match start at or after `from`. */
  function FindRegion(s: string, from: nat): (r: Option<nat>)
    requires from <= |s|
    ensures r.Some? ==> from <= r.value && MatchAt(s, r.value)
    decreases |s| - from
  {
    if from == |s| then None
    else if MatchAt(s, from) then Some(from)
    else FindRegion(s, from + 1)
  }

  /** The region found is the leftmost one; when none is found there is none at all. */
  lemma {:induction false} FindRegionLeftmost(s: string, from: nat)
    requires from <= |s|
    ensures FindRegion(s, from).Some? ==> forall m :: from <= m < FindRegion(s, from).value ==> !MatchAt(s, m)
    ensures FindRegion(s, from).None? ==> forall m :: from <= m ==> !MatchAt(s, m)
    decreases |s| - from
  {
    if from < |s| && !MatchAt(s, from) {
      FindRegionLeftmost(s, from + 1);
    }
  }

  /** A raw value cut into the text copied through and the expressions of its regions. */
  datatype Piece = Text(text: string) | Region(expr: string)

  /** The pieces of `s[from..]` in the order the find loop visits them. */
  function Pieces(s: string, from: nat): (ps: seq<Piece>)
    requires from <= |s|
    ensures |ps| >= 1
    decreases |s| - from
  {
    match FindRegion(s, from)
    case None => [Text(s[from..])]
    case Some(i) =>
      var e := BraceFreeEnd(s, i + 2);
      [Text(s[from..i]), Region(s[i + 2..e])] + Pieces(s, e + 1)
  }

  /** The text a piece stands for in the raw value. */
  function Unparse(p: Piece): string
  {
    match p
    case Text(t) => t
    case Region(e) => "${" + e + "}"
  }

  function Flatten(ps: seq<Piece>): string
  {
    if |ps| == 0 then "" else Unparse(ps[0]) + Flatten(ps[1..])
  }

  lemma {:induction false} FlattenAppend(ps: seq<Piece>, qs: seq<Piece>)
    ensures Flatten(ps + qs) == Flatten(ps) + Flatten(qs)
  {
    if |ps| == 0 {
      assert ps + qs == qs;
    } else {
      assert (ps + qs)[1..] == ps[1..] + qs;
      FlattenAppend(ps[1..], qs);
    }
  }

  /**
   * The scan partitions the value: text outside the matched regions and the regions
   * themselves, put back in order, give the value again.
   */
  lemma {:induction false} PiecesFlatten(s: string, from: nat)
    requires from <= |s|
    ensures Reassembles(s, from)
    decreases |s| - from
  {
    if FindRegion(s, from).None? {
      FlattenNone(s, from);
    } else {
      var next := FlattenNext(s, from);
      PiecesFlatten(s, next);
    }
  }

  /** The pieces found from `from` on put back together give the value from there. */
  predicate Reassembles(s: string, from: nat)
    requires from <= |s|
  {
    Flatten(Pieces(s, from)) == s[from..]
  }

  /** No region is left: the rest of the value is one text piece, which flattens to itself. */
  lemma FlattenNone(s: string, from: nat)
    requires from <= |s| && FindRegion(s, from) == None
    ensures Reassembles(s, from)
  {
    var t := s[from..];
    assert Pieces(s, from) == [Text(t)];
    assert [Text(t)][1..] == [];
    assert t + "" == t;
  }

  /**
   * One region found: the scan goes on after it, and its text together with the flattened
   * rest gives the value from `from` on.
   */
  lemma FlattenStep(s: string, from: nat, i: nat, e: nat, next: nat)
    requires from <= |s| && FindRegion(s, from) == Some(i) && e == BraceFreeEnd(s, i + 2)
    requires next == e + 1
    ensures from < next <= |s|
    ensures Reassembles(s, next) ==> Reassembles(s, from)
  {
    var t, x, rest := s[from..i], s[i + 2..e], Pieces(s, next);
    PiecesStep(s, from, i, e);
    if Flatten(rest) == s[next..] {
      FlattenAppend([Text(t), Region(x)], rest);
      FlattenPair(t, x);
      MatchText(s, i, e);
      SliceSplit(s, from, i);
      AppendRegroup(t, Unparse(Region(x)), s[next..]);
    }
  }

  /** Where the scan resumes after the region it finds from `from`. */
  lemma FlattenNext(s: string, from: nat) returns (next: nat)
    requires from <= |s| && FindRegion(s, from).Some?
    ensures from < next <= |s|
    ensures Reassembles(s, next) ==> Reassembles(s, from)
  {
    var i := FindRegion(s, from).value;
    var e := BraceFreeEnd(s, i + 2);
    next := e + 1;
    FlattenStep(s, from, i, e, next);
  }

  /** The text before a region and the region, put back. */
  lemma FlattenPair(t: string, x: string)
    ensures Flatten([Text(t), Region(x)]) == t + Unparse(Region(x))
  {
    var one := [Region(x)];
    assert [Text(t), Region(x)][1..] == one;
    assert one[1..] == [];
    assert Flatten(one) == Unparse(Region(x)) + "";
    assert Unparse(Region(x)) + "" == Unparse(Region(x));
  }

  /** A match at `i` spells `${`, the expression, `}` and then the rest of the value. */
  lemma MatchText(s: string, i: nat, e: nat)
    requires MatchAt(s, i) && e == BraceFreeEnd(s, i + 2)
    ensures s[i..] == Unparse(Region(s[i + 2..e])) + s[e + 1..]
  {
    var x := s[i + 2..e];
    var w := Unparse(Region(x)) + s[e + 1..];
    assert |s[i..]| == |w|;
    forall k | 0 <= k < |w| ensures s[i..][k] == w[k] {
      if k == 0 {
      } else if k == 1 {
      } else if k < |x| + 2 {
        assert w[k] == x[k - 2];
      } else if k == |x| + 2 {
      } else {
        assert w[k] == s[e + 1..][k - |x| - 3];
      }
    }
  }

  lemma {:induction false} BraceFreeEndAt(s: string, i: nat, j: nat)
    requires i <= j <= |s|
    requires forall k :: i <= k < j ==> !IsBrace(s[k])
    requires j == |s| || IsBrace(s[j])
    ensures BraceFreeEnd(s, i) == j
    decreases j - i
  {
    if i < j {
      BraceFreeEndAt(s, i + 1, j);
    }
  }

  /** In `${x}`, with `x` brace-free, the match starts at 0 and its expression is `x`. */
  lemma SoleRegionMatch(x: string, s: string)
    requires BraceFree(x)
    requires s == "${" + x + "}"
    ensures BraceFreeEnd(s, 2) == 2 + |x| && FindRegion(s, 0) == Some(0) && s[2..2 + |x|] == x
  {
    var e := 2 + |x|;
    forall k | 2 <= k < e ensures !IsBrace(s[k]) {
      assert s[k] == x[k - 2];
    }
    BraceFreeEndAt(s, 2, e);
    assert MatchAt(s, 0);
  }

  /** A value that is one placeholder and nothing else scans as that single region. */
  lemma SoleRegion(x: string)
    requires BraceFree(x)
    ensures Pieces("${" + x + "}", 0) == [Text(""), Region(x), Text("")]
  {
    var s := "${" + x + "}";
    SoleRegionHead(x, s, 2 + |x|);
    PiecesAtEnd(s);
    assert [Text(""), Region(x)] + [Text("")] == [Text(""), Region(x), Text("")];
  }

  /** The scan of `${x}` finds `x` first and then stands at the end of the value. */
  lemma SoleRegionHead(x: string, s: string, e: nat)
    requires BraceFree(x)
    requires s == "${" + x + "}" && e == 2 + |x|
    ensures e + 1 == |s| && Pieces(s, 0) == [Text(""), Region(x)] + Pieces(s, |s|)
  {
    SoleRegionMatch(x, s);
    PiecesStep(s, 0, 0, e);
    assert s[0..0] == "";
  }

  lemma PiecesAtEnd(s: string)
    ensures Pieces(s, |s|) == [Text("")]
  {
    assert FindRegion(s, |s|) == None;
    assert s[|s|..] == "";
  }

  /** The scan from `from` finds the region `s[i..e]` and goes on after its closing brace. */
  lemma PiecesStep(s: string, from: nat, i: nat, e: nat)
    requires from <= |s| && FindRegion(s, from) == Some(i) && e == BraceFreeEnd(s, i + 2)
    ensures from <= i && i + 2 < e && e + 1 <= |s|
    ensures Pieces(s, from) == [Text(s[from..i]), Region(s[i + 2..e])] + Pieces(s, e + 1)
  {
    RegionBounds(s, from, i, e);
  }

  /** Where a found region starts and ends. */
  lemma RegionBounds(s: string, from: nat, i: nat, e: nat)
    requires from <= |s| && FindRegion(s, from) == Some(i) && e == BraceFreeEnd(s, i + 2)
    ensures from <= i && i + 2 < e && e + 1 <= |s|
  {
    assert MatchAt(s, i);
  }

  /** Every region expression is non-empty and brace-free, exactly what `[^}{]+` captures. */
  lemma {:induction false} RegionsAreBraceFree(s: string, from: nat, k: nat)
    requires from <= |s|
    requires k < |Pieces(s, from)| && Pieces(s, from)[k].Region?
    ensures BraceFree(Pieces(s, from)[k].expr)
    decreases |s| - from
  {
    if FindRegion(s, from).Some? {
      if k >= 2 {
        var next := LaterPiece(s, from, k);
        RegionsAreBraceFree(s, next, k - 2);
      } else {
        FirstRegionBraceFree(s, from, k);
      }
    }
  }

  /** A piece past the first region is a piece of the scan resumed after that region. */
  lemma LaterPiece(s: string, from: nat, k: nat) returns (next: nat)
    requires from <= |s| && FindRegion(s, from).Some?
    requires 2 <= k < |Pieces(s, from)|
    ensures from < next <= |s|
    ensures k - 2 < |Pieces(s, next)| && Pieces(s, next)[k - 2] == Pieces(s, from)[k]
  {
    var i := FindRegion(s, from).value;
    var e := BraceFreeEnd(s, i + 2);
    next := e + 1;
    var ps, rest := Pieces(s, from), Pieces(s, next);
    assert ps == [Text(s[from..i]), Region(s[i + 2..e])] + rest by {
      PiecesStep(s, from, i, e);
    }
    assert ps[k] == rest[k - 2];
  }

  /** The region among the first two pieces is the one found first, and it is brace-free. */
  lemma FirstRegionBraceFree(s: string, from: nat, k: nat)
    requires from <= |s| && FindRegion(s, from).Some?
    requires k < 2 && k < |Pieces(s, from)| && Pieces(s, from)[k].Region?
    ensures BraceFree(Pieces(s, from)[k].expr)
  {
    var i := FindRegion(s, from).value;
    var e := BraceFreeEnd(s, i + 2);
    PiecesStep(s, from, i, e);
    assert Pieces(s, from)[k] == Region(s[i + 2..e]);
    FoundRegionBraceFree(s, from, i, e);
  }

  /**
   * In `${a${b}}` the first `${` is followed by another `{`, so the only region the scan
   * finds is the inner `${b}`.
   */
  lemma NestedRegionPieces()
    ensures Pieces("${a${b}}", 0) == [Text("${a"), Region("b"), Text("}")]
  {
    var s := "${a${b}}";
    assert !MatchAt(s, 0) by { assert BraceFreeEnd(s, 2) == 4; }
    assert !MatchAt(s, 1) && !MatchAt(s, 2);
    assert MatchAt(s, 3) by { assert BraceFreeEnd(s, 5) == 6; }
    assert FindRegion(s, 0) == Some(3);
    assert Pieces(s, 0) == [Text(s[0..3]), Region(s[5..6])] + Pieces(s, 7) by {
      PiecesStep(s, 0, 3, 6);
    }
    assert Pieces(s, 7) == [Text("}")] by {
      assert !MatchAt(s, 7);
      assert FindRegion(s, 8) == None;
      assert FindRegion(s, 7) == None;
      assert s[7..] == "}";
    }
    assert s[0..3] == "${a" && s[5..6] == "b";
  }

  /** The expression of a found region is non-empty and brace-free. */
  lemma FoundRegionBraceFree(s: string, from: nat, i: nat, e: nat)
    requires from <= |s| && FindRegion(s, from) == Some(i) && e == BraceFreeEnd(s, i + 2)
    ensures i + 2 < e <= |s| && BraceFree(s[i + 2..e])
  {
    var x := s[i + 2..e];
    BraceFreeEndSpec(s, i + 2);
    forall j | 0 <= j < |x| ensures !IsBrace(x[j]) {
      assert x[j] == s[i + 2 + j];
    }
  }

  // ---------------------------------------------------------------------------
  // REPLACE_KEY_PATTERN: the grammar of a placeholder expression
  // ---------------------------------------------------------------------------

  /** `[^$}{:()]`: characters of a key or function name. */
  predicate IsNameChar(c: char)
  {
    !(c == '$' || c == '}' || c == '{' || c == ':' || c == '(' || c == ')')
  }

  /** `[^$}{()]`: characters of an argument list. */
  predicate IsArgChar(c: char)
  {
    !(c == '$' || c == '}' || c == '{' || c == '(' || c == ')')
  }

  /** The characters Java's `.` does not match (no DOTALL flag). */
  predicate IsLineTerminator(c: char)
  {
    c == '\n' || c == '\r' || c == '\U{85}' || c == '\U{2028}' || c == '\U{2029}'
  }

  predicate NoLineTerminator(d: string)
  {
    forall k :: 0 <= k < |d| ==> !IsLineTerminator(d[k])
  }

  /** The length of the leading run of name characters. */
  function NameRun(u: string): (n: nat)
    ensures n <= |u|
    ensures forall k :: 0 <= k < n ==> IsNameChar(u[k])
    ensures n < |u| ==> !IsNameChar(u[n])
  {
    if |u| == 0 || !IsNameChar(u[0]) then 0 else 1 + NameRun(u[1..])
  }

  /** The length of the leading run of argument characters. */
  function ArgRun(u: string): (n: nat)
    ensures n <= |u|
    ensures forall k :: 0 <= k < n ==> IsArgChar(u[k])
    ensures n < |u| ==> !IsArgChar(u[n])
  {
    if |u| == 0 || !IsArgChar(u[0]) then 0 else 1 + ArgRun(u[1..])
  }

  /** The groups of a successful match: compute marker, key or function name, arguments, default. */
  datatype Expr = Expr(compute: bool, name: string, args: Option<string>, dflt: Option<string>)

  /** `(?::(.*))?` against the whole of `u`: `Some(None)` when absent, `None` when it does not match. */
  function ParseDefault(u: string): Option<Option<string>>
  {
    if |u| == 0 then Some(None)
    else if u[0] == ':' && NoLineTerminator(u[1..]) then Some(Some(u[1..]))
    else None
  }

  /** `(?:\(([^$}{()]+)\))?(?::(.*))?` against the whole of `u`, which follows the name. */
  function ParseTail(u: string): Option<(Option<string>, Option<string>)>
  {
    if |u| > 0 && u[0] == '(' then
      var n := ArgRun(u[1..]);
      if n == 0 || n + 1 == |u| || u[n + 1] != ')' then None
      else
        match ParseDefault(u[n + 2..])
        case None => None
        case Some(d) => Some((Some(u[1..n + 1]), d))
    else
      match ParseDefault(u)
      case None => None
      case Some(d) => Some((None, d))
  }

  /** `REPLACE_KEY_PATTERN.matcher(t).matches()` and its groups. */
  function Parse(t: string): Option<Expr>
  {
    var compute := |t| > 0 && t[0] == '$';
    var body := if compute then t[1..] else t;
    var n := NameRun(body);
    if n == 0 then None
    else
      match ParseTail(body[n..])
      case None => None
      case Some(tail) => Some(Expr(compute, body[..n], tail.0, tail.1))
  }

  /** The groups that the pattern can produce. */
  predicate WellFormed(x: Expr)
  {
    |x.name| > 0 && (forall k :: 0 <= k < |x.name| ==> IsNameChar(x.name[k])) &&
    (x.args.Some? ==> |x.args.value| > 0 && forall k :: 0 <= k < |x.args.value| ==> IsArgChar(x.args.value[k])) &&
    (x.dflt.Some? ==> NoLineTerminator(x.dflt.value))
  }

  function ArgsText(args: Option<string>): string
  {
    match args
    case None => ""
    case Some(a) => "(" + a + ")"
  }

  function DefaultText(dflt: Option<string>): string
  {
    match dflt
    case None => ""
    case Some(d) => ":" + d
  }

  /** The expression text that has the given groups. */
  function Render(x: Expr): string
  {
    (if x.compute then "$" else "") + (x.name + (ArgsText(x.args) + DefaultText(x.dflt)))
  }

  lemma {:induction false} NameRunAt(name: string, rest: string)
    requires forall k :: 0 <= k < |name| ==> IsNameChar(name[k])
    requires |rest| == 0 || !IsNameChar(rest[0])
    ensures NameRun(name + rest) == |name|
  {
    if |name| > 0 {
      assert (name + rest)[1..] == name[1..] + rest;
      NameRunAt(name[1..], rest);
    } else {
      assert name + rest == rest;
    }
  }

  lemma {:induction false} ArgRunAt(a: string, rest: string)
    requires forall k :: 0 <= k < |a| ==> IsArgChar(a[k])
    requires |rest| == 0 || !IsArgChar(rest[0])
    ensures ArgRun(a + rest) == |a|
  {
    if |a| > 0 {
      assert (a + rest)[1..] == a[1..] + rest;
      ArgRunAt(a[1..], rest);
    } else {
      assert a + rest == rest;
    }
  }

  lemma ParseDefaultRender(d: Option<string>)
    requires d.Some? ==> NoLineTerminator(d.value)
    ensures ParseDefault(DefaultText(d)) == Some(d)
  {
    if d.Some? {
      assert DefaultText(d)[1..] == d.value;
    }
  }

  lemma ParseTailRender(a: Option<string>, d: Option<string>)
    requires a.Some? ==> |a.value| > 0 && forall k :: 0 <= k < |a.value| ==> IsArgChar(a.value[k])
    requires d.Some? ==> NoLineTerminator(d.value)
    ensures ParseTail(ArgsText(a) + DefaultText(d)) == Some((a, d))
  {
    ParseDefaultRender(d);
    match a
    case None =>
      assert ArgsText(a) + DefaultText(d) == DefaultText(d);
    case Some(x) =>
      ParseTailRenderArgs(x, DefaultText(d));
  }

  lemma ParseTailRenderArgs(x: string, dtext: string)
    requires |x| > 0 && forall k :: 0 <= k < |x| ==> IsArgChar(x[k])
    requires |dtext| == 0 || dtext[0] == ':'
    ensures var u := "(" + x + ")" + dtext;
      ArgRun(u[1..]) == |x| && u[0] == '(' && u[|x| + 1] == ')' &&
      u[1..|x| + 1] == x && u[|x| + 2..] == dtext
  {
    var u := "(" + x + ")" + dtext;
    assert u[1..] == x + (")" + dtext);
    ArgRunAt(x, ")" + dtext);
  }

  lemma ParseTailParsed(u: string, a: Option<string>, d: Option<string>)
    requires ParseTail(u) == Some((a, d))
    ensures a.Some? ==> |a.value| > 0 && forall k :: 0 <= k < |a.value| ==> IsArgChar(a.value[k])
    ensures d.Some? ==> NoLineTerminator(d.value)
    ensures ArgsText(a) + DefaultText(d) == u
  {
    if |u| > 0 && u[0] == '(' {
      var n := ArgRun(u[1..]);
      var x := u[1..n + 1];
      assert a == Some(x) && ParseDefault(u[n + 2..]) == Some(d);
      forall k | 0 <= k < |x| ensures IsArgChar(x[k]) {
        assert x[k] == u[1..][k];
      }
      DefaultParsed(u[n + 2..], d);
      Bracketed(u, n);
    } else {
      assert a == None && ParseDefault(u) == Some(d);
      DefaultParsed(u, d);
      assert ArgsText(a) + DefaultText(d) == DefaultText(d);
    }
  }

  /** A matched default group spells its own text back. */
  lemma DefaultParsed(v: string, d: Option<string>)
    requires ParseDefault(v) == Some(d)
    ensures d.Some? ==> NoLineTerminator(d.value)
    ensures DefaultText(d) == v
  {
    if |v| > 0 {
      assert v == ":" + v[1..];
    }
  }

  /** A bracketed argument group followed by the rest of the text. */
  lemma Bracketed(u: string, n: nat)
    requires 0 < n && n + 1 < |u| && u[0] == '(' && u[n + 1] == ')'
    ensures ArgsText(Some(u[1..n + 1])) + u[n + 2..] == u
  {
    assert u == "(" + u[1..n + 1] + ")" + u[n + 2..];
  }

  /** Every well-formed group assignment is matched, and matching recovers it. */
  lemma ParseRender(x: Expr)
    requires WellFormed(x)
    ensures Parse(Render(x)) == Some(x)
  {
    var t := Render(x);
    var rest := ArgsText(x.args) + DefaultText(x.dflt);
    var body := x.name + rest;
    assert t == (if x.compute then "$" else "") + body;
    assert x.compute ==> t[1..] == body;
    assert !x.compute ==> t[0] == x.name[0] && t == body;
    assert |rest| == 0 || rest[0] == '(' || rest[0] == ':';
    NameRunAt(x.name, rest);
    assert body[..|x.name|] == x.name;
    assert body[|x.name|..] == rest;
    ParseTailRender(x.args, x.dflt);
  }

  /** Whatever the pattern matches is a well-formed group assignment rendered back exactly. */
  lemma RenderParse(t: string, x: Expr)
    requires Parse(t) == Some(x)
    ensures WellFormed(x) && Render(x) == t
  {
    var compute := |t| > 0 && t[0] == '$';
    var body := if compute then t[1..] else t;
    var n := NameRun(body);
    assert x.compute == compute && x.name == body[..n] && ParseTail(body[n..]) == Some((x.args, x.dflt));
    forall k | 0 <= k < |x.name| ensures IsNameChar(x.name[k]) {
      assert x.name[k] == body[k];
    }
    ParseTailParsed(body[n..], x.args, x.dflt);
    assert x.name + (ArgsText(x.args) + DefaultText(x.dflt)) == body by {
      SliceSplit(body, 0, n);
      assert body[0..] == body && body[0..n] == body[..n];
    }
    assert t == (if compute then "$" else "") + body by {
      if compute {
        assert t == [t[0]] + t[1..];
      }
    }
  }

  /** The argument list is strictly shorter than the expression it comes from. */
  lemma ParseSizes(t: string, x: Expr)
    requires Parse(t) == Some(x)
    ensures |x.name| > 0
    ensures x.args.Some? ==> |x.args.value| + 3 <= |t|
  {
    RenderParse(t, x);
  }

  // ---------------------------------------------------------------------------
  // LITERAL_PATTERN: quoted function arguments
  // ---------------------------------------------------------------------------

  /** `'([^}{$]+)'` matches the whole argument. */
  predicate IsLiteral(arg: string)
  {
    |arg| >= 3 && arg[0] == '\'' && arg[|arg| - 1] == '\'' &&
    forall k :: 1 <= k < |arg| - 1 ==> !(arg[k] == '}' || arg[k] == '{' || arg[k] == '$')
  }

  /** Group 1 of the literal pattern: the text between the quotes. */
  function LiteralText(arg: string): (t: string)
    requires IsLiteral(arg)
    ensures "'" + t + "'" == arg
  {
    arg[1..|arg| - 1]
  }

  /** A non-empty text without braces or `$`, quoted, is a literal standing for that text. */
  lemma QuotedIsLiteral(t: string)
    requires |t| > 0 && forall k :: 0 <= k < |t| ==> !(t[k] == '}' || t[k] == '{' || t[k] == '$')
    ensures IsLiteral("'" + t + "'") && LiteralText("'" + t + "'") == t
  {
    var q := "'" + t + "'";
    forall k | 1 <= k < |q| - 1 ensures !(q[k] == '}' || q[k] == '{' || q[k] == '$') {
      assert q[k] == t[k - 1];
    }
  }
}
