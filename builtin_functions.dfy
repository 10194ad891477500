/**
 * The built-in functions a computed placeholder `${$name(args)}` can call.
 * The only one is ECHO, which joins its arguments with single spaces.
 */
module BuiltinFunctions {
  import opened Outcomes

  datatype Builtin = Echo

  /** Arguments joined by exactly one space, no leading or trailing space. */
  function Join(xs: seq<string>): string
  {
    if |xs| == 0 then ""
    else if |xs| == 1 then xs[0]
    else xs[0] + " " + Join(xs[1..])
  }

  /** What ECHO's builder holds after its loop: every argument followed by a space. */
  function Spaced(xs: seq<string>): string
  {
    if |xs| == 0 then "" else Spaced(xs[..|xs| - 1]) + xs[|xs| - 1] + " "
  }

  function TotalLength(xs: seq<string>): nat
  {
    if |xs| == 0 then 0 else |xs[0]| + TotalLength(xs[1..])
  }

  /** Java's `Function.apply`; `None` would be a null result. */
  function Apply(f: Builtin, args: seq<string>): (r: Option<string>)
    ensures r.Some?
  {
    match f
    case Echo => Some(Join(args))
  }

  /** ECHO.apply: append each argument and a space, then drop the last character if any. */
  method EchoApply(input: seq<string>) returns (r: string)
    ensures r == Join(input)
  {
    var builder := "";
    for i := 0 to |input|
      invariant builder == Spaced(input[..i])
    {
      assert input[..i + 1][..i] == input[..i];
      builder := builder + input[i] + " ";
    }
    assert input[..|input|] == input;
    if |builder| > 0 {
      builder := builder[..|builder| - 1];
    }
    SpacedIsJoinPlusSpace(input);
    r := builder;
  }

  lemma {:induction false} JoinSnoc(xs: seq<string>, y: string)
    requires |xs| > 0
    ensures Join(xs + [y]) == Join(xs) + " " + y
  {
    if |xs| == 1 {
      assert xs + [y] == [xs[0], y];
      assert [xs[0], y][1..] == [y];
    } else {
      assert (xs + [y])[1..] == xs[1..] + [y];
      JoinSnoc(xs[1..], y);
    }
  }

  /** The builder before truncation is the joined string plus one trailing space. */
  lemma {:induction false} SpacedIsJoinPlusSpace(xs: seq<string>)
    ensures |xs| == 0 ==> Spaced(xs) == ""
    ensures |xs| > 0 ==> Spaced(xs) == Join(xs) + " "
  {
    if |xs| > 1 {
      var init := xs[..|xs| - 1];
      SpacedIsJoinPlusSpace(init);
      JoinSnoc(init, xs[|xs| - 1]);
      assert init + [xs[|xs| - 1]] == xs;
    } else if |xs| == 1 {
      assert xs[..0] == [];
    }
  }

  /** ECHO of no arguments is the empty string. */
  lemma EchoOfNothing()
    ensures Apply(Echo, []) == Some("")
  {
  }

  /** ECHO of one argument is that argument. */
  lemma EchoOfOne(x: string)
    ensures Apply(Echo, [x]) == Some(x)
  {
  }

  /** ECHO of two arguments: `['a','b']` gives "a b". */
  lemma EchoOfTwo(x: string, y: string)
    ensures Apply(Echo, [x, y]) == Some(x + " " + y)
  {
    assert [x, y][1..] == [y];
    assert Join([y]) == y;
  }

  /** For n >= 1 arguments the result is as long as the arguments together plus n - 1 spaces. */
  lemma {:induction false} JoinLength(xs: seq<string>)
    requires |xs| >= 1
    ensures |Join(xs)| == TotalLength(xs) + |xs| - 1
  {
    if |xs| > 1 {
      JoinLength(xs[1..]);
    }
  }

  /** The arguments appear in order: each argument starts right after the previous one and a space. */
  lemma {:induction false} JoinHead(xs: seq<string>)
    requires |xs| >= 2
    ensures Join(xs)[..|xs[0]|] == xs[0]
    ensures Join(xs)[|xs[0]|] == ' '
    ensures Join(xs)[|xs[0]| + 1..] == Join(xs[1..])
  {
  }
}
