/**
 * The two pieces of java.lang.String behaviour the resolver relies on:
 * `split(",")` for argument lists and `toUpperCase(Locale.US)` for function names.
 */
module JavaStrings {

  /** The pieces of `s` between commas, keeping every empty piece. */
  function SplitAll(s: string): (ps: seq<string>)
    ensures |ps| >= 1
  {
    if |s| == 0 then [""]
    else
      var rest := SplitAll(s[1..]);
      if s[0] == ',' then [""] + rest else [[s[0]] + rest[0]] + rest[1..]
  }

  function DropTrailingEmpty(ps: seq<string>): seq<string>
  {
    if |ps| > 0 && ps[|ps| - 1] == "" then DropTrailingEmpty(ps[..|ps| - 1]) else ps
  }

  /**
   * `s.split(",")`: a string without a comma gives itself; otherwise the pieces between
   * commas, leading empty pieces kept and trailing empty pieces removed.
   */
  function Split(s: string): seq<string>
  {
    if ',' !in s then [s] else DropTrailingEmpty(SplitAll(s))
  }

  /** The pieces glued back together with a separator. */
  function JoinWith(ps: seq<string>, sep: char): string
  {
    if |ps| == 0 then ""
    else if |ps| == 1 then ps[0]
    else ps[0] + [sep] + JoinWith(ps[1..], sep)
  }

  /** The size of a list of pieces, each counted with one separator. */
  function Weight(ps: seq<string>): nat
  {
    if |ps| == 0 then 0 else |ps[0]| + 1 + Weight(ps[1..])
  }

  /** Splitting loses nothing: gluing the pieces back with commas gives the input. */
  lemma {:induction false} SplitAllJoin(s: string)
    ensures JoinWith(SplitAll(s), ',') == s
    ensures forall i :: 0 <= i < |SplitAll(s)| ==> ',' !in SplitAll(s)[i]
    ensures Weight(SplitAll(s)) == |s| + 1
  {
    if |s| > 0 {
      var rest := SplitAll(s[1..]);
      SplitAllJoin(s[1..]);
      if s[0] == ',' {
        assert ([""] + rest)[1..] == rest;
      } else {
        var ps := [[s[0]] + rest[0]] + rest[1..];
        assert ps[1..] == rest[1..];
        if |rest| > 1 {
          assert JoinWith(rest, ',') == rest[0] + [','] + JoinWith(rest[1..], ',');
        }
        assert Weight(rest) == |rest[0]| + 1 + Weight(rest[1..]);
      }
    }
  }

  lemma {:induction false} DropTrailingEmptyShape(ps: seq<string>)
    ensures var qs := DropTrailingEmpty(ps);
      |qs| <= |ps| && qs == ps[..|qs|]
      && (forall i :: |qs| <= i < |ps| ==> ps[i] == "")
      && (|qs| > 0 ==> qs[|qs| - 1] != "")
  {
    if |ps| > 0 && ps[|ps| - 1] == "" {
      DropTrailingEmptyShape(ps[..|ps| - 1]);
    }
  }

  lemma {:induction false} WeightPrefix(ps: seq<string>, n: nat)
    requires n <= |ps|
    ensures Weight(ps[..n]) <= Weight(ps)
  {
    if n > 0 {
      assert ps[..n][1..] == ps[1..][..n - 1];
      WeightPrefix(ps[1..], n - 1);
    }
  }

  /**
   * `split` keeps a prefix of the comma-separated pieces and drops only empty ones; the
   * last kept piece is non-empty unless the input has no comma at all.
   */
  lemma SplitShape(s: string)
    ensures var ps := Split(s);
      |ps| <= |SplitAll(s)| && ps == SplitAll(s)[..|ps|]
      && (forall i :: |ps| <= i < |SplitAll(s)| ==> SplitAll(s)[i] == "")
      && (forall i :: 0 <= i < |ps| ==> ',' !in ps[i])
      && (',' in s && |ps| > 0 ==> ps[|ps| - 1] != "")
      && (',' !in s ==> ps == [s])
  {
    SplitAllJoin(s);
    if ',' in s {
      DropTrailingEmptyShape(SplitAll(s));
    } else {
      NoCommaSplitAll(s);
    }
  }

  lemma {:induction false} NoCommaSplitAll(s: string)
    requires ',' !in s
    ensures SplitAll(s) == [s]
  {
    if |s| > 0 {
      assert ',' !in s[1..] by {
        forall i | 0 <= i < |s[1..]| ensures s[1..][i] != ',' {
          assert s[1..][i] == s[i + 1];
        }
      }
      NoCommaSplitAll(s[1..]);
      assert [s[0]] + s[1..] == s;
    }
  }

  /** The pieces of a split are never heavier than the input, so recursion over them terminates. */
  lemma SplitWeight(s: string)
    ensures Weight(Split(s)) <= |s| + 1
  {
    SplitShape(s);
    SplitAllJoin(s);
    if ',' in s {
      WeightPrefix(SplitAll(s), |Split(s)|);
    }
  }

  lemma {:induction false} WeightBoundsPiece(ps: seq<string>, i: nat)
    requires i < |ps|
    ensures |ps[i]| < Weight(ps)
  {
    if i > 0 {
      WeightBoundsPiece(ps[1..], i - 1);
    }
  }

  lemma {:induction false} WeightAppend(ps: seq<string>, qs: seq<string>)
    ensures Weight(ps + qs) == Weight(ps) + Weight(qs)
  {
    if |ps| > 0 {
      assert (ps + qs)[1..] == ps[1..] + qs;
      WeightAppend(ps[1..], qs);
    } else {
      assert ps + qs == qs;
    }
  }

  /** A comma-free head is the first piece; splitting carries on after its comma. */
  lemma {:induction false} SplitAllCons(a: string, rest: string)
    requires ',' !in a
    ensures SplitAll(a + "," + rest) == [a] + SplitAll(rest)
  {
    if |a| == 0 {
      assert a + "," + rest == [','] + rest;
      assert (a + "," + rest)[1..] == rest;
    } else {
      var s := a + "," + rest;
      assert s[1..] == a[1..] + "," + rest;
      assert ',' !in a[1..] by {
        forall i | 0 <= i < |a[1..]| ensures a[1..][i] != ',' {
          assert a[1..][i] == a[i + 1];
        }
      }
      SplitAllCons(a[1..], rest);
      assert [a[0]] + a[1..] == a;
    }
  }

  /** Two comma-free pieces, the second non-empty, split back into exactly those two. */
  lemma SplitPair(a: string, b: string)
    requires ',' !in a && ',' !in b && b != ""
    ensures Split(a + "," + b) == [a, b]
  {
    var s := a + "," + b;
    assert s[|a|] == ',';
    SplitAllCons(a, b);
    NoCommaSplitAll(b);
    assert SplitAll(s) == [a, b];
  }

  /** Every character of every piece comes from the input. */
  lemma {:induction false} SplitAllChars(s: string)
    ensures forall i, c :: 0 <= i < |SplitAll(s)| && c in SplitAll(s)[i] ==> c in s
  {
    if |s| > 0 {
      var rest := SplitAll(s[1..]);
      SplitAllChars(s[1..]);
      forall i, c | 0 <= i < |SplitAll(s)| && c in SplitAll(s)[i] ensures c in s {
        if s[0] == ',' {
          assert SplitAll(s)[i] == rest[i - 1];
        } else if i == 0 {
          assert c == s[0] || c in rest[0];
        } else {
          assert SplitAll(s)[i] == rest[i];
        }
        assert c == s[0] || c in s[1..];
      }
    }
  }

  /** Every character of every piece of a split comes from the input. */
  lemma SplitChars(s: string)
    ensures forall i, c :: 0 <= i < |Split(s)| && c in Split(s)[i] ==> c in s
  {
    SplitShape(s);
    SplitAllChars(s);
    forall i, c | 0 <= i < |Split(s)| && c in Split(s)[i] ensures c in s {
      assert Split(s)[i] == SplitAll(s)[i];
    }
  }

  /** When the input does not end in a comma, the last piece is not empty. */
  lemma {:induction false} SplitAllLast(s: string)
    requires |s| > 0 && s[|s| - 1] != ','
    ensures SplitAll(s)[|SplitAll(s)| - 1] != ""
  {
    var rest := SplitAll(s[1..]);
    if |s| == 1 {
      assert rest == [""];
    } else {
      SplitAllLast(s[1..]);
      if s[0] != ',' && |rest| == 1 {
        assert SplitAll(s) == [[s[0]] + rest[0]];
      } else if s[0] == ',' {
        assert SplitAll(s)[|SplitAll(s)| - 1] == rest[|rest| - 1];
      } else {
        assert SplitAll(s)[|SplitAll(s)| - 1] == rest[1..][|rest| - 2];
      }
    }
  }

  /** When the input does not end in a comma, `split` drops nothing. */
  lemma SplitKeepsAll(s: string)
    requires |s| > 0 && s[|s| - 1] != ','
    ensures Split(s) == SplitAll(s)
  {
    if ',' in s {
      SplitAllLast(s);
    } else {
      NoCommaSplitAll(s);
    }
  }

  lemma {:induction false} DropAllEmpty(ps: seq<string>)
    requires forall i :: 0 <= i < |ps| ==> ps[i] == ""
    ensures DropTrailingEmpty(ps) == []
  {
    if |ps| > 0 {
      DropAllEmpty(ps[..|ps| - 1]);
    }
  }

  /** A text made of commas only cuts into empty pieces. */
  lemma {:induction false} SplitAllCommas(s: string)
    requires forall k :: 0 <= k < |s| ==> s[k] == ','
    ensures forall i :: 0 <= i < |SplitAll(s)| ==> SplitAll(s)[i] == ""
  {
    if |s| > 0 {
      SplitAllCommas(s[1..]);
      assert SplitAll(s) == [""] + SplitAll(s[1..]);
    }
  }

  /** A text made of commas only splits into no pieces at all. */
  lemma CommasOnly(s: string)
    requires |s| > 0 && forall k :: 0 <= k < |s| ==> s[k] == ','
    ensures Split(s) == []
  {
    SplitAllCommas(s);
    assert s[0] == ',';
    DropAllEmpty(SplitAll(s));
  }

  /** `Character.toUpperCase` restricted to the letters a-z. */
  function UpperChar(c: char): char
  {
    if 'a' <= c <= 'z' then (c as int - 'a' as int + 'A' as int) as char else c
  }

  /** `toUpperCase(Locale.US)` on ASCII letters; every other character is kept. */
  function UpperCase(s: string): (u: string)
    ensures |u| == |s|
  {
    seq(|s|, i requires 0 <= i < |s| => UpperChar(s[i]))
  }
}
