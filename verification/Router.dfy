// The route table: literal patterns are kept ahead of parameterised ones, and
// dispatch takes the first route that matches.

module Router {
  import opened Options

  /** A registered route; the handler is known by a number. */
  datatype Route = Route(verb: string, pattern: string, handler: nat)

  type Params = map<string, string>

  // ---- Patterns and paths ----

  predicate HasParam(r: Route) {
    ':' in r.pattern
  }

  predicate IsParam(segment: string) {
    segment != [] && segment[0] == ':'
  }

  function Token(s: string): seq<string> {
    if s == [] then [] else [s]
  }

  /** The nonempty pieces between slashes; `started` is the piece being read. */
  function Split(s: string, started: string): seq<string>
    decreases s
  {
    if s == [] then Token(started)
    else if s[0] == '/' then Token(started) + Split(s[1..], [])
    else Split(s[1..], started + [s[0]])
  }

  predicate Fits(pp: seq<string>, rp: seq<string>) {
    |pp| == |rp| && forall i :: 0 <= i < |pp| ==> IsParam(pp[i]) || pp[i] == rp[i]
  }

  /** The captured values of the first `n` segments; a repeated name keeps its last value. */
  function Captures(pp: seq<string>, rp: seq<string>, n: nat): Params
    requires n <= |pp| && n <= |rp|
  {
    if n == 0 then map[]
    else
      var before := Captures(pp, rp, n - 1);
      if IsParam(pp[n - 1]) then before[pp[n - 1][1..] := rp[n - 1]] else before
  }

  predicate Matches(r: Route, verb: string, path: string) {
    r.verb == verb && Fits(Split(r.pattern, []), Split(path, []))
  }

  // ---- Literal patterns ----

  lemma {:induction false} SplitChars(s: string, started: string, c: char)
    requires c !in s && c !in started
    ensures forall i :: 0 <= i < |Split(s, started)| ==> c !in Split(s, started)[i]
    decreases s
  {
    if s != [] {
      SplitChars(s[1..], if s[0] == '/' then [] else started + [s[0]], c);
    }
  }

  /** A literal pattern matches exactly the paths with its own segments. */
  lemma LiteralMatch(r: Route, path: string)
    requires !HasParam(r)
    ensures Fits(Split(r.pattern, []), Split(path, [])) <==> Split(r.pattern, []) == Split(path, [])
  {
    SplitChars(r.pattern, [], ':');
  }

  // ---- Captures put back ----

  predicate Named(pp: seq<string>, name: string, n: nat)
    requires n <= |pp|
  {
    exists i :: 0 <= i < n && IsParam(pp[i]) && pp[i][1..] == name
  }

  /** The captured names are exactly those of the pattern's parameters. */
  lemma {:induction false} CapturedKeys(pp: seq<string>, rp: seq<string>, n: nat, name: string)
    requires n <= |pp| && n <= |rp|
    ensures name in Captures(pp, rp, n) <==> Named(pp, name, n)
    decreases n
  {
    if n > 0 {
      CapturedKeys(pp, rp, n - 1, name);
    }
  }

  /** A pattern with the captured values put in for its parameters. */
  function Substitute(pp: seq<string>, params: Params): Option<seq<string>> {
    if pp == [] then Some([])
    else
      var n := |pp| - 1;
      match Substitute(pp[..n], params)
      case None => None
      case Some(rest) =>
        if !IsParam(pp[n]) then Some(rest + [pp[n]])
        else if pp[n][1..] in params then Some(rest + [params[pp[n][1..]]]) else None
  }

  /** Every use of one name met the same segment. */
  predicate NamesAgree(pp: seq<string>, rp: seq<string>)
    requires |pp| == |rp|
  {
    forall i, j :: 0 <= i < j < |pp| && IsParam(pp[i]) && pp[i] == pp[j] ==> rp[i] == rp[j]
  }

  lemma {:induction false} CapturedValue(pp: seq<string>, rp: seq<string>, n: nat, i: nat)
    requires |pp| == |rp| && i < n <= |pp| && IsParam(pp[i]) && NamesAgree(pp, rp)
    ensures pp[i][1..] in Captures(pp, rp, n) && Captures(pp, rp, n)[pp[i][1..]] == rp[i]
    decreases n
  {
    if i < n - 1 {
      CapturedValue(pp, rp, n - 1, i);
      if IsParam(pp[n - 1]) && pp[n - 1][1..] == pp[i][1..] {
        assert pp[i] == [':'] + pp[i][1..] && pp[n - 1] == [':'] + pp[n - 1][1..];
      }
    }
  }

  lemma {:induction false} SubstituteAll(pp: seq<string>, rp: seq<string>, params: Params)
    requires |pp| == |rp|
    ensures Substitute(pp, params) == Some(rp) <==>
            forall i :: 0 <= i < |pp| ==>
              if IsParam(pp[i]) then pp[i][1..] in params && params[pp[i][1..]] == rp[i] else pp[i] == rp[i]
    decreases pp
  {
    if pp != [] {
      var n := |pp| - 1;
      SubstituteAll(pp[..n], rp[..n], params);
      assert rp == rp[..n] + [rp[n]];
      if Substitute(pp, params) == Some(rp) {
        var rest := Substitute(pp[..n], params).value;
        assert rp[..n] == rest;
      }
    }
  }

  /**
   * Putting the captures back into the pattern gives the path's segments exactly when every repeated
   * parameter name met equal segments.
   */
  lemma CapturesRebuildPath(pp: seq<string>, rp: seq<string>)
    requires Fits(pp, rp)
    ensures Substitute(pp, Captures(pp, rp, |pp|)) == Some(rp) <==> NamesAgree(pp, rp)
  {
    var params := Captures(pp, rp, |pp|);
    SubstituteAll(pp, rp, params);
    if NamesAgree(pp, rp) {
      forall i | 0 <= i < |pp| && IsParam(pp[i]) ensures pp[i][1..] in params && params[pp[i][1..]] == rp[i] {
        CapturedValue(pp, rp, |pp|, i);
      }
    }
  }

  predicate DistinctNames(pp: seq<string>) {
    forall i, j :: 0 <= i < j < |pp| && IsParam(pp[i]) ==> pp[i] != pp[j]
  }

  /** With distinct parameter names the captures always rebuild the path. */
  lemma DistinctNamesRebuild(pp: seq<string>, rp: seq<string>)
    requires Fits(pp, rp) && DistinctNames(pp)
    ensures Substitute(pp, Captures(pp, rp, |pp|)) == Some(rp)
  {
    CapturesRebuildPath(pp, rp);
  }

  // ---- Patterns written out ----

  predicate Pieces(ps: seq<string>) {
    forall i :: 0 <= i < |ps| ==> ps[i] != "" && '/' !in ps[i]
  }

  /** Pieces with a slash before each. */
  function Slashed(ps: seq<string>): string {
    if ps == [] then [] else ['/'] + (ps[0] + Slashed(ps[1..]))
  }

  lemma {:induction false} SplitPiece(piece: string, rest: string, started: string)
    requires '/' !in piece
    ensures Split(piece + rest, started) == Split(rest, started + piece)
    decreases piece
  {
    if piece == [] {
      assert piece + rest == rest && started + piece == started;
    } else {
      assert (piece + rest)[1..] == piece[1..] + rest && (piece + rest)[0] == piece[0];
      assert piece[0] in piece;
      SplitPiece(piece[1..], rest, started + [piece[0]]);
      assert started + [piece[0]] + piece[1..] == started + piece;
    }
  }

  lemma {:induction false} SplitSlashed(ps: seq<string>, started: string)
    requires Pieces(ps)
    ensures Split(Slashed(ps), started) == Token(started) + ps
    decreases ps
  {
    hide Token;
    if ps == [] {
      assert Token(started) + ps == Token(started);
    } else {
      var s := Slashed(ps);
      assert s[0] == '/' && s[1..] == ps[0] + Slashed(ps[1..]);
      assert ps[0] != "" && '/' !in ps[0];
      SplitPiece(ps[0], Slashed(ps[1..]), []);
      assert [] + ps[0] == ps[0];
      SplitSlashed(ps[1..], ps[0]);
      TokenOf(ps[0]);
      assert [ps[0]] + ps[1..] == ps;
    }
  }

  lemma TokenOf(s: string)
    requires s != []
    ensures Token(s) == [s]
  {
  }

  /** The segments that hold values, and those that must be met as they are. */
  predicate Fills(pattern: seq<string>, values: seq<string>) {
    |values| == |pattern| && forall i :: 0 <= i < |pattern| && pattern[i] != values[i] ==> ":" <= pattern[i]
  }

  /** A written pattern is matched by exactly the written paths that fill its parameters, under its own verb. */
  lemma WrittenMatchIff(r: Route, pattern: seq<string>, verb: string, values: seq<string>)
    requires r.pattern == Slashed(pattern) && Pieces(pattern) && Pieces(values)
    ensures Matches(r, verb, Slashed(values)) <==> r.verb == verb && Fills(pattern, values)
  {
    hide Split, Slashed;
    SplitSlashed(pattern, []);
    SplitSlashed(values, []);
    assert [] + pattern == pattern && [] + values == values;
  }

  /** And each parameter with a name of its own is captured with its value. */
  lemma WrittenCaptures(pattern: seq<string>, values: seq<string>, i: nat)
    requires Pieces(pattern) && Pieces(values) && Fills(pattern, values) && DistinctNames(pattern)
    requires i < |pattern| && ":" <= pattern[i]
    ensures var pp, rp := Split(Slashed(pattern), []), Split(Slashed(values), []);
            && |pp| == |rp|
            && pattern[i][1..] in Captures(pp, rp, |rp|) && Captures(pp, rp, |rp|)[pattern[i][1..]] == values[i]
  {
    hide Split, Slashed;
    SplitSlashed(pattern, []);
    SplitSlashed(values, []);
    assert [] + pattern == pattern && [] + values == values;
    CapturedValue(pattern, values, |values|, i);
  }

  // ---- The order of the table ----

  function Literals(rs: seq<Route>): (r: seq<Route>)
    ensures forall i :: 0 <= i < |r| ==> !HasParam(r[i])
  {
    if rs == [] then []
    else
      var rest, x := Literals(rs[..|rs| - 1]), rs[|rs| - 1];
      if HasParam(x) then rest else rest + [x]
  }

  function Parameterised(rs: seq<Route>): (r: seq<Route>)
    ensures forall i :: 0 <= i < |r| ==> HasParam(r[i])
  {
    if rs == [] then []
    else
      var rest, x := Parameterised(rs[..|rs| - 1]), rs[|rs| - 1];
      if HasParam(x) then rest + [x] else rest
  }

  /** The first route that matches, if any. */
  function FirstMatch(rs: seq<Route>, verb: string, path: string): (r: Option<Route>)
    ensures r.None? ==> forall i :: 0 <= i < |rs| ==> !Matches(rs[i], verb, path)
    ensures r.Some? ==> exists i :: 0 <= i < |rs| && rs[i] == r.value && Matches(rs[i], verb, path)
                                    && forall j :: 0 <= j < i ==> !Matches(rs[j], verb, path)
  {
    if rs == [] then None
    else if Matches(rs[0], verb, path) then (assert rs[0] == rs[0]; Some(rs[0]))
    else
      var r := FirstMatch(rs[1..], verb, path);
      assert r.Some? ==> exists i :: 0 <= i < |rs[1..]| && rs[1..][i] == r.value;
      r
  }

  /** The first registration of one kind that matches, in the order of registration. */
  function FirstRegistered(added: seq<Route>, parameterised: bool, verb: string, path: string): Option<Route> {
    if added == [] then None
    else
      var n := |added| - 1;
      var earlier := FirstRegistered(added[..n], parameterised, verb, path);
      if earlier.Some? then earlier
      else if HasParam(added[n]) == parameterised && Matches(added[n], verb, path) then Some(added[n])
      else None
  }

  lemma FirstMatchStep(rs: seq<Route>, verb: string, path: string)
    requires rs != []
    ensures FirstMatch(rs, verb, path) ==
            if Matches(rs[0], verb, path) then Some(rs[0]) else FirstMatch(rs[1..], verb, path)
  {
    hide Matches;
  }

  lemma {:induction false} FirstMatchConcat(a: seq<Route>, b: seq<Route>, verb: string, path: string)
    ensures FirstMatch(a + b, verb, path) ==
            if FirstMatch(a, verb, path).Some? then FirstMatch(a, verb, path) else FirstMatch(b, verb, path)
    decreases a
  {
    hide Matches, FirstMatch;
    if a == [] {
      assert a + b == b;
      NoRoutes(verb, path);
    } else {
      FirstMatchConcat(a[1..], b, verb, path);
      FirstMatchStep(a, verb, path);
      FirstMatchStep(a + b, verb, path);
      assert (a + b)[1..] == a[1..] + b;
    }
  }

  lemma FirstMatchOne(r: Route, verb: string, path: string)
    ensures FirstMatch([r], verb, path) == if Matches(r, verb, path) then Some(r) else None
  {
    hide Matches;
    assert [r][1..] == [];
  }

  lemma {:induction false} FirstOfKind(added: seq<Route>, verb: string, path: string)
    ensures FirstMatch(Literals(added), verb, path) == FirstRegistered(added, false, verb, path)
    ensures FirstMatch(Parameterised(added), verb, path) == FirstRegistered(added, true, verb, path)
    decreases added
  {
    hide Matches, HasParam, FirstMatch;
    NoRoutes(verb, path);
    if added != [] {
      var front, r := added[..|added| - 1], added[|added| - 1];
      FirstOfKind(front, verb, path);
      FirstMatchConcat(Literals(front), [r], verb, path);
      FirstMatchConcat(Parameterised(front), [r], verb, path);
      FirstMatchOne(r, verb, path);
    }
  }

  lemma NoRoutes(verb: string, path: string)
    ensures FirstMatch([], verb, path) == None
  {
  }

  /** The table as any sequence of registrations leaves it. */
  function Table(added: seq<Route>): seq<Route> {
    Literals(added) + Parameterised(added)
  }

  /** Dispatch by registrations: the first matching literal if there is one, else the first other match. */
  lemma DispatchOrder(added: seq<Route>, verb: string, path: string)
    ensures FirstMatch(Table(added), verb, path) ==
            if FirstRegistered(added, false, verb, path).Some? then FirstRegistered(added, false, verb, path)
            else FirstRegistered(added, true, verb, path)
  {
    FirstMatchConcat(Literals(added), Parameterised(added), verb, path);
    FirstOfKind(added, verb, path);
  }

  /** Nothing is lost or duplicated by the reordering. */
  lemma {:induction false} TableIsPermutation(added: seq<Route>)
    ensures multiset(Table(added)) == multiset(added)
    decreases added
  {
    if added != [] {
      var front, r := added[..|added| - 1], added[|added| - 1];
      TableIsPermutation(front);
      assert added == front + [r];
    }
  }

  // ---- The router ----

  class Router {
    var routes: seq<Route>
    ghost var added: seq<Route>

    ghost predicate Valid()
      reads this
    {
      routes == Table(added)
    }

    constructor ()
      ensures Valid() && added == []
    {
      routes, added := [], [];
    }

    /** Registers a route: a literal goes before the first parameterised one, anything else last. */
    method Add(r: Route)
      requires Valid()
      modifies this
      ensures Valid() && added == old(added) + [r]
    {
      var n := |Literals(added)|;
      added := added + [r];
      assert added[..|added| - 1] == old(added);
      if !HasParam(r) {
        var i := 0;
        while i < |routes|
          invariant 0 <= i <= |routes| && i <= |Literals(old(added))|
          invariant routes == old(routes)
        {
          if HasParam(routes[i]) {
            assert i == |Literals(old(added))|;
            routes := routes[..i] + [r] + routes[i..];
            return;
          }
          i := i + 1;
        }
      }
      routes := routes + [r];
    }

    /** Reads a path piece by piece and keeps the nonempty ones. */
    static method SplitPath(s: string) returns (v: seq<string>)
      ensures v == Split(s, [])
    {
      v := [];
      var tok: string := [];
      for i := 0 to |s|
        invariant v + Split(s[i..], tok) == Split(s, [])
      {
        assert s[i..][1..] == s[i + 1..];
        if s[i] == '/' {
          if tok != [] {
            v := v + [tok];
          }
          tok := [];
        } else {
          tok := tok + [s[i]];
        }
      }
      if tok != [] {
        v := v + [tok];
      }
    }

    /** Matches segment by segment, collecting parameters on the way. */
    method Match(pattern: string, path: string) returns (ok: bool, params: Params)
      ensures ok <==> Fits(Split(pattern, []), Split(path, []))
      ensures ok ==> params == Captures(Split(pattern, []), Split(path, []), |Split(path, [])|)
    {
      hide Split;
      params := map[];
      var pp := SplitPath(pattern);
      var rp := SplitPath(path);
      if |pp| != |rp| {
        return false, params;
      }
      for i := 0 to |pp|
        invariant forall k :: 0 <= k < i ==> IsParam(pp[k]) || pp[k] == rp[k]
        invariant params == Captures(pp, rp, i)
      {
        if IsParam(pp[i]) {
          params := params[pp[i][1..] := rp[i]];
        } else if pp[i] != rp[i] {
          return false, params;
        }
      }
      ok := true;
    }

    /** The handler to run with its parameters, or none for a 404 answer. */
    method Dispatch(verb: string, path: string) returns (found: Option<(Route, Params)>)
      requires Valid()
      ensures found.None? <==> FirstMatch(Table(added), verb, path).None?
      ensures found.Some? ==>
                && FirstMatch(Table(added), verb, path) == Some(found.value.0)
                && found.value.1 == Captures(Split(found.value.0.pattern, []), Split(path, []), |Split(path, [])|)
    {
      hide Fits, Split, Captures, FirstMatch;
      assert routes[0..] == routes;
      for i := 0 to |routes|
        invariant FirstMatch(routes[i..], verb, path) == FirstMatch(routes, verb, path)
      {
        var r := routes[i];
        assert routes[i..][0] == r && routes[i..][1..] == routes[i + 1..];
        FirstMatchStep(routes[i..], verb, path);
        if r.verb != verb {
          continue;
        }
        var ok, params := Match(r.pattern, path);
        if ok {
          return Some((r, params));
        }
      }
      assert routes[|routes|..] == [];
      NoRoutes(verb, path);
      found := None;
    }
  }
}
