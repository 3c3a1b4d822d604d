/** Paths in a tree of tests: their strings, and the searches that find them
    (TestPath, Test). */
module TestPaths {
  import opened Options
  import opened Sequences
  import opened Text

  /** A test; `id` stands for the address of the object. */
  datatype Test = Test(id: nat, name: string, children: seq<Test>)

  const SEPARATOR := '/'

  // ---------- Searching ----------

  /** What the two overloads of findTestPath look for. */
  datatype Query = Named(name: string) | Same(id: nat)

  predicate Matches(q: Query, t: Test) {
    match q
    case Named(name) => t.name == name
    case Same(id) => t.id == id
  }

  /** The tests from `t` down to the match the search stops at. */
  function Search(t: Test, q: Query): (r: Option<seq<Test>>)
    ensures r.Some? ==> r.value != []
    decreases t, 0
  {
    if Matches(q, t) then Some([t])
    else
      match SearchAll(t.children, q)
      case None => None
      case Some(p) => Some([t] + p)
  }

  function SearchAll(ts: seq<Test>, q: Query): (r: Option<seq<Test>>)
    ensures r.Some? ==> r.value != []
    decreases ts, |ts|
  {
    if ts == [] then None
    else
      var first := Search(ts[0], q);
      if first.Some? then first else SearchAll(ts[1..], q)
  }

  /** A query is a name or an address, and a test answers to its own. */
  lemma MatchesIff(q: Query, t: Test)
    ensures Matches(q, t) <==> q == Named(t.name) || q == Same(t.id)
  {
  }

  /** A place in a tree: which child to take at each level. */
  type Place = seq<nat>

  ghost predicate IsPlace(t: Test, a: Place) {
    a == [] || (a[0] < |t.children| && IsPlace(t.children[a[0]], a[1..]))
  }

  ghost function At(t: Test, a: Place): Test
    requires IsPlace(t, a)
  {
    if a == [] then t else At(t.children[a[0]], a[1..])
  }

  /** The tests passed on the way down to a place. */
  ghost function Chain(t: Test, a: Place): (c: seq<Test>)
    requires IsPlace(t, a)
    ensures |c| == |a| + 1 && c[0] == t && c[|a|] == At(t, a)
  {
    if a == [] then [t] else [t] + Chain(t.children[a[0]], a[1..])
  }

  /** Preorder: a parent comes before its descendants, and siblings from the left. */
  ghost predicate Before(a: Place, b: Place) {
    b != [] && (a == [] || a[0] < b[0] || (a[0] == b[0] && Before(a[1..], b[1..])))
  }

  ghost predicate IsMatch(t: Test, q: Query, a: Place) {
    IsPlace(t, a) && Matches(q, At(t, a))
  }

  ghost predicate IsFirstMatch(t: Test, q: Query, a: Place) {
    && IsMatch(t, q, a)
    && forall b :: IsPlace(t, b) && Before(b, a) ==> !Matches(q, At(t, b))
  }

  lemma {:induction false} SearchFails(t: Test, q: Query, b: Place)
    requires Search(t, q) == None && IsPlace(t, b)
    ensures !Matches(q, At(t, b))
    decreases t, 0
  {
    if b != [] { SearchAllFails(t.children, q, b[0], b[1..]); }
  }

  lemma {:induction false} SearchAllFails(ts: seq<Test>, q: Query, i: nat, b: Place)
    requires SearchAll(ts, q) == None && i < |ts| && IsPlace(ts[i], b)
    ensures !Matches(q, At(ts[i], b))
    decreases ts, |ts|
  {
    if i == 0 {
      SearchFails(ts[0], q, b);
    } else {
      SearchAllFails(ts[1..], q, i - 1, b);
    }
  }

  lemma {:induction false} SearchFindsFirst(t: Test, q: Query) returns (a: Place)
    requires Search(t, q).Some?
    ensures IsFirstMatch(t, q, a) && Search(t, q).value == Chain(t, a)
    decreases t, 0
  {
    if Matches(q, t) {
      a := [];
    } else {
      var i, rest := SearchAllFindsFirst(t.children, q);
      a := [i] + rest;
      assert a[1..] == rest;
      forall b | IsPlace(t, b) && Before(b, a) ensures !Matches(q, At(t, b)) {
        if b != [] {
          assert IsPlace(t.children[b[0]], b[1..]);
        }
      }
    }
  }

  lemma {:induction false} SearchAllFindsFirst(ts: seq<Test>, q: Query) returns (i: nat, a: Place)
    requires SearchAll(ts, q).Some?
    ensures i < |ts| && IsFirstMatch(ts[i], q, a) && SearchAll(ts, q).value == Chain(ts[i], a)
    ensures forall j, b :: 0 <= j < i && IsPlace(ts[j], b) ==> !Matches(q, At(ts[j], b))
    decreases ts, |ts|
  {
    if Search(ts[0], q).Some? {
      a := SearchFindsFirst(ts[0], q);
      i := 0;
    } else {
      var k;
      k, a := SearchAllFindsFirst(ts[1..], q);
      i := k + 1;
      forall j, b | 0 <= j < i && IsPlace(ts[j], b) ensures !Matches(q, At(ts[j], b)) {
        if j == 0 {
          SearchFails(ts[0], q, b);
        } else {
          assert ts[j] == ts[1..][j - 1];
        }
      }
    }
  }

  /** The search succeeds exactly when some test of the tree matches, and then yields
      the chain down to the first match in preorder. */
  lemma SearchIsFirstInPreorder(t: Test, q: Query)
    ensures Search(t, q).Some? <==> exists a: Place :: IsMatch(t, q, a)
    ensures Search(t, q).Some? ==>
      exists a: Place :: IsFirstMatch(t, q, a) && Search(t, q).value == Chain(t, a)
  {
    if Search(t, q).Some? {
      var a := SearchFindsFirst(t, q);
      assert IsMatch(t, q, a);
    } else {
      forall a: Place | IsPlace(t, a) ensures !IsMatch(t, q, a) { SearchFails(t, q, a); }
    }
  }

  // ---------- Path strings ----------

  function Names(path: seq<Test>): (r: seq<string>)
    ensures |r| == |path| && forall i :: 0 <= i < |r| ==> r[i] == path[i].name
  {
    seq(|path|, i requires 0 <= i < |path| => path[i].name)
  }

  function PathString(path: seq<Test>): string {
    [SEPARATOR] + Join(Names(path), SEPARATOR)
  }

  /** The names in a path string, and whether it is relative. */
  function SplitPath(s: string): (bool, seq<string>) {
    if s == [] then (true, [])
    else if s[0] != SEPARATOR then (true, Pieces(s, SEPARATOR))
    else (false, Pieces(s[1..], SEPARATOR))
  }

  datatype Failure = NoTestNamed(name: string) | RootMismatch | Unresolved(name: string)

  function FirstChild(ts: seq<Test>, name: string): Option<Test> {
    if ts == [] then None else if ts[0].name == name then Some(ts[0]) else FirstChild(ts[1..], name)
  }

  /** From `t` down through the first children bearing the given names. */
  function Descend(t: Test, names: seq<string>): Result<seq<Test>, Failure>
    decreases |names|
  {
    if names == [] then Ok([t])
    else
      match FirstChild(t.children, names[0])
      case None => Error(Unresolved(names[0]))
      case Some(child) =>
        match Descend(child, names[1..])
        case Error(e) => Error(e)
        case Ok(path) => Ok([t] + path)
  }

  function ActualRoot(root: Test, s: string): Result<Test, Failure> {
    var (isRelative, names) := SplitPath(s);
    if s == [] then Ok(root)
    else if isRelative then
      match Search(root, Named(names[0]))
      case None => Error(NoTestNamed(names[0]))
      case Some(path) => Ok(path[|path| - 1])
    else if root.name != names[0] then Error(RootMismatch)
    else Ok(root)
  }

  /** Resolving a path string against a root. */
  function Resolve(root: Test, s: string): Result<seq<Test>, Failure> {
    match ActualRoot(root, s)
    case Error(e) => Error(e)
    case Ok(t) =>
      var names := SplitPath(s).1;
      Descend(t, if names == [] then [] else names[1..])
  }

  /** `c` is the first of the tests that bears the name. */
  ghost predicate FirstNamed(ts: seq<Test>, name: string, c: Test) {
    exists i :: 0 <= i < |ts| && ts[i] == c && c.name == name && forall j :: 0 <= j < i ==> ts[j].name != name
  }

  ghost predicate NoneNamed(ts: seq<Test>, name: string) {
    forall i :: 0 <= i < |ts| ==> ts[i].name != name
  }

  /** The search among children finds the first one bearing the name, and fails only if
      none does. */
  lemma {:induction false} FirstChildIs(ts: seq<Test>, name: string)
    ensures forall c :: FirstChild(ts, name) == Some(c) <==> FirstNamed(ts, name, c)
    ensures FirstChild(ts, name) == None <==> NoneNamed(ts, name)
  {
    if ts != [] {
      FirstChildIs(ts[1..], name);
      forall c ensures FirstChild(ts, name) == Some(c) <==> FirstNamed(ts, name, c) {
        FirstNamedStep(ts, name, c);
      }
      assert forall i :: 0 < i < |ts| ==> ts[i] == ts[1..][i - 1];
    }
  }

  lemma FirstNamedStep(ts: seq<Test>, name: string, c: Test)
    requires ts != []
    ensures FirstNamed(ts, name, c) <==> if ts[0].name == name then ts[0] == c else FirstNamed(ts[1..], name, c)
  {
    var rest := ts[1..];
    if FirstNamed(ts, name, c) && ts[0].name != name {
      var i :| 0 <= i < |ts| && ts[i] == c && c.name == name && forall j :: 0 <= j < i ==> ts[j].name != name;
      assert rest[i - 1] == c;
      assert forall j :: 0 <= j < i - 1 ==> rest[j] == ts[j + 1];
    }
    if FirstNamed(rest, name, c) && ts[0].name != name {
      var i :| 0 <= i < |rest| && rest[i] == c && c.name == name && forall j :: 0 <= j < i ==> rest[j].name != name;
      assert ts[i + 1] == c;
      assert forall j :: 1 <= j < i + 1 ==> ts[j] == rest[j - 1];
    }
  }

  /** Every step is the first child bearing its name. */
  ghost predicate FirstSteps(path: seq<Test>) {
    forall i :: 0 < i < |path| ==> FirstNamed(path[i - 1].children, path[i].name, path[i])
  }

  lemma FirstStepsMore(path: seq<Test>)
    requires |path| > 1
    ensures FirstSteps(path) <==> FirstNamed(path[0].children, path[1].name, path[1]) && FirstSteps(path[1..])
  {
    hide FirstNamed;
    var rest := path[1..];
    if FirstSteps(path) {
      forall i | 0 < i < |rest| ensures FirstNamed(rest[i - 1].children, rest[i].name, rest[i]) {
        assert FirstNamed(path[i].children, path[i + 1].name, path[i + 1]);
      }
    }
    if FirstNamed(path[0].children, path[1].name, path[1]) && FirstSteps(rest) {
      forall i | 0 < i < |path| ensures FirstNamed(path[i - 1].children, path[i].name, path[i]) {
        if i > 1 { assert FirstNamed(rest[i - 2].children, rest[i - 1].name, rest[i - 1]); }
      }
    }
  }

  lemma {:induction false} DescendIff(t: Test, path: seq<Test>)
    requires path != []
    ensures Descend(t, Names(path)[1..]) == Ok(path) <==> path[0] == t && FirstSteps(path)
    decreases |path|
  {
    hide FirstNamed, FirstSteps;
    var names := Names(path)[1..];
    assert path == [path[0]] + path[1..];
    if |path| > 1 {
      var rest := path[1..];
      assert names == Names(rest) && names[0] == path[1].name;
      FirstStepsMore(path);
      FirstChildIs(t.children, names[0]);
      match FirstChild(t.children, names[0])
      case None =>
      case Some(child) =>
        DescendIff(child, rest);
        if Descend(t, names) == Ok(path) {
          assert ([t] + Descend(child, names[1..]).value)[1..] == rest;
        }
    } else {
      assert names == [] && path == [path[0]];
      assert FirstSteps(path) by { OneStep(path); }
    }
  }

  lemma OneStep(path: seq<Test>)
    requires |path| == 1
    ensures FirstSteps(path)
  {
  }

  /** Cutting the string of a path gives back the names. */
  lemma SplitPathString(path: seq<Test>)
    requires path != [] && forall i :: 0 <= i < |path| ==> SEPARATOR !in path[i].name
    ensures SplitPath(PathString(path)) == (false, Names(path))
  {
    PiecesJoin(Names(path), SEPARATOR);
    assert PathString(path)[1..] == Join(Names(path), SEPARATOR);
  }

  /** A descent passes the names it was given. */
  lemma {:induction false} DescendNames(t: Test, names: seq<string>)
    requires Descend(t, names).Ok?
    ensures var path := Descend(t, names).value;
      |path| == |names| + 1 && Names(path) == [t.name] + names
    decreases |names|
  {
    if names != [] {
      FirstChildIs(t.children, names[0]);
      DescendNames(FirstChild(t.children, names[0]).value, names[1..]);
      assert names == [names[0]] + names[1..];
    }
  }

  /** A descent is the path that starts at the test, bears the names and takes the first
      child at each step. */
  lemma DescendExactly(t: Test, names: seq<string>, path: seq<Test>)
    ensures Descend(t, names) == Ok(path) <==>
      path != [] && path[0] == t && Names(path)[1..] == names && FirstSteps(path)
  {
    hide Descend, FirstSteps;
    if Descend(t, names) == Ok(path) {
      DescendNames(t, names);
      assert ([t.name] + names)[1..] == names;
    }
    if path != [] { DescendIff(t, path); }
  }

  /** Where a descent fails: it has taken first children through some of the names, and no
      child bears the next one. */
  ghost predicate DeadEnd(t: Test, names: seq<string>, path: seq<Test>) {
    && 0 < |path| <= |names| && path[0] == t && FirstSteps(path)
    && Names(path)[1..] == names[..|path| - 1]
    && NoneNamed(path[|path| - 1].children, names[|path| - 1])
  }

  lemma {:induction false} DescendFails(t: Test, names: seq<string>) returns (path: seq<Test>)
    requires Descend(t, names).Error?
    ensures 0 < |path| <= |names| && path[0] == t
    ensures DeadEnd(t, names, path) && Descend(t, names) == Error(Unresolved(names[|path| - 1]))
    decreases |names|
  {
    hide FirstNamed, FirstSteps, NoneNamed, DeadEnd;
    FirstChildIs(t.children, names[0]);
    match FirstChild(t.children, names[0])
    case None =>
      path := [t];
      DeadEndHere(t, names);
    case Some(child) =>
      var rest := DescendFails(child, names[1..]);
      path := [t] + rest;
      DeadEndBelow(t, names, rest);
  }

  lemma DeadEndHere(t: Test, names: seq<string>)
    requires names != [] && NoneNamed(t.children, names[0])
    ensures DeadEnd(t, names, [t])
  {
    hide FirstNamed, NoneNamed;
    assert Names([t])[1..] == names[..0];
  }

  lemma DeadEndBelow(t: Test, names: seq<string>, rest: seq<Test>)
    requires names != [] && rest != [] && DeadEnd(rest[0], names[1..], rest)
    requires FirstNamed(t.children, names[0], rest[0])
    ensures DeadEnd(t, names, [t] + rest) && names[|rest|] == names[1..][|rest| - 1]
  {
    hide FirstSteps, NoneNamed;
    var path := [t] + rest;
    assert path[1..] == rest && path[|path| - 1] == rest[|rest| - 1];
    assert FirstSteps(path) by { FirstStepsMore(path); }
    assert Names(path)[1..] == Names(rest);
    assert Names(rest) == [names[0]] + Names(rest)[1..];
    assert names[..|rest|] == [names[0]] + names[1..][..|rest| - 1];
  }

  /** The empty string resolves to the root, an absolute one to the path that starts at the
      root, bears the names and takes first children; it fails at the root exactly if the
      root does not bear the first name. */
  lemma AbsoluteResolution(root: Test, s: string)
    requires s == [] || s[0] == SEPARATOR
    ensures s == [] ==> Resolve(root, s) == Ok([root])
    ensures s != [] ==> forall path :: Resolve(root, s) == Ok(path) <==>
      path != [] && path[0] == root && Names(path) == Pieces(s[1..], SEPARATOR) && FirstSteps(path)
    ensures s != [] ==>
      (Resolve(root, s) == Error(RootMismatch) <==> root.name != Pieces(s[1..], SEPARATOR)[0])
  {
    if s != [] {
      hide Descend, Pieces, FirstSteps;
      var names := Pieces(s[1..], SEPARATOR);
      assert names == [names[0]] + names[1..];
      DescendError(root, names[1..]);
      forall path: seq<Test> ensures Resolve(root, s) == Ok(path) <==>
        path != [] && path[0] == root && Names(path) == names && FirstSteps(path)
      {
        DescendExactly(root, names[1..], path);
        if path != [] { assert Names(path) == [path[0].name] + Names(path)[1..]; }
      }
    }
  }

  /** Path strings round trip for exactly these paths: not empty, with no separator in a
      name, starting at the root, and with every step the first child bearing its name. */
  lemma PathRoundTrip(root: Test, path: seq<Test>)
    ensures Resolve(root, PathString(path)) == Ok(path) <==>
      path != [] && Free(Names(path), SEPARATOR) && path[0] == root && FirstSteps(path)
  {
    hide Descend, FirstSteps, Pieces, Join;
    var s := PathString(path);
    assert s[1..] == Join(Names(path), SEPARATOR);
    if Resolve(root, s) == Ok(path) {
      var names := Pieces(s[1..], SEPARATOR);
      DescendNames(root, names[1..]);
      assert names == [names[0]] + names[1..];
      JoinPieces(s[1..], SEPARATOR);
    }
    if path != [] && Free(Names(path), SEPARATOR) {
      SplitPathString(path);
      DescendIff(root, path);
      assert Names(path)[0] == path[0].name;
    }
  }

  /** A relative string fails for want of a test exactly when no test of the tree bears
      its first name. */
  lemma RelativeFailure(root: Test, s: string)
    requires s != [] && s[0] != SEPARATOR
    ensures var name := Pieces(s, SEPARATOR)[0];
      Resolve(root, s) == Error(NoTestNamed(name)) <==> !exists a: Place :: IsMatch(root, Named(name), a)
  {
    hide Descend, Pieces;
    var names := Pieces(s, SEPARATOR);
    var q := Named(names[0]);
    SearchIsFirstInPreorder(root, q);
    if Search(root, q).Some? {
      var p := Search(root, q).value;
      DescendError(p[|p| - 1], names[1..]);
    }
  }

  lemma {:induction false} DescendError(t: Test, names: seq<string>)
    ensures Descend(t, names).Error? ==> Descend(t, names).error.Unresolved?
    decreases |names|
  {
    if names != [] && FirstChild(t.children, names[0]).Some? {
      DescendError(FirstChild(t.children, names[0]).value, names[1..]);
    }
  }

  /** Otherwise it resolves from the first test in preorder bearing that name: to the path
      that starts there, bears the names and takes the first child at each step. */
  lemma RelativeResolution(root: Test, s: string) returns (a: Place)
    requires s != [] && s[0] != SEPARATOR
    requires exists b: Place :: IsMatch(root, Named(Pieces(s, SEPARATOR)[0]), b)
    ensures IsFirstMatch(root, Named(Pieces(s, SEPARATOR)[0]), a)
    ensures forall path :: Resolve(root, s) == Ok(path) <==>
      path != [] && path[0] == At(root, a) && Names(path) == Pieces(s, SEPARATOR) && FirstSteps(path)
  {
    hide Descend, Pieces, FirstSteps;
    var names := Pieces(s, SEPARATOR);
    var q := Named(names[0]);
    SearchIsFirstInPreorder(root, q);
    a := SearchFindsFirst(root, q);
    var t := At(root, a);
    assert Resolve(root, s) == Descend(t, names[1..]);
    assert t.name == names[0];
    forall path: seq<Test> ensures Resolve(root, s) == Ok(path) <==>
      path != [] && path[0] == t && Names(path) == names && FirstSteps(path)
    {
      DescendExactly(t, names[1..], path);
      if path != [] {
        assert Names(path) == [path[0].name] + Names(path)[1..];
        assert names == [names[0]] + names[1..];
      }
    }
  }

  // ---------- The program ----------

  /** The window of a path that the slice constructor copies: the places from `first`
      on, `count` of them, or all if `count` is negative, cut down to valid places. */
  ghost function Window(s: seq<Test>, first: int, count: int): seq<Test> {
    var lo := if first < 0 then 0 else if first > |s| then |s| else first;
    var hi := if count < 0 || first + count > |s| then |s| else first + count;
    if lo <= hi then s[lo..hi] else []
  }

  /** The places asked for: from `first` on, `count` of them unless that is negative. */
  ghost predicate Asked(first: int, count: int, p: int) {
    first <= p && (count < 0 || p < first + count)
  }

  /** The window holds the tests at the valid places among those asked for. */
  lemma WindowIs(s: seq<Test>, first: int, count: int) returns (lo: nat, hi: nat)
    ensures lo <= hi <= |s| && Window(s, first, count) == s[lo..hi]
    ensures forall p :: 0 <= p < |s| ==> (lo <= p < hi <==> Asked(first, count, p))
  {
    lo := if first < 0 then 0 else if first > |s| then |s| else first;
    hi := if count < 0 || first + count > |s| then |s| else if first + count < lo then lo else first + count;
  }

  ghost function Spliced(s: seq<Test>, items: seq<Test>, index: int): (r: seq<Test>)
    requires 0 <= index <= |s|
    ensures |r| == |s| + |items|
  {
    s[..index] + items + s[index..]
  }

  /** The items stand from `index` on, what was there before them stands behind them. */
  lemma SplicedIs(s: seq<Test>, items: seq<Test>, index: int, p: nat)
    requires 0 <= index <= |s| && p < |s| + |items|
    ensures Spliced(s, items, index)[p]
         == if p < index then s[p] else if p < index + |items| then items[p - index] else s[p - |items|]
  {
  }

  /** The loop of insert when the path inserted is the path itself: the elements at
      itemIndex, ..., 0 are inserted one after the other. */
  ghost function SelfInserted(s: seq<Test>, itemIndex: int, index: int): (r: seq<Test>)
    requires 0 <= index <= |s| && itemIndex < |s|
    ensures itemIndex >= 0 ==> |r| == |s| + itemIndex + 1
    decreases itemIndex
  {
    if itemIndex < 0 then s else SelfInserted(Spliced(s, [s[itemIndex]], index), itemIndex - 1, index)
  }

  /** What has been inserted only moves up. */
  lemma {:induction false} SelfInsertedMoves(s: seq<Test>, itemIndex: int, index: int, p: nat)
    requires 0 <= index <= |s| && -1 <= itemIndex < |s| && index + p < |s|
    ensures SelfInserted(s, itemIndex, index)[index + itemIndex + 1 + p] == s[index + p]
    decreases itemIndex
  {
    if itemIndex >= 0 {
      var t := Spliced(s, [s[itemIndex]], index);
      assert t[index + (p + 1)] == s[index + p];
      SelfInsertedMoves(t, itemIndex - 1, index, p + 1);
    }
  }

  lemma SpliceMore(s: seq<Test>, items: seq<Test>, x: Test, index: int)
    requires 0 <= index <= |s|
    ensures Spliced(Spliced(s, items, index), [x], index) == Spliced(s, [x] + items, index)
  {
    var t := Spliced(s, items, index);
    assert t[..index] == s[..index] && t[index..] == items + s[index..];
  }

  lemma SplicedBefore(s: seq<Test>, items: seq<Test>, index: int, j: nat)
    requires 0 <= index <= |s|
    ensures j < index ==> Spliced(s, items, index)[j] == s[j]
    ensures Spliced(s, [], index) == s
  {
  }

  lemma {:induction false} SelfInsertedAtEnd(s: seq<Test>, j: int, index: int)
    requires |s| - 1 <= index <= |s| && -1 <= j < |s| && s != []
    ensures SelfInserted(Spliced(s, s[j + 1..], index), j, index) == Spliced(s, s, index)
    decreases j
  {
    hide Spliced;
    if j >= 0 {
      SplicedBefore(s, s[j + 1..], index, j);
      assert j == |s| - 1 ==> s[j + 1..] == [];
      assert s[j..] == [s[j]] + s[j + 1..];
      SpliceMore(s, s[j + 1..], s[j], index);
      SelfInsertedAtEnd(s, j - 1, index);
    } else {
      assert s[0..] == s;
    }
  }

  /** Further forward, the second element to go in is not the last but one. */
  lemma SecondInserted(s: seq<Test>, index: int)
    requires 0 <= index < |s| - 1
    requires forall i, j :: 0 <= i < j < |s| ==> s[i] != s[j]
    ensures SelfInserted(s, |s| - 1, index)[index + |s| - 2] != Spliced(s, s, index)[index + |s| - 2]
  {
    var n := |s|;
    var s1 := Spliced(s, [s[n - 1]], index);
    var x := s1[n - 2];
    var s2 := Spliced(s1, [x], index);
    SelfInsertedMoves(s2, n - 3, index, 0);
    assert s2[index] == x;
    assert SelfInserted(s, n - 1, index) == SelfInserted(s1, n - 2, index) == SelfInserted(s2, n - 3, index);
    assert x == if n - 2 == index then s[n - 1] else s[n - 3];
    assert Spliced(s, s, index)[index + n - 2] == s[n - 2];
  }

  /** Inserting a path of distinct tests into itself splices it in exactly when it goes
      to the end or just before the last test. */
  lemma SelfInsertIff(s: seq<Test>, index: int)
    requires 0 <= index <= |s| && s != []
    requires forall i, j :: 0 <= i < j < |s| ==> s[i] != s[j]
    ensures SelfInserted(s, |s| - 1, index) == Spliced(s, s, index) <==> index >= |s| - 1
  {
    hide SelfInserted, Spliced;
    var n := |s|;
    if index >= n - 1 {
      assert s[n..] == [];
      SplicedBefore(s, [], index, 0);
      SelfInsertedAtEnd(s, n - 1, index);
    } else {
      SecondInserted(s, index);
    }
  }

  class TestPath {
    var tests: seq<Test>

    constructor ()
      ensures tests == []
    {
      tests := [];
    }

    constructor Slice(other: TestPath, indexFirst: int, n: int)
      ensures tests == Window(other.tests, indexFirst, n)
    {
      var first, count, countAdjustment := indexFirst, n, 0;
      if first < 0 {
        countAdjustment := first;
        first := 0;
      }
      if count < 0 {
        count := |other.tests|;
      } else {
        count := count + countAdjustment;
      }
      var copied, index := [], first;
      while count > 0 && index < |other.tests|
        invariant first <= index && (index <= |other.tests| || index == first)
        invariant copied == if index == first then [] else other.tests[first..index]
        invariant count + (index - first) == if n < 0 then |other.tests| else n + countAdjustment
        invariant index > first ==> count >= 0
        decreases |other.tests| - index
      {
        count := count - 1;
        copied := copied + [other.tests[index]];
        index := index + 1;
      }
      assert copied == Window(other.tests, indexFirst, n) by {
        if index == first {
          assert count <= 0 || first >= |other.tests|;
        } else if n < 0 {
          assert index == |other.tests|;
        } else {
          assert index == indexFirst + n || index == |other.tests|;
        }
      }
      tests := copied;
    }

    method Add(test: Test)
      modifies this
      ensures tests == old(tests) + [test]
    {
      tests := tests + [test];
    }

    /** False stands for the out_of_range exception. */
    method Insert(test: Test, index: int) returns (ok: bool)
      modifies this
      ensures ok == (0 <= index <= |old(tests)|)
      ensures tests == if ok then Spliced(old(tests), [test], index) else old(tests)
    {
      ok := !(index < 0 || index > |tests|);
      if ok {
        tests := tests[..index] + [test] + tests[index..];
      }
    }

    /** Inserting another path splices it in; only a non-empty one can be refused.  When
        a path is inserted into itself the loop reads what it has just moved. */
    method InsertPath(path: TestPath, index: int) returns (ok: bool)
      modifies this
      ensures ok == (old(path.tests) == [] || 0 <= index <= |old(tests)|)
      ensures old(path.tests) == [] || !ok ==> tests == old(tests)
      ensures old(path.tests) != [] && ok && path != this ==>
        tests == Spliced(old(tests), old(path.tests), index)
      ensures old(path.tests) != [] && ok && path == this ==>
        tests == SelfInserted(old(tests), |old(tests)| - 1, index)
    {
      hide Spliced;
      ghost var items, start := path.tests, tests;
      var itemIndex := |path.tests| - 1;
      ok := true;
      while itemIndex >= 0
        invariant -1 <= itemIndex < |items| && ok && (path != this ==> path.tests == items)
        invariant itemIndex == |items| - 1 ==> tests == start
        invariant itemIndex < |items| - 1 ==> 0 <= index <= |start| && |tests| >= |start|
        invariant itemIndex < |items| - 1 && path != this ==>
          tests == Spliced(start, items[itemIndex + 1..], index)
        invariant itemIndex < |items| - 1 && path == this ==>
          SelfInserted(tests, itemIndex, index) == SelfInserted(start, |start| - 1, index)
        decreases itemIndex
      {
        assert items[itemIndex..] == [items[itemIndex]] + items[itemIndex + 1..];
        if 0 <= index <= |start| {
          assert itemIndex == |items| - 1 ==> items[itemIndex + 1..] == [];
          SplicedBefore(start, items, index, 0);
          SpliceMore(start, items[itemIndex + 1..], items[itemIndex], index);
        }
        ok := Insert(path.tests[itemIndex], index);
        if !ok {
          return;
        }
        itemIndex := itemIndex - 1;
      }
      assert items[0..] == items;
    }

    method ToString() returns (asString: string)
      ensures asString == PathString(tests)
    {
      asString := [SEPARATOR];
      var index := 0;
      while index < |tests|
        invariant 0 <= index <= |tests|
        invariant asString == [SEPARATOR] + Join(Names(tests[..index]), SEPARATOR)
      {
        ghost var before := Join(Names(tests[..index]), SEPARATOR);
        if index > 0 {
          asString := asString + [SEPARATOR];
        }
        var name := tests[index].name;
        asString := asString + name;
        assert Names(tests[..index + 1]) == Names(tests[..index]) + [name];
        if index > 0 {
          JoinConcat(Names(tests[..index]), [name], SEPARATOR);
        }
        index := index + 1;
      }
      assert tests[..index] == tests;
    }
  }

  /** Both overloads of findTestPath.  The match goes to the end of the path and its
      ancestors to the front, around whatever the path held before. */
  method FindTestPath(t: Test, q: Query, path: TestPath) returns (found: bool)
    modifies path
    ensures found == Search(t, q).Some?
    ensures found ==> var c := Search(t, q).value;
      path.tests == c[..|c| - 1] + old(path.tests) + [c[|c| - 1]]
    ensures !found ==> path.tests == old(path.tests)
    decreases t
  {
    hide Spliced;
    if Matches(q, t) {
      path.Add(t);
      assert [t][..0] + old(path.tests) == old(path.tests);
      return true;
    }
    var childIndex := 0;
    assert t.children[0..] == t.children;
    while childIndex < |t.children|
      invariant 0 <= childIndex <= |t.children| && path.tests == old(path.tests)
      invariant SearchAll(t.children, q) == SearchAll(t.children[childIndex..], q)
    {
      var child := t.children[childIndex];
      assert t.children[childIndex..][1..] == t.children[childIndex + 1..];
      var here := FindTestPath(child, q, path);
      if here {
        ghost var c := Search(child, q).value;
        var ok := path.Insert(t, 0);
        Prepended(t, c, old(path.tests));
        return true;
      }
      childIndex := childIndex + 1;
    }
    return false;
  }

  lemma Prepended(t: Test, c: seq<Test>, p: seq<Test>)
    requires c != []
    ensures var d, s := [t] + c, c[..|c| - 1] + p + [c[|c| - 1]];
      Spliced(s, [t], 0) == d[..|d| - 1] + p + [d[|d| - 1]]
  {
    var d, s := [t] + c, c[..|c| - 1] + p + [c[|c| - 1]];
    assert s[..0] == [] && s[0..] == s;
    assert d[..|d| - 1] == [t] + c[..|c| - 1];
  }

  /** splitPathString. */
  method SplitPathText(pathAsString: string) returns (isRelative: bool, testNames: seq<string>)
    ensures (isRelative, testNames) == SplitPath(pathAsString)
  {
    hide Pieces, IndexOf;
    if pathAsString == [] {
      return true, [];
    }
    isRelative := pathAsString[0] != SEPARATOR;
    var index := if isRelative then 0 else 1;
    testNames := [];
    ghost var all := Pieces(pathAsString[index..], SEPARATOR);
    assert pathAsString[0..] == pathAsString;
    assert testNames + all == all;
    while true
      invariant 0 <= index <= |pathAsString|
      invariant testNames + Pieces(pathAsString[index..], SEPARATOR) == all
      decreases |pathAsString| - index
    {
      var separatorIndex := index + IndexOf(pathAsString[index..], SEPARATOR);
      PiecesStep(pathAsString, index, separatorIndex, SEPARATOR);
      if separatorIndex < |pathAsString| {
        ghost var before := testNames;
        var name := pathAsString[index..separatorIndex];
        testNames := testNames + [name];
        ghost var more := Pieces(pathAsString[separatorIndex + 1..], SEPARATOR);
        assert before + ([name] + more) == testNames + more;
        index := separatorIndex + 1;
      } else {
        assert pathAsString[index..] == pathAsString[index..separatorIndex];
        testNames := testNames + [pathAsString[index..]];
        return;
      }
    }
  }

  /** The string constructor, with findActualRoot. */
  method ResolvePath(searchRoot: Test, pathAsString: string) returns (r: Result<seq<Test>, Failure>)
    ensures r == Resolve(searchRoot, pathAsString)
  {
    hide Search, Pieces, FirstChild;
    var isRelative, testNames := SplitPathText(pathAsString);
    var parentTest := searchRoot;
    if pathAsString != [] {
      if isRelative {
        var path := new TestPath();
        var found := FindTestPath(searchRoot, Named(testNames[0]), path);
        if !found {
          return Error(NoTestNamed(testNames[0]));
        }
        parentTest := path.tests[|path.tests| - 1];
      }
      if parentTest.name != testNames[0] {
        RelativeRoot(searchRoot, pathAsString);
        return Error(RootMismatch);
      }
    }
    ghost var root := parentTest;
    assert ActualRoot(searchRoot, pathAsString) == Ok(root);
    ghost var names := if testNames == [] then [] else testNames[1..];
    var tests := [parentTest];
    var index := 1;
    assert testNames != [] ==> testNames[1..] == names;
    ContinueStarts(root, Descend(root, names));
    while index < |testNames|
      invariant 1 <= index && (index <= |testNames| || testNames == [])
      invariant tests != [] && tests[|tests| - 1] == parentTest
      invariant Descend(root, names) == Continue(tests, Descend(parentTest, if testNames == [] then [] else testNames[index..]))
    {
      var child := FindChild(parentTest, testNames[index]);
      if child == None {
        return Error(Unresolved(testNames[index]));
      }
      assert testNames[index..][1..] == testNames[index + 1..];
      ContinueStep(tests, parentTest, Descend(child.value, testNames[index + 1..]));
      parentTest := child.value;
      tests := tests + [parentTest];
      index := index + 1;
    }
    ContinueEnds(tests, parentTest);
    return Ok(tests);
  }

  /** A path whose last test the result starts from, followed by the rest of it. */
  ghost function Continue(path: seq<Test>, r: Result<seq<Test>, Failure>): Result<seq<Test>, Failure>
    requires path != []
  {
    match r
    case Error(e) => Error(e)
    case Ok(p) => Ok(path[..|path| - 1] + p)
  }

  lemma ContinueStep(path: seq<Test>, t: Test, r: Result<seq<Test>, Failure>)
    requires path != [] && path[|path| - 1] == t
    ensures Continue(path, if r.Ok? then Ok([t] + r.value) else r)
         == match r case Error(e) => Error(e) case Ok(p) => Ok(path + p)
  {
    if r.Ok? {
      assert path[..|path| - 1] + ([t] + r.value) == path + r.value;
    }
  }

  lemma ContinueEnds(path: seq<Test>, t: Test)
    requires path != [] && path[|path| - 1] == t
    ensures Continue(path, Ok([t])) == Ok(path)
  {
    assert path[..|path| - 1] + [t] == path;
  }

  lemma ContinueStarts(t: Test, r: Result<seq<Test>, Failure>)
    ensures Continue([t], r) == r
  {
    if r.Ok? { assert [t][..0] + r.value == r.value; }
  }

  lemma RelativeRoot(root: Test, s: string)
    requires s != []
    ensures SplitPath(s).0 && Search(root, Named(SplitPath(s).1[0])).Some? ==>
      var p := Search(root, Named(SplitPath(s).1[0])).value; p[|p| - 1].name == SplitPath(s).1[0]
  {
    if SplitPath(s).0 && Search(root, Named(SplitPath(s).1[0])).Some? {
      var a := SearchFindsFirst(root, Named(SplitPath(s).1[0]));
    }
  }

  method FindChild(t: Test, name: string) returns (r: Option<Test>)
    ensures r == FirstChild(t.children, name)
  {
    var childIndex := 0;
    assert t.children[0..] == t.children;
    while childIndex < |t.children|
      invariant 0 <= childIndex <= |t.children|
      invariant FirstChild(t.children, name) == FirstChild(t.children[childIndex..], name)
    {
      if t.children[childIndex].name == name {
        return Some(t.children[childIndex]);
      }
      assert t.children[childIndex..][1..] == t.children[childIndex + 1..];
      childIndex := childIndex + 1;
    }
    return None;
  }
}
