/** `resolve`: from the parsed lines of `modules.dep` and `modules.builtin` to the selected
    module files. Name and path syntax checks and file access stay outside the model. */
module ModuleResolve {
  import opened Outcomes
  import opened ModuleClosure

  /** One line of `modules.dep`: a module file, the module's name, the files it depends on. */
  datatype Line = Line(path: string, name: string, deps: seq<string>)

  datatype ResolveError =
    | DuplicateDependency(path: string)
    | DuplicateDefinition(path: string)
    | AmbiguousName(name: string)
    | MissingDependency(path: string)
    | DependencyCycle(path: string)
    | UnknownModule(name: string)

  /** The built-in requests, the files, and those files that were requested themselves. */
  datatype Selection = Selection(builtins: seq<string>, files: set<string>, marked: set<string>)

  ghost predicate Distinct(s: seq<string>) {
    forall i, j :: 0 <= i < j < |s| ==> s[i] != s[j]
  }

  ghost function DefinitionsOf(lines: seq<Line>): (defs: Definitions)
    ensures forall p :: p in defs <==> exists i :: 0 <= i < |lines| && lines[i].path == p
  {
    if lines == [] then map[]
    else DefinitionsOf(lines[..|lines| - 1])[lines[|lines| - 1].path := lines[|lines| - 1].deps]
  }

  /** A module name with its file, or without one for a built-in. */
  type Claim = (string, Option<string>)
  type Names = map<string, Option<string>>

  ghost function Claims(lines: seq<Line>, builtins: seq<string>): (s: seq<Claim>) {
    seq(|lines|, i requires 0 <= i < |lines| => (lines[i].name, Some(lines[i].path)))
    + seq(|builtins|, i requires 0 <= i < |builtins| => (builtins[i], None))
  }

  ghost predicate LinesAccepted(lines: seq<Line>) {
    && (forall i :: 0 <= i < |lines| ==> Distinct(lines[i].deps))
    && (forall i, j :: 0 <= i < j < |lines| ==> lines[i].path != lines[j].path)
  }

  /** Two claims never share a requested name. */
  ghost predicate Unambiguous(claims: seq<Claim>, roots: seq<string>) {
    forall i, j :: 0 <= i < j < |claims| && claims[i].0 == claims[j].0 ==> claims[i].0 !in roots
  }

  ghost predicate Claimed(claims: seq<Claim>, name: string) {
    exists i :: 0 <= i < |claims| && claims[i].0 == name
  }

  /** What an index must satisfy for the requested modules to resolve. */
  ghost predicate Resolvable(lines: seq<Line>, builtins: seq<string>, roots: seq<string>) {
    var defs := DefinitionsOf(lines);
    && LinesAccepted(lines)
    && Unambiguous(Claims(lines, builtins), roots)
    && Closed(defs)
    && (forall n :: n in defs ==> !OnCycle(defs, n))
    && (forall r :: r in roots ==> Claimed(Claims(lines, builtins), r))
  }

  /** The name table holds exactly the claims on requested names. */
  ghost predicate NamesMatch(names: Names, claims: seq<Claim>, roots: seq<string>) {
    && (forall n :: n in names ==> n in roots && (n, names[n]) in claims)
    && (forall i :: 0 <= i < |claims| && claims[i].0 in roots ==> claims[i].0 in names)
    && Unambiguous(claims, roots)
  }

  /** `n` is a file of some requested module or one of its dependencies, at any depth. */
  ghost predicate Selected(lines: seq<Line>, roots: seq<string>, n: string) {
    exists i :: 0 <= i < |lines| && lines[i].name in roots && Reaches(DefinitionsOf(lines), lines[i].path, n)
  }

  /** `n` is the file of a requested module. */
  ghost predicate Requested(lines: seq<Line>, roots: seq<string>, n: string) {
    exists i :: 0 <= i < |lines| && lines[i].name in roots && lines[i].path == n
  }

  ghost function BuiltinRoots(roots: seq<string>, builtins: seq<string>): seq<string> {
    if roots == [] then []
    else BuiltinRoots(roots[..|roots| - 1], builtins) +
         if roots[|roots| - 1] in builtins then [roots[|roots| - 1]] else []
  }

  method InsertName(names: Names, roots: seq<string>, name: string, path: Option<string>, ghost claims: seq<Claim>)
    returns (r: Result<Names, ResolveError>)
    requires NamesMatch(names, claims, roots)
    ensures r.Success? <==> Unambiguous(claims + [(name, path)], roots)
    ensures r.Success? ==> NamesMatch(r.value, claims + [(name, path)], roots)
    ensures r.Failure? ==> r.error == AmbiguousName(name)
  {
    ghost var more := claims + [(name, path)];
    if name !in roots {
      return Success(names);
    }
    if name in names {
      ghost var i :| 0 <= i < |claims| && claims[i] == (name, names[name]);
      assert more[i].0 == more[|claims|].0;
      return Failure(AmbiguousName(name));
    }
    assert more[|claims|] == (name, path);
    return Success(names[name := path]);
  }

  /** The dependencies of one line as a set, or the repeated one. */
  method ReadEdges(deps: seq<string>) returns (r: Result<set<string>, ResolveError>)
    ensures r.Success? <==> Distinct(deps)
    ensures r.Success? ==> forall d :: d in r.value <==> d in deps
    ensures r.Failure? ==> r.error.DuplicateDependency? && r.error.path in deps
  {
    var edges: set<string> := {};
    for e := 0 to |deps|
      invariant forall d :: d in edges <==> exists i :: 0 <= i < e && deps[i] == d
      invariant forall i, j :: 0 <= i < j < e ==> deps[i] != deps[j]
    {
      if deps[e] in edges {
        return Failure(DuplicateDependency(deps[e]));
      }
      edges := edges + {deps[e]};
    }
    return Success(edges);
  }

  /** An ambiguous prefix of the claims makes the whole ambiguous. */
  lemma {:induction false} AmbiguousPrefix(claims: seq<Claim>, roots: seq<string>, k: nat)
    requires k <= |claims| && Unambiguous(claims, roots)
    ensures Unambiguous(claims[..k], roots)
  {}

  /** What reading one more line adds, and when it is refused. */
  lemma {:induction false} NextLine(lines: seq<Line>, n: nat)
    requires n < |lines| && LinesAccepted(lines[..n])
    ensures DefinitionsOf(lines[..n + 1]) == DefinitionsOf(lines[..n])[lines[n].path := lines[n].deps]
    ensures LinesAccepted(lines[..n + 1]) <==> Distinct(lines[n].deps) && lines[n].path !in DefinitionsOf(lines[..n])
    ensures LinesAccepted(lines) ==> LinesAccepted(lines[..n + 1])
  {
    var before, after := lines[..n], lines[..n + 1];
    assert after[..n] == before;
    assert forall i :: 0 <= i < n ==> after[i] == before[i];
    if lines[n].path in DefinitionsOf(before) {
      var i :| 0 <= i < n && before[i].path == lines[n].path;
      assert after[i].path == after[n].path;
    }
  }

  /** The definitions and the names claimed by module files. */
  method ReadModules(lines: seq<Line>, roots: seq<string>) returns (r: Result<(Definitions, Names), ResolveError>)
    ensures r.Success? <==> LinesAccepted(lines) && Unambiguous(Claims(lines, []), roots)
    ensures r.Success? ==> r.value.0 == DefinitionsOf(lines) && NamesMatch(r.value.1, Claims(lines, []), roots)
    ensures r.Failure? ==> r.error.DuplicateDependency? || r.error.DuplicateDefinition? || r.error.AmbiguousName?
  {
    var definitions: Definitions := map[];
    var names: Names := map[];
    ghost var all := Claims(lines, []);
    assert NamesMatch(names, all[..0], roots);
    for n := 0 to |lines|
      invariant definitions == DefinitionsOf(lines[..n])
      invariant LinesAccepted(lines[..n])
      invariant NamesMatch(names, all[..n], roots)
    {
      hide NamesMatch, Unambiguous, Distinct, DefinitionsOf, LinesAccepted;
      var line := lines[n];
      NextLine(lines, n);
      assert all[..n + 1] == all[..n] + [(line.name, Some(line.path))];
      var edges := ReadEdges(line.deps);
      if edges.Failure? { return Failure(edges.error); }
      if line.path in definitions {
        return Failure(DuplicateDefinition(line.path));
      }
      definitions := definitions[line.path := line.deps];
      var inserted := InsertName(names, roots, line.name, Some(line.path), all[..n]);
      if inserted.Failure? {
        if Unambiguous(all, roots) { AmbiguousPrefix(all, roots, n + 1); }
        return Failure(inserted.error);
      }
      names := inserted.value;
    }
    assert lines[..|lines|] == lines && all[..|lines|] == all;
    return Success((definitions, names));
  }

  method ReadBuiltins(lines: seq<Line>, builtins: seq<string>, roots: seq<string>, start: Names)
    returns (r: Result<Names, ResolveError>)
    requires NamesMatch(start, Claims(lines, []), roots)
    ensures r.Success? <==> Unambiguous(Claims(lines, builtins), roots)
    ensures r.Success? ==> NamesMatch(r.value, Claims(lines, builtins), roots)
    ensures r.Failure? ==> r.error.AmbiguousName?
  {
    hide NamesMatch, Unambiguous;
    var names := start;
    ghost var all := Claims(lines, builtins);
    assert all[..|lines|] == Claims(lines, []);
    for b := 0 to |builtins|
      invariant NamesMatch(names, all[..|lines| + b], roots)
    {
      assert all[..|lines| + b + 1] == all[..|lines| + b] + [(builtins[b], None)];
      var inserted := InsertName(names, roots, builtins[b], None, all[..|lines| + b]);
      if inserted.Failure? {
        if Unambiguous(all, roots) { AmbiguousPrefix(all, roots, |lines| + b + 1); }
        return Failure(inserted.error);
      }
      names := inserted.value;
    }
    assert all[..|lines| + |builtins|] == all;
    MatchIsUnambiguous(names, all, roots);
    return Success(names);
  }

  lemma {:induction false} MatchIsUnambiguous(names: Names, claims: seq<Claim>, roots: seq<string>)
    requires NamesMatch(names, claims, roots)
    ensures Unambiguous(claims, roots)
    ensures forall r :: r in roots ==> (r in names <==> Claimed(claims, r))
  {}

  /** `validate the whole index`: every dependency of every definition is defined. */
  method CheckDependencies(definitions: Definitions, keys: seq<string>) returns (r: Result<(), ResolveError>)
    requires forall k :: k in keys <==> k in definitions
    ensures r.Success? <==> Closed(definitions)
    ensures r.Failure? ==> r.error.MissingDependency? && r.error.path !in definitions
  {
    for k := 0 to |keys|
      invariant forall i, d :: 0 <= i < k && d in definitions[keys[i]] ==> d in definitions
    {
      var deps := definitions[keys[k]];
      for e := 0 to |deps|
        invariant forall i :: 0 <= i < e ==> deps[i] in definitions
      {
        if deps[e] !in definitions { return Failure(MissingDependency(deps[e])); }
      }
    }
    return Success(());
  }

  /** `selected` holds exactly the files the name table gives the requested modules. */
  ghost predicate Chosen(names: Names, roots: seq<string>, selected: seq<string>) {
    && (forall x :: x in roots && x in names && names[x].Some? ==> names[x].value in selected)
    && (forall p :: p in selected ==> FileOfRoot(names, roots, p))
  }

  ghost predicate FileOfRoot(names: Names, roots: seq<string>, p: string) {
    exists x :: x in roots && x in names && names[x] == Some(p)
  }

  lemma {:induction false} AlsoChoose(names: Names, roots: seq<string>, selected: seq<string>, x: string)
    requires Chosen(names, roots, selected)
    ensures x in names && names[x].Some? ==> Chosen(names, roots + [x], selected + [names[x].value])
    ensures x in names && names[x].None? ==> Chosen(names, roots + [x], selected)
  {
    assert x in roots + [x];
    forall p | FileOfRoot(names, roots, p) ensures FileOfRoot(names, roots + [x], p) {
      var y :| y in roots && y in names && names[y] == Some(p);
      assert y in roots + [x];
    }
    if x in names && names[x].Some? { assert FileOfRoot(names, roots + [x], names[x].value); }
  }

  /** Splits the requested names into module files and built-ins. */
  method ChooseRoots(lines: seq<Line>, builtins: seq<string>, roots: seq<string>, names: Names)
    returns (r: Result<(seq<string>, seq<string>), ResolveError>)
    requires NamesMatch(names, Claims(lines, builtins), roots)
    ensures r.Success? <==> forall x :: x in roots ==> x in names
    ensures r.Success? ==> Chosen(names, roots, r.value.0)
    ensures r.Success? ==> r.value.1 == BuiltinRoots(roots, builtins)
    ensures r.Failure? ==> r.error.UnknownModule? && r.error.name in roots && r.error.name !in names
  {
    var selected: seq<string> := [];
    var builtinRoots: seq<string> := [];
    for k := 0 to |roots|
      invariant forall x :: x in roots[..k] ==> x in names
      invariant Chosen(names, roots[..k], selected)
      invariant builtinRoots == BuiltinRoots(roots[..k], builtins)
    {
      hide NamesMatch, Chosen, Claims;
      assert roots[..k + 1] == roots[..k] + [roots[k]];
      AlsoChoose(names, roots[..k], selected, roots[k]);
      if roots[k] !in names { return Failure(UnknownModule(roots[k])); }
      BuiltinName(lines, builtins, roots, names, roots[k]);
      match names[roots[k]] {
        case Some(path) => selected := selected + [path];
        case None => builtinRoots := builtinRoots + [roots[k]];
      }
    }
    assert roots[..|roots|] == roots;
    return Success((selected, builtinRoots));
  }

  lemma {:induction false} BuiltinName(lines: seq<Line>, builtins: seq<string>, roots: seq<string>, names: Names, n: string)
    requires NamesMatch(names, Claims(lines, builtins), roots) && n in names
    ensures names[n].None? <==> n in builtins
    ensures names[n].Some? ==> exists i :: 0 <= i < |lines| && lines[i].name == n && lines[i].path == names[n].value
  {
    var claims := Claims(lines, builtins);
    var i :| 0 <= i < |claims| && claims[i] == (n, names[n]);
    if n in builtins {
      var b :| 0 <= b < |builtins| && builtins[b] == n;
      assert claims[|lines| + b] == (n, None);
    }
    if i < |lines| {
      assert claims[i] == (lines[i].name, Some(lines[i].path));
    } else {
      assert claims[i] == (builtins[i - |lines|], None);
    }
  }

  /** A cycle-free index leaves the second search nothing to fail on. */
  lemma {:induction false} AcyclicSelection(defs: Definitions, selected: seq<string>)
    requires forall n :: n in defs ==> !OnCycle(defs, n)
    ensures !CycleReachable(defs, selected)
  {}

  /** The search over the whole index fails exactly when some definition lies on a cycle. */
  lemma {:induction false} WholeIndexCycle(defs: Definitions, keys: seq<string>)
    requires forall k :: k in keys <==> k in defs
    ensures CycleReachable(defs, keys) <==> exists n :: n in defs && OnCycle(defs, n)
  {
    forall n | n in defs && OnCycle(defs, n) ensures CycleReachable(defs, keys) {
      ReachesSelf(defs, n);
      assert Reachable(defs, keys, n);
    }
  }

  lemma {:induction false} SelectedFiles(lines: seq<Line>, builtins: seq<string>, roots: seq<string>, names: Names, selected: seq<string>)
    requires NamesMatch(names, Claims(lines, builtins), roots)
    requires Chosen(names, roots, selected)
    ensures forall p :: p in selected ==> p in DefinitionsOf(lines)
    ensures forall n :: Reachable(DefinitionsOf(lines), selected, n) <==> Selected(lines, roots, n)
    ensures forall n :: n in selected <==> Requested(lines, roots, n)
  {
    var defs, claims := DefinitionsOf(lines), Claims(lines, builtins);
    forall p | p in selected
      ensures exists k :: 0 <= k < |lines| && lines[k].name in roots && lines[k].path == p
    {
      assert FileOfRoot(names, roots, p);
      var x :| x in roots && x in names && names[x] == Some(p);
      BuiltinName(lines, builtins, roots, names, x);
    }
    forall k | 0 <= k < |lines| && lines[k].name in roots ensures lines[k].path in selected {
      var i :| 0 <= i < |roots| && roots[i] == lines[k].name;
      assert claims[k] == (roots[i], Some(lines[k].path));
      var j :| 0 <= j < |claims| && claims[j] == (roots[i], names[roots[i]]);
      assert j == k;
    }
  }

  /** Success exactly on a resolvable index; the files are then the requested modules' own and
      everything they depend on, at any depth. `keys` lists the defined files. */
  method Resolve(lines: seq<Line>, builtins: seq<string>, roots: seq<string>, keys: seq<string>)
    returns (r: Result<Selection, ResolveError>)
    requires forall k :: k in keys <==> k in DefinitionsOf(lines)
    ensures r.Success? <==> Resolvable(lines, builtins, roots)
    ensures r.Success? ==> forall n :: n in r.value.files <==> Selected(lines, roots, n)
    ensures r.Success? ==> forall n :: n in r.value.marked <==> Requested(lines, roots, n)
    ensures r.Success? ==> r.value.builtins == BuiltinRoots(roots, builtins)
    ensures r.Failure? && r.error.DependencyCycle? ==> OnCycle(DefinitionsOf(lines), r.error.path)
    ensures r.Failure? && r.error.UnknownModule? ==> r.error.name in roots && !Claimed(Claims(lines, builtins), r.error.name)
  {
    hide NamesMatch, Unambiguous, LinesAccepted, DefinitionsOf, Claims, Closed, CycleReachable, Reachable, OnCycle, Selected, Requested, Claimed, BuiltinRoots;
    var index := ReadModules(lines, roots);
    if index.Failure? {
      if Unambiguous(Claims(lines, builtins), roots) { FewerClaims(lines, builtins, roots); }
      return Failure(index.error);
    }
    var definitions := index.value.0;
    var table := ReadBuiltins(lines, builtins, roots, index.value.1);
    if table.Failure? { return Failure(table.error); }
    var names := table.value;
    MatchIsUnambiguous(names, Claims(lines, builtins), roots);
    var checked := CheckDependencies(definitions, keys);
    if checked.Failure? { return Failure(checked.error); }
    var whole := Closure(definitions, keys);
    WholeIndexCycle(definitions, keys);
    if whole.Failure? { return Failure(DependencyCycle(whole.error)); }
    var chosen := ChooseRoots(lines, builtins, roots, names);
    if chosen.Failure? { return Failure(chosen.error); }
    SelectedFiles(lines, builtins, roots, names, chosen.value.0);
    var files := Closure(definitions, chosen.value.0);
    AcyclicSelection(definitions, chosen.value.0);
    return Success(Selection(chosen.value.1, files.value, set p | p in chosen.value.0));
  }

  lemma {:induction false} FewerClaims(lines: seq<Line>, builtins: seq<string>, roots: seq<string>)
    requires Unambiguous(Claims(lines, builtins), roots)
    ensures Unambiguous(Claims(lines, []), roots)
  {
    assert Claims(lines, builtins)[..|lines|] == Claims(lines, []);
    AmbiguousPrefix(Claims(lines, builtins), roots, |lines|);
  }
}
