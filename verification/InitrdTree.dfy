/** Building the initramfs tree for selected kernel modules. */
module InitrdTree {
  import opened Outcomes
  import opened Words
  import opened Newc

  type Name = seq<byte>

  // ---- ordered name sets ----

  /** Byte-wise lexicographic order. */
  predicate Less(a: Name, b: Name) {
    b != [] && (a == [] || a[0] < b[0] || (a[0] == b[0] && Less(a[1..], b[1..])))
  }

  lemma {:induction false} LessIrreflexive(a: Name)
    ensures !Less(a, a)
  {
    if a != [] { LessIrreflexive(a[1..]); }
  }

  lemma {:induction false} LessTotal(a: Name, b: Name)
    ensures a == b || Less(a, b) || Less(b, a)
  {
    if a != [] && b != [] && a[0] == b[0] {
      LessTotal(a[1..], b[1..]);
      if a[1..] == b[1..] { assert a == [a[0]] + a[1..] && b == [b[0]] + b[1..]; }
    }
  }

  lemma {:induction false} LessTransitive(a: Name, b: Name, c: Name)
    requires Less(a, b) && Less(b, c)
    ensures Less(a, c)
  {
    if a != [] && a[0] == b[0] && b[0] == c[0] { LessTransitive(a[1..], b[1..], c[1..]); }
  }

  lemma {:induction false} PrefixIsLess(a: Name, b: Name)
    requires a < b
    ensures Less(a, b)
  {
    if a != [] {
      assert a[1..] < b[1..] by { assert b[1..][..|a| - 1] == b[..|a|][1..]; }
      PrefixIsLess(a[1..], b[1..]);
    }
  }

  ghost predicate Sorted(s: seq<Name>) {
    forall i, j :: 0 <= i < j < |s| ==> Less(s[i], s[j])
  }

  /** The set `s` with `k`, in order. */
  function Insert(s: seq<Name>, k: Name): (t: seq<Name>) {
    if s == [] then [k]
    else if k == s[0] then s
    else if Less(k, s[0]) then [k] + s
    else [s[0]] + Insert(s[1..], k)
  }

  lemma {:induction false} InsertMembers(s: seq<Name>, k: Name)
    ensures forall n :: n in Insert(s, k) <==> n in s || n == k
  {
    if s != [] {
      InsertMembers(s[1..], k);
      assert s == [s[0]] + s[1..];
    }
  }

  lemma {:induction false} InsertSorted(s: seq<Name>, k: Name)
    requires Sorted(s)
    ensures Sorted(Insert(s, k))
  {
    hide Less;
    if s != [] && k != s[0] {
      if Less(k, s[0]) {
        forall i | 0 <= i < |s| ensures Less(k, s[i]) { if i > 0 { LessTransitive(k, s[0], s[i]); } }
      } else {
        LessTotal(k, s[0]);
        assert Sorted(s[1..]) by { assert forall i :: 0 <= i < |s| - 1 ==> s[1..][i] == s[i + 1]; }
        InsertSorted(s[1..], k);
        InsertMembers(s[1..], k);
        var t := Insert(s[1..], k);
        forall i | 0 <= i < |t| ensures Less(s[0], t[i]) {
          assert t[i] in t;
          if t[i] != k {
            var j :| 0 <= j < |s| - 1 && s[1..][j] == t[i];
            assert s[j + 1] == t[i];
          }
        }
      }
    }
  }

  /** Two orderings of the same names are the same. */
  lemma {:induction false} SortedUnique(a: seq<Name>, b: seq<Name>)
    requires Sorted(a) && Sorted(b) && forall n :: n in a <==> n in b
    ensures a == b
  {
    hide Less;
    if |b| > 0 { assert b[0] in b; }
    if a != [] {
      assert a[0] in a;
      if a[0] != b[0] {
        var i :| 0 <= i < |b| && b[i] == a[0];
        var j :| 0 <= j < |a| && a[j] == b[0];
        LessTransitive(a[0], b[0], a[0]);
        LessIrreflexive(a[0]);
      }
      var x, y := a[1..], b[1..];
      assert Sorted(x) by { assert forall i :: 0 <= i < |x| ==> x[i] == a[i + 1]; }
      assert Sorted(y) by { assert forall i :: 0 <= i < |y| ==> y[i] == b[i + 1]; }
      forall n ensures n in x <==> n in y { TailMembers(a, n); TailMembers(b, n); }
      SortedUnique(x, y);
      assert a == [a[0]] + x && b == [b[0]] + y;
    }
  }

  lemma {:induction false} TailMembers(s: seq<Name>, n: Name)
    requires Sorted(s) && s != []
    ensures n in s[1..] <==> n in s && n != s[0]
  {
    hide Less;
    assert s == [s[0]] + s[1..];
    LessIrreflexive(s[0]);
    if n in s[1..] {
      var i :| 0 <= i < |s| - 1 && s[1..][i] == n;
      assert Less(s[0], s[i + 1]);
    }
  }

  /** A smaller name comes first. */
  lemma {:induction false} LessComesFirst(s: seq<Name>, i: nat, j: nat)
    requires Sorted(s) && i < |s| && j < |s| && Less(s[i], s[j])
    ensures i < j
  {
    hide Less;
    LessIrreflexive(s[i]);
    if j < i { LessTransitive(s[i], s[j], s[i]); }
  }

  lemma {:induction false} SortedDistinct(s: seq<Name>)
    requires Sorted(s)
    ensures forall i, j :: 0 <= i < j < |s| ==> s[i] != s[j]
  {
    hide Less;
    forall i, j | 0 <= i < j < |s| ensures s[i] != s[j] { LessIrreflexive(s[i]); }
  }

  // ---- paths ----

  const SLASH: byte := 0x2F

  /** The position of the last slash, or -1. */
  function LastSlash(s: Name): (k: int)
    ensures -1 <= k < |s|
    ensures k >= 0 ==> s[k] == SLASH
    ensures k == -1 ==> SLASH !in s
  {
    if s == [] then -1
    else if s[|s| - 1] == SLASH then |s| - 1
    else
      var k := LastSlash(s[..|s| - 1]);
      assert s == s[..|s| - 1] + [s[|s| - 1]];
      k
  }

  /** The directory part of `s`, when there is a nonempty one. */
  function Before(s: Name): (d: Option<Name>)
    ensures d.Some? ==> 0 < |d.value| < |s| && d.value == s[..|d.value|]
  {
    if LastSlash(s) <= 0 then None else Some(s[..LastSlash(s)])
  }

  /** The directory an archive entry lies in. */
  function ParentDir(s: Name): Name {
    if LastSlash(s) == -1 then DOT else s[..LastSlash(s)]
  }

  ghost predicate IsAncestor(d: Name, path: Name)
    decreases |path|
  {
    Before(path).Some? && (d == Before(path).value || IsAncestor(d, Before(path).value))
  }

  datatype Component = Normal(part: Name) | Special
  datatype Module = Module(path: seq<Component>, bytes: seq<byte>)
  datatype InitrdError = ModulePath | ArchiveTooLarge | NotStatic

  predicate IsContinuation(c: byte) { 0x80 <= c < 0xC0 }

  /** The length of the UTF-8 character that starts `s`, or 0 when none does. */
  function CharLength(s: Name): (n: nat)
    ensures n <= |s|
  {
    if s == [] then 0
    else if s[0] < 0x80 then 1
    else if 0xC2 <= s[0] < 0xE0 then if |s| >= 2 && IsContinuation(s[1]) then 2 else 0
    else if 0xE0 <= s[0] < 0xF0 then
      if |s| >= 3 && IsContinuation(s[1]) && IsContinuation(s[2]) && (s[0] == 0xE0 ==> s[1] >= 0xA0) && (s[0] == 0xED ==> s[1] < 0xA0) then 3 else 0
    else if 0xF0 <= s[0] < 0xF5 then
      if && |s| >= 4 && IsContinuation(s[1]) && IsContinuation(s[2]) && IsContinuation(s[3])
         && (s[0] == 0xF0 ==> s[1] >= 0x90) && (s[0] == 0xF4 ==> s[1] < 0x90) then 4 else 0
    else 0
  }

  /** Control characters: the ASCII ones, delete, and U+0080 to U+009F. */
  predicate StartsWithControl(s: Name) {
    s != [] && (s[0] < 0x20 || s[0] == 0x7F || (s[0] == 0xC2 && |s| >= 2 && s[1] < 0xA0))
  }

  /** UTF-8 text without control characters, slashes, backslashes or colons. */
  predicate ValidText(s: Name) {
    s == [] || (CharLength(s) > 0 && !StartsWithControl(s) && s[0] != SLASH && s[0] != 0x5C && s[0] != 0x3A && ValidText(s[CharLength(s)..]))
  }

  predicate ValidPart(part: Name) { part != [] && ValidText(part) }

  lemma {:induction false} ValidTextIsNulFree(s: Name)
    requires ValidText(s)
    ensures 0 !in s
  {
    if s != [] {
      var n := CharLength(s);
      ValidTextIsNulFree(s[n..]);
      assert forall i :: 0 <= i < n ==> s[i] != 0;
      assert s == s[..n] + s[n..];
    }
  }

  predicate ValidPath(m: Module) {
    m.path != [] && forall i :: 0 <= i < |m.path| ==> m.path[i].Normal? && ValidPart(m.path[i].part)
  }

  const MODULES: Name := [0x75, 0x73, 0x72, 0x2F, 0x6C, 0x69, 0x62, 0x2F, 0x6D, 0x6F, 0x64, 0x75, 0x6C, 0x65, 0x73, 0x2F]

  function Join(parts: seq<Name>): Name {
    if parts == [] then [] else if |parts| == 1 then parts[0] else Join(parts[..|parts| - 1]) + [SLASH] + parts[|parts| - 1]
  }

  function Parts(path: seq<Component>): (p: seq<Name>)
    ensures |p| == |path|
  {
    seq(|path|, i requires 0 <= i < |path| => if path[i].Normal? then path[i].part else [])
  }

  /** `usr/lib/modules/<release>/<path>`. */
  function PathOf(release: Name, m: Module): (p: Name) {
    MODULES + release + [SLASH] + Join(Parts(m.path))
  }

  /** The kernel release is a single visible ASCII path component of bounded length. */
  predicate ValidRelease(release: Name) {
    && 0 < |release| <= MAX_RELEASE && release != [0x2E] && release != [0x2E, 0x2E]
    && forall i :: 0 <= i < |release| ==>
      0x21 <= release[i] <= 0x7E && release[i] != SLASH && release[i] != 0x5C && release[i] != 0x3A
  }

  const MAX_RELEASE: nat := 255

  // ---- the tree of a module list ----

  datatype Tree = Tree(dirs: seq<Name>, files: seq<Name>, contents: map<Name, seq<byte>>)

  ghost predicate IsDir(release: Name, modules: seq<Module>, d: Name) {
    d == DOT || d == DEV || exists m :: m in modules && IsAncestor(d, PathOf(release, m))
  }

  ghost predicate IsFile(release: Name, modules: seq<Module>, p: Name) {
    exists m :: m in modules && PathOf(release, m) == p
  }

  ghost predicate DirsMatch(release: Name, modules: seq<Module>, dirs: seq<Name>) {
    Sorted(dirs) && forall d :: d in dirs <==> IsDir(release, modules, d)
  }

  ghost predicate FilesMatch(release: Name, modules: seq<Module>, files: seq<Name>, contents: map<Name, seq<byte>>) {
    && Sorted(files) && (forall p :: p in files <==> IsFile(release, modules, p))
    && (forall p :: p in contents <==> p in files)
    && (forall m :: m in modules ==> PathOf(release, m) in contents && contents[PathOf(release, m)] == m.bytes)
  }

  ghost predicate Apart(files: seq<Name>, dirs: seq<Name>) {
    forall p :: p in files ==> p !in dirs
  }

  ghost predicate IsTree(release: Name, modules: seq<Module>, t: Tree) {
    && DirsMatch(release, modules, t.dirs)
    && FilesMatch(release, modules, t.files, t.contents)
    && Apart(t.files, t.dirs)
  }

  /** Valid paths, no two contents for one path, no path that is also a directory. */
  ghost predicate Consistent(release: Name, modules: seq<Module>) {
    && (forall m :: m in modules ==> ValidPath(m))
    && (forall m, n :: m in modules && n in modules && PathOf(release, m) == PathOf(release, n) ==> m.bytes == n.bytes)
    && (forall m :: m in modules ==> !IsDir(release, modules, PathOf(release, m)))
  }

  ghost predicate Waiting(d: Name, parent: Option<Name>) {
    parent.Some? && (d == parent.value || IsAncestor(d, parent.value))
  }

  /** `dirs` and the ancestors of `path`. */
  ghost predicate Extends(more: seq<Name>, dirs: seq<Name>, path: Name) {
    forall d :: d in more <==> d in dirs || IsAncestor(d, path)
  }

  method InsertAncestors(dirs: seq<Name>, path: Name) returns (more: seq<Name>)
    requires Sorted(dirs)
    ensures Sorted(more) && Extends(more, dirs, path)
  {
    hide Sorted;
    more := dirs;
    var parent := Before(path);
    assert forall d :: Waiting(d, parent) <==> IsAncestor(d, path);
    while parent.Some?
      invariant Sorted(more)
      invariant forall d :: d in more || Waiting(d, parent) <==> d in dirs || IsAncestor(d, path)
      decreases if parent.Some? then |parent.value| + 1 else 0
    {
      InsertSorted(more, parent.value);
      InsertMembers(more, parent.value);
      more := Insert(more, parent.value);
      var next := Before(parent.value);
      assert forall d :: Waiting(d, parent) <==> d == parent.value || Waiting(d, next);
      parent := next;
    }
  }

  /** No module with `m`'s path has a different content. */
  ghost predicate Agrees(release: Name, modules: seq<Module>, m: Module) {
    forall n :: n in modules && PathOf(release, n) == PathOf(release, m) ==> n.bytes == m.bytes
  }

  /** Adds one module's path and content; refuses a different content under the same path. */
  method AddFile(release: Name, ghost modules: seq<Module>, files: seq<Name>, contents: map<Name, seq<byte>>, m: Module)
    returns (r: Result<(seq<Name>, map<Name, seq<byte>>), InitrdError>)
    requires FilesMatch(release, modules, files, contents)
    ensures r.Success? <==> Agrees(release, modules, m)
    ensures r.Success? ==> FilesMatch(release, modules + [m], r.value.0, r.value.1)
    ensures r.Failure? ==> r.error == ModulePath
  {
    hide Sorted, PathOf;
    var path := PathOf(release, m);
    if path in contents && contents[path] != m.bytes {
      assert IsFile(release, modules, path);
      return Failure(ModulePath);
    }
    InsertSorted(files, path);
    InsertMembers(files, path);
    AlsoFile(release, modules, m);
    return Success((Insert(files, path), contents[path := m.bytes]));
  }

  lemma {:induction false} AlsoFile(release: Name, modules: seq<Module>, m: Module)
    ensures forall p :: IsFile(release, modules + [m], p) <==> IsFile(release, modules, p) || p == PathOf(release, m)
    ensures forall d :: IsDir(release, modules + [m], d) <==> IsDir(release, modules, d) || IsAncestor(d, PathOf(release, m))
    ensures forall n :: n in modules + [m] <==> n in modules || n == m
  {
    hide PathOf, IsAncestor;
    assert m in modules + [m];
    forall p | IsFile(release, modules, p) ensures IsFile(release, modules + [m], p) {
      var n :| n in modules && PathOf(release, n) == p;
      assert n in modules + [m];
    }
    forall d | IsDir(release, modules, d) && d != DOT && d != DEV ensures IsDir(release, modules + [m], d) {
      var n :| n in modules && IsAncestor(d, PathOf(release, n));
      assert n in modules + [m];
    }
  }

  method CheckPath(m: Module) returns (ok: bool)
    ensures ok <==> ValidPath(m)
  {
    for i := 0 to |m.path|
      invariant forall k :: 0 <= k < i ==> m.path[k].Normal? && ValidPart(m.path[k].part)
    {
      if m.path[i].Special? || !ValidPart(m.path[i].part) { return false; }
    }
    return m.path != [];
  }

  /** What the loop over the modules has checked. */
  ghost predicate Accepted(release: Name, modules: seq<Module>) {
    && (forall m :: m in modules ==> ValidPath(m))
    && (forall m, n :: m in modules && n in modules && PathOf(release, m) == PathOf(release, n) ==> m.bytes == n.bytes)
  }

  lemma {:induction false} AcceptOneMore(release: Name, modules: seq<Module>, i: nat)
    requires i < |modules|
    ensures Accepted(release, modules) ==> Accepted(release, modules[..i + 1])
    ensures Accepted(release, modules[..i]) ==>
      (Accepted(release, modules[..i + 1]) <==>
         && ValidPath(modules[i])
         && Agrees(release, modules[..i], modules[i]))
  {
    hide PathOf, ValidPath;
    assert modules[..i + 1] == modules[..i] + [modules[i]];
    assert forall n :: n in modules[..i + 1] <==> n in modules[..i] || n == modules[i];
    assert forall n :: n in modules[..i + 1] ==> n in modules;
  }

  method CollectTree(release: Name, modules: seq<Module>) returns (r: Result<Tree, InitrdError>)
    ensures r.Success? <==> Consistent(release, modules)
    ensures r.Success? ==> IsTree(release, modules, r.value)
    ensures r.Failure? ==> r.error == ModulePath
  {
    var dirs := [DOT, DEV];
    var files: seq<Name>, contents: map<Name, seq<byte>> := [], map[];
    EmptyTree(release, modules[..0]);
    hide *;
    for i := 0 to |modules|
      invariant Accepted(release, modules[..i])
      invariant DirsMatch(release, modules[..i], dirs)
      invariant FilesMatch(release, modules[..i], files, contents)
    {
      var m := modules[i];
      AcceptOneMore(release, modules, i);
      AcceptedIsConsistent(release, modules);
      assert modules[..i + 1] == modules[..i] + [m];
      var ok := CheckPath(m);
      if !ok { return Failure(ModulePath); }
      DirsAreSorted(release, modules[..i], dirs);
      var more := InsertAncestors(dirs, PathOf(release, m));
      MoreDirs(release, modules[..i], dirs, m, more);
      dirs := more;
      var added := AddFile(release, modules[..i], files, contents, m);
      if added.Failure? { return Failure(added.error); }
      files, contents := added.value.0, added.value.1;
    }
    assert modules[..|modules|] == modules;
    Collision(release, modules, dirs, files, contents);
    var disjoint := NoneIsDir(files, dirs);
    if !disjoint { return Failure(ModulePath); }
    return Success(Tree(dirs, files, contents));
  }

  method NoneIsDir(files: seq<Name>, dirs: seq<Name>) returns (ok: bool)
    ensures ok <==> Apart(files, dirs)
  {
    for i := 0 to |files|
      invariant forall k :: 0 <= k < i ==> files[k] !in dirs
    {
      if files[i] in dirs {
        assert files[i] in files;
        return false;
      }
    }
    return true;
  }

  lemma {:induction false} EmptyTree(release: Name, modules: seq<Module>)
    requires modules == []
    ensures Accepted(release, modules) && DirsMatch(release, modules, [DOT, DEV]) && FilesMatch(release, modules, [], map[])
  {
    assert Less(DOT, DEV);
  }

  lemma {:induction false} AcceptedIsConsistent(release: Name, modules: seq<Module>)
    ensures Consistent(release, modules) ==> Accepted(release, modules)
  {
    hide PathOf, ValidPath, IsDir;
  }

  lemma {:induction false} DirsAreSorted(release: Name, modules: seq<Module>, dirs: seq<Name>)
    requires DirsMatch(release, modules, dirs)
    ensures Sorted(dirs)
  {}

  lemma {:induction false} MoreDirs(release: Name, modules: seq<Module>, dirs: seq<Name>, m: Module, more: seq<Name>)
    requires DirsMatch(release, modules, dirs) && Sorted(more)
    requires Extends(more, dirs, PathOf(release, m))
    ensures DirsMatch(release, modules + [m], more)
  {
    hide PathOf, IsAncestor, Sorted;
    AlsoFile(release, modules, m);
    hide IsDir;
  }

  lemma {:induction false} Collision(release: Name, modules: seq<Module>, dirs: seq<Name>, files: seq<Name>, contents: map<Name, seq<byte>>)
    requires Accepted(release, modules) && DirsMatch(release, modules, dirs) && FilesMatch(release, modules, files, contents)
    ensures Consistent(release, modules) <==> Apart(files, dirs)
    ensures Consistent(release, modules) ==> IsTree(release, modules, Tree(dirs, files, contents))
  {
    hide PathOf, IsAncestor, Sorted, ValidPath, IsDir;
    forall m | m in modules ensures PathOf(release, m) in files {
      assert IsFile(release, modules, PathOf(release, m));
    }
  }

  lemma {:induction false} ConsistencyIsUnordered(release: Name, a: seq<Module>, b: seq<Module>)
    requires forall m :: m in a <==> m in b
    ensures Consistent(release, a) <==> Consistent(release, b)
  {
    hide PathOf, IsAncestor, ValidPath;
    assert forall d :: IsDir(release, a, d) <==> IsDir(release, b, d);
    hide IsDir;
  }

  /** The tree depends only on which modules are listed, not on their order or repetition. */
  lemma {:induction false} TreeIsUnique(release: Name, a: seq<Module>, b: seq<Module>, s: Tree, t: Tree)
    requires forall m :: m in a <==> m in b
    requires IsTree(release, a, s) && IsTree(release, b, t)
    ensures s == t
  {
    hide PathOf, IsAncestor, Sorted, ValidPath;
    assert forall d :: IsDir(release, a, d) <==> IsDir(release, b, d);
    assert forall p :: IsFile(release, a, p) <==> IsFile(release, b, p);
    SortedUnique(s.dirs, t.dirs);
    SortedUnique(s.files, t.files);
    hide IsDir;
    assert s.contents.Keys == t.contents.Keys;
    forall p | p in s.contents ensures s.contents[p] == t.contents[p] {
      assert IsFile(release, a, p);
      var m :| m in a && PathOf(release, m) == p;
    }
  }
}
