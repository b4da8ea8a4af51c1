/** The module initramfs: one archive entry per tree node, and what the archive guarantees. */
module InitrdArchive {
  import opened Outcomes
  import opened Words
  import opened Buffers
  import opened Newc
  import opened InitrdTree

  function ModeFile(): u32 { 0x81A4 }

  /** Immediate subdirectories of `d` among the first `n` directories. */
  function Subdirs(dirs: seq<Name>, d: Name, n: nat): (c: nat)
    requires n <= |dirs|
    ensures c <= n
  {
    if n == 0 then 0
    else Subdirs(dirs, d, n - 1) + if dirs[n - 1] != DOT && ParentDir(dirs[n - 1]) == d then 1 else 0
  }

  /** Few enough nodes for 32-bit inode numbers. */
  predicate Countable(t: Tree) { |t.dirs| + 2 + |t.files| < U32_LIMIT }

  function DirEntry(dirs: seq<Name>, i: nat): Entry
    requires i < |dirs| && |dirs| + 2 < U32_LIMIT
  {
    Entry(i + 1, ModeDir(), 2 + Subdirs(dirs, dirs[i], |dirs|), dirs[i], [], None)
  }

  /** Node `i` of the archive: directories, then `dev/console`, `init` and the module files. */
  function Node(t: Tree, binary: seq<byte>, i: nat): (e: Entry)
    requires Countable(t) && i < |t.dirs| + 2 + |t.files| && forall p :: p in t.files ==> p in t.contents
    ensures e.ino == i + 1
  {
    if i < |t.dirs| then DirEntry(t.dirs, i)
    else if i == |t.dirs| then ConsoleEntry(i + 1)
    else if i == |t.dirs| + 1 then InitEntry(i + 1, binary)
    else
      var p := t.files[i - |t.dirs| - 2];
      assert p in t.files;
      Entry(i + 1, ModeFile(), 1, p, t.contents[p], None)
  }

  function Nodes(t: Tree, binary: seq<byte>): (es: seq<Entry>)
    requires Countable(t) && forall p :: p in t.files ==> p in t.contents
    ensures |es| == |t.dirs| + 2 + |t.files|
    ensures forall i :: 0 <= i < |es| ==> es[i] == Node(t, binary, i)
  {
    seq(|t.dirs| + 2 + |t.files|, i requires 0 <= i < |t.dirs| + 2 + |t.files| => Node(t, binary, i))
  }

  // ---- size-checked writing ----

  /** The bytes an entry adds at `offset`, if the 32-bit fields and a 64-bit size hold them. */
  function CheckedEntrySize(offset: nat, nameLen: nat, size: nat): (r: Option<nat>)
  {
    if nameLen + 1 >= U32_LIMIT || size >= U32_LIMIT then None
    else if offset + HEADER_SIZE + nameLen + 1 + 3 >= U64_LIMIT then None
    else
      var data := Align4(offset + HEADER_SIZE + nameLen + 1);
      if data + size + 3 >= U64_LIMIT then None else Some(Align4(data + size) - offset)
  }

  lemma {:induction false} CheckedEntrySizeIsExact(offset: nat, e: Entry)
    ensures CheckedEntrySize(offset, |e.name|, |e.data|).Some? ==>
      Encodable(e) && CheckedEntrySize(offset, |e.name|, |e.data|).value == |EntryAt(offset, e)|
  {
    hide Header, Zeros;
  }

  /** Writing the entries in order, failing as soon as one does not fit. */
  function TryEmit(es: seq<Entry>): (r: Option<seq<byte>>) {
    if es == [] then Some([]) else
      var b := TryEmit(es[..|es| - 1]);
      if b.None? then None else TryEntry(b.value, es[|es| - 1])
  }

  function TryEntry(out: seq<byte>, e: Entry): (r: Option<seq<byte>>) {
    if CheckedEntrySize(|out|, |e.name|, |e.data|).None? then None
    else
      CheckedEntrySizeIsExact(|out|, e);
      Some(out + EntryAt(|out|, e))
  }

  method CheckedEntry(out: seq<byte>, e: Entry) returns (r: Result<seq<byte>, InitrdError>)
    ensures r.Success? <==> TryEntry(out, e).Some?
    ensures r.Success? ==> r.value == TryEntry(out, e).value
    ensures r.Failure? ==> r.error == ArchiveTooLarge
  {
    hide EntryAt;
    var additional := CheckedEntrySize(|out|, |e.name|, |e.data|);
    if additional.None? { return Failure(ArchiveTooLarge); }
    CheckedEntrySizeIsExact(|out|, e);
    var more := CpioEntry(out, e);
    return Success(more);
  }

  lemma {:induction false} TryEmitStep(es: seq<Entry>, k: nat)
    requires k < |es|
    ensures TryEmit(es[..k]).None? ==> TryEmit(es[..k + 1]).None?
    ensures TryEmit(es[..k]).Some? ==> TryEmit(es[..k + 1]) == TryEntry(TryEmit(es[..k]).value, es[k])
  {
    hide TryEntry;
    assert es[..k + 1][..k] == es[..k];
  }

  lemma {:induction false} TryEmitFails(es: seq<Entry>, k: nat)
    requires k <= |es| && TryEmit(es[..k]).None?
    ensures TryEmit(es).None?
    decreases |es| - k
  {
    hide TryEmit;
    if k < |es| {
      TryEmitStep(es, k);
      TryEmitFails(es, k + 1);
    } else {
      assert es[..k] == es;
    }
  }

  /** What is written without failure is the plain concatenation. */
  lemma {:induction false} TryEmitIsEmit(es: seq<Entry>)
    requires TryEmit(es).Some? && forall i :: 0 <= i < |es| ==> 0 !in es[i].name
    ensures AllClean(es) && TryEmit(es).value == Emit(es)
  {
    hide EntryAt;
    if es != [] {
      TryEmitIsEmit(es[..|es| - 1]);
      CheckedEntrySizeIsExact(|Emit(es[..|es| - 1])|, es[|es| - 1]);
    }
  }

  // ---- materialize ----

  function Links(links: map<Name, nat>, d: Name): nat { if d in links then links[d] else 2 }

  /** Link counts: 2, plus one for every immediate subdirectory. */
  method CountLinks(dirs: seq<Name>) returns (r: Result<map<Name, nat>, InitrdError>)
    ensures |dirs| + 2 < U32_LIMIT ==> r.Success?
    ensures r.Success? ==> forall d: Name :: Links(r.value, d) == 2 + Subdirs(dirs, d, |dirs|)
    ensures r.Failure? ==> r.error == ArchiveTooLarge
  {
    var links: map<Name, nat> := map[];
    for i := 0 to |dirs|
      invariant forall d: Name :: Links(links, d) == 2 + Subdirs(dirs, d, i)
    {
      if dirs[i] != DOT {
        var parent := ParentDir(dirs[i]);
        var count := Links(links, parent);
        if count + 1 >= U32_LIMIT { return Failure(ArchiveTooLarge); }
        links := links[parent := count + 1];
      }
    }
    return Success(links);
  }

  ghost predicate Storable(t: Tree) { forall p :: p in t.files ==> p in t.contents }

  /** Whether every node, and the trailer, fits the format. */
  ghost predicate Fits(t: Tree, binary: seq<byte>) {
    Storable(t) && Countable(t) && TryEmit(Nodes(t, binary) + [TrailerEntry()]).Some?
  }

  method WriteTree(t: Tree, binary: seq<byte>) returns (r: Result<seq<byte>, InitrdError>)
    requires Storable(t)
    ensures r.Success? <==> Fits(t, binary)
    ensures r.Success? ==> r.value == TryEmit(Nodes(t, binary) + [TrailerEntry()]).value
    ensures r.Failure? ==> r.error == ArchiveTooLarge
  {
    hide TryEmit, TryEntry, Nodes, DirEntry, Subdirs, Links, Fits, Storable, TrailerEntry, ConsoleEntry, InitEntry;
    TreeSize(t, binary);
    var links := CountLinks(t.dirs);
    if links.Failure? { return Failure(links.error); }
    if !Countable(t) { return Failure(ArchiveTooLarge); }
    ghost var es := Nodes(t, binary) + [TrailerEntry()];
    FitsIs(t, binary);
    NodeValues(t, binary);
    NothingTried(es);
    var out: seq<byte> :- WriteDirs(t, binary, links.value, es);
    var ino := |t.dirs|;
    out :- Step(es, ino, out, ConsoleEntry(ino + 1));
    ino := ino + 1;
    out :- Step(es, ino, out, InitEntry(ino + 1, binary));
    ino := ino + 1;
    out :- WriteFiles(t, binary, out, es);
    ino := |t.dirs| + 2 + |t.files|;
    out :- Step(es, ino, out, TrailerEntry());
    assert es[..ino + 1] == es;
    return Success(out);
  }

  lemma {:induction false} TreeSize(t: Tree, binary: seq<byte>)
    requires Storable(t)
    ensures Countable(t) <==> |t.dirs| + 2 + |t.files| < U32_LIMIT
    ensures !Countable(t) ==> !Fits(t, binary)
    ensures forall p :: p in t.files ==> p in t.contents
  {
    hide TryEmit, Nodes;
  }

  lemma {:induction false} FitsIs(t: Tree, binary: seq<byte>)
    requires Countable(t) && forall p :: p in t.files ==> p in t.contents
    ensures Storable(t) ==> (Fits(t, binary) <==> TryEmit(Nodes(t, binary) + [TrailerEntry()]).Some?)
  {
    hide TryEmit;
  }

  lemma {:induction false} NodeAt(t: Tree, binary: seq<byte>, i: nat)
    requires Countable(t) && Storable(t) && i < |t.dirs| + 2 + |t.files|
    ensures
      var e := (Nodes(t, binary) + [TrailerEntry()])[i];
      var n := |t.dirs|;
      if i < n then e == DirEntry(t.dirs, i)
      else if i == n then e == ConsoleEntry(n + 1)
      else if i == n + 1 then e == InitEntry(n + 2, binary)
      else
        var p := t.files[i - n - 2];
        p in t.contents && e == Entry(i + 1, ModeFile(), 1, p, t.contents[p], None)
  {
    assert i > |t.dirs| + 1 ==> t.files[i - |t.dirs| - 2] in t.files;
    var e := (Nodes(t, binary) + [TrailerEntry()])[i];
    assert e == Nodes(t, binary)[i];
    hide Nodes, DirEntry, ConsoleEntry, InitEntry, TrailerEntry;
  }

  lemma {:induction false} NodeValues(t: Tree, binary: seq<byte>)
    requires Countable(t) && forall p :: p in t.files ==> p in t.contents
    ensures
      var es := Nodes(t, binary) + [TrailerEntry()];
      var n := |t.dirs|;
      && |es| == n + 3 + |t.files|
      && (forall i :: 0 <= i < n ==> es[i] == DirEntry(t.dirs, i))
      && es[n] == ConsoleEntry(n + 1) && es[n + 1] == InitEntry(n + 2, binary)
      && (forall i :: 0 <= i < |t.files| ==> t.files[i] in t.contents && es[n + 2 + i] == Entry(n + 3 + i, ModeFile(), 1, t.files[i], t.contents[t.files[i]], None))
      && es[n + 2 + |t.files|] == TrailerEntry()
  {
    hide TrailerEntry, DirEntry, ConsoleEntry, InitEntry, Nodes, Node, Subdirs;
    var es := Nodes(t, binary) + [TrailerEntry()];
    var n := |t.dirs|;
    forall i | 0 <= i < n ensures es[i] == DirEntry(t.dirs, i) { NodeAt(t, binary, i); }
    NodeAt(t, binary, n);
    NodeAt(t, binary, n + 1);
    forall i | 0 <= i < |t.files|
      ensures t.files[i] in t.contents && es[n + 2 + i] == Entry(n + 3 + i, ModeFile(), 1, t.files[i], t.contents[t.files[i]], None)
    {
      assert t.files[i] in t.files;
      NodeAt(t, binary, n + 2 + i);
    }
  }

  /** One entry per directory. */
  method WriteDirs(t: Tree, binary: seq<byte>, links: map<Name, nat>, ghost es: seq<Entry>) returns (r: Result<seq<byte>, InitrdError>)
    requires |t.dirs| + 2 < U32_LIMIT && |t.dirs| <= |es|
    requires forall d: Name :: Links(links, d) == 2 + Subdirs(t.dirs, d, |t.dirs|)
    requires forall i :: 0 <= i < |t.dirs| ==> es[i] == DirEntry(t.dirs, i)
    ensures r.Success? ==> TryEmit(es[..|t.dirs|]) == Some(r.value)
    ensures r.Failure? ==> TryEmit(es).None? && r.error == ArchiveTooLarge
  {
    hide TryEntry, TryEmit, Subdirs, Links;
    NothingTried(es);
    var out: seq<byte> := [];
    var ino: nat := 0;
    for i := 0 to |t.dirs|
      invariant ino == i && TryEmit(es[..i]) == Some(out)
    {
      ino := ino + 1;
      out :- Step(es, i, out, Entry(ino, ModeDir(), Links(links, t.dirs[i]), t.dirs[i], [], None));
    }
    return Success(out);
  }

  /** One entry per module file. */
  method WriteFiles(t: Tree, binary: seq<byte>, before: seq<byte>, ghost es: seq<Entry>) returns (r: Result<seq<byte>, InitrdError>)
    requires Countable(t) && |t.dirs| + 2 + |t.files| <= |es|
    requires TryEmit(es[..|t.dirs| + 2]) == Some(before)
    requires forall i :: 0 <= i < |t.files| ==>
      t.files[i] in t.contents && es[|t.dirs| + 2 + i] == Entry(|t.dirs| + 3 + i, ModeFile(), 1, t.files[i], t.contents[t.files[i]], None)
    ensures r.Success? ==> TryEmit(es[..|t.dirs| + 2 + |t.files|]) == Some(r.value)
    ensures r.Failure? ==> TryEmit(es).None? && r.error == ArchiveTooLarge
  {
    hide TryEntry, TryEmit;
    var out := before;
    var ino := |t.dirs| + 2;
    for i := 0 to |t.files|
      invariant ino == |t.dirs| + 2 + i && TryEmit(es[..ino]) == Some(out)
    {
      ino := ino + 1;
      out :- Step(es, ino - 1, out, Entry(ino, ModeFile(), 1, t.files[i], t.contents[t.files[i]], None));
    }
    return Success(out);
  }

  lemma {:induction false} NothingTried(es: seq<Entry>)
    ensures TryEmit(es[..0]) == Some([])
  {}

  /** Writes entry `k` of the list. */
  method Step(ghost es: seq<Entry>, ghost k: nat, out: seq<byte>, e: Entry) returns (r: Result<seq<byte>, InitrdError>)
    requires k < |es| && e == es[k] && TryEmit(es[..k]) == Some(out)
    ensures r.Success? ==> TryEmit(es[..k + 1]) == Some(r.value)
    ensures r.Failure? ==> TryEmit(es).None? && r.error == ArchiveTooLarge
  {
    hide TryEmit, TryEntry;
    TryEmitStep(es, k);
    r := CheckedEntry(out, e);
    if r.Failure? { TryEmitFails(es, k + 1); }
  }

  /** The whole construction; `staticElf` is the verdict on the init binary and `tree` the one tree of the
      listed modules. An empty list gives the single-binary archive. */
  method MaterializeModules(binary: seq<byte>, staticElf: bool, release: Name, modules: seq<Module>)
    returns (r: Result<seq<byte>, InitrdError>, ghost tree: Tree)
    ensures !staticElf ==> r == Failure(NotStatic)
    ensures staticElf && |binary| >= U32_LIMIT ==> r == Failure(ArchiveTooLarge)
    ensures staticElf && |binary| < U32_LIMIT && modules == [] ==> r.Success? && Members(WrapEntries(binary)) && r.value == Archive(WrapEntries(binary))
    ensures staticElf && |binary| < U32_LIMIT && modules != [] && !(ValidRelease(release) && Consistent(release, modules)) ==> r == Failure(ModulePath)
    ensures staticElf && |binary| < U32_LIMIT && modules != [] && ValidRelease(release) && Consistent(release, modules) ==>
      && IsTree(release, modules, tree)
      && (r.Success? <==> Fits(tree, binary))
      && (r.Success? ==> r.value == TryEmit(Nodes(tree, binary) + [TrailerEntry()]).value)
  {
    hide *;
    tree := Tree([], [], map[]);
    if !staticElf { return Failure(NotStatic), tree; }
    InitSize(binary);
    if CheckedEntrySize(0, |INIT|, |binary|).None? { return Failure(ArchiveTooLarge), tree; }
    if modules == [] {
      var out := WrapAsCpio(binary);
      return Success(out), tree;
    }
    if !ValidRelease(release) { return Failure(ModulePath), tree; }
    var collected := CollectTree(release, modules);
    if collected.Failure? { return Failure(collected.error), tree; }
    tree := collected.value;
    TreeIsStorable(release, modules, tree);
    r := WriteTree(collected.value, binary);
  }

  lemma {:induction false} InitSize(binary: seq<byte>)
    ensures CheckedEntrySize(0, |INIT|, |binary|).Some? <==> |binary| < U32_LIMIT
  {}

  lemma {:induction false} TreeIsStorable(release: Name, modules: seq<Module>, t: Tree)
    requires IsTree(release, modules, t)
    ensures Storable(t)
  {}

  // ---- the archive is a well-formed tree ----

  /** Names that the archive may hold: NUL-free and starting with `.`, `d`, `i` or `u`. */
  ghost predicate Plain(s: Name) {
    s != [] && 0 !in s && s[0] in {0x2E, 0x64, 0x69, 0x75}
  }

  lemma {:induction false} JoinIsNulFree(parts: seq<Name>)
    requires forall i :: 0 <= i < |parts| ==> 0 !in parts[i]
    ensures 0 !in Join(parts)
  {
    if |parts| > 1 { JoinIsNulFree(parts[..|parts| - 1]); }
  }

  lemma {:induction false} PathFacts(release: Name, m: Module)
    requires ValidRelease(release) && ValidPath(m)
    ensures var p := PathOf(release, m); Plain(p) && p[0] == 0x75 && SLASH in p
  {
    var parts := Parts(m.path);
    forall i | 0 <= i < |parts| ensures 0 !in parts[i] { ValidTextIsNulFree(parts[i]); }
    JoinIsNulFree(parts);
    assert PathOf(release, m) == [0x75] + (MODULES[1..] + release + [SLASH] + Join(parts));
    assert SLASH in [SLASH];
  }

  lemma {:induction false} AncestorIsPrefix(d: Name, path: Name)
    requires IsAncestor(d, path)
    ensures 0 < |d| < |path| && d == path[..|d|] && d < path
    decreases |path|
  {
    hide Before;
    var b := Before(path).value;
    if d != b {
      AncestorIsPrefix(d, b);
      assert path[..|b|][..|d|] == path[..|d|];
    }
  }

  lemma {:induction false} AncestorsAreClosed(d: Name, path: Name)
    requires IsAncestor(d, path) && Before(d).Some?
    ensures IsAncestor(Before(d).value, path)
    decreases |path|
  {
    hide Before;
    var b := Before(path).value;
    if d != b { AncestorsAreClosed(d, b); }
  }

  /** The parent of a name that does not start with a slash is `.` or its directory part. */
  lemma {:induction false} ParentIsBefore(s: Name)
    requires s != [] && s[0] != SLASH
    ensures SLASH !in s ==> ParentDir(s) == DOT
    ensures SLASH in s ==> Before(s) == Some(ParentDir(s)) && ParentDir(s) < s
    ensures Before(s).Some? <==> SLASH in s
  {}

  /** Every directory of the tree is plain, and its parent is a smaller directory of the tree. */
  lemma {:induction false} DirFacts(release: Name, modules: seq<Module>, d: Name)
    requires ValidRelease(release) && Consistent(release, modules) && IsDir(release, modules, d)
    ensures Plain(d) && d != CONSOLE && d != INIT
    ensures d != DOT ==> IsDir(release, modules, ParentDir(d)) && Less(ParentDir(d), d)
  {
    if d == DEV {
      ParentIsBefore(d);
      assert d[0] == 0x64 && d[1] == 0x65 && d[2] == 0x76;
    } else if d != DOT {
      hide IsAncestor, PathOf, ValidPath, ValidRelease, Before, ParentDir;
      var m :| m in modules && IsAncestor(d, PathOf(release, m));
      var p := PathOf(release, m);
      PathFacts(release, m);
      AncestorIsPrefix(d, p);
      assert d[0] == p[0];
      ParentIsBefore(d);
      if SLASH in d {
        AncestorsAreClosed(d, p);
        PrefixIsLess(ParentDir(d), d);
      }
    }
  }

  lemma {:induction false} FileFacts(release: Name, modules: seq<Module>, p: Name)
    requires ValidRelease(release) && Consistent(release, modules) && IsFile(release, modules, p)
    ensures Plain(p) && p[0] == 0x75 && IsDir(release, modules, ParentDir(p))
  {
    hide PathOf, ValidPath, ValidRelease, Before, ParentDir;
    var m :| m in modules && PathOf(release, m) == p;
    PathFacts(release, m);
    ParentIsBefore(p);
    assert IsAncestor(ParentDir(p), p);
  }

  /** The tree's directory names, in order, then console, init and the files. */
  lemma {:induction false} NodeNames(t: Tree, binary: seq<byte>, i: nat)
    requires Countable(t) && Storable(t) && i < |t.dirs| + 2 + |t.files|
    ensures
      var e := Nodes(t, binary)[i];
      && e.ino == i + 1
      && (i < |t.dirs| <==> e.mode == ModeDir())
      && e.name == if i < |t.dirs| then t.dirs[i] else if i == |t.dirs| then CONSOLE else if i == |t.dirs| + 1 then INIT else t.files[i - |t.dirs| - 2]
  {
    NodeValues(t, binary);
    assert i >= |t.dirs| + 2 ==> t.files[i - |t.dirs| - 2] in t.contents;
    hide Subdirs;
  }

  lemma {:induction false} FirstBytes()
    ensures CONSOLE != INIT && CONSOLE[0] == 0x64 && INIT[0] == 0x69 && Plain(CONSOLE) && Plain(INIT)
    ensures ParentDir(CONSOLE) == DEV && ParentDir(INIT) == DOT
  {
    assert LastSlash(CONSOLE) == 3 by {
      var a := CONSOLE[..4];
      assert LastSlash(a) == 3;
      assert CONSOLE[..10][..9] == CONSOLE[..9] && CONSOLE[..9][..8] == CONSOLE[..8] && CONSOLE[..8][..7] == CONSOLE[..7];
      assert CONSOLE[..7][..6] == CONSOLE[..6] && CONSOLE[..6][..5] == CONSOLE[..5] && CONSOLE[..5][..4] == a;
    }
    assert CONSOLE[..3] == DEV;
    ParentIsBefore(INIT);
  }

  /** No two entries share a name. */
  lemma {:induction false} NamesAreDistinct(release: Name, modules: seq<Module>, t: Tree, binary: seq<byte>, i: nat, j: nat)
    requires ValidRelease(release) && Consistent(release, modules) && IsTree(release, modules, t) && Countable(t) && Storable(t)
    requires i < j < |t.dirs| + 2 + |t.files|
    ensures Nodes(t, binary)[i].name != Nodes(t, binary)[j].name
  {
    hide Consistent, ValidRelease, IsDir, IsFile, Plain, Nodes, ParentDir, Countable, Sorted;
    NodeNames(t, binary, i);
    NodeNames(t, binary, j);
    SortedDistinct(t.dirs);
    SortedDistinct(t.files);
    FirstBytes();
    if i < |t.dirs| {
      assert t.dirs[i] in t.dirs;
      DirFacts(release, modules, t.dirs[i]);
    }
    if j >= |t.dirs| + 2 {
      assert t.files[j - |t.dirs| - 2] in t.files;
      FileFacts(release, modules, t.files[j - |t.dirs| - 2]);
    }
  }

  /** The directory that holds an entry is an earlier entry. */
  lemma {:induction false} ParentComesFirst(release: Name, modules: seq<Module>, t: Tree, binary: seq<byte>, i: nat)
    requires ValidRelease(release) && Consistent(release, modules) && IsTree(release, modules, t) && Countable(t) && Storable(t)
    requires i < |t.dirs| + 2 + |t.files| && Nodes(t, binary)[i].name != DOT
    ensures exists j :: 0 <= j < i && Nodes(t, binary)[j].mode == ModeDir() && Nodes(t, binary)[j].name == ParentDir(Nodes(t, binary)[i].name)
  {
    hide Consistent, ValidRelease, IsFile, Plain, Nodes, ParentDir, Countable, Sorted, IsAncestor;
    NodeNames(t, binary, i);
    FirstBytes();
    var d := ParentDir(Nodes(t, binary)[i].name);
    if i < |t.dirs| {
      assert t.dirs[i] in t.dirs;
      DirFacts(release, modules, t.dirs[i]);
    } else if i >= |t.dirs| + 2 {
      assert t.files[i - |t.dirs| - 2] in t.files;
      FileFacts(release, modules, t.files[i - |t.dirs| - 2]);
    }
    assert d in t.dirs;
    var j :| 0 <= j < |t.dirs| && t.dirs[j] == d;
    if i < |t.dirs| { LessComesFirst(t.dirs, j, i); }
    NodeNames(t, binary, j);
  }

  /** The entries of the directories directly inside `d`. */
  ghost function Children(es: seq<Entry>, d: Name): set<nat> {
    set k: nat | k < |es| && es[k].mode == ModeDir() && es[k].name != DOT && ParentDir(es[k].name) == d
  }

  ghost function Inside(dirs: seq<Name>, d: Name, n: nat): set<nat>
    requires n <= |dirs|
  {
    set k: nat | k < n && dirs[k] != DOT && ParentDir(dirs[k]) == d
  }

  lemma {:induction false} SubdirsCounts(dirs: seq<Name>, d: Name, n: nat)
    requires n <= |dirs|
    ensures Subdirs(dirs, d, n) == |Inside(dirs, d, n)|
  {
    hide ParentDir;
    if n > 0 {
      SubdirsCounts(dirs, d, n - 1);
      var p := Inside(dirs, d, n - 1);
      if dirs[n - 1] != DOT && ParentDir(dirs[n - 1]) == d {
        assert Inside(dirs, d, n) == p + {n - 1};
      } else {
        assert Inside(dirs, d, n) == p;
      }
    }
  }

  /** A directory's link count is two plus the number of its immediate subdirectories. */
  lemma {:induction false} LinksCountChildren(t: Tree, binary: seq<byte>, i: nat)
    requires Countable(t) && Storable(t) && i < |t.dirs|
    ensures Nodes(t, binary)[i].nlink == 2 + |Children(Nodes(t, binary), t.dirs[i])|
  {
    hide ParentDir, Countable, Subdirs, Nodes;
    NodeValues(t, binary);
    var d := t.dirs[i];
    SubdirsCounts(t.dirs, d, |t.dirs|);
    var s := Inside(t.dirs, d, |t.dirs|);
    forall k: nat ensures k in Children(Nodes(t, binary), d) <==> k in s {
      if k < |t.dirs| + 2 + |t.files| { NodeNames(t, binary, k); }
    }
    assert Children(Nodes(t, binary), d) == s;
  }

  lemma {:induction false} NodeNameIsPlain(release: Name, modules: seq<Module>, t: Tree, binary: seq<byte>, i: nat)
    requires ValidRelease(release) && Consistent(release, modules) && IsTree(release, modules, t) && Countable(t) && Storable(t)
    requires i < |t.dirs| + 2 + |t.files|
    ensures Plain(Nodes(t, binary)[i].name)
  {
    hide Consistent, ValidRelease, IsFile, IsDir, Plain, Nodes, ParentDir, Countable, Sorted;
    NodeNames(t, binary, i);
    FirstBytes();
    if i < |t.dirs| {
      assert t.dirs[i] in t.dirs;
      DirFacts(release, modules, t.dirs[i]);
    } else if i >= |t.dirs| + 2 {
      assert t.files[i - |t.dirs| - 2] in t.files;
      FileFacts(release, modules, t.files[i - |t.dirs| - 2]);
    }
  }

  lemma {:induction false} PlainNamesAreMembers(es: seq<Entry>)
    requires TryEmit(es + [TrailerEntry()]).Some?
    requires forall i :: 0 <= i < |es| ==> Plain(es[i].name)
    ensures Members(es) && TryEmit(es + [TrailerEntry()]).value == Archive(es)
  {
    hide TryEmit;
    var all := es + [TrailerEntry()];
    TryEmitIsEmit(all);
    assert forall i :: 0 <= i < |es| ==> all[i] == es[i];
  }

  lemma {:induction false} NodesAreMembers(release: Name, modules: seq<Module>, t: Tree, binary: seq<byte>)
    requires ValidRelease(release) && Consistent(release, modules) && IsTree(release, modules, t) && Fits(t, binary)
    ensures Members(Nodes(t, binary))
    ensures TryEmit(Nodes(t, binary) + [TrailerEntry()]).value == Archive(Nodes(t, binary))
  {
    hide Consistent, ValidRelease, Plain, Node, TryEmit, IsTree, Members, Archive;
    var es := Nodes(t, binary);
    forall i | 0 <= i < |es| ensures Plain(es[i].name) { NodeNameIsPlain(release, modules, t, binary, i); }
    PlainNamesAreMembers(es);
  }

  /** A successful build is accepted by the checker and reads back as the nodes and the trailer. */
  lemma {:induction false} MaterializedArchive(release: Name, modules: seq<Module>, t: Tree, binary: seq<byte>)
    requires ValidRelease(release) && Consistent(release, modules) && IsTree(release, modules, t) && Fits(t, binary)
    ensures
      var out := TryEmit(Nodes(t, binary) + [TrailerEntry()]).value;
      && Members(Nodes(t, binary)) && Valid(out)
      && ParseArchive(out) == Some((Records(Nodes(t, binary)) + [Record(TrailerEntry())], []))
  {
    NodesAreMembers(release, modules, t, binary);
    hide *;
    ArchiveIsValid(Nodes(t, binary));
    ArchiveRoundTrip(Nodes(t, binary), []);
    assert Archive(Nodes(t, binary)) + [] == Archive(Nodes(t, binary));
  }

  /** Permuting or repeating the listed modules changes neither the outcome nor the bytes. */
  lemma {:induction false} OrderDoesNotMatter(release: Name, a: seq<Module>, b: seq<Module>, s: Tree, t: Tree)
    requires forall m :: m in a <==> m in b
    ensures Consistent(release, a) <==> Consistent(release, b)
    ensures IsTree(release, a, s) && IsTree(release, b, t) ==> s == t
  {
    ConsistencyIsUnordered(release, a, b);
    hide Consistent;
    if IsTree(release, a, s) && IsTree(release, b, t) { TreeIsUnique(release, a, b, s, t); }
  }
}
