/** kernel/src/fs/inode.rs: splitting a path into names and walking it. */
module Paths {
  import opened LittleEndian

  type Name = seq<Byte>

  const SLASH: Byte := 0x2F

  datatype Option<T> = None | Some(value: T)

  // ---- what the names of a path are ----

  /** The path cut at every slash, empty pieces included. */
  function Cut(path: seq<Byte>): (r: seq<Name>)
    ensures r != []
  {
    if path == [] then [[]]
    else if path[0] == SLASH then [[]] + Cut(path[1..])
    else
      var rest := Cut(path[1..]);
      [[path[0]] + rest[0]] + rest[1..]
  }

  function NonEmpty(pieces: seq<Name>): seq<Name> {
    if pieces == [] then []
    else (if pieces[0] == [] then [] else [pieces[0]]) + NonEmpty(pieces[1..])
  }

  /** The names of a path: its non-empty pieces between slashes. */
  function Names(path: seq<Byte>): seq<Name> {
    NonEmpty(Cut(path))
  }

  // ---- split_first ----

  function SkipSlashes(path: seq<Byte>): (r: seq<Byte>)
    ensures |r| <= |path| && (r == [] || r[0] != SLASH)
  {
    if path != [] && path[0] == SLASH then SkipSlashes(path[1..]) else path
  }

  /** Length of the part before the first slash. */
  function NameLength(path: seq<Byte>): (n: nat)
    ensures n <= |path| && SLASH !in path[..n] && (n < |path| ==> path[n] == SLASH)
  {
    if path != [] && path[0] != SLASH then
      assert path[1..][..NameLength(path[1..])] == path[1..1 + NameLength(path[1..])];
      1 + NameLength(path[1..])
    else 0
  }

  datatype Split = Done | Element(first: Name, rest: seq<Byte>)

  function SplitFirst(path: seq<Byte>): (r: Split)
    ensures r.Element? ==> r.first != [] && SLASH !in r.first && |r.rest| < |path| && (r.rest == [] || r.rest[0] != SLASH)
  {
    var p := SkipSlashes(path);
    if p == [] then Done
    else
      var n := NameLength(p);
      Element(p[..n], SkipSlashes(p[n..]))
  }

  /** Skip the slashes at the start, as the loop does. */
  method SkipLeadingSlash(path: seq<Byte>) returns (r: seq<Byte>)
    ensures r == SkipSlashes(path)
  {
    r := path;
    while r != [] && r[0] == SLASH
      invariant SkipSlashes(r) == SkipSlashes(path)
      decreases |r|
    {
      r := r[1..];
    }
  }

  method ComputeSplitFirst(path0: seq<Byte>) returns (r: Split)
    ensures r == SplitFirst(path0)
  {
    var path := SkipLeadingSlash(path0);
    if path == [] {
      return Done;
    }
    var s := path;
    var len := 0;
    while path != [] && path[0] != SLASH
      invariant len <= |s| && path == s[len..] && NameLength(s) == len + NameLength(path)
      decreases |path|
    {
      path := path[1..];
      len := len + 1;
    }
    var rest := SkipLeadingSlash(path);
    return Element(s[..len], rest);
  }

  /** Splitting again and again. */
  function AllFirst(path: seq<Byte>): seq<Name>
    decreases |path|
  {
    match SplitFirst(path)
    case Done => []
    case Element(first, rest) => [first] + AllFirst(rest)
  }

  lemma {:induction false} NamesSkip(path: seq<Byte>)
    ensures Names(SkipSlashes(path)) == Names(path)
    decreases |path|
  {
    if path == [] || path[0] != SLASH {
    } else {
      NamesSkip(path[1..]);
      assert Cut(path)[1..] == Cut(path[1..]);
    }
  }

  lemma {:induction false} CutFirst(path: seq<Byte>)
    ensures var n := NameLength(path);
      Cut(path) == if n == |path| then [path] else [path[..n]] + Cut(path[n + 1..])
    decreases |path|
  {
    if path == [] || path[0] == SLASH {
    } else {
      var n := NameLength(path);
      CutFirst(path[1..]);
      assert path[1..][..n - 1] == path[1..n] && path[..n] == [path[0]] + path[1..n];
      assert [path[0]] + path[1..] == path;
      if n < |path| {
        assert path[1..][n..] == path[n + 1..];
      }
    }
  }

  /** The first name, then the names of what follows it. */
  lemma FirstName(p: seq<Byte>)
    requires p != [] && p[0] != SLASH
    ensures var n := NameLength(p); 0 < n && Names(p) == [p[..n]] + Names(p[n..])
  {
    var n := NameLength(p);
    CutFirst(p);
    hide Cut, Names, NameLength;
    if n < |p| {
      NameThenSlash(p, n);
    } else {
      assert p[n..] == [] && p[..n] == p;
      SingleName(p);
    }
  }

  lemma NameThenSlash(p: seq<Byte>, n: nat)
    requires 0 < n < |p| && p[n] == SLASH && Cut(p) == [p[..n]] + Cut(p[n + 1..])
    ensures Names(p) == [p[..n]] + Names(p[n..])
  {
    hide Cut, NonEmpty;
    var rest := Cut(p[n + 1..]);
    assert p[n..][1..] == p[n + 1..];
    CutSlash(p[n..]);
    NonEmptyCons(p[..n], rest);
    NonEmptyCons([], rest);
  }

  lemma CutSlash(q: seq<Byte>)
    requires q != [] && q[0] == SLASH
    ensures Cut(q) == [[]] + Cut(q[1..])
  {
  }

  lemma SingleName(p: seq<Byte>)
    requires p != [] && Cut(p) == [p]
    ensures Names(p) == [p] + Names([])
  {
    assert [p] + [] == [p];
    NonEmptyCons(p, []);
    NoNames();
  }

  lemma NonEmptyCons(x: Name, xs: seq<Name>)
    ensures NonEmpty([x] + xs) == (if x == [] then [] else [x]) + NonEmpty(xs)
    ensures NonEmpty([]) == []
  {
    assert ([x] + xs)[1..] == xs;
  }

  /** Iterating split_first yields exactly the names of the path, in order. */
  lemma {:induction false} SplitsIntoNames(path: seq<Byte>)
    ensures AllFirst(path) == Names(path)
    decreases |path|
  {
    hide Names;
    var p := SkipSlashes(path);
    NamesSkip(path);
    if p == [] {
      assert Names([]) == [] by { NoNames(); }
    } else {
      FirstName(p);
      var rest := p[NameLength(p)..];
      NamesSkip(rest);
      SplitsIntoNames(SkipSlashes(rest));
    }
  }

  lemma NoNames()
    ensures Names([]) == []
  {
  }

  // ---- joining names ----

  function Slashes(n: nat): (r: seq<Byte>)
    ensures |r| == n && forall i | 0 <= i < n :: r[i] == SLASH
  {
    seq(n, _ => SLASH)
  }

  /** The names, each preceded by its run of slashes, and a run at the end. */
  function Join(names: seq<Name>, gaps: seq<nat>, last: nat): seq<Byte>
    requires |gaps| == |names|
  {
    if names == [] then Slashes(last)
    else Slashes(gaps[0]) + names[0] + Join(names[1..], gaps[1..], last)
  }

  predicate GoodNames(names: seq<Name>) {
    forall i | 0 <= i < |names| :: names[i] != [] && SLASH !in names[i]
  }

  lemma {:induction false} SkipRun(n: nat, rest: seq<Byte>)
    ensures SkipSlashes(Slashes(n) + rest) == SkipSlashes(rest)
  {
    if n == 0 {
      assert Slashes(0) + rest == rest;
    } else {
      assert (Slashes(n) + rest)[1..] == Slashes(n - 1) + rest;
      SkipRun(n - 1, rest);
    }
  }

  lemma {:induction false} NameThen(name: Name, rest: seq<Byte>)
    requires SLASH !in name && (rest == [] || rest[0] == SLASH)
    ensures NameLength(name + rest) == |name|
  {
    if name == [] {
    } else {
      assert (name + rest)[1..] == name[1..] + rest;
      NameThen(name[1..], rest);
    }
  }

  /** Names joined by any runs of slashes, none of them empty between two names, are split back. */
  lemma {:induction false} JoinSplits(names: seq<Name>, gaps: seq<nat>, last: nat)
    requires |gaps| == |names| && GoodNames(names) && forall i | 1 <= i < |gaps| :: gaps[i] > 0
    ensures Names(Join(names, gaps, last)) == names
    decreases |names|
  {
    hide Names;
    var path := Join(names, gaps, last);
    NamesSkip(path);
    if names == [] {
      assert Slashes(last) + [] == Slashes(last);
      SkipRun(last, []);
      NoNames();
    } else {
      var rest := Join(names[1..], gaps[1..], last);
      assert rest == [] || rest[0] == SLASH;
      assert path == Slashes(gaps[0]) + (names[0] + rest);
      SkipRun(gaps[0], names[0] + rest);
      NameThen(names[0], rest);
      FirstName(names[0] + rest);
      assert (names[0] + rest)[..|names[0]|] == names[0] && (names[0] + rest)[|names[0]|..] == rest;
      JoinSplits(names[1..], gaps[1..], last);
    }
  }

  // ---- walking ----

  /** Inodes by number: which are directories, and an uninterpreted directory lookup. */
  datatype Tree = Tree(isDir: int -> bool, lookup: (int, Name) -> Option<int>, root: int, cwd: int)

  /** Follow the names, every step from a directory. */
  function Walk(t: Tree, ip: int, names: seq<Name>): Option<int>
    decreases |names|
  {
    if names == [] then Some(ip)
    else if !t.isDir(ip) then None
    else
      match t.lookup(ip, names[0])
      case None => None
      case Some(next) => Walk(t, next, names[1..])
  }

  /** The root for exactly "/", the current directory for every other path. */
  function StartOf(t: Tree, path: seq<Byte>): int {
    if path == [SLASH] then t.root else t.cwd
  }

  /** The inode of a path, or with `parent` the directory its last name is to be looked up in. */
  function Resolve(t: Tree, path: seq<Byte>, parent: bool): Option<int> {
    var names := Names(path);
    if !parent then Walk(t, StartOf(t, path), names)
    else if names == [] then None
    else
      match Walk(t, StartOf(t, path), names[..|names| - 1])
      case Some(d) => if t.isDir(d) then Some(d) else None
      case None => None
  }

  lemma {:induction false} WalkInit(t: Tree, ip: int, names: seq<Name>)
    requires names != []
    ensures Walk(t, ip, names) ==
      match Walk(t, ip, names[..|names| - 1])
      case Some(d) => if t.isDir(d) then t.lookup(d, names[|names| - 1]) else None
      case None => None
    decreases |names|
  {
    if |names| == 1 {
      assert names[1..] == [] && names[..0] == [];
    } else if t.isDir(ip) {
      match t.lookup(ip, names[0])
      case None =>
      case Some(next) =>
        WalkInit(t, next, names[1..]);
        assert names[1..][..|names| - 2] == names[..|names| - 1][1..];
    }
  }

  /** Resolving a path is looking its last name up in its parent directory. */
  lemma ResolveByParent(t: Tree, path: seq<Byte>)
    requires Names(path) != []
    ensures Resolve(t, path, false) ==
      match Resolve(t, path, true)
      case Some(d) => t.lookup(d, Names(path)[|Names(path)| - 1])
      case None => None
  {
    WalkInit(t, StartOf(t, path), Names(path));
  }

  /** name_x */
  method NameX(t: Tree, path0: seq<Byte>, parent: bool) returns (r: Option<int>)
    ensures r == Resolve(t, path0, parent)
  {
    hide Names;
    var ip := if path0 == [SLASH] then t.root else t.cwd;
    var path := path0;
    ghost var done := 0;
    ghost var names := Names(path0);
    assert names[0..] == names && names[..|names|] == names;
    while true
      invariant done <= |names| && Names(path) == names[done..]
      invariant Walk(t, StartOf(t, path0), names[..done]) == Some(ip)
      invariant parent && names != [] ==> done < |names|
      decreases |path|
    {
      SplitsIntoNames(path);
      var s := ComputeSplitFirst(path);
      if s.Done? {
        assert names[..done] == names;
        return if parent then None else Some(ip);
      }
      SplitsIntoNames(s.rest);
      path := s.rest;
      WalkPrefix(t, StartOf(t, path0), names, done);
      if !t.isDir(ip) {
        return None;
      }
      if parent && path == [] {
        NoNames();
        return Some(ip);
      }
      RestNotEmpty(path);
      match t.lookup(ip, s.first)
      case None => return None;
      case Some(next) =>
        ip := next;
        done := done + 1;
    }
  }

  /** One name more, and everything after it, as seen from the walk so far. */
  lemma WalkPrefix(t: Tree, ip: int, names: seq<Name>, k: nat)
    requires k < |names|
    ensures var here := Walk(t, ip, names[..k]);
      here.Some? ==>
        && (!t.isDir(here.value) || t.lookup(here.value, names[k]).None? ==>
              forall j | k < j <= |names| :: Walk(t, ip, names[..j]) == None)
        && (t.isDir(here.value) ==> Walk(t, ip, names[..k + 1]) == t.lookup(here.value, names[k]))
  {
    WalkInit(t, ip, names[..k + 1]);
    assert names[..k + 1][..k] == names[..k];
    var here := Walk(t, ip, names[..k]);
    if here.Some? && (!t.isDir(here.value) || t.lookup(here.value, names[k]).None?) {
      forall j | k < j <= |names| ensures Walk(t, ip, names[..j]) == None {
        StaysLost(t, ip, names, k + 1, j);
      }
    }
  }

  lemma {:induction false} StaysLost(t: Tree, ip: int, names: seq<Name>, k: nat, j: nat)
    requires k <= j <= |names| && Walk(t, ip, names[..k]) == None
    ensures Walk(t, ip, names[..j]) == None
    decreases j - k
  {
    if k == j {
    } else {
      WalkInit(t, ip, names[..k + 1]);
      assert names[..k + 1][..k] == names[..k];
      StaysLost(t, ip, names, k + 1, j);
    }
  }

  /** A rest that does not start with a slash and is not empty still has a name. */
  lemma RestNotEmpty(path: seq<Byte>)
    ensures path != [] && path[0] != SLASH ==> Names(path) != []
  {
    if path != [] && path[0] != SLASH {
      FirstName(path);
    }
  }

  // ---- where a path starts ----

  /** "/" is the root and has no parent; every other path is walked from the current directory. */
  lemma StartRule(t: Tree, path: seq<Byte>)
    ensures Resolve(t, [0x2F], false) == Some(t.root) && Resolve(t, [0x2F], true) == None
    ensures path != [0x2F] ==> Resolve(t, path, false) == Walk(t, t.cwd, Names(path))
  {
    assert Names([SLASH]) == [] by {
      assert Slashes(1) == [SLASH] == Slashes(1) + [];
      SkipRun(1, []);
      NamesSkip([SLASH]);
      NoNames();
    }
  }

  /** A tree in which every lookup stays where it is, seen from a process that is not at the root. */
  function Still(): Tree {
    Tree(_ => true, (d, _) => Some(d), 0, 1)
  }

  lemma {:induction false} StillWalk(ip: int, names: seq<Name>)
    ensures Walk(Still(), ip, names) == Some(ip)
    decreases |names|
  {
    if names == [] {
    } else {
      StillWalk(ip, names[1..]);
    }
  }

  /** A path that starts with a slash is resolved from the root, whatever the tree, if and only if it is "/". */
  lemma AbsoluteIffSlash(path: seq<Byte>)
    requires path != [] && path[0] == SLASH
    ensures (forall t: Tree :: Resolve(t, path, false) == Walk(t, t.root, Names(path))) <==> path == [0x2F]
  {
    hide Names;
    if path == [0x2F] {
      forall t: Tree ensures Resolve(t, path, false) == Walk(t, t.root, Names(path)) {
      }
    } else {
      StartRule(Still(), path);
      StillWalk(0, Names(path));
      StillWalk(1, Names(path));
      assert Resolve(Still(), path, false) != Walk(Still(), Still().root, Names(path));
    }
  }
}
