/** The host machine's filesystem, as the deploy and watcher scripts see it:
    every path that exists is mapped to what it names, and every directory
    records its entries in the order `os.listdir` enumerates them. */
module FileSystem {
  import opened Wrappers

  /** A path is the sequence of its name components, from the root. */
  type Path = seq<string>

  /** A text file holds the lines `for line in fp` yields. */
  datatype Node = File(lines: seq<string>) | Dir(listing: seq<string>)

  type Tree = map<Path, Node>

  /** What the host side does that leaves a trace outside the tree. */
  datatype Action =
    | Removed(path: Path)                          // rm -rf path
    | Copied(src: Path, dst: Path)                 // cp -rp src dst
    | Downloaded(name: string, url: string, into: Path)

  /** Every condition that ends a run of the host scripts. */
  datatype Error =
    | NoSuchFile(path: Path)
    | NotADirectory(path: Path)
    | IsADirectory(path: Path)
    | AlreadyExists(path: Path)
    | TargetNotMounted(path: Path)
    | NoDirectory(path: Path)
    | ProjectNotFound(name: string, path: Path, projects: seq<string>)
    | TooManyToRemove(paths: seq<Path>)
    | EndOfInput
    | NoLibDirectory(bundle: Path)
    | RequirementNotFound(requirement: string)
    | DownloadFailed(url: string)

  /** `os.path.exists` */
  predicate Exists(tree: Tree, p: Path) {
    p in tree
  }

  /** `os.path.isdir` */
  predicate IsDir(tree: Tree, p: Path) {
    p in tree && tree[p].Dir?
  }

  predicate IsPrefix(p: Path, q: Path) {
    |p| <= |q| && q[..|p|] == p
  }

  function Parent(p: Path): Path
    requires |p| > 0
  {
    p[..|p| - 1]
  }

  function Last(p: Path): string
    requires |p| > 0
  {
    p[|p| - 1]
  }

  /** Every entry other than the root sits inside a directory, as on a real disk. */
  predicate Closed(tree: Tree) {
    forall p :: p in tree && |p| > 0 ==> IsDir(tree, Parent(p))
  }

  /** `os.listdir`: fails on a missing path or on a file. */
  function ListDir(tree: Tree, p: Path): (r: Result<seq<string>, Error>)
    ensures r.Ok? <==> IsDir(tree, p)
    ensures r.Ok? ==> r.value == tree[p].listing
  {
    if p !in tree then Err(NoSuchFile(p))
    else if tree[p].File? then Err(NotADirectory(p))
    else Ok(tree[p].listing)
  }

  /** The listing with every occurrence of `name` taken out. */
  function Without(listing: seq<string>, name: string): (r: seq<string>)
    ensures name !in r
    ensures forall m :: m in listing && m != name ==> m in r
  {
    if listing == [] then []
    else Without(listing[..|listing| - 1], name)
         + (if listing[|listing| - 1] == name then [] else [listing[|listing| - 1]])
  }

  /** Node `q` once `p` is gone: the parent of `p` no longer lists it. */
  function Unlisted(tree: Tree, p: Path, q: Path): Node
    requires q in tree
  {
    if |p| > 0 && q == Parent(p) && tree[q].Dir? then Dir(Without(tree[q].listing, Last(p)))
    else tree[q]
  }

  /** `rm -rf p`: `p` and everything beneath it disappear; a missing `p` is no error. */
  function RemoveTree(tree: Tree, p: Path): (r: Tree)
    ensures forall q :: q in r <==> q in tree && !IsPrefix(p, q)
  {
    map q | q in tree && !IsPrefix(p, q) :: Unlisted(tree, p, q)
  }

  /** `rm -rf` of each path in turn. */
  function RemoveAll(tree: Tree, ps: seq<Path>): Tree {
    if ps == [] then tree else RemoveTree(RemoveAll(tree, ps[..|ps| - 1]), ps[|ps| - 1])
  }

  /** `os.mkdir`: fails when the path exists or its parent is not a directory. */
  function MakeDir(tree: Tree, p: Path): (r: Result<Tree, Error>)
    ensures r.Ok? <==> p !in tree && |p| > 0 && IsDir(tree, Parent(p))
    ensures r.Ok? ==> IsDir(r.value, p) && r.value.Keys == tree.Keys + {p}
    ensures r.Ok? ==> forall q :: q in tree ==> (r.value[q].Dir? <==> tree[q].Dir?)
    ensures r.Ok? ==> forall q :: q in tree && q != Parent(p) ==> r.value[q] == tree[q]
  {
    if p in tree || p == [] then Err(AlreadyExists(p))
    else if Parent(p) !in tree then Err(NoSuchFile(Parent(p)))
    else if tree[Parent(p)].File? then Err(NotADirectory(Parent(p)))
    else Ok(tree[Parent(p) := Dir(tree[Parent(p)].listing + [Last(p)])][p := Dir([])])
  }

  /** An entry that removing `ps` leaves alone: nothing beneath it is
      removed and it is not the parent of a removed path. */
  lemma {:induction false} RemoveAllKeeps(tree: Tree, ps: seq<Path>, q: Path)
    requires q in tree
    requires forall i :: 0 <= i < |ps| ==> !IsPrefix(ps[i], q) && (|ps[i]| == 0 || q != Parent(ps[i]))
    ensures q in RemoveAll(tree, ps) && RemoveAll(tree, ps)[q] == tree[q]
  {
    if ps != [] {
      RemoveAllKeeps(tree, ps[..|ps| - 1], q);
    }
  }

  /** A directory keeps listing a name unless that very entry is removed. */
  lemma {:induction false} RemoveAllKeepsName(tree: Tree, ps: seq<Path>, dir: Path, name: string)
    requires IsDir(tree, dir) && name in tree[dir].listing
    requires forall i :: 0 <= i < |ps| ==> !IsPrefix(ps[i], dir) && ps[i] != dir + [name]
    ensures IsDir(RemoveAll(tree, ps), dir) && name in RemoveAll(tree, ps)[dir].listing
  {
    if ps != [] {
      RemoveAllKeepsName(tree, ps[..|ps| - 1], dir, name);
      var p := ps[|ps| - 1];
      if |p| > 0 && dir == Parent(p) {
        assert p == dir + [Last(p)];
      }
    }
  }

  /** `os.path.basename`: what follows the last `/`. */
  function Basename(s: string): (r: string)
    ensures '/' !in r
    ensures |r| <= |s| && s[|s| - |r|..] == r
    ensures |r| < |s| ==> s[|s| - |r| - 1] == '/'
  {
    if s == [] || s[|s| - 1] == '/' then [] else Basename(s[..|s| - 1]) + [s[|s| - 1]]
  }

  /** `open(p, "wb")` and writing `lines`: the parent must be a directory
      and `p` must not be one; an existing file is overwritten, and a name
      new to its parent is enumerated last. */
  function WriteFile(tree: Tree, p: Path, lines: seq<string>): (r: Result<Tree, Error>)
    ensures r.Ok? <==> |p| > 0 && IsDir(tree, Parent(p)) && !IsDir(tree, p)
  {
    if |p| == 0 then Err(IsADirectory(p))
    else if Parent(p) !in tree then Err(NoSuchFile(Parent(p)))
    else if tree[Parent(p)].File? then Err(NotADirectory(Parent(p)))
    else if IsDir(tree, p) then Err(IsADirectory(p))
    else
      var written := tree[p := File(lines)];
      if Last(p) in tree[Parent(p)].listing then Ok(written)
      else Ok(written[Parent(p) := Dir(tree[Parent(p)].listing + [Last(p)])])
  }

  /** A written file holds its lines and is listed in its directory after
      the entries listed before; no other entry changes, and nothing
      changes kind. */
  lemma WriteFileEffect(tree: Tree, p: Path, lines: seq<string>)
    requires WriteFile(tree, p, lines).Ok?
    ensures var r := WriteFile(tree, p, lines).value;
            p in r && r[p] == File(lines) && r.Keys == tree.Keys + {p}
            && IsDir(r, Parent(p)) && Last(p) in r[Parent(p)].listing
            && |tree[Parent(p)].listing| <= |r[Parent(p)].listing|
            && r[Parent(p)].listing[..|tree[Parent(p)].listing|] == tree[Parent(p)].listing
            && (forall q :: q in tree && q != p && q != Parent(p) ==> r[q] == tree[q])
            && (forall q :: q in tree ==> (r[q].Dir? <==> tree[q].Dir?))
  {
  }

  /** `os.makedirs(p)`: when the parent is missing it is made first, the
      same way, and then `p` itself with `os.mkdir`. */
  function MakeDirs(tree: Tree, p: Path): (r: Result<Tree, Error>)
    ensures r.Ok? ==> IsDir(r.value, p) && p !in tree && tree.Keys <= r.value.Keys
    ensures r.Ok? ==> forall q :: q in tree ==> (r.value[q].Dir? <==> tree[q].Dir?)
    decreases |p|
  {
    if |p| > 0 && !Exists(tree, Parent(p)) then
      match MakeDirs(tree, Parent(p))
      case Err(e) => Err(e)
      case Ok(above) => MakeDir(above, p)
    else MakeDir(tree, p)
  }

  /** Making the directories down to `p` touches nothing outside an
      existing directory `base` above `p`. */
  lemma {:induction false} MakeDirsOutside(tree: Tree, p: Path, base: Path, q: Path)
    requires base in tree && IsPrefix(base, p) && q in tree && !IsPrefix(base, q)
    requires MakeDirs(tree, p).Ok?
    ensures q in MakeDirs(tree, p).value && MakeDirs(tree, p).value[q] == tree[q]
    decreases |p|
  {
    if |p| > 0 && !Exists(tree, Parent(p)) {
      var above := MakeDirs(tree, Parent(p)).value;
      assert p != base;
      assert IsPrefix(base, Parent(p));
      MakeDirsOutside(tree, Parent(p), base, q);
      assert q != Parent(p);
    } else {
      assert |p| > 0 && p != base;
    }
  }

  /** `os.makedirs` beneath a file: the `os.mkdir` just below the file
      fails, whatever the depth of `p`. */
  lemma {:induction false} MakeDirsUnderFile(tree: Tree, p: Path, k: nat)
    requires k < |p| && p[..k] in tree && tree[p[..k]].File?
    requires forall j :: k < j <= |p| ==> p[..j] !in tree
    ensures MakeDirs(tree, p) == Err(NotADirectory(p[..k]))
    decreases |p|
  {
    assert p[..|p|] == p;
    assert Parent(p) == p[..|p| - 1];
    if k < |p| - 1 {
      assert forall j :: k <= j <= |Parent(p)| ==> Parent(p)[..j] == p[..j];
      MakeDirsUnderFile(tree, Parent(p), k);
    }
  }

  /** One entry of a release archive, named by its path beneath the
      extraction directory. */
  datatype Member = DirEntry(path: Path) | FileEntry(path: Path, lines: seq<string>)

  /** A release archive: its members, in the order `extractall` writes them. */
  datatype Archive = Archive(members: seq<Member>)

  /** Unpacking one member beneath `dir`, as `zipfile` does: a missing
      parent is made with `os.makedirs`, a directory member that is not yet
      a directory is made with `os.mkdir`, and a file member is written with
      `open(.., "wb")`. A member with an empty path names `dir` itself,
      whose parent already exists on a real disk. */
  function ExtractMember(tree: Tree, dir: Path, member: Member): Result<Tree, Error>
  {
    var target := dir + member.path;
    var ready := if |member.path| > 0 && !Exists(tree, Parent(target)) then MakeDirs(tree, Parent(target)) else Ok(tree);
    match ready
    case Err(e) => Err(e)
    case Ok(t) =>
      match member
      case DirEntry(_) => if IsDir(t, target) then Ok(t) else MakeDir(t, target)
      case FileEntry(_, lines) => WriteFile(t, target, lines)
  }

  /** One member unpacks to its path with its own kind, inside a
      directory for a file; nothing already there changes kind; and a
      directory member over a file, a file member over a directory and a
      member beneath a file are the errors `os.mkdir` and `open` raise. */
  lemma ExtractMemberEffect(tree: Tree, dir: Path, member: Member)
    ensures var r, target := ExtractMember(tree, dir, member), dir + member.path;
            r.Ok? ==> tree.Keys <= r.value.Keys && target in r.value
                      && (forall q :: q in tree ==> (r.value[q].Dir? <==> tree[q].Dir?))
                      && (member.DirEntry? ==> r.value[target].Dir?)
                      && (member.FileEntry? ==> |target| > 0 && r.value[target] == File(member.lines)
                                                && IsDir(r.value, Parent(target)))
    ensures var r, target := ExtractMember(tree, dir, member), dir + member.path;
            |target| > 0 && IsDir(tree, Parent(target)) ==>
              (member.DirEntry? && target in tree && tree[target].File? ==> r == Err(AlreadyExists(target)))
              && (member.FileEntry? && IsDir(tree, target) ==> r == Err(IsADirectory(target)))
    ensures var r, target := ExtractMember(tree, dir, member), dir + member.path;
            |member.path| > 0 && Parent(target) in tree && tree[Parent(target)].File? && target !in tree ==>
              r == Err(NotADirectory(Parent(target)))
  {
    var target := dir + member.path;
    var ready := if |member.path| > 0 && !Exists(tree, Parent(target)) then MakeDirs(tree, Parent(target)) else Ok(tree);
    if ready.Ok? && member.FileEntry? && WriteFile(ready.value, target, member.lines).Ok? {
      WriteFileEffect(ready.value, target, member.lines);
    }
  }

  /** `extractall(dir)`: the members in turn; the first one that fails
      ends the extraction. */
  function Extract(tree: Tree, dir: Path, members: seq<Member>): Result<Tree, Error>
    decreases |members|
  {
    if members == [] then Ok(tree)
    else match ExtractMember(tree, dir, members[0])
      case Err(e) => Err(e)
      case Ok(t) => Extract(t, dir, members[1..])
  }

  /** Unpacking never turns a directory into a file or a file into a
      directory. */
  lemma {:induction false} ExtractKeepsKinds(tree: Tree, dir: Path, members: seq<Member>, q: Path)
    requires q in tree && Extract(tree, dir, members).Ok?
    ensures var r := Extract(tree, dir, members).value;
            q in r && (r[q].Dir? <==> tree[q].Dir?)
    decreases |members|
  {
    if members != [] {
      var t := ExtractMember(tree, dir, members[0]).value;
      ExtractMemberEffect(tree, dir, members[0]);
      ExtractKeepsKinds(t, dir, members[1..], q);
    }
  }

  /** `member` is at its path beneath `dir` with its own kind, and a file
      member's directory is a directory. */
  predicate Placed(tree: Tree, dir: Path, member: Member) {
    var target := dir + member.path;
    target in tree && (tree[target].Dir? <==> member.DirEntry?)
    && (member.FileEntry? ==> |target| > 0 && IsDir(tree, Parent(target)))
  }

  /** After a complete extraction every member is in place with its own
      kind, and a file member's directory is a directory. */
  lemma {:induction false} ExtractPlacesMember(tree: Tree, dir: Path, members: seq<Member>, i: nat)
    requires i < |members| && Extract(tree, dir, members).Ok?
    ensures Placed(Extract(tree, dir, members).value, dir, members[i])
    decreases |members|
  {
    var t := ExtractMember(tree, dir, members[0]).value;
    if i == 0 {
      ExtractMemberEffect(tree, dir, members[0]);
      var target := dir + members[0].path;
      ExtractKeepsKinds(t, dir, members[1..], target);
      if members[0].FileEntry? {
        ExtractKeepsKinds(t, dir, members[1..], Parent(target));
      }
    } else {
      assert members[1..][i - 1] == members[i];
      ExtractPlacesMember(t, dir, members[1..], i - 1);
    }
  }

  /** A failed extraction fails at its first failing member, after the
      members before it were unpacked. */
  lemma {:induction false} ExtractStops(tree: Tree, dir: Path, members: seq<Member>) returns (k: nat)
    requires Extract(tree, dir, members).Err?
    ensures k < |members| && Extract(tree, dir, members[..k]).Ok?
    ensures var failed := ExtractMember(Extract(tree, dir, members[..k]).value, dir, members[k]);
            failed.Err? && Extract(tree, dir, members) == Err(failed.error)
    decreases |members|
  {
    assert members[..0] == [];
    var first := ExtractMember(tree, dir, members[0]);
    if first.Err? {
      k := 0;
    } else {
      var j := ExtractStops(first.value, dir, members[1..]);
      k := j + 1;
      assert members[..k][0] == members[0] && members[..k][1..] == members[1..][..j];
      assert members[k] == members[1..][j];
    }
  }

  /** Whatever lies outside the extraction directory is left alone. */
  lemma {:induction false} ExtractOutside(tree: Tree, dir: Path, members: seq<Member>, q: Path)
    requires IsDir(tree, dir) && q in tree && !IsPrefix(dir, q) && Extract(tree, dir, members).Ok?
    ensures var r := Extract(tree, dir, members).value;
            q in r && r[q] == tree[q]
    decreases |members|
  {
    if members != [] {
      var member := members[0];
      var target := dir + member.path;
      var t := ExtractMember(tree, dir, member).value;
      ExtractMemberEffect(tree, dir, member);
      if |member.path| > 0 {
        assert target[..|dir|] == dir && Parent(target)[..|dir|] == dir;
        assert Parent(target) != q && target != q;
        var ready := tree;
        if !Exists(tree, Parent(target)) {
          MakeDirsOutside(tree, Parent(target), dir, q);
          ready := MakeDirs(tree, Parent(target)).value;
        }
        assert q in ready && ready[q] == tree[q];
        assert t == (if member.DirEntry? then (if IsDir(ready, target) then ready else MakeDir(ready, target).value)
                     else WriteFile(ready, target, member.lines).value);
      } else {
        assert target == dir;
      }
      assert IsDir(t, dir) && q in t && t[q] == tree[q];
      ExtractOutside(t, dir, members[1..], q);
      assert Extract(tree, dir, members) == Extract(t, dir, members[1..]);
    }
  }

  /** `download_zipfile(url, into)`: the archive is fetched, saved as
      `into/<basename of url>` and unpacked into `into`. `archives` stands
      for the network: the archive each reachable URL serves. */
  function Fetch(tree: Tree, into: Path, url: string, archives: map<string, Archive>): (r: Result<Tree, Error>)
    ensures url !in archives ==> r == Err(DownloadFailed(url))
    ensures r.Ok? ==> url in archives && IsDir(tree, into) && Basename(url) != "" && !IsDir(tree, into + [Basename(url)])
  {
    if url !in archives then Err(DownloadFailed(url))
    else if !IsDir(tree, into) then Err(ListDir(tree, into).error)
    else if Basename(url) == "" then Err(IsADirectory(into))
    else
      assert Parent(into + [Basename(url)]) == into;
      match WriteFile(tree, into + [Basename(url)], [])
      case Err(e) => Err(e)
      case Ok(saved) => Extract(saved, into, archives[url].members)
  }

  /** The host filesystem together with the log of copies, downloads and
      removals issued against it. */
  class Disk {
    var tree: Tree
    var log: seq<Action>

    constructor (initial: Tree)
      ensures tree == initial && log == []
    {
      tree := initial;
      log := [];
    }

    /** `subprocess.check_call(['rm', '-rf', p])` */
    method Remove(p: Path)
      modifies this
      ensures tree == RemoveTree(old(tree), p)
      ensures log == old(log) + [Removed(p)]
    {
      tree := RemoveTree(tree, p);
      log := log + [Removed(p)];
    }

    /** `cp -rp src dst`, recorded but not replayed on the tree. */
    method Copy(src: Path, dst: Path)
      modifies this
      ensures tree == old(tree)
      ensures log == old(log) + [Copied(src, dst)]
    {
      log := log + [Copied(src, dst)];
    }

    /** `os.mkdir(p)` */
    method MakeDirectory(p: Path) returns (r: Outcome<Error>)
      modifies this
      ensures MakeDir(old(tree), p).Ok? ==> r == Pass && tree == MakeDir(old(tree), p).value
      ensures MakeDir(old(tree), p).Err? ==> r == Fail(MakeDir(old(tree), p).error) && tree == old(tree)
      ensures log == old(log)
    {
      var made := MakeDir(tree, p);
      if made.Err? {
        return Fail(made.error);
      }
      tree := made.value;
      return Pass;
    }

    /** `download_zipfile(url, into)` for the registry entry `name`. */
    method Download(name: string, url: string, into: Path, archives: map<string, Archive>)
      returns (r: Outcome<Error>)
      modifies this
      ensures Fetch(old(tree), into, url, archives).Ok? ==>
                r == Pass && tree == Fetch(old(tree), into, url, archives).value
                && log == old(log) + [Downloaded(name, url, into)]
      ensures Fetch(old(tree), into, url, archives).Err? ==>
                r == Fail(Fetch(old(tree), into, url, archives).error) && tree == old(tree) && log == old(log)
    {
      var fetched := Fetch(tree, into, url, archives);
      if fetched.Err? {
        return Fail(fetched.error);
      }
      tree := fetched.value;
      log := log + [Downloaded(name, url, into)];
      return Pass;
    }
  }
}
