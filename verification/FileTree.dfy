/** Directory walks of src/littlefs/filesystem_helpers.c over an abstract file
    system. A path is the sequence of its segments. */
module FileTree {
  import opened Text

  const PATH_MAX: nat := 256
  const SUBPATH_MAX: nat := 260

  const ENOENT := 2
  const EIO := 5
  const EINVAL := 22
  const ENAMETOOLONG := 36
  const ENOTEMPTY := 39

  type Path = seq<string>

  datatype Entry = Dir | File(size: u32) | Special

  type Tree = map<Path, Entry>

  function Render(p: Path): string {
    if p == [] then "" else Render(p[..|p| - 1]) + "/" + p[|p| - 1]
  }

  /** A rendered path begins with a slash and splits into its segments again. */
  lemma {:induction false} RenderSplits(p: Path)
    requires forall k :: 0 <= k < |p| ==> '/' !in p[k]
    ensures Split(Render(p), '/') == [""] + p
  {
    if p == [] {
      SplitSingle("", '/');
    } else {
      var up, last := p[..|p| - 1], p[|p| - 1];
      RenderSplits(up);
      SplitConcat(Render(up), last, '/');
      SplitSingle(last, '/');
      assert p == up + [last];
    }
  }

  /** `join_path`: fails when the text and its terminator do not fit. */
  function JoinPath(outSize: nat, base: string, name: string): (r: Option<string>)
    ensures r.Some? <==> |base| + |name| + 2 <= outSize
    ensures r.Some? ==> Snprintf(outSize, r.value) == base + "/" + name
  {
    var joined := base + "/" + name;
    if |joined| >= outSize then None else Some(joined)
  }

  /** Every entry sits in a directory, and no entry is called "." or "..". */
  ghost predicate WellFormed(t: Tree) {
    forall q {:trigger Placed(t, q)} :: q in t && q != [] ==> Placed(t, q)
  }

  ghost predicate Placed(t: Tree, q: Path)
    requires q != []
  {
    && q[|q| - 1] != "" && !IsDots(q[|q| - 1])
    && (|q| > 1 ==> q[..|q| - 1] in t && t[q[..|q| - 1]].Dir?)
  }

  predicate IsDots(name: string) {
    name == "." || name == ".."
  }

  function Children(t: Tree, p: Path): set<string> {
    set q | q in t && |q| == |p| + 1 && q[..|p|] == p :: q[|p|]
  }

  ghost function Subtree(t: Tree, p: Path): set<Path> {
    set q | q in t && p <= q
  }

  lemma ChildIn(t: Tree, p: Path, name: string)
    ensures name in Children(t, p) <==> p + [name] in t
  {
    if p + [name] in t {
      var q := p + [name];
      assert |q| == |p| + 1 && q[..|p|] == p && q[|p|] == name;
    }
    if name in Children(t, p) {
      var q :| q in t && |q| == |p| + 1 && q[..|p|] == p && q[|p|] == name;
      assert q == p + [name];
    }
  }

  /** A directory without children has an empty subtree below it. */
  lemma {:induction false} NothingBelow(t: Tree, p: Path, q: Path)
    requires WellFormed(t) && p != [] && q in t && p <= q && p != q
    ensures p + [q[|p|]] in t && p in t && t[p].Dir?
    decreases |q|
  {
    var up := q[..|q| - 1];
    assert Placed(t, q);
    assert up in t && t[up].Dir?;
    if |q| == |p| + 1 {
      assert up == p && q == p + [q[|p|]];
    } else {
      assert p <= up && up[|p|] == q[|p|];
      NothingBelow(t, p, up);
    }
  }

  lemma ChildNames(t: Tree, p: Path)
    requires WellFormed(t)
    ensures forall name :: name in Children(t, p) ==> name != "" && !IsDots(name)
  {
    forall name | name in Children(t, p)
      ensures name != "" && !IsDots(name)
    {
      ChildIn(t, p, name);
      assert Placed(t, p + [name]);
    }
  }

  lemma NoChildrenOfFile(t: Tree, p: Path)
    requires WellFormed(t) && p != [] && p in t && !t[p].Dir?
    ensures Children(t, p) == {}
  {
    forall name
      ensures name !in Children(t, p)
    {
      ChildIn(t, p, name);
      assert p + [name] in t ==> Placed(t, p + [name]);
      assert (p + [name])[..|p|] == p;
    }
  }

  /** The content of an open directory: what readdir will still return, or a
      handle whose opening failed. */
  datatype Handle = Open(pending: seq<string>) | Unopened

  /** A directory is listed in any order, each child once; dot entries may or
      may not be reported. */
  ghost predicate IsListing(t: Tree, p: Path, names: seq<string>) {
    && (forall i, j :: 0 <= i < j < |names| && names[i] == names[j] ==> IsDots(names[i]))
    && (forall name :: !IsDots(name) ==> (name in names <==> name in Children(t, p)))
  }

  class FileSystem {
    var tree: Tree
    ghost var faulted: bool   // an I/O error has occurred

    ghost predicate Valid()
      reads this
    {
      WellFormed(tree)
    }

    constructor (tree: Tree)
      requires WellFormed(tree)
      ensures Valid() && this.tree == tree && !faulted
    {
      this.tree := tree;
      faulted := false;
    }

    method Unlink(p: Path) returns (rc: int)
      requires Valid() && p != []
      modifies this
      ensures Valid() && (old(faulted) ==> faulted)
      ensures rc == 0 ==> p in old(tree) && Children(old(tree), p) == {} && tree == old(tree) - {p}
      ensures rc != 0 ==> rc < 0 && tree == old(tree)
      ensures !faulted ==> (rc == 0 <==> p in old(tree) && (old(tree)[p].Dir? ==> Children(old(tree), p) == {}))
    {
      if * {
        faulted := true;
        return -EIO;
      }
      if p !in tree {
        return -ENOENT;
      }
      if tree[p].Dir? && Children(tree, p) != {} {
        return -ENOTEMPTY;
      }
      if !tree[p].Dir? {
        NoChildrenOfFile(tree, p);
      }
      RemoveLeaf(tree, p);
      tree := tree - {p};
      return 0;
    }

    method Opendir(p: Path) returns (rc: int, dir: Handle)
      requires Valid() && p != []
      modifies `faulted
      ensures old(faulted) ==> faulted
      ensures rc == 0 ==> p in tree && tree[p].Dir? && dir.Open? && IsListing(tree, p, dir.pending)
      ensures rc != 0 ==> rc < 0 && dir.Unopened?
      ensures !faulted ==> (rc == 0 <==> p in tree && tree[p].Dir?)
    {
      if * {
        faulted := true;
        return -EIO, Unopened;
      }
      if p !in tree || !tree[p].Dir? {
        return -ENOENT, Unopened;
      }
      var names: seq<string> := [];
      if * {
        names := [".", ".."];
      }
      var todo := Children(tree, p);
      ghost var all := todo;
      ChildNames(tree, p);
      while todo != {}
        invariant todo <= all
        invariant forall i, j :: 0 <= i < j < |names| && names[i] == names[j] ==> IsDots(names[i])
        invariant forall name :: !IsDots(name) ==> (name in names <==> name in all - todo)
        decreases todo
      {
        var name :| name in todo;
        names := names + [name];
        todo := todo - {name};
      }
      return 0, Open(names);
    }

    /** The next name, or "" at the end of the directory. */
    method Readdir(dir: Handle) returns (rc: int, name: string, rest: Handle)
      requires Valid()
      modifies `faulted
      ensures old(faulted) ==> faulted
      ensures rc != 0 ==> rc < 0
      ensures rc == 0 ==> dir.Open? && rest.Open?
      ensures rc == 0 && dir.pending == [] ==> name == "" && rest == dir
      ensures rc == 0 && dir.pending != [] ==> name == dir.pending[0] && rest.pending == dir.pending[1..]
      ensures !faulted && dir.Open? ==> rc == 0
    {
      if dir.Unopened? {
        return -EINVAL, "", dir;
      }
      if * {
        faulted := true;
        return -EIO, "", dir;
      }
      if dir.pending == [] {
        return 0, "", dir;
      }
      return 0, dir.pending[0], Open(dir.pending[1..]);
    }

    /** `fs_delete_tree`. */
    method DeleteTree(path: Path) returns (rc: int)
      requires Valid()
      modifies this
      ensures Valid() && (old(faulted) ==> faulted)
      ensures OnlyShrunk(old(tree), tree, path)
      ensures rc <= 0 && (path == [] ==> rc == -EINVAL)
      ensures rc == 0 ==> path != [] && path in old(tree) && Subtree(tree, path) == {}
      ensures !faulted ==> (rc == 0 <==> Deletable(old(tree), path))
      ensures !faulted && path != [] && path in old(tree) && PathsFit(old(tree), path) ==>
        Subtree(tree, path) < old(Subtree(tree, path))
      ensures !faulted && OnlySubdir(old(tree), path) ==> rc < 0 && Subtree(tree, path) == {}
      decreases Subtree(tree, path), 3
    {
      if path == [] {
        return -EINVAL;
      }
      var dir;
      rc, dir := Opendir(path);
      if rc < 0 {
        rc := Unlink(path);
        if rc == 0 { RemoveLeaf(old(tree), path); }
        RootGone(old(tree), tree, path);
        return;
      }
      rc := DeleteContents(path, dir);
      GoneBelow(tree, path);
      if rc < 0 {
        return;
      }
      ghost var last := tree;
      rc := Unlink(path);
      if rc == 0 { RemoveLeaf(last, path); }
      RootGone(old(tree), tree, path);
      if !faulted && path in last { FullyListed(old(tree), last, path); }
    }

    /** The loop of `fs_delete_tree`. */
    method DeleteContents(path: Path, handle: Handle) returns (rc: int)
      requires Valid() && path != [] && path in tree && tree[path].Dir?
      requires handle.Open? && IsListing(tree, path, handle.pending)
      modifies this
      ensures Valid() && (old(faulted) ==> faulted)
      ensures OnlyShrunk(old(tree), tree, path)
      ensures rc <= 0
      ensures rc == 0 ==> Children(tree, path) == {}
      ensures rc == 0 && !faulted ==> if path in tree then RestIsFlat(old(tree), tree, path) else !Deletable(old(tree), path)
      ensures rc < 0 && !faulted ==> !Deletable(old(tree), path)
      ensures rc < 0 && !faulted && PathsFit(old(tree), path) ==> Subtree(tree, path) < old(Subtree(tree, path))
      ensures !faulted && OnlySubdir(old(tree), path) ==> path !in tree
      decreases Subtree(tree, path), 2
    {
      var dir := handle;
      while true
        invariant Valid() && (old(faulted) ==> faulted) && OnlyShrunk(old(tree), tree, path)
        invariant Subtree(tree, path) <= old(Subtree(tree, path))
        invariant CanGoOn(old(tree), tree, path, dir, faulted)
        invariant !faulted && OnlySubdir(old(tree), path) ==> tree == old(tree) || path !in tree
        decreases Subtree(tree, path), if dir.Open? then |dir.pending| else 0
      {
        ghost var pending := if dir.Open? then dir.pending else [];
        var name;
        rc, name, dir := Readdir(dir);
        if rc < 0 {
          return;
        }
        ListingStep(tree, path, pending);
        if name == "" {
          return 0;
        }
        if IsDots(name) {
          continue;
        }
        FitsStays(old(tree), tree, path, name);
        assert Placed(tree, path + [name]) && (path + [name])[..|path|] == path;
        rc, dir := DeleteEntry(path, name, dir, old(tree), pending);
        if rc < 0 {
          return;
        }
      }
    }

    /** One pass of the loop of `fs_delete_tree`: what happens to one entry. */
    method DeleteEntry(path: Path, name: string, dir: Handle, ghost original: Tree, ghost pending: seq<string>)
      returns (rc: int, next: Handle)
      requires Valid() && path != [] && dir.Open?
      requires pending != [] && pending[0] == name && dir.pending == pending[1..]
      requires IsListing(tree, path, pending) && !IsDots(name)
      requires OnlyShrunk(original, tree, path)
      requires !faulted && path in tree ==> RestIsFlat(original, tree, path)
      modifies this
      ensures Valid() && (old(faulted) ==> faulted)
      ensures OnlyShrunk(original, tree, path)
      ensures rc == 0 || (rc < 0 && (!faulted ==> !Deletable(original, path)))
      ensures !Fits(path, name) ==> rc == -ENAMETOOLONG && tree == old(tree)
      ensures rc == 0 ==> Subtree(tree, path) < Subtree(old(tree), path)
      ensures rc == 0 ==> CanGoOn(original, tree, path, next, faulted)
      ensures !faulted && PathsFit(old(tree), path) ==> Subtree(tree, path) < old(Subtree(tree, path))
      ensures !faulted && OnlySubdir(old(tree), path) ==> rc == 0 && path !in tree
      decreases Subtree(tree, path), 1
    {
      next := dir;
      ListingStep(tree, path, pending);
      ChildIn(original, path, name);
      assert Placed(tree, path + [name]) && (path + [name])[..|path|] == path;
      var child := JoinPath(PATH_MAX, Render(path), name);
      if child.None? {
        assert !FlatChild(original, path, name);
        ChildFits(tree, path, name);
        return -ENAMETOOLONG, next;
      }
      if tree[path + [name]].Dir? {
        rc, next := DeleteSubdir(path, name, original);
      } else {
        AfterFile(original, tree, path, pending);
        rc := Unlink(path + [name]);
      }
    }

    /** The unlink after a successful recursive call names the directory itself,
        not the child just removed. */
    method DeleteSubdir(path: Path, name: string, ghost original: Tree) returns (rc: int, next: Handle)
      requires Valid() && path != []
      requires path + [name] in tree && tree[path + [name]].Dir?
      requires OnlyShrunk(original, tree, path)
      modifies this
      ensures Valid() && (old(faulted) ==> faulted)
      ensures OnlyShrunk(original, tree, path) && !Deletable(original, path)
      ensures rc <= 0
      ensures rc == 0 ==> Subtree(tree, path) < Subtree(old(tree), path)
      ensures rc == 0 ==> path !in tree && CanGoOn(original, tree, path, next, faulted)
      ensures !faulted && Deletable(old(tree), path + [name]) ==> Subtree(tree, path + [name]) == {}
      ensures !faulted && PathsFit(old(tree), path) ==> Subtree(tree, path) < old(Subtree(tree, path))
      ensures !faulted && OnlySubdir(old(tree), path) ==> rc == 0
      decreases Subtree(tree, path), 0
    {
      ghost var t := tree;
      InParentSubtree(t, path, name);
      ChildFits(t, path, name);
      rc := DeleteTree(path + [name]);
      AfterSubdir(original, t, tree, path, name);
      SubdirShrunk(t, tree, path, name);
      var reopened;
      reopened, next := Opendir(path);
      if rc < 0 {
        return;
      }
      assert path + [name] !in Subtree(tree, path + [name]);
      ghost var u := tree;
      rc := Unlink(path);
      if rc == 0 {
        RemoveParent(u, path);
        assert Subtree(tree, path) <= Subtree(u, path);
      }
    }

    /** `fs_calc_dir_size`: adds to the caller's 32-bit accumulator. Errors in a
        subdirectory and while reading are not reported. */
    method CalcDirSize(path: Path, start: u32) returns (rc: int, total: u32)
      requires Valid() && path != [] && SubpathsFit(tree, path)
      modifies `faulted
      ensures old(faulted) ==> faulted
      ensures !faulted ==> (rc == 0 <==> path in tree && tree[path].Dir?)
      ensures !faulted ==> total == if rc == 0 then (start + SizeBelow(tree, path)) % U32 else start
      decreases Subtree(tree, path), 2
    {
      total := start;
      var dir;
      rc, dir := Opendir(path);
      if rc < 0 {
        return;
      }
      total := AddEntries(path, dir, start);
      return 0, total;
    }

    /** The loop of `fs_calc_dir_size`. */
    method AddEntries(path: Path, handle: Handle, start: u32) returns (total: u32)
      requires Valid() && path != [] && path in tree && tree[path].Dir? && SubpathsFit(tree, path)
      requires handle.Open? && IsListing(tree, path, handle.pending)
      modifies `faulted
      ensures old(faulted) ==> faulted
      ensures !faulted ==> total == (start + SizeBelow(tree, path)) % U32
      decreases Subtree(tree, path), 1
    {
      total := start;
      var dir := handle;
      ghost var done: set<string> := {};
      SumEmpty(tree, path);
      while true
        invariant old(faulted) ==> faulted
        invariant dir.Open? && ListsRest(tree, path, dir.pending, done)
        invariant !faulted ==> AddedUp(tree, path, start, done, total)
        decreases |dir.pending|
      {
        RestStep(tree, path, dir.pending, done);
        var rc, name, rest := Readdir(dir);
        if rc < 0 {
          return;
        }
        if name == "" {
          AllBelow(tree, path);
          return;
        }
        dir := rest;
        if !IsDots(name) {
          total := AddEntry(path, name, total, start, done);
          done := done + {name};
        }
      }
    }

    /** One pass of the loop of `fs_calc_dir_size`; `start` and `done` say what the
        accumulator holds so far. */
    method AddEntry(path: Path, name: string, before: u32, ghost start: u32, ghost done: set<string>)
      returns (total: u32)
      requires Valid() && path != [] && path + [name] in tree && SubpathsFit(tree, path)
      requires name !in done && (!faulted ==> AddedUp(tree, path, start, done, before))
      modifies `faulted
      ensures old(faulted) ==> faulted
      ensures !faulted ==> AddedUp(tree, path, start, done + {name}, total)
      decreases Subtree(tree, path), 0
    {
      total := before;
      var child := path + [name];
      SumStep(tree, path, done, name);
      AddTwice(start, Sum(tree, Below(tree, path, done)), SizeBelow(tree, child));
      if tree[child].Dir? {
        InParentSubtree(tree, path, name);
        assert SubpathsFit(tree, child);
        var ignored;
        ignored, total := CalcDirSize(child, total);
      } else if tree[child].File? {
        FileBelow(tree, child);
        total := (total + tree[child].size) % U32;
      } else {
        FileBelow(tree, child);
      }
    }
  }

  /** Nothing left to list: all the children were plain files. */
  lemma FullyListed(original: Tree, t: Tree, path: Path)
    requires path != [] && path in original
    requires RestIsFlat(original, t, path) && Children(t, path) == {}
    ensures Deletable(original, path)
  {
  }

  /** The state in which the loop of `fs_delete_tree` reads the next entry. */
  ghost predicate CanGoOn(original: Tree, t: Tree, path: Path, dir: Handle, faulted: bool) {
    && (dir.Open? ==> IsListing(t, path, dir.pending))
    && (!faulted ==> dir.Open? && if path in t then RestIsFlat(original, t, path) else !Deletable(original, path))
  }

  lemma InParentSubtree(t: Tree, path: Path, name: string)
    requires WellFormed(t) && path != [] && path + [name] in t
    ensures Subtree(t, path + [name]) < Subtree(t, path)
  {
    assert Placed(t, path + [name]);
    assert (path + [name])[..|path|] == path && path in Subtree(t, path);
    assert path !in Subtree(t, path + [name]);
    forall q | q in Subtree(t, path + [name])
      ensures q in Subtree(t, path)
    {
      assert path <= path + [name] <= q;
    }
  }

  /** Every child that is gone was a plain file. */
  ghost predicate RestIsFlat(before: Tree, after: Tree, path: Path) {
    forall name :: name in Children(before, path) ==>
      name in Children(after, path) || FlatChild(before, path, name)
  }

  lemma ListingStep(t: Tree, path: Path, names: seq<string>)
    requires WellFormed(t) && IsListing(t, path, names)
    ensures names == [] ==> Children(t, path) == {}
    ensures names != [] ==> names[0] != ""
    ensures names != [] && IsDots(names[0]) ==> IsListing(t, path, names[1..])
    ensures names != [] && !IsDots(names[0]) ==> path + [names[0]] in t && RestListed(t, path, names)
  {
    ChildNames(t, path);
    if names != [] {
      ChildIn(t, path, names[0]);
      assert names[0] in names;
      assert forall name :: name in names <==> name == names[0] || name in names[1..];
    }
  }

  /** What a listing still promises after its first entry is dealt with. */
  ghost predicate RestListed(t: Tree, path: Path, names: seq<string>)
    requires names != []
  {
    && (forall i, j :: 1 <= i < j < |names| && names[i] == names[j] ==> IsDots(names[i]))
    && (forall name :: !IsDots(name) ==>
          (name in names[1..] <==> name in Children(t, path) - {names[0]}))
  }

  /** Removing an entry without children keeps the tree well formed. */
  lemma RemoveLeaf(t: Tree, p: Path)
    requires WellFormed(t) && p != [] && p in t && Children(t, p) == {}
    ensures WellFormed(t - {p})
    ensures Subtree(t - {p}, p) == {}
  {
    var u := t - {p};
    forall q | q in u && q != []
      ensures Placed(u, q)
    {
      assert Placed(t, q);
      ChildIn(t, q[..|q| - 1], q[|q| - 1]);
      assert q == q[..|q| - 1] + [q[|q| - 1]];
    }
    forall q | q in u
      ensures !(p <= q)
    {
      if p <= q {
        NothingBelow(t, p, q);
        ChildIn(t, p, q[|p|]);
      }
    }
  }

  lemma RemoveChild(t: Tree, up: Path, last: string)
    ensures Children(t - {up + [last]}, up) == Children(t, up) - {last}
  {
    var u := t - {up + [last]};
    forall name
      ensures name in Children(u, up) <==> name in Children(t, up) - {last}
    {
      ChildIn(u, up, name);
      ChildIn(t, up, name);
      assert (up + [name])[|up|] == name && (up + [last])[|up|] == last;
    }
  }

  lemma RemoveParent(t: Tree, p: Path)
    requires Children(t, p) == {}
    ensures Children(t - {p}, p) == {}
  {
  }

  lemma AfterFile(original: Tree, t: Tree, path: Path, names: seq<string>)
    requires WellFormed(t) && names != [] && !IsDots(names[0]) && IsListing(t, path, names)
    requires path + [names[0]] in t && !t[path + [names[0]]].Dir?
    requires OnlyShrunk(original, t, path) && Fits(path, names[0])
    ensures var u := t - {path + [names[0]]};
      && IsListing(u, path, names[1..])
      && (RestIsFlat(original, t, path) ==> RestIsFlat(original, u, path))
      && Subtree(u, path) < Subtree(t, path)
  {
    var child := path + [names[0]];
    ListingStep(t, path, names);
    RemoveChild(t, path, names[0]);
    assert child in Subtree(t, path) && child !in Subtree(t - {child}, path);
    assert FlatChild(original, path, names[0]);
  }

  /** After a subdirectory has been removed: the tree has shrunk, and the
      original was not deletable. */
  lemma AfterSubdir(original: Tree, t: Tree, u: Tree, path: Path, name: string)
    requires OnlyShrunk(original, t, path) && path + [name] in t && t[path + [name]].Dir?
    requires OnlyShrunk(t, u, path + [name]) && WellFormed(t) && path != []
    ensures OnlyShrunk(original, u, path) && !Deletable(original, path)
    ensures path + [name] !in u ==> Subtree(u, path) < Subtree(t, path)
  {
    ChildIn(original, path, name);
    assert Placed(t, path + [name]);
    assert (path + [name])[..|path|] == path && path in t && t[path].Dir?;
    assert !FlatChild(original, path, name);
    assert path + [name] in Subtree(t, path);
    assert path <= path + [name];
    forall q | q in original && !(path <= q)
      ensures q in u
    {
      assert path + [name] <= q ==> path <= q;
    }
  }

  /** Entries are only removed, and only at or below `path`. */
  ghost predicate OnlyShrunk(before: Tree, after: Tree, path: Path) {
    && (forall q :: q in after ==> q in before && after[q] == before[q])
    && (forall q :: q in before && !(path <= q) ==> q in after)
  }

  /** Every path below this directory fits the 256-byte buffer of the walk. */
  ghost predicate PathsFit(t: Tree, path: Path) {
    forall q :: q in Subtree(t, path) && q != path ==> |Render(q)| < PATH_MAX
  }

  /** A directory that holds one deletable subdirectory and nothing else. */
  ghost predicate OnlySubdir(t: Tree, path: Path) {
    && path != [] && path in t && t[path].Dir?
    && exists name :: Children(t, path) == {name} && DeletableSubdir(t, path, name)
  }

  ghost predicate DeletableSubdir(t: Tree, path: Path, name: string) {
    path + [name] in t && t[path + [name]].Dir? && Deletable(t, path + [name]) && Fits(path, name)
  }

  lemma ChildFits(t: Tree, path: Path, name: string)
    requires path + [name] in t
    ensures PathsFit(t, path) ==> Fits(path, name) && PathsFit(t, path + [name])
    ensures OnlySubdir(t, path) ==> Children(t, path) == {name} && DeletableSubdir(t, path, name)
  {
    var child := path + [name];
    assert child in Subtree(t, path) && child[..|child| - 1] == path;
    assert Render(child) == Render(path) + "/" + name;
    ChildIn(t, path, name);
    forall q | q in Subtree(t, child) ensures q in Subtree(t, path) && (q != child ==> q != path) {
      assert path <= child <= q;
    }
  }

  lemma FitsStays(before: Tree, after: Tree, path: Path, name: string)
    requires OnlyShrunk(before, after, path)
    ensures PathsFit(before, path) ==> PathsFit(after, path)
  {
    assert forall q :: q in Subtree(after, path) ==> q in Subtree(before, path);
  }

  /** What the recursive call does to the subtree of the directory itself. */
  lemma SubdirShrunk(t: Tree, u: Tree, path: Path, name: string)
    requires WellFormed(t) && WellFormed(u) && path != [] && path + [name] in t
    requires OnlyShrunk(t, u, path + [name])
    ensures Subtree(u, path + [name]) < Subtree(t, path + [name]) ==> Subtree(u, path) < Subtree(t, path)
    ensures PathsFit(t, path) ==> PathsFit(t, path + [name])
    ensures Subtree(u, path + [name]) == {} && Children(t, path) == {name} ==>
      path in u && u[path].Dir? && Children(u, path) == {}
  {
    ChildFits(t, path, name);
    var child := path + [name];
    if Subtree(u, child) < Subtree(t, child) {
      var q :| q in Subtree(t, child) && q !in Subtree(u, child);
      assert path <= child <= q;
      assert q in Subtree(t, path) && q !in Subtree(u, path);
    }
    assert Placed(t, child) && child[..|path|] == path && !(child <= path);
    if Subtree(u, child) == {} && Children(t, path) == {name} {
      forall n ensures n !in Children(u, path) {
        ChildIn(u, path, n);
        ChildIn(t, path, n);
        assert child in u ==> child in Subtree(u, child);
      }
    }
  }

  lemma RootGone(before: Tree, after: Tree, path: Path)
    requires OnlyShrunk(before, after, path)
    ensures path in before && path !in after ==> Subtree(after, path) < Subtree(before, path)
  {
    assert path in before ==> path in Subtree(before, path);
  }

  /** Nothing is left below a path that is gone. */
  lemma GoneBelow(t: Tree, path: Path)
    requires WellFormed(t) && path != []
    ensures path !in t ==> Subtree(t, path) == {}
  {
    if path !in t {
      forall q | q in Subtree(t, path) ensures false {
        NothingBelow(t, path, q);
      }
    }
  }

  ghost predicate Fits(path: Path, name: string) {
    JoinPath(PATH_MAX, Render(path), name).Some?
  }

  /** What `fs_delete_tree` really deletes: a file, or a directory holding
      nothing but files whose paths fit the buffer. */
  ghost predicate Deletable(t: Tree, path: Path) {
    && path != [] && path in t
    && (t[path].Dir? ==> forall name :: name in Children(t, path) ==> FlatChild(t, path, name))
  }

  ghost predicate FlatChild(t: Tree, path: Path, name: string) {
    && path + [name] in t && !t[path + [name]].Dir? && Fits(path, name)
  }

  /** `start` and the sizes under these children, in 32 bits. */
  ghost predicate AddedUp(t: Tree, path: Path, start: u32, done: set<string>, total: u32) {
    total == (start + Sum(t, Below(t, path, done))) % U32
  }

  lemma AddTwice(a: nat, b: nat, c: nat)
    ensures ((a + b) % U32 + c) % U32 == (a + b + c) % U32
  {
  }

  /** The names still to be read are the children not yet added up. */
  ghost predicate ListsRest(t: Tree, path: Path, names: seq<string>, done: set<string>) {
    && done <= Children(t, path)
    && (forall i, j :: 0 <= i < j < |names| && names[i] == names[j] ==> IsDots(names[i]))
    && (forall name :: !IsDots(name) ==> (name in names <==> name in Children(t, path) - done))
  }

  lemma RestStep(t: Tree, path: Path, names: seq<string>, done: set<string>)
    requires WellFormed(t) && ListsRest(t, path, names, done)
    ensures names == [] ==> done == Children(t, path)
    ensures names != [] ==> names[0] != ""
    ensures names != [] && IsDots(names[0]) ==> ListsRest(t, path, names[1..], done)
    ensures names != [] && !IsDots(names[0]) ==>
      && path + [names[0]] in t && names[0] !in done
      && ListsRest(t, path, names[1..], done + {names[0]})
  {
    ChildNames(t, path);
    if names != [] {
      ChildIn(t, path, names[0]);
      assert names[0] in names;
      assert forall name :: name in names <==> name == names[0] || name in names[1..];
    }
  }

  /** Every subdirectory's path fits the 260-byte buffer of the walk. */
  ghost predicate SubpathsFit(t: Tree, path: Path) {
    forall q :: q in Subtree(t, path) && t[q].Dir? && q != path ==> |Render(q)| < SUBPATH_MAX
  }

  /** The path text of the recursive call of `fs_calc_dir_size`: where it is cut,
      it is no longer the subdirectory's own, and once it fills the buffer every
      further call gets the same text again. */
  lemma SubpathGrowsIff(path: string, name: string)
    requires |path| < SUBPATH_MAX
    ensures var sub := Snprintf(SUBPATH_MAX, path + "/" + name);
      && |sub| < SUBPATH_MAX
      && (sub == path + "/" + name <==> |path| + |name| + 1 < SUBPATH_MAX)
      && (|sub| > |path| <==> |path| < SUBPATH_MAX - 1)
      && (|path| == SUBPATH_MAX - 1 <==> sub == path)
  {
    var whole := path + "/" + name;
    assert |path| == SUBPATH_MAX - 1 ==> whole[..SUBPATH_MAX - 1] == path;
  }

  ghost function SizeOf(e: Entry): nat {
    if e.File? then e.size else 0
  }

  /** The sum of the file sizes over a set of entries. */
  ghost function Sum(t: Tree, s: set<Path>): nat
    requires s <= t.Keys
  {
    if s == {} then 0 else
    var q :| q in s;
    SizeOf(t[q]) + Sum(t, s - {q})
  }

  ghost function SizeBelow(t: Tree, p: Path): nat {
    Sum(t, Subtree(t, p))
  }

  /** What lies under the children of `p` named in `done`. */
  ghost function Below(t: Tree, p: Path, done: set<string>): set<Path> {
    set q | q in t && p <= q && |q| > |p| && q[|p|] in done
  }

  lemma {:induction false} SumWithout(t: Tree, s: set<Path>, q: Path)
    requires s <= t.Keys && q in s
    ensures Sum(t, s) == SizeOf(t[q]) + Sum(t, s - {q})
    decreases s
  {
    var r :| r in s && Sum(t, s) == SizeOf(t[r]) + Sum(t, s - {r});
    if r != q {
      SumWithout(t, s - {r}, q);
      SumWithout(t, s - {q}, r);
      assert s - {r} - {q} == s - {q} - {r};
    }
  }

  lemma {:induction false} SumUnion(t: Tree, a: set<Path>, b: set<Path>)
    requires a <= t.Keys && b <= t.Keys && a !! b
    ensures Sum(t, a + b) == Sum(t, a) + Sum(t, b)
    decreases a
  {
    if a == {} {
      assert a + b == b;
    } else {
      var q :| q in a;
      SumWithout(t, a, q);
      SumWithout(t, a + b, q);
      assert a + b - {q} == (a - {q}) + b;
      SumUnion(t, a - {q}, b);
    }
  }

  lemma SumEmpty(t: Tree, p: Path)
    ensures Sum(t, Below(t, p, {})) == 0
  {
  }

  lemma SumStep(t: Tree, p: Path, done: set<string>, name: string)
    requires name !in done
    ensures Sum(t, Below(t, p, done + {name})) == Sum(t, Below(t, p, done)) + SizeBelow(t, p + [name])
  {
    var a, b := Below(t, p, done), Subtree(t, p + [name]);
    forall q | q in t && p <= q && |q| > |p|
      ensures q[|p|] == name <==> p + [name] <= q
    {
      assert q[..|p| + 1] == p + [q[|p|]];
    }
    forall q | q in b ensures p <= q {
      assert p <= p + [name] <= q;
    }
    assert Below(t, p, done + {name}) == a + b;
    SumUnion(t, a, b);
  }

  lemma AllBelow(t: Tree, p: Path)
    requires WellFormed(t) && p != [] && p in t && t[p].Dir?
    ensures Sum(t, Below(t, p, Children(t, p))) == SizeBelow(t, p)
  {
    var a := Below(t, p, Children(t, p));
    forall q | q in Subtree(t, p) && q != p ensures q in a {
      NothingBelow(t, p, q);
      ChildIn(t, p, q[|p|]);
    }
    assert Subtree(t, p) == a + {p};
    SumUnion(t, a, {p});
    SumWithout(t, {p}, p);
  }

  /** A file or special entry is its whole subtree. */
  lemma FileBelow(t: Tree, p: Path)
    requires WellFormed(t) && p != [] && p in t && !t[p].Dir?
    ensures SizeBelow(t, p) == SizeOf(t[p])
  {
    forall q | q in Subtree(t, p) ensures q == p {
      if q != p { NothingBelow(t, p, q); }
    }
    assert Subtree(t, p) == {p};
    SumWithout(t, {p}, p);
  }
}
