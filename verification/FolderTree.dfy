/**
  The tree of a folder's entities. Files are announced in any order; one whose parent is not in the
  tree yet waits among the orphans and joins the tree when its parent does.
 */
module FolderTree {

  type Name = string

  /** The pieces of a file's path. The folder itself has the empty path. */
  type Path = seq<Name>

  function Parent(p: Path): Path
    requires p != []
  {
    p[..|p| - 1]
  }

  function Last(p: Path): Name
    requires p != []
  {
    p[|p| - 1]
  }

  function Child(p: Path, n: Name): (q: Path)
    ensures q != [] && Parent(q) == p && Last(q) == n
  {
    p + [n]
  }

  lemma ChildOfParent(p: Path)
    requires p != []
    ensures Child(Parent(p), Last(p)) == p
  {
  }

  // ----- What the tree is meant to be -----

  /** The path and all its ancestors are among `files`. */
  ghost predicate Rooted(files: set<Path>, p: Path) {
    forall k :: 1 <= k <= |p| ==> p[..k] in files
  }

  ghost function Attached(files: set<Path>): set<Path> {
    set p | p in files && Rooted(files, p)
  }

  ghost predicate ParentClosed(files: set<Path>) {
    forall p :: p in files && |p| > 1 ==> Parent(p) in files
  }

  /** Attached is the largest parent-closed part of the files. */
  lemma AttachedIsLargest(files: set<Path>, part: set<Path>)
    ensures Attached(files) <= files && ParentClosed(Attached(files))
    ensures part <= files && ParentClosed(part) ==> part <= Attached(files)
  {
    forall p | p in Attached(files) && |p| > 1 ensures Parent(p) in Attached(files) {
      assert p[..|p| - 1] in files;
      forall k | 1 <= k <= |p| - 1 ensures Parent(p)[..k] in files {
        assert Parent(p)[..k] == p[..k];
      }
    }
    if part <= files && ParentClosed(part) {
      forall p | p in part ensures p in Attached(files) {
        forall k | 1 <= k <= |p| ensures p[..k] in files {
          PrefixInClosed(part, p, k);
        }
      }
    }
  }

  lemma {:induction false} PrefixInClosed(part: set<Path>, p: Path, k: nat)
    requires ParentClosed(part) && p in part && 1 <= k <= |p|
    ensures p[..k] in part
    decreases |p|
  {
    if k == |p| {
      assert p[..k] == p;
    } else {
      PrefixInClosed(part, Parent(p), k);
      assert Parent(p)[..k] == p[..k];
    }
  }

  /** A parent-closed set none of whose members has a child outside is all that can be attached. */
  lemma ClosedIsAttached(files: set<Path>, tree: set<Path>)
    requires tree <= files && ParentClosed(tree) && [] !in files
    requires forall p :: p in files && p !in tree ==> |p| > 1 && Parent(p) !in tree
    ensures tree == Attached(files)
  {
    AttachedIsLargest(files, tree);
    forall p | p in Attached(files) ensures p in tree {
      RootedInTree(files, tree, p, |p|);
      assert p[..|p|] == p;
    }
  }

  lemma {:induction false} RootedInTree(files: set<Path>, tree: set<Path>, p: Path, k: nat)
    requires Rooted(files, p) && 1 <= k <= |p|
    requires forall q :: q in files && q !in tree ==> |q| > 1 && Parent(q) !in tree
    ensures p[..k] in tree
  {
    assert p[..k] in files;
    if k > 1 {
      RootedInTree(files, tree, p, k - 1);
      assert Parent(p[..k]) == p[..k - 1];
    }
  }

  /** Every attached file has joined the tree exactly once. */
  ghost predicate Once(joined: seq<Path>, tree: set<Path>) {
    && (forall i, j :: 0 <= i < j < |joined| ==> joined[i] != joined[j])
    && (forall i :: 0 <= i < |joined| ==> joined[i] in tree && joined[i] != [])
    && (forall p :: p in tree && p != [] ==> p in joined)
  }

  lemma OnceMore(joined: seq<Path>, tree: set<Path>, p: Path)
    requires Once(joined, tree) && p !in tree && p != []
    ensures Once(joined + [p], tree + {p})
  {
  }

  // ----- The object -----

  /** The names below each entity of the tree; entities are known by their paths. */
  type Table = map<Path, set<Name>>

  ghost predicate IsTree(t: Table) {
    && [] in t
    && (forall q {:trigger Parent(q)} :: q in t && q != [] ==> Parent(q) in t)
    && (forall p, n {:trigger n in t[p]} :: p in t ==> (n in t[p] <==> Child(p, n) in t))
  }

  /** add_child: the name enters the parent's children, the child itself has none. */
  function Grown(t: Table, q: Path): Table
    requires q != [] && Parent(q) in t
  {
    t[Parent(q) := t[Parent(q)] + {Last(q)}][q := {}]
  }

  lemma GrownIsTree(t: Table, q: Path)
    requires IsTree(t) && q != [] && q !in t && Parent(q) in t
    ensures IsTree(Grown(t, q)) && Grown(t, q).Keys == t.Keys + {q}
  {
    hide Parent, Last, Child;
    ChildOfParent(q);
    var r := Grown(t, q);
    assert Parent(q) != q;
    forall p, n | p in r ensures n in r[p] <==> Child(p, n) in r {
      assert p == q || p in t;
      assert Child(p, n) == q <==> p == Parent(q) && n == Last(q);
    }
  }

  lemma {:induction false} PrefixInTree(t: Table, p: Path, k: nat)
    requires IsTree(t) && p in t && k <= |p|
    ensures p[..k] in t
    decreases |p|
  {
    if k == |p| {
      assert p[..k] == p;
    } else {
      PrefixInTree(t, Parent(p), k);
      assert Parent(p)[..k] == p[..k];
    }
  }

  lemma NotYet(t: Table, p: Path, i: nat)
    requires IsTree(t) && i + 1 < |p| && p[..i + 1] !in t
    ensures p !in t && Parent(p) !in t
  {
    assert Parent(p)[..i + 1] == p[..i + 1];
    if Parent(p) in t {
      PrefixInTree(t, Parent(p), i + 1);
    }
  }

  /** The orphans directly below `item`. */
  function Below(orphans: set<Path>, item: Path): set<Path> {
    set q | q in orphans && q != [] && Parent(q) == item
  }

  lemma BelowFacts(orphans: set<Path>, item: Path)
    ensures Below(orphans, item) <= orphans && forall q :: q in Below(orphans, item) ==> q != [] && Parent(q) == item
    ensures forall q :: q in orphans - Below(orphans, item) ==> q == [] || Parent(q) != item
  {
    hide Parent;
  }

  function Members(s: seq<Path>): set<Path> {
    set q | q in s
  }

  lemma MembersAppend(s: seq<Path>, q: Path)
    ensures Members(s + [q]) == Members(s) + {q}
    ensures q in Members(s) <==> q in s
  {
  }

  lemma NoMembers()
    ensures Members([]) == {}
  {
  }

  lemma MembersPop(s: seq<Path>)
    requires s != []
    ensures Members(s) == Members(s[1..]) + {s[0]}
  {
    assert s == [s[0]] + s[1..];
  }

  lemma OneMore<T>(base: set<T>, group: set<T>, todo: set<T>, q: T)
    requires todo <= group && q in todo
    ensures base + (group - todo) + {q} == base + (group - (todo - {q}))
    ensures |todo - {q}| == |todo| - 1
  {
  }

  lemma NothingLeft<T>(base: set<T>, group: set<T>)
    ensures base + (group - {}) == base + group && base + (group - group) == base
  {
  }

  /** Every file is in the tree or an orphan, and not both. */
  ghost predicate Split(tree: set<Path>, orphans: set<Path>, files: set<Path>) {
    [] !in files && tree + orphans == files + {[]} && tree !! orphans
  }

  /** Orphans move into the tree. */
  lemma SplitMoves(tree: set<Path>, orphans: set<Path>, files: set<Path>, part: set<Path>)
    requires Split(tree, orphans, files) && part <= orphans
    ensures part !! tree && Split(tree + part, orphans - part, files)
    ensures |orphans - part| == |orphans| - |part|
  {
    assert orphans == (orphans - part) + part;
  }

  /** A new file joins the tree, or becomes an orphan, or was known already. */
  lemma SplitGrows(tree: set<Path>, orphans: set<Path>, files: set<Path>, p: Path)
    requires Split(tree, orphans, files) && p != []
    ensures p !in orphans ==> Split(tree + {p}, orphans, files + {p})
    ensures p !in tree ==> Split(tree, orphans + {p}, files + {p})
    ensures p in tree + orphans ==> files + {p} == files
  {
    assert p in tree + orphans <==> p in files;
  }

  class FolderEntity {
    var children: Table
    var orphans: set<Path>
    /** The files announced so far, and the paths in the order in which they joined the tree. */
    ghost var files: set<Path>
    ghost var joined: seq<Path>

    /** Every file is attached or an orphan, not both, and joined the tree at most once. */
    ghost predicate Accounted()
      reads this
    {
      IsTree(children) && Once(joined, children.Keys) && Split(children.Keys, orphans, files)
    }

    /** No orphan has its parent in the tree. */
    ghost predicate Settled()
      reads this
    {
      forall q :: q in orphans ==> |q| > 1 && Parent(q) !in children
    }

    ghost predicate Valid()
      reads this
    {
      Accounted() && Settled()
    }

    constructor ()
      ensures Valid() && files == {}
    {
      children, orphans, files, joined := map[[] := {}], {}, {}, [];
    }

    /** The walk of on_insert: as far down the path as the tree goes. */
    method Walk(path: Path) returns (i: nat)
      requires IsTree(children)
      ensures i <= |path| && path[..i] in children && (i < |path| ==> path[..i + 1] !in children)
    {
      i := 0;
      while i < |path|
        invariant 0 <= i <= |path| && path[..i] in children
      {
        assert Child(path[..i], path[i]) == path[..i + 1];
        if path[i] !in children[path[..i]] {
          break;
        }
        i := i + 1;
      }
    }

    method Join(path: Path)
      requires IsTree(children) && Once(joined, children.Keys)
      requires path != [] && path !in children && Parent(path) in children
      modifies this`children, this`joined
      ensures IsTree(children) && Once(joined, children.Keys)
      ensures children.Keys == old(children.Keys) + {path}
    {
      hide Once, IsTree;
      GrownIsTree(children, path);
      OnceMore(joined, children.Keys, path);
      children := Grown(children, path);
      joined := joined + [path];
    }

    /** The orphans of `group`, all of them below `item`, join the tree and are queued. */
    method Adopt(item: Path, group: set<Path>, waiting: seq<Path>) returns (queue: seq<Path>)
      requires IsTree(children) && Once(joined, children.Keys) && item in children
      requires group !! children.Keys && forall q :: q in group ==> q != [] && Parent(q) == item
      modifies this`children, this`joined
      ensures IsTree(children) && Once(joined, children.Keys)
      ensures children.Keys == old(children.Keys) + group
      ensures |queue| == |waiting| + |group| && Members(queue) == Members(waiting) + group
    {
      hide Once, IsTree, Parent, Members;
      queue := waiting;
      var todo := group;
      NothingLeft(children.Keys, group);
      NothingLeft(Members(waiting), group);
      while todo != {}
        invariant todo <= group && IsTree(children) && Once(joined, children.Keys)
        invariant children.Keys == old(children.Keys) + (group - todo)
        invariant |queue| + |todo| == |waiting| + |group|
        invariant Members(queue) == Members(waiting) + (group - todo)
        decreases |todo|
      {
        var q :| q in todo;
        OneMore(old(children.Keys), group, todo, q);
        OneMore(Members(waiting), group, todo, q);
        MembersAppend(queue, q);
        queue := queue + [q];
        Join(q);
        todo := todo - {q};
      }
    }

    /** One round of reap_children. */
    method AdoptOrphans(item: Path, waiting: seq<Path>) returns (queue: seq<Path>)
      requires Accounted() && item in children
      modifies this`children, this`joined, this`orphans
      ensures Accounted() && orphans == old(orphans) - Below(old(orphans), item)
      ensures |queue| + |orphans| == |waiting| + |old(orphans)|
      ensures children.Keys == old(children.Keys) + Below(old(orphans), item)
      ensures Members(queue) == Members(waiting) + Below(old(orphans), item)
    {
      hide Once, IsTree, Parent, Below, Members, Split;
      var group := Below(orphans, item);
      BelowFacts(orphans, item);
      SplitMoves(children.Keys, orphans, files, group);
      queue := Adopt(item, group, waiting);
      orphans := orphans - group;
    }

    /** Breadth first: every orphan that can be reached from the new entity joins the tree. */
    method ReapChildren(parent: Path)
      requires Accounted() && parent in children
      requires forall q :: q in orphans ==> |q| > 1 && (Parent(q) in children ==> Parent(q) == parent)
      modifies this`children, this`joined, this`orphans
      ensures Valid() && old(children.Keys) <= children.Keys
    {
      hide Once, IsTree, Parent, Below, Members, Split;
      var queue := [parent];
      assert [parent] == [] + [parent];
      MembersAppend([], parent);
      NoMembers();
      while queue != []
        invariant Accounted() && old(children.Keys) <= children.Keys
        invariant Members(queue) <= children.Keys
        invariant forall q :: q in orphans ==> |q| > 1 && (Parent(q) in children ==> Parent(q) in Members(queue))
        decreases |orphans| + |queue|
      {
        var item := queue[0];
        MembersPop(queue);
        BelowFacts(orphans, item);
        queue := queue[1..];
        queue := AdoptOrphans(item, queue);
      }
    }

    /** on_insert of a file: what is attached, or the place among the orphans. */
    method OnInsert(path: Path) returns (attached: bool)
      requires Valid() && path != []
      modifies this
      ensures Valid() && files == old(files) + {path}
      ensures attached <==> path in children
    {
      hide Once, IsTree, Split;
      var i := Walk(path);
      SplitGrows(children.Keys, orphans, files, path);
      files := files + {path};
      if i + 1 == |path| {
        assert path[..i] == Parent(path) && path[..i + 1] == path;
        Join(path);
        ReapChildren(path);
        attached := true;
      } else if i == |path| {
        assert path[..i] == path;
        attached := true;
      } else {
        if path !in orphans {
          orphans := orphans + {path};
        }
        NotYet(children, path, i);
        attached := false;
      }
    }
  }

  /** The attached tree is the largest parent-closed part of the files and the orphans are the rest. */
  lemma TreeIsLargest(t: Table, orphans: set<Path>, files: set<Path>, part: set<Path>)
    requires IsTree(t) && Split(t.Keys, orphans, files)
    requires forall q :: q in orphans ==> |q| > 1 && Parent(q) !in t
    ensures t.Keys == {[]} + Attached(files) && orphans == files - Attached(files)
    ensures ParentClosed(Attached(files)) && (part <= files && ParentClosed(part) ==> part <= Attached(files))
  {
    var tree := t.Keys - {[]};
    assert t.Keys + orphans == files + {[]};
    forall p | p in files && p !in tree ensures |p| > 1 && Parent(p) !in tree {
      assert p in orphans;
    }
    forall p | p in tree && |p| > 1 ensures Parent(p) in tree {
      assert Parent(p) in t;
    }
    forall p | p in tree ensures p in files {
      assert p in t.Keys + orphans;
    }
    ClosedIsAttached(files, tree);
    AttachedIsLargest(files, part);
    assert t.Keys == {[]} + tree;
  }

  /** The tree is a function of the set of files: it does not depend on the order of their arrival. */
  lemma OrderIrrelevant(t: Table, orphans: set<Path>, t': Table, orphans': set<Path>, files: set<Path>)
    requires IsTree(t) && Split(t.Keys, orphans, files) && forall q :: q in orphans ==> |q| > 1 && Parent(q) !in t
    requires IsTree(t') && Split(t'.Keys, orphans', files) && forall q :: q in orphans' ==> |q| > 1 && Parent(q) !in t'
    ensures t == t' && orphans == orphans'
  {
    hide Split;
    TreeIsLargest(t, orphans, files, {});
    TreeIsLargest(t', orphans', files, {});
    hide Attached, Rooted, ParentClosed, Child;
    assert t.Keys == t'.Keys;
    forall p | p in t ensures t[p] == t'[p] {
      forall n ensures n in t[p] <==> n in t'[p] {
        assert Child(p, n) in t <==> Child(p, n) in t';
      }
    }
  }

  function Files(paths: seq<Path>): set<Path> {
    set p | p in paths
  }

  /** After any sequence of insertions into an empty folder the tree and the orphans are determined by
      the set of inserted paths, and every attached path has joined exactly once. */
  method InsertAll(paths: seq<Path>) returns (folder: FolderEntity)
    requires forall i :: 0 <= i < |paths| ==> paths[i] != []
    ensures folder.Valid() && folder.files == Files(paths)
    ensures folder.children.Keys == {[]} + Attached(Files(paths))
    ensures folder.orphans == Files(paths) - Attached(Files(paths))
    ensures Once(folder.joined, folder.children.Keys)
  {
    hide IsTree, Once, Attached, Split;
    folder := new FolderEntity();
    for i := 0 to |paths|
      invariant folder.Valid() && fresh(folder) && folder.files == Files(paths[..i])
    {
      assert paths[..i + 1] == paths[..i] + [paths[i]];
      var attached := folder.OnInsert(paths[i]);
    }
    assert paths[..|paths|] == paths;
    TreeIsLargest(folder.children, folder.orphans, folder.files, {});
  }
}
