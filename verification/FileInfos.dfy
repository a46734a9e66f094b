/**
  Files and blocks as the objects that the program updates in place. Every method is tied to the
  operation of the same kind on graphs, so the laws about graphs and their runs speak about it.
 */
module FileInfos {
  import opened BlockGraph
  import opened BlockRuns
  import opened Common
  import W = CounterWord

  type Hash = seq<int>

  /** The tagged union of a block: one link stored in place, or a vector of links. */
  datatype LinkUnion = One(fb: Link<FileInfo>) | Many(fbs: seq<Link<FileInfo>>)

  lemma FilterStep(ls: seq<Link<FileInfo>>, k: nat, f: FileInfo)
    requires k < |ls|
    ensures Without(ls[..k + 1], f) == Without(ls[..k], f) + if ls[k].file == f then [] else [ls[k]]
    ensures IndicesOf(ls[..k + 1], f) == IndicesOf(ls[..k], f) + if ls[k].file == f then [ls[k].index] else []
  {
    assert ls[..k + 1][..k] == ls[..k];
  }

  /** One round of the erasing loop: the kept links, then the links still to be visited. */
  lemma EraseStep(ls: seq<Link<FileInfo>>, k: nat, f: FileInfo)
    requires k < |ls|
    ensures var kept := Without(ls[..k], f); var s := kept + ls[k..];
      && s[|kept|] == ls[k]
      && (ls[k].file == f ==> s[..|kept|] + s[|kept| + 1..] == Without(ls[..k + 1], f) + ls[k + 1..])
      && (ls[k].file == f ==> Without(ls[..k + 1], f) == kept)
      && (ls[k].file != f ==> s == Without(ls[..k + 1], f) + ls[k + 1..])
      && (ls[k].file != f ==> |Without(ls[..k + 1], f)| == |kept| + 1)
  {
    FilterStep(ls, k, f);
    assert ls[k..] == [ls[k]] + ls[k + 1..];
  }

  lemma EraseStart(ls: seq<Link<FileInfo>>, f: FileInfo)
    ensures Without(ls[..0], f) == [] && IndicesOf(ls[..0], f) == [] && [] + ls[0..] == ls
  {
  }

  /** The erasing loop of unlink over the vector of links. */
  method EraseLinks(before: seq<Link<FileInfo>>, f: FileInfo) returns (fbs: seq<Link<FileInfo>>, removed: seq<nat>)
    ensures fbs == Without(before, f)
    ensures removed == IndicesOf(before, f)
  {
    hide Without, IndicesOf;
    fbs, removed := before, [];
    var it := 0;
    ghost var done := 0;
    EraseStart(before, f);
    while it != |fbs|
      invariant 0 <= done <= |before| && it == |Without(before[..done], f)|
      invariant fbs == Without(before[..done], f) + before[done..]
      invariant removed == IndicesOf(before[..done], f)
      decreases |before| - done
    {
      EraseStep(before, done, f);
      FilterStep(before, done, f);
      if fbs[it].file == f {
        removed := removed + [fbs[it].index];
        fbs := fbs[..it] + fbs[it + 1..];
      } else {
        it := it + 1;
      }
      done := done + 1;
    }
    assert before[..done] == before;
  }

  lemma MarkFirstRest(ls: seq<Link<FileInfo>>, f: FileInfo)
    requires ls != [] && ls[0].file != f
    ensures MarkFirst(ls, f) == [ls[0]] + MarkFirst(ls[1..], f)
  {
  }

  /** Marking skips a prefix that has no link to the file. */
  lemma {:induction false} MarkFirstSkips(ls: seq<Link<FileInfo>>, k: nat, f: FileInfo)
    requires k <= |ls| && forall m :: 0 <= m < k ==> ls[m].file != f
    ensures MarkFirst(ls, f) == if k < |ls| && ls[k].file == f then ls[k := ls[k].(local := true)]
                                else ls[..k] + MarkFirst(ls[k..], f)
  {
    if k == 0 {
      assert ls[0..] == ls;
    } else {
      MarkFirstRest(ls, f);
      hide MarkFirst;
      MarkFirstSkips(ls[1..], k - 1, f);
      assert ls[1..][k - 1..] == ls[k..];
      assert ls == [ls[0]] + ls[1..];
    }
  }

  class BlockInfo {
    const hash: Hash
    var counter: W.Word
    var union: LinkUnion

    /** The tag bit tells which member of the union is alive. */
    ghost predicate Tagged()
      reads this
    {
      W.Single(counter) <==> union.One?
    }

    ghost predicate Valid()
      reads this
      ensures Valid() ==> (W.Single(counter) <==> |Links()| == 1)
    {
      Tagged() && (union.Many? ==> |union.fbs| != 1)
    }

    /** The plain sequence of links that the union stands for. */
    ghost function Links(): seq<Link<FileInfo>>
      reads this
    {
      match union
      case One(fb) => [fb]
      case Many(fbs) => fbs
    }

    ghost function Refs(): nat
      reads this
    {
      W.Refs(counter)
    }

    ghost predicate Locked()
      reads this
    {
      W.Locked(counter)
    }

    constructor (hash: Hash)
      ensures this.hash == hash && Valid() && Links() == [] && Refs() == 0 && !Locked()
    {
      this.hash := hash;
      counter := 0;
      union := Many([]);
    }

    /** The link at position `i` of the iteration, with the next position. */
    method Next(i: nat) returns (r: Option<Link<FileInfo>>, j: nat)
      requires Tagged()
      ensures i < |Links()| ==> r == Some(Links()[i]) && j == i + 1
      ensures i >= |Links()| ==> r == None && j == i
    {
      r, j := None, i;
      if W.Single(counter) {
        if i == 0 {
          r, j := Some(union.fb), 1;
        }
      } else if i < |union.fbs| {
        r, j := Some(union.fbs[i]), i + 1;
      }
    }

    /** The first available link, if there is any. */
    method LocalFile() returns (r: Option<Link<FileInfo>>)
      requires Tagged()
      ensures r.Some? <==> AnyLocal(Links())
      ensures r.Some? ==> exists k :: 0 <= k < |Links()| && r.value == Links()[k] && Links()[k].local
                                      && forall m :: 0 <= m < k ==> !Links()[m].local
    {
      r := None;
      var i := 0;
      while true
        invariant 0 <= i <= |Links()|
        invariant forall m :: 0 <= m < i ==> !Links()[m].local
        decreases |Links()| - i
      {
        var fb, j := Next(i);
        if fb == None {
          return None;
        }
        if fb.value.local {
          return fb;
        }
        i := j;
      }
    }

    method HasLocalLink(f: FileInfo) returns (found: bool)
      requires Tagged()
      ensures found <==> LocalTo(Links(), f)
    {
      found := false;
      var i := 0;
      while true
        invariant 0 <= i <= |Links()|
        invariant forall m :: 0 <= m < i ==> !(Links()[m].local && Links()[m].file == f)
        decreases |Links()| - i
      {
        var fb, j := Next(i);
        if fb == None {
          return false;
        }
        if fb.value.local && fb.value.file == f {
          assert fb.value in Links();
          return true;
        }
        i := j;
      }
    }

    method AddLink(f: FileInfo, index: nat)
      requires Valid()
      modifies this
      ensures Valid() && Refs() == old(Refs()) && Locked() == old(Locked())
      ensures Links() == old(Links()) + [Link(f, index, AnyLocal(old(Links())))]
    {
      W.SingleIsolated(counter);
      if W.Single(counter) {
        var first := union.fb;
        union := Many([]);
        counter := W.WithoutSingle(counter);
        union := Many(union.fbs + [first]);
        assert union.fbs == [first] == old(Links());
        var available := LocalFile();
        union := Many(union.fbs + [Link(f, index, available.Some?)]);
      } else {
        var available := LocalFile();
        var added := Link(f, index, available.Some?);
        if union.fbs != [] {
          union := Many(union.fbs + [added]);
        } else {
          union := One(added);
          counter := W.WithSingle(counter);
        }
      }
    }

    method Unlink(f: FileInfo) returns (removed: seq<nat>)
      requires Valid()
      requires IndicesOf(Links(), f) != []
      modifies this
      ensures Valid() && Refs() == old(Refs()) && Locked() == old(Locked())
      ensures Links() == Without(old(Links()), f)
      ensures removed == IndicesOf(old(Links()), f)
    {
      W.SingleIsolated(counter);
      if W.Single(counter) {
        removed := [];
        assert [union.fb][..0] == [];
        if union.fb.file == f {
          removed := removed + [union.fb.index];
          union := Many([]);
          counter := W.WithoutSingle(counter);
        }
      } else {
        var rest;
        rest, removed := EraseLinks(union.fbs, f);
        union := Many(rest);
        if |union.fbs| == 1 {
          var first := union.fbs[0];
          counter := W.WithSingle(counter);
          union := One(first);
        }
      }
    }

    method MarkLocalAvailable(f: FileInfo)
      requires Valid()
      modifies this`union
      ensures Valid()
      ensures Links() == MarkFirst(old(Links()), f)
    {
      if W.Single(counter) {
        if union.fb.file == f {
          union := One(union.fb.(local := true));
        }
      } else {
        var i := 0;
        while i < |union.fbs|
          invariant union == old(union) && 0 <= i <= |union.fbs|
          invariant forall m :: 0 <= m < i ==> union.fbs[m].file != f
        {
          if union.fbs[i].file == f {
            MarkFirstSkips(union.fbs, i, f);
            union := Many(union.fbs[i := union.fbs[i].(local := true)]);
            return;
          }
          i := i + 1;
        }
        MarkFirstSkips(union.fbs, i, f);
      }
    }

    method Lock()
      requires Valid() && !Locked()
      modifies this`counter
      ensures Valid() && Locked() && Refs() == old(Refs())
    {
      W.LockIsolated(counter);
      counter := W.WithLock(counter);
    }

    method Unlock()
      requires Valid() && Locked()
      modifies this`counter
      ensures Valid() && !Locked() && Refs() == old(Refs())
    {
      W.LockIsolated(counter);
      counter := W.WithoutLock(counter);
    }

    method AddRef()
      requires Valid() && Refs() < W.MAX_REFS
      modifies this`counter
      ensures Valid() && Refs() == old(Refs()) + 1 && Locked() == old(Locked())
    {
      W.IncrementIsolated(counter);
      counter := W.Increment(counter);
    }

    /** Drops one reference; the block is gone when the result is zero. */
    method Release() returns (left: nat)
      requires Valid() && Refs() > 0
      modifies this`counter
      ensures Valid() && Refs() == old(Refs()) - 1 == left && Locked() == old(Locked())
    {
      W.DecrementIsolated(counter);
      counter := W.Decrement(counter);
      left := W.Refs(counter);
    }
  }

  // ----- The heap as a graph -----

  ghost function Snapshot(files: set<FileInfo>, blocks: set<BlockInfo>): Graph<FileInfo, BlockInfo>
    reads files, blocks
  {
    Graph(map f | f in files :: File(f.slots, f.available), map b | b in blocks :: Block(b.Links(), b.Refs()))
  }

  ghost predicate Sound(files: set<FileInfo>, blocks: set<BlockInfo>)
    reads files, blocks
  {
    && (forall b :: b in blocks ==> b.Valid())
    && (forall f :: f in files && !f.isFile ==> f.slots == [])
    && Consistent(Snapshot(files, blocks))
  }

  /** `g` describes every file but `f` and every block but `b` as they are now. */
  ghost predicate DescribesOthers(g: Graph<FileInfo, BlockInfo>, files: set<FileInfo>, blocks: set<BlockInfo>,
                                  f: FileInfo, b: BlockInfo?)
    reads files, blocks
  {
    && g.files.Keys == files && g.blocks.Keys == blocks
    && (forall h :: h in files && h != f ==> g.files[h] == File(h.slots, h.available) && (h.isFile || h.slots == []))
    && (forall c :: c in blocks && c != b ==> g.blocks[c] == Block(c.Links(), c.Refs()) && c.Valid())
  }

  /** When one file and one block may have changed, so may their entries in the graph, and no other. */
  lemma SnapshotStep(g: Graph<FileInfo, BlockInfo>, files: set<FileInfo>, blocks: set<BlockInfo>, f: FileInfo,
                     b: BlockInfo)
    requires f in files && b in blocks && DescribesOthers(g, files, blocks, f, b)
    ensures Snapshot(files, blocks)
         == Graph(g.files[f := File(f.slots, f.available)], g.blocks[b := Block(b.Links(), b.Refs())])
  {
  }

  lemma SoundStep(g: Graph<FileInfo, BlockInfo>, r: Graph<FileInfo, BlockInfo>, files: set<FileInfo>,
                  blocks: set<BlockInfo>,
                  f: FileInfo, b: BlockInfo)
    requires f in files && b in blocks && DescribesOthers(g, files, blocks, f, b)
    requires Snapshot(files, blocks) == r && Consistent(r)
    requires b.Valid() && (f.isFile || f.slots == [])
    ensures Sound(files, blocks)
  {
    hide Consistent;
  }

  lemma FlagStep(g: Graph<FileInfo, BlockInfo>, files: set<FileInfo>, blocks: set<BlockInfo>, f: FileInfo)
    requires f in files && DescribesOthers(g, files, blocks, f, null)
    ensures Snapshot(files, blocks) == Graph(g.files[f := File(f.slots, f.available)], g.blocks)
    ensures (f.isFile || f.slots == []) && Consistent(Snapshot(files, blocks)) ==> Sound(files, blocks)
  {
    hide Consistent;
  }

  function HashOf(b: BlockInfo): Hash {
    b.hash
  }

  /** An available link of a block to a file belongs to a slot of that file. */
  lemma LocalIsHeld(g: Graph<FileInfo, BlockInfo>, f: FileInfo, b: BlockInfo) returns (i: nat)
    requires Consistent(g) && f in g.files && b in g.blocks && LocalTo(g.blocks[b].links, f)
    ensures Holds(g, f, i, b)
  {
    var l :| l in g.blocks[b].links && l.file == f && l.local;
    OccurrencesMember(g.blocks[b].links, f, l.index);
    i := l.index;
  }

  lemma AssignShape(g: Graph<FileInfo, BlockInfo>, f: FileInfo, i: nat, b: BlockInfo, file: File<BlockInfo>,
                    block: Block<FileInfo>)
    requires WellFormed(g) && f in g.files && i < |g.files[f].slots| && b in g.blocks
    requires file == File(g.files[f].slots[i := Held(b, false)], g.files[f].ready)
    requires block == Block(g.blocks[b].links + [Link(f, i, AnyLocal(g.blocks[b].links))], g.blocks[b].refs + 1)
    ensures Graph(g.files[f := file], g.blocks[b := block]) == Assign(g, f, i, b)
  {
  }

  lemma RemoveBlockShape(g: Graph<FileInfo, BlockInfo>, f: FileInfo, b: BlockInfo, file: File<BlockInfo>,
                         block: Block<FileInfo>)
    requires WellFormed(g) && f in g.files && b in g.blocks && Removable(g, f, b)
    requires file == File(NullAt(g.files[f].slots, IndicesOf(g.blocks[b].links, f)), g.files[f].ready)
    requires block == Block(Without(g.blocks[b].links, f), g.blocks[b].refs - |IndicesOf(g.blocks[b].links, f)|)
    ensures Graph(g.files[f := file], g.blocks[b := block]) == RemoveBlock(g, f, b)
  {
    hide Without, IndicesOf, NullAt, WellFormed;
  }

  lemma AssignReady(g: Graph<FileInfo, BlockInfo>, f: FileInfo, i: nat, b: BlockInfo)
    requires Consistent(g) && f in g.files && i < |g.files[f].slots| && b in g.blocks && g.files[f].slots[i] == Null
    ensures WellFormed(g) && Consistent(Assign(g, f, i, b))
  {
    AssignKeeps(g, f, i, b);
  }

  lemma AssignedStep(g: Graph<FileInfo, BlockInfo>, files: set<FileInfo>, blocks: set<BlockInfo>, f: FileInfo,
                     i: nat, b: BlockInfo)
    requires f in files && b in blocks && DescribesOthers(g, files, blocks, f, b)
    requires WellFormed(g) && i < |g.files[f].slots| && Consistent(Assign(g, f, i, b))
    requires f.slots == g.files[f].slots[i := Held(b, false)] && f.available == g.files[f].ready
    requires b.Links() == g.blocks[b].links + [Link(f, i, AnyLocal(g.blocks[b].links))]
    requires b.Refs() == g.blocks[b].refs + 1
    requires b.Valid() && f.isFile
    ensures Snapshot(files, blocks) == Assign(g, f, i, b) && Sound(files, blocks)
  {
    hide Consistent;
    SnapshotStep(g, files, blocks, f, b);
    AssignShape(g, f, i, b, File(f.slots, f.available), Block(b.Links(), b.Refs()));
    SoundStep(g, Assign(g, f, i, b), files, blocks, f, b);
  }

  lemma MarkLocalReady(g: Graph<FileInfo, BlockInfo>, f: FileInfo, i: nat)
    requires Consistent(g) && f in g.files && i < |g.files[f].slots| && g.files[f].slots[i].Held?
    ensures WellFormed(g) && g.files[f].slots[i].block in g.blocks && Consistent(MarkLocal(g, f, i))
  {
    MarkLocalKeeps(g, f, i);
  }

  lemma MarkedStep(g: Graph<FileInfo, BlockInfo>, files: set<FileInfo>, blocks: set<BlockInfo>, f: FileInfo, i: nat,
                   b: BlockInfo)
    requires f in files && b in blocks && DescribesOthers(g, files, blocks, f, b)
    requires WellFormed(g) && i < |g.files[f].slots| && g.files[f].slots[i].Held? && g.files[f].slots[i].block == b
    requires Consistent(MarkLocal(g, f, i))
    requires f.slots == g.files[f].slots[i := Held(b, true)] && f.available == (g.files[f].ready || AllLocal(f.slots))
    requires b.Links() == MarkFirst(g.blocks[b].links, f) && b.Refs() == g.blocks[b].refs
    requires b.Valid() && f.isFile
    ensures Snapshot(files, blocks) == MarkLocal(g, f, i) && Sound(files, blocks)
  {
    hide Consistent;
    SnapshotStep(g, files, blocks, f, b);
    SoundStep(g, MarkLocal(g, f, i), files, blocks, f, b);
  }

  lemma RemoveAllReady(g: Graph<FileInfo, BlockInfo>, f: FileInfo)
    requires Consistent(g) && f in g.files
    ensures WellFormed(g) && (forall b :: b in g.blocks ==> |g.blocks[b].links| <= g.blocks[b].refs)
    ensures Consistent(RemoveAll(g, f))
  {
    RemoveAllKeeps(g, f);
  }

  lemma ClearedStep(g0: Graph<FileInfo, BlockInfo>, g: Graph<FileInfo, BlockInfo>, files: set<FileInfo>,
                    blocks: set<BlockInfo>, f: FileInfo)
    requires f in files && DescribesOthers(g, files, blocks, f, null)
    requires Consistent(g0) && Consistent(g) && Partly(g0, g, f) && Consistent(RemoveAll(g0, f))
    requires f.slots == g.files[f].slots && !f.available && f.isFile
    requires forall i :: 0 <= i < |f.slots| ==> f.slots[i] == Null
    ensures Snapshot(files, blocks) == RemoveAll(g0, f) && Sound(files, blocks)
  {
    PartlyDone(g0, g, f);
    FlagStep(g, files, blocks, f);
  }

  lemma RemoveBlockReady(g: Graph<FileInfo, BlockInfo>, f: FileInfo, b: BlockInfo, i: nat)
    requires Consistent(g) && b in g.blocks && Holds(g, f, i, b)
    ensures WellFormed(g) && Removable(g, f, b) && Consistent(RemoveBlock(g, f, b))
    ensures IndicesOf(g.blocks[b].links, f) != [] && |g.blocks[b].links| <= g.blocks[b].refs
    ensures forall k :: 0 <= k < |IndicesOf(g.blocks[b].links, f)| ==>
      IndicesOf(g.blocks[b].links, f)[k] < |g.files[f].slots|
  {
    UnlinkIndices(g, f, b);
    RemoveBlockKeeps(g, f, b);
  }

  lemma RemovedStep(g: Graph<FileInfo, BlockInfo>, files: set<FileInfo>, blocks: set<BlockInfo>, f: FileInfo,
                    b: BlockInfo)
    requires f in files && b in blocks && DescribesOthers(g, files, blocks, f, b)
    requires WellFormed(g) && Removable(g, f, b) && Consistent(RemoveBlock(g, f, b))
    requires f.slots == NullAt(g.files[f].slots, IndicesOf(g.blocks[b].links, f)) && f.available == g.files[f].ready
    requires b.Links() == Without(g.blocks[b].links, f)
    requires b.Refs() == g.blocks[b].refs - |IndicesOf(g.blocks[b].links, f)|
    requires b.Valid() && (f.isFile || f.slots == [])
    ensures Snapshot(files, blocks) == RemoveBlock(g, f, b) && Sound(files, blocks)
  {
    hide Consistent;
    SnapshotStep(g, files, blocks, f, b);
    RemoveBlockShape(g, f, b, File(f.slots, f.available), Block(b.Links(), b.Refs()));
    SoundStep(g, RemoveBlock(g, f, b), files, blocks, f, b);
  }

  lemma NullAtNothing(s: seq<Slot<BlockInfo>>, indices: seq<nat>)
    ensures NullAt(s, indices[..0]) == s
  {
  }

  lemma NullAtLast(s: seq<Slot<BlockInfo>>, init: seq<nat>, last: nat, indices: seq<nat>)
    requires (forall m :: 0 <= m < |indices| ==> indices[m] < |s|) && indices == init + [last]
    ensures (forall m :: 0 <= m < |init| ==> init[m] < |s|) && last < |s|
    ensures NullAt(s, indices) == NullAt(s, init)[last := Null]
  {
    forall m | 0 <= m < |init| ensures init[m] < |s| { assert indices[m] == init[m]; }
    assert indices[|init|] == last;
    assert indices[..|indices| - 1] == init;
  }

  lemma SnapshotParts(files: set<FileInfo>, blocks: set<BlockInfo>)
    ensures Snapshot(files, blocks).files.Keys == files && Snapshot(files, blocks).blocks.Keys == blocks
    ensures forall h :: h in files ==> Snapshot(files, blocks).files[h] == File(h.slots, h.available)
    ensures forall b :: b in blocks ==> Snapshot(files, blocks).blocks[b] == Block(b.Links(), b.Refs())
  {
  }

  lemma SoundIsConsistent(files: set<FileInfo>, blocks: set<BlockInfo>)
    requires Sound(files, blocks)
    ensures Consistent(Snapshot(files, blocks))
  {
    hide Consistent;
  }

  lemma AllNull(s: seq<Slot<BlockInfo>>)
    requires forall i :: 0 <= i < |s| ==> s[i] == Null
    ensures s == Nulls(|s|)
  {
  }

  lemma ResizeReady(g: Graph<FileInfo, BlockInfo>, f: FileInfo, n: nat)
    requires Consistent(g) && f in g.files
    requires forall i :: 0 <= i < |g.files[f].slots| ==> g.files[f].slots[i] == Null
    ensures WellFormed(g) && Consistent(Resize(g, f, n))
    ensures Resize(g, f, n) == Graph(g.files[f := File(Nulls(n), g.files[f].ready)], g.blocks)
  {
    hide SidesAgree, LocalSlotsLinked;
    ResizeKeeps(g, f, n);
  }

  lemma ClearReady(g: Graph<FileInfo, BlockInfo>, f: FileInfo, other: FileInfo)
    requires Consistent(g) && f in g.files && other in g.files
    ensures WellFormed(g) && (forall b :: b in g.blocks ==> |g.blocks[b].links| <= g.blocks[b].refs)
    ensures WellFormed(RemoveAll(g, f)) && RemoveAll(g, f).files.Keys == g.files.Keys
    ensures RemoveAll(g, f).blocks.Keys == g.blocks.Keys
    ensures forall i :: 0 <= i < |RemoveAll(g, f).files[f].slots| ==> RemoveAll(g, f).files[f].slots[i] == Null
    ensures forall b :: b in g.blocks ==> RemoveAll(g, f).blocks[b].refs <= g.blocks[b].refs
    ensures Cleared(g, f, other) == Resize(RemoveAll(g, f), f, |RemoveAll(g, f).files[other].slots|)
    ensures Cleared(g, f, other).blocks == RemoveAll(g, f).blocks && other in Cleared(g, f, other).files
    ensures Cleared(g, f, other).files[other].slots == RemoveAll(g, f).files[other].slots
  {
    hide SidesAgree, LocalSlotsLinked, Without, IndicesOf;
  }

  /** What the two halves of update need to know of each other. */
  lemma UpdateReady(g: Graph<FileInfo, BlockInfo>, f: FileInfo, other: FileInfo)
    requires Consistent(g) && f in g.files && other in g.files
    ensures WellFormed(g) && (forall b :: b in g.blocks ==> |g.blocks[b].links| <= g.blocks[b].refs)
    ensures other in RemoveAll(g, f).files
    ensures var start := Cleared(g, f, other); var src := RemoveAll(g, f).files[other].slots;
      && Fillable(start, f, src) && Filled(start, start, f, src, Marks(g, f, HashOf), 0)
      && |src| == |g.files[other].slots|
      && Update(g, f, other, HashOf) == Fill(start, f, src, Marks(g, f, HashOf), |src|)
      && f in Fill(start, f, src, Marks(g, f, HashOf), |src|).files
      && |Fill(start, f, src, Marks(g, f, HashOf), |src|).files[f].slots| == |src|
  {
    hide SidesAgree, LocalSlotsLinked, Filled;
    UpdateStart(g, f, other, HashOf);
  }

  lemma MarksByHash(files: set<FileInfo>, blocks: set<BlockInfo>, f: FileInfo, hashes: set<Hash>)
    requires hashes == LocalHashes(Snapshot(files, blocks), f, HashOf)
    ensures forall b :: b in blocks ==> (b in Marks(Snapshot(files, blocks), f, HashOf) <==> b.hash in hashes)
  {
    hide LocalHashes;
  }

  class FileInfo {
    var isFile: bool
    var available: bool
    var slots: seq<Slot<BlockInfo>>

    constructor (isFile: bool)
      ensures this.isFile == isFile && !available && slots == []
    {
      this.isFile := isFile;
      available := false;
      slots := [];
    }

    method AssignBlock(block: BlockInfo, index: nat, ghost files: set<FileInfo>, ghost blocks: set<BlockInfo>)
      requires Sound(files, blocks) && this in files && block in blocks
      requires isFile && index < |slots| && slots[index] == Null
      requires block.Refs() < W.MAX_REFS
      modifies this`slots, block
      ensures Sound(files, blocks)
      ensures Snapshot(files, blocks) == Assign(old(Snapshot(files, blocks)), this, index, block)
      ensures block.Locked() == old(block.Locked()) && block.Refs() == old(block.Refs()) + 1
    {
      hide Consistent, Assign;
      ghost var g := Snapshot(files, blocks);
      AssignReady(g, this, index, block);
      slots := slots[index := Held(block, false)];
      block.AddRef();
      block.AddLink(this, index);
      AssignedStep(g, files, blocks, this, index, block);
    }

    method MarkLocalAvailable(index: nat, ghost files: set<FileInfo>, ghost blocks: set<BlockInfo>)
      requires Sound(files, blocks) && this in files
      requires isFile && index < |slots| && slots[index].Held? && !slots[index].local
      modifies this`slots, this`available, slots[index].block`union
      ensures Sound(files, blocks)
      ensures Snapshot(files, blocks) == MarkLocal(old(Snapshot(files, blocks)), this, index)
    {
      hide Consistent, MarkLocal;
      ghost var g := Snapshot(files, blocks);
      var block := slots[index].block;
      MarkLocalReady(g, this, index);
      block.MarkLocalAvailable(this);
      slots := slots[index := Held(block, true)];
      if !available {
        var count := CountLocal();
        if count == |slots| {
          available := true;
        }
      }
      MarkedStep(g, files, blocks, this, index, block);
    }

    method CountLocal() returns (count: nat)
      ensures count == |slots| <==> AllLocal(slots)
    {
      count := 0;
      for i := 0 to |slots|
        invariant count <= i
        invariant count == i <==> AllLocal(slots[..i])
      {
        assert slots[..i + 1] == slots[..i] + [slots[i]];
        if slots[i].Held? && slots[i].local {
          count := count + 1;
        } else {
          assert !AllLocal(slots[..i + 1]) by { assert slots[..i + 1][i] == slots[i]; }
        }
      }
      assert slots[..|slots|] == slots;
    }

    /** Empties the listed slots and drops one reference for each. */
    method ReleaseSlots(block: BlockInfo, indices: seq<nat>)
      requires block.Valid() && |indices| <= block.Refs()
      requires forall k :: 0 <= k < |indices| ==> indices[k] < |slots|
      modifies this`slots, block`counter
      ensures block.Valid() && block.Refs() == old(block.Refs()) - |indices| && block.Locked() == old(block.Locked())
      ensures slots == NullAt(old(slots), indices)
    {
      hide NullAt;
      ghost var before, refs := slots, block.Refs();
      NullAtNothing(slots, indices);
      for k := 0 to |indices|
        invariant slots == NullAt(before, indices[..k])
        invariant block.Valid() && block.Refs() == refs - k && block.Locked() == old(block.Locked())
      {
        assert indices[..k + 1] == indices[..k] + [indices[k]];
        NullAtLast(before, indices[..k], indices[k], indices[..k + 1]);
        slots := slots[indices[k] := Null];
        var left := block.Release();
      }
      assert indices[..|indices|] == indices;
    }

    /** Drops the links of the block to this file, and the slots named by them. */
    method Detach(block: BlockInfo)
      requires block.Valid() && IndicesOf(block.Links(), this) != [] && |block.Links()| <= block.Refs()
      requires forall k :: 0 <= k < |IndicesOf(block.Links(), this)| ==> IndicesOf(block.Links(), this)[k] < |slots|
      modifies this`slots, block
      ensures block.Valid() && block.Locked() == old(block.Locked())
      ensures block.Links() == Without(old(block.Links()), this)
      ensures block.Refs() == old(block.Refs()) - |IndicesOf(old(block.Links()), this)|
      ensures slots == NullAt(old(slots), IndicesOf(old(block.Links()), this))
    {
      hide Without, IndicesOf, NullAt;
      var indices := block.Unlink(this);
      ReleaseSlots(block, indices);
    }

    /** remove_block; `i` is one of the slots that hold the block. */
    method RemoveBlock(block: BlockInfo, ghost i: nat, ghost files: set<FileInfo>, ghost blocks: set<BlockInfo>)
      requires Sound(files, blocks) && this in files && block in blocks && isFile
      requires i < |slots| && slots[i].Held? && slots[i].block == block
      modifies this`slots, block
      ensures Sound(files, blocks)
      ensures Removable(old(Snapshot(files, blocks)), this, block)
      ensures Snapshot(files, blocks) == BlockGraph.RemoveBlock(old(Snapshot(files, blocks)), this, block)
      ensures block.Locked() == old(block.Locked())
    {
      hide Consistent, Removable, BlockGraph.RemoveBlock;
      ghost var g := Snapshot(files, blocks);
      RemoveBlockReady(g, this, block, i);
      Detach(block);
      RemovedStep(g, files, blocks, this, block);
    }

    /** Removes the block of slot `i`, if any; empty slots stay empty. */
    method DropSlot(i: nat, ghost g0: Graph<FileInfo, BlockInfo>, ghost files: set<FileInfo>,
                    ghost blocks: set<BlockInfo>)
      requires Sound(files, blocks) && this in files && isFile && i < |slots|
      requires Partly(g0, Snapshot(files, blocks), this)
      modifies this`slots, blocks
      ensures Sound(files, blocks) && |slots| == old(|slots|)
      ensures Partly(g0, Snapshot(files, blocks), this)
      ensures slots[i] == Null
      ensures forall j :: 0 <= j < |slots| && old(slots[j]) == Null ==> slots[j] == Null
    {
      hide SidesAgree, LocalSlotsLinked, Partly;
      if slots[i].Held? {
        ghost var g := Snapshot(files, blocks);
        var block := slots[i].block;
        assert g.files[this].slots[i].block in g.blocks;
        RemoveBlockSlots(g, this, block);
        assert Holds(g, this, i, block);
        RemoveBlock(block, i, files, blocks);
        assert slots == BlockGraph.RemoveBlock(g, this, block).files[this].slots by {
          assert Snapshot(files, blocks).files[this].slots == slots;
        }
        PartlyStep(g0, g, this, block);
      }
    }

    /** Removes the blocks of all slots; a slot may be emptied before the loop reaches it. */
    method DropSlots(ghost files: set<FileInfo>, ghost blocks: set<BlockInfo>)
      requires Sound(files, blocks) && this in files && isFile
      modifies this`slots, blocks
      ensures Sound(files, blocks) && |slots| == old(|slots|)
      ensures Partly(old(Snapshot(files, blocks)), Snapshot(files, blocks), this)
      ensures forall i :: 0 <= i < |slots| ==> slots[i] == Null
    {
      hide Sound, Partly;
      ghost var g0 := Snapshot(files, blocks);
      PartlyNothing(g0, this);
      for i := 0 to |slots|
        invariant Sound(files, blocks) && |slots| == old(|slots|)
        invariant Partly(g0, Snapshot(files, blocks), this)
        invariant forall j :: 0 <= j < i ==> slots[j] == Null
      {
        DropSlot(i, g0, files, blocks);
      }
    }

    method RemoveBlocks(ghost files: set<FileInfo>, ghost blocks: set<BlockInfo>)
      requires Sound(files, blocks) && this in files
      modifies this`slots, this`available, blocks
      ensures Sound(files, blocks)
      ensures isFile ==> Snapshot(files, blocks) == RemoveAll(old(Snapshot(files, blocks)), this)
      ensures !isFile ==> Snapshot(files, blocks) == old(Snapshot(files, blocks))
    {
      if isFile {
        hide Consistent, Partly, RemoveAll;
        ghost var g0 := Snapshot(files, blocks);
        DropSlots(files, blocks);
        ghost var g := Snapshot(files, blocks);
        available := false;
        RemoveAllReady(g0, this);
        ClearedStep(g0, g, files, blocks, this);
      }
    }

    method ReserveBlocks(count: nat, ghost files: set<FileInfo>, ghost blocks: set<BlockInfo>)
      requires Sound(files, blocks) && this in files && isFile
      modifies this`slots, this`available, blocks
      ensures Sound(files, blocks)
      ensures Snapshot(files, blocks) == Resize(RemoveAll(old(Snapshot(files, blocks)), this), this, count)
    {
      hide SidesAgree, LocalSlotsLinked;
      ghost var g0 := Snapshot(files, blocks);
      RemoveBlocks(files, blocks);
      ResizeSlots(count, files, blocks);
    }

    method ResizeSlots(count: nat, ghost files: set<FileInfo>, ghost blocks: set<BlockInfo>)
      requires Sound(files, blocks) && this in files && isFile
      requires forall i :: 0 <= i < |slots| ==> slots[i] == Null
      modifies this`slots
      ensures Sound(files, blocks)
      ensures Snapshot(files, blocks) == Resize(old(Snapshot(files, blocks)), this, count)
    {
      hide Consistent, WellFormed, Resize, Nulls;
      ghost var g := Snapshot(files, blocks);
      ResizeReady(g, this, count);
      if count <= |slots| {
        slots := slots[..count];
      } else {
        slots := slots + seq(count - |slots|, i => Null);
      }
      AllNull(slots);
      FlagStep(g, files, blocks, this);
    }

    /** The hashes of the blocks that have an available link to this file. */
    method CollectLocal(ghost files: set<FileInfo>, ghost blocks: set<BlockInfo>) returns (hashes: set<Hash>)
      requires Sound(files, blocks) && this in files
      ensures hashes == LocalHashes(Snapshot(files, blocks), this, HashOf)
    {
      hide SidesAgree, LocalSlotsLinked;
      hashes := {};
      ghost var g := Snapshot(files, blocks);
      for i := 0 to |slots|
        invariant forall h :: h in hashes ==> h in LocalHashes(g, this, HashOf)
        invariant forall j :: 0 <= j < i && slots[j].Held? && LocalTo(slots[j].block.Links(), this) ==>
          slots[j].block.hash in hashes
      {
        if slots[i].Held? {
          var block := slots[i].block;
          assert g.files[this].slots[i].block in g.blocks;
          var found := block.HasLocalLink(this);
          if found {
            hashes := hashes + {block.hash};
            assert HashOf(block) in LocalHashes(g, this, HashOf);
          }
        }
      }
      forall b | b in g.blocks && LocalTo(g.blocks[b].links, this) ensures HashOf(b) in hashes {
        var j := LocalIsHeld(g, this, b);
      }
    }

    /** One round of update's assignment loop. */
    method TakeSlot(i: nat, other: FileInfo, hashes: set<Hash>, ghost src: seq<Slot<BlockInfo>>,
                    ghost marks: set<BlockInfo>,
                    ghost files: set<FileInfo>, ghost blocks: set<BlockInfo>)
      requires Sound(files, blocks) && this in files && isFile
      requires Fillable(Snapshot(files, blocks), this, src) && i < |src|
      requires slots[i] == Null && |other.slots| == |src| && other.slots[i] == src[i]
      requires forall b :: b in blocks ==> (b in marks <==> b.hash in hashes)
      requires forall b :: b in blocks ==> b.Refs() < W.MAX_REFS
      modifies this`slots, this`available, blocks
      ensures Sound(files, blocks)
      ensures Snapshot(files, blocks) == Take(old(Snapshot(files, blocks)), this, src, marks, i)
      ensures forall b :: b in blocks ==> b.Refs() <= old(b.Refs()) + 1
    {
      hide SidesAgree, LocalSlotsLinked;
      ghost var g := Snapshot(files, blocks);
      if other.slots[i].Held? {
        var block := other.slots[i].block;
        assert src[i].block in g.blocks;
        AssignBlock(block, i, files, blocks);
        ghost var a := Snapshot(files, blocks);
        assert slots == a.files[this].slots;
        if block.hash in hashes {
          MarkLocalAvailable(i, files, blocks);
        }
      }
    }

    method FillSlots(other: FileInfo, hashes: set<Hash>, ghost src: seq<Slot<BlockInfo>>, ghost marks: set<BlockInfo>,
                     ghost files: set<FileInfo>, ghost blocks: set<BlockInfo>)
      requires Sound(files, blocks) && this in files && other in files && isFile
      requires Fillable(Snapshot(files, blocks), this, src) && other.slots == src
      requires Filled(Snapshot(files, blocks), Snapshot(files, blocks), this, src, marks, 0)
      requires forall b :: b in blocks ==> (b in marks <==> b.hash in hashes)
      requires forall b :: b in blocks ==> b.Refs() + |src| <= W.MAX_REFS
      modifies this`slots, this`available, blocks
      ensures Sound(files, blocks)
      ensures Snapshot(files, blocks) == Fill(old(Snapshot(files, blocks)), this, src, marks, |src|)
    {
      hide Consistent, WellFormed, Take, BitsFrom, Taken, AllLocal, Spare;
      ghost var start := Snapshot(files, blocks);
      for i := 0 to |other.slots|
        invariant Sound(files, blocks)
        invariant Snapshot(files, blocks) == Fill(start, this, src, marks, i)
        invariant |other.slots| == |src| && forall j :: i <= j < |src| ==> other.slots[j] == src[j]
        invariant forall b :: b in blocks ==> b.Refs() + (|src| - i) <= W.MAX_REFS
      {
        FillInvariant(start, this, src, marks, i);
        assert slots == Snapshot(files, blocks).files[this].slots;
        TakeSlot(i, other, hashes, src, marks, files, blocks);
        FillInvariant(start, this, src, marks, i + 1);
      }
    }

    /** The first half of update: the file gives up its blocks and takes the other file's size. */
    method ClearFor(other: FileInfo, ghost files: set<FileInfo>, ghost blocks: set<BlockInfo>)
      requires Sound(files, blocks) && this in files && other in files && isFile
      modifies this`slots, this`available, blocks
      ensures Sound(files, blocks)
      ensures Snapshot(files, blocks) == Cleared(old(Snapshot(files, blocks)), this, other)
      ensures other.slots == RemoveAll(old(Snapshot(files, blocks)), this).files[other].slots
      ensures forall b :: b in blocks ==> b.Refs() <= old(b.Refs())
    {
      hide Consistent, WellFormed, RemoveAll, Resize, Cleared, Snapshot;
      ghost var g := Snapshot(files, blocks);
      SoundIsConsistent(files, blocks);
      SnapshotParts(files, blocks);
      ClearReady(g, this, other);
      RemoveBlocks(files, blocks);
      SnapshotParts(files, blocks);
      ResizeSlots(|other.slots|, files, blocks);
      SnapshotParts(files, blocks);
      forall b | b in blocks ensures b.Refs() <= old(b.Refs()) {
        assert Snapshot(files, blocks).blocks[b].refs == b.Refs();
      }
    }

    /** update of a regular file. */
    method UpdateFile(other: FileInfo, ghost files: set<FileInfo>, ghost blocks: set<BlockInfo>)
      requires Sound(files, blocks) && this in files && other in files && isFile
      requires forall b :: b in blocks ==> b.Refs() + |other.slots| <= W.MAX_REFS
      modifies this`slots, this`available, blocks
      ensures Sound(files, blocks)
      ensures Snapshot(files, blocks) == BlockRuns.Update(old(Snapshot(files, blocks)), this, other, HashOf)
      ensures |slots| == |old(other.slots)|
    {
      hide WellFormed, SidesAgree, LocalSlotsLinked, Filled, Fill, Cleared, RemoveAll;
      hide Marks, LocalHashes, BlockRuns.Update;
      ghost var g := Snapshot(files, blocks);
      ghost var marks := Marks(g, this, HashOf);
      UpdateReady(g, this, other);
      var hashes := CollectLocal(files, blocks);
      MarksByHash(files, blocks, this, hashes);
      ClearFor(other, files, blocks);
      ghost var src := other.slots;
      FillSlots(other, hashes, src, marks, files, blocks);
      assert |slots| == |Snapshot(files, blocks).files[this].slots|;
    }

    /** update. A file that is not regular cannot take blocks: assign_block asserts the old kind, and
        with the assertion failed (`broken`) nothing more is promised. */
    method Update(other: FileInfo, ghost files: set<FileInfo>, ghost blocks: set<BlockInfo>) returns (broken: bool)
      requires Sound(files, blocks) && this in files && other in files
      requires forall b :: b in blocks ==> b.Refs() + |other.slots| <= W.MAX_REFS
      modifies this`slots, this`available, this`isFile, blocks
      ensures broken <==> !old(isFile) && exists i :: 0 <= i < |old(other.slots)| && old(other.slots)[i].Held?
      ensures !broken ==> Sound(files, blocks) && isFile == old(other.isFile)
      ensures !broken && old(isFile) ==>
        Snapshot(files, blocks) == BlockRuns.Update(old(Snapshot(files, blocks)), this, other, HashOf)
      ensures !broken && !old(isFile) ==>
        Snapshot(files, blocks) == Resize(old(Snapshot(files, blocks)), this, |old(other.slots)|)
    {
      broken := false;
      if isFile {
        var newFile := other.isFile;
        UpdateFile(other, files, blocks);
        SetKind(newFile, files, blocks);
      } else {
        broken := other.HoldsBlocks();
        if !broken {
          TakeSize(other, files, blocks);
        }
      }
    }

    /** Whether the assignment loop of update reaches assign_block. */
    method HoldsBlocks() returns (found: bool)
      ensures found <==> exists i :: 0 <= i < |slots| && slots[i].Held?
    {
      found := false;
      for i := 0 to |slots|
        invariant forall j :: 0 <= j < i ==> slots[j].Null?
      {
        if slots[i].Held? {
          return true;
        }
      }
    }

    method SetKind(kind: bool, ghost files: set<FileInfo>, ghost blocks: set<BlockInfo>)
      requires Sound(files, blocks) && this in files && (kind || slots == [])
      modifies this`isFile
      ensures Sound(files, blocks) && isFile == kind
      ensures Snapshot(files, blocks) == old(Snapshot(files, blocks))
    {
      hide Consistent;
      ghost var g := Snapshot(files, blocks);
      isFile := kind;
      FlagStep(g, files, blocks, this);
      assert g.files == g.files[this := File(slots, available)];
    }

    /** The part of update that a file without blocks goes through. */
    method TakeSize(other: FileInfo, ghost files: set<FileInfo>, ghost blocks: set<BlockInfo>)
      requires Sound(files, blocks) && this in files && other in files && slots == []
      modifies this`slots, this`isFile
      ensures Sound(files, blocks) && isFile == old(other.isFile)
      ensures Snapshot(files, blocks) == Resize(old(Snapshot(files, blocks)), this, |old(other.slots)|)
    {
      hide SidesAgree, LocalSlotsLinked;
      ghost var g := Snapshot(files, blocks);
      ResizeKeeps(g, this, |other.slots|);
      slots := seq(|other.slots|, i => Null);
      isFile := other.isFile;
      assert slots == Resized(g.files[this].slots, |slots|);
      FlagStep(g, files, blocks, this);
    }

    /** After a regular file has been updated from another one: slot i is LOCAL iff some block with its
        hash had an available link to the file; that is iff the file had the hash in a LOCAL slot, exactly
        when no such link was without a LOCAL slot; and the file is reported available iff every slot is
        LOCAL. */
    method UpdateThenQuery(other: FileInfo, ghost files: set<FileInfo>, ghost blocks: set<BlockInfo>)
      returns (whole: bool)
      requires Sound(files, blocks) && this in files && other in files && other != this
      requires isFile && other.isFile
      requires forall b :: b in blocks ==> b.Refs() + |other.slots| <= W.MAX_REFS
      modifies this`slots, this`available, this`isFile, blocks
      ensures Sound(files, blocks) && other.slots == old(other.slots) && |slots| == |other.slots|
      ensures forall i :: 0 <= i < |slots| ==> (slots[i].Held? <==> other.slots[i].Held?)
      ensures forall i :: 0 <= i < |slots| && slots[i].Held? ==>
        && slots[i].block == other.slots[i].block
        && (slots[i].local <==> slots[i].block.hash in LocalHashes(old(Snapshot(files, blocks)), this, HashOf))
      ensures LocalWhereHad(old(Snapshot(files, blocks)), this, slots, HashOf)
         <==> NothingInvented(old(Snapshot(files, blocks)), this, other.slots, HashOf)
      ensures whole <==> AllLocal(slots)
    {
      hide SidesAgree, LocalSlotsLinked, BlockRuns.Update, LocalWhereHad, NothingInvented;
      ghost var g := Snapshot(files, blocks);
      UpdateSlots(g, this, other, HashOf);
      UpdateLocalExact(g, this, other, HashOf);
      var broken := Update(other, files, blocks);
      ghost var r := Snapshot(files, blocks);
      assert r.files[this] == File(slots, available) && g.files[other].slots == other.slots;
      whole := IsLocallyAvailable();
    }

    method IsLocallyAvailable() returns (r: bool)
      ensures r <==> !isFile || available || slots == []
    {
      r := !isFile || (available || |slots| == 0);
    }

    /** The destructor: the file leaves the graph together with all links to it. */
    method Destroy(ghost files: set<FileInfo>, ghost blocks: set<BlockInfo>)
      requires Sound(files, blocks) && this in files
      modifies this`slots, this`available, blocks
      ensures Sound(files - {this}, blocks)
      ensures var r := RemoveAll(old(Snapshot(files, blocks)), this);
        Snapshot(files - {this}, blocks) == r.(files := r.files - {this})
    {
      ghost var g0 := Snapshot(files, blocks);
      if isFile {
        RemoveBlocks(files, blocks);
      } else {
        DestroyedAlready(g0, this);
      }
      DestroyKeeps(g0, this);
      ghost var r := RemoveAll(g0, this);
      assert Snapshot(files - {this}, blocks) == r.(files := r.files - {this});
    }
  }

  lemma DestroyedAlready(g: Graph<FileInfo, BlockInfo>, f: FileInfo)
    requires Consistent(g) && f in g.files && g.files[f].slots == []
    ensures RemoveAll(g, f).blocks == g.blocks
  {
    hide SidesAgree, LocalSlotsLinked, Without, IndicesOf;
    forall b | b in g.blocks ensures Detached(g.blocks[b], f) == g.blocks[b] {
      DetachedAlready(g, f, b);
    }
  }
}
