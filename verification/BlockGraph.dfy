/**
  The graph between files and blocks, as mathematical values.

  A file owns a sequence of slots; a slot is empty or holds a block together with a LOCAL bit.
  A block owns the sequence of its back-links; a link names a file and a slot index and carries an
  availability bit of its own. Both sides are updated separately by the program, so the module
  states what "both sides agree" means and how each update acts on it.
 */
module BlockGraph {

  datatype Slot<B> = Null | Held(block: B, local: bool)

  datatype Link<F> = Link(file: F, index: nat, local: bool)

  /** `ready` is the f_available flag of a file. */
  datatype File<B> = File(slots: seq<Slot<B>>, ready: bool)

  /** `refs` is the reference counter of a block. */
  datatype Block<F> = Block(links: seq<Link<F>>, refs: nat)

  datatype Graph<F, B> = Graph(files: map<F, File<B>>, blocks: map<B, Block<F>>)

  // ----- Sequences of links -----

  /** Number of links to slot `i` of `f`. */
  ghost function Occurrences<F>(ls: seq<Link<F>>, f: F, i: nat): (n: nat)
    ensures n <= |ls|
  {
    if ls == [] then 0
    else
      var last := ls[|ls| - 1];
      Occurrences(ls[..|ls| - 1], f, i) + if last.file == f && last.index == i then 1 else 0
  }

  /** The links that do not lead to `f`, in order. */
  ghost function Without<F>(ls: seq<Link<F>>, f: F): (r: seq<Link<F>>)
    ensures |r| <= |ls|
  {
    if ls == [] then []
    else
      var last := ls[|ls| - 1];
      Without(ls[..|ls| - 1], f) + if last.file == f then [] else [last]
  }

  /** The slot indices of the links that lead to `f`, in order. */
  ghost function IndicesOf<F>(ls: seq<Link<F>>, f: F): (r: seq<nat>)
    ensures |r| + |Without(ls, f)| == |ls|
  {
    if ls == [] then []
    else
      var last := ls[|ls| - 1];
      IndicesOf(ls[..|ls| - 1], f) + if last.file == f then [last.index] else []
  }

  ghost predicate LinkTo<F>(ls: seq<Link<F>>, f: F) {
    exists l :: l in ls && l.file == f
  }

  ghost predicate LocalTo<F>(ls: seq<Link<F>>, f: F) {
    exists l :: l in ls && l.file == f && l.local
  }

  ghost predicate AnyLocal<F>(ls: seq<Link<F>>) {
    exists k :: 0 <= k < |ls| && ls[k].local
  }

  /** Sets the availability bit of the first link to `f`. */
  ghost function MarkFirst<F>(ls: seq<Link<F>>, f: F): (r: seq<Link<F>>)
    ensures |r| == |ls|
  {
    if ls == [] then []
    else if ls[0].file == f then [ls[0].(local := true)] + ls[1..]
    else [ls[0]] + MarkFirst(ls[1..], f)
  }

  lemma {:induction false} OccurrencesAppend<F>(ls: seq<Link<F>>, l: Link<F>, f: F, i: nat)
    ensures Occurrences(ls + [l], f, i)
         == Occurrences(ls, f, i) + if l.file == f && l.index == i then 1 else 0
  {
    assert (ls + [l])[..|ls + [l]| - 1] == ls;
  }

  lemma {:induction false} OccurrencesConcat<F>(a: seq<Link<F>>, b: seq<Link<F>>, f: F, i: nat)
    ensures Occurrences(a + b, f, i) == Occurrences(a, f, i) + Occurrences(b, f, i)
  {
    if b == [] {
      assert a + b == a;
    } else {
      var b0 := b[..|b| - 1];
      assert (a + b)[..|a + b| - 1] == a + b0;
      OccurrencesConcat(a, b0, f, i);
    }
  }

  lemma {:induction false} OccurrencesWithout<F>(ls: seq<Link<F>>, f: F, g: F, i: nat)
    ensures Occurrences(Without(ls, f), g, i) == if f == g then 0 else Occurrences(ls, g, i)
  {
    if ls != [] {
      var init, last := ls[..|ls| - 1], ls[|ls| - 1];
      OccurrencesWithout(init, f, g, i);
      if last.file == f {
        assert Without(ls, f) == Without(init, f);
      } else {
        OccurrencesAppend(Without(init, f), last, g, i);
      }
    }
  }

  lemma {:induction false} WithoutMember<F>(ls: seq<Link<F>>, f: F, l: Link<F>)
    ensures l in Without(ls, f) <==> l in ls && l.file != f
  {
    if ls != [] {
      assert ls == ls[..|ls| - 1] + [ls[|ls| - 1]];
      WithoutMember(ls[..|ls| - 1], f, l);
    }
  }

  lemma {:induction false} OccurrencesMember<F>(ls: seq<Link<F>>, f: F, i: nat)
    ensures Occurrences(ls, f, i) > 0 <==> exists l :: l in ls && l.file == f && l.index == i
  {
    if ls != [] {
      var init, last := ls[..|ls| - 1], ls[|ls| - 1];
      OccurrencesMember(init, f, i);
      assert ls == init + [last];
      if last.file == f && last.index == i {
        assert last in ls;
      }
    }
  }

  lemma {:induction false} IndicesMember<F>(ls: seq<Link<F>>, f: F, i: nat)
    ensures i in IndicesOf(ls, f) <==> Occurrences(ls, f, i) > 0
  {
    if ls != [] {
      IndicesMember(ls[..|ls| - 1], f, i);
    }
  }

  lemma {:induction false} OccurrencesMarkFirst<F>(ls: seq<Link<F>>, f: F, g: F, i: nat)
    ensures Occurrences(MarkFirst(ls, f), g, i) == Occurrences(ls, g, i)
  {
    if ls != [] {
      assert ls == [ls[0]] + ls[1..];
      OccurrencesConcat([ls[0]], ls[1..], g, i);
      if ls[0].file == f {
        OccurrencesConcat([ls[0].(local := true)], ls[1..], g, i);
        assert [ls[0]][..0] == [] && [ls[0].(local := true)][..0] == [];
      } else {
        OccurrencesConcat([ls[0]], MarkFirst(ls[1..], f), g, i);
        OccurrencesMarkFirst(ls[1..], f, g, i);
      }
    }
  }

  lemma LinkToCons<F>(head: Link<F>, tail: seq<Link<F>>, g: F)
    ensures LinkTo([head] + tail, g) <==> head.file == g || LinkTo(tail, g)
  {
    var ls := [head] + tail;
    if LinkTo(ls, g) {
      var l :| l in ls && l.file == g;
      assert l == head || l in tail;
    }
    if head.file == g {
      assert head in ls;
    }
    if LinkTo(tail, g) {
      var l :| l in tail && l.file == g;
      assert l in ls;
    }
  }

  /** Marking reaches a link to `f` when there is one, never changes the bits of other files and
      never moves a link. */
  lemma {:induction false} MarkFirstLocality<F>(ls: seq<Link<F>>, f: F, g: F)
    ensures LocalTo(MarkFirst(ls, f), g) <==> LocalTo(ls, g) || (f == g && LinkTo(ls, f))
    ensures LinkTo(MarkFirst(ls, f), g) <==> LinkTo(ls, g)
  {
    if ls != [] {
      var head, tail := ls[0], ls[1..];
      assert ls == [head] + tail;
      LocalToCons(head, tail, g);
      LinkToCons(head, tail, g);
      LinkToCons(head, tail, f);
      if head.file == f {
        LocalToCons(head.(local := true), tail, g);
        LinkToCons(head.(local := true), tail, g);
      } else {
        MarkFirstLocality(tail, f, g);
        LocalToCons(head, MarkFirst(tail, f), g);
        LinkToCons(head, MarkFirst(tail, f), g);
      }
    }
  }

  lemma LocalToCons<F>(head: Link<F>, tail: seq<Link<F>>, g: F)
    ensures LocalTo([head] + tail, g) <==> (head.file == g && head.local) || LocalTo(tail, g)
  {
    var ls := [head] + tail;
    if LocalTo(ls, g) {
      var l :| l in ls && l.file == g && l.local;
      assert l == head || l in tail;
    }
    if head.file == g && head.local {
      assert head in ls;
    }
    if LocalTo(tail, g) {
      var l :| l in tail && l.file == g && l.local;
      assert l in ls;
    }
  }

  lemma LocalToAppend<F>(ls: seq<Link<F>>, l: Link<F>, g: F)
    ensures LocalTo(ls + [l], g) <==> LocalTo(ls, g) || (l.file == g && l.local)
  {
    var r := ls + [l];
    assert forall x :: x in r <==> x in ls || x == l;
    if LocalTo(ls, g) {
      var x :| x in ls && x.file == g && x.local;
      assert x in r;
    }
    if l.file == g && l.local {
      assert l in r;
    }
  }

  lemma LocalToWithout<F>(ls: seq<Link<F>>, f: F, g: F)
    ensures LocalTo(Without(ls, f), g) <==> f != g && LocalTo(ls, g)
  {
    forall l ensures l in Without(ls, f) <==> l in ls && l.file != f {
      WithoutMember(ls, f, l);
    }
  }

  // ----- Agreement of the two sides -----

  ghost predicate WellFormed<F, B>(g: Graph<F, B>) {
    forall f, i :: f in g.files && 0 <= i < |g.files[f].slots| && g.files[f].slots[i].Held? ==>
      g.files[f].slots[i].block in g.blocks
  }

  ghost predicate Holds<F, B>(g: Graph<F, B>, f: F, i: nat, b: B) {
    f in g.files && i < |g.files[f].slots| && g.files[f].slots[i].Held? && g.files[f].slots[i].block == b
  }

  /** Some slot of `f` holds `b` with its LOCAL bit set. */
  ghost predicate LocalSlot<F, B>(g: Graph<F, B>, f: F, b: B) {
    f in g.files && exists i :: 0 <= i < |g.files[f].slots| && g.files[f].slots[i] == Held(b, true)
  }

  ghost predicate SidesAgree<F, B>(g: Graph<F, B>) {
    && (forall b, l :: b in g.blocks && l in g.blocks[b].links ==> l.file in g.files)
    && (forall b, f, i: nat {:trigger Occurrences(g.blocks[b].links, f, i)} ::
          b in g.blocks && f in g.files ==> Occurrences(g.blocks[b].links, f, i) == if Holds(g, f, i, b) then 1 else 0)
  }

  ghost predicate LocalSlotsLinked<F, B>(g: Graph<F, B>)
    requires WellFormed(g)
  {
    forall f, i ::
      f in g.files && 0 <= i < |g.files[f].slots| && g.files[f].slots[i].Held? && g.files[f].slots[i].local ==>
      LocalTo(g.blocks[g.files[f].slots[i].block].links, f)
  }

  /** What every reachable graph satisfies. */
  ghost predicate Consistent<F, B>(g: Graph<F, B>) {
    && WellFormed(g)
    && SidesAgree(g)
    && (forall b :: b in g.blocks ==> |g.blocks[b].links| <= g.blocks[b].refs)
    && LocalSlotsLinked(g)
  }

  // ----- Operations -----

  /** assign_block: the slot points at the block, the counter grows, the block links back. The new
      link is born available when any link of the block already is. */
  ghost function Assign<F, B>(g: Graph<F, B>, f: F, i: nat, b: B): (r: Graph<F, B>)
    requires WellFormed(g) && f in g.files && i < |g.files[f].slots| && b in g.blocks
    ensures WellFormed(r)
  {
    var file, block := g.files[f], g.blocks[b];
    g.(files := g.files[f := file.(slots := file.slots[i := Held(b, false)])],
       blocks := g.blocks[b := Block(block.links + [Link(f, i, AnyLocal(block.links))], block.refs + 1)])
  }

  /** Empties the listed slots. */
  ghost function NullAt<B>(s: seq<Slot<B>>, indices: seq<nat>): (r: seq<Slot<B>>)
    requires forall k :: 0 <= k < |indices| ==> indices[k] < |s|
    ensures |r| == |s|
  {
    if indices == [] then s else NullAt(s, indices[..|indices| - 1])[indices[|indices| - 1] := Null]
  }

  lemma {:induction false} NullAtIndex<B>(s: seq<Slot<B>>, indices: seq<nat>, i: nat)
    requires (forall k :: 0 <= k < |indices| ==> indices[k] < |s|) && i < |s|
    ensures NullAt(s, indices)[i] == if i in indices then Null else s[i]
  {
    if indices != [] {
      var init, last := indices[..|indices| - 1], indices[|indices| - 1];
      assert indices == init + [last];
      NullAtIndex(s, init, i);
    }
  }

  ghost predicate Removable<F, B>(g: Graph<F, B>, f: F, b: B)
    requires WellFormed(g) && f in g.files && b in g.blocks
  {
    && |g.blocks[b].links| <= g.blocks[b].refs
    && forall k :: 0 <= k < |IndicesOf(g.blocks[b].links, f)| ==>
         IndicesOf(g.blocks[b].links, f)[k] < |g.files[f].slots|
  }

  /** remove_block: the block drops its links to the file, the slots named by them are emptied and
      one reference is released for each. */
  ghost function RemoveBlock<F, B>(g: Graph<F, B>, f: F, b: B): (r: Graph<F, B>)
    requires WellFormed(g) && f in g.files && b in g.blocks
    requires Removable(g, f, b)
  {
    var indices := IndicesOf(g.blocks[b].links, f);
    g.(files := g.files[f := g.files[f].(slots := NullAt(g.files[f].slots, indices))],
       blocks := g.blocks[b := Block(Without(g.blocks[b].links, f), g.blocks[b].refs - |indices|)])
  }

  ghost function Nulls<B>(n: nat): (r: seq<Slot<B>>)
    ensures |r| == n && forall i :: 0 <= i < n ==> r[i] == Null
  {
    seq(n, i => Null)
  }

  /** remove_blocks in closed form: every slot of `f` is empty and no block links to it. */
  ghost function RemoveAll<F, B>(g: Graph<F, B>, f: F): (r: Graph<F, B>)
    requires WellFormed(g) && f in g.files
    requires forall b :: b in g.blocks ==> |g.blocks[b].links| <= g.blocks[b].refs
    ensures WellFormed(r)
  {
    Graph(g.files[f := File(Nulls(|g.files[f].slots|), false)],
          map b | b in g.blocks ::
            Block(Without(g.blocks[b].links, f), g.blocks[b].refs - |IndicesOf(g.blocks[b].links, f)|))
  }

  ghost function Resized<B>(s: seq<Slot<B>>, n: nat): (r: seq<Slot<B>>)
    ensures |r| == n
  {
    if n <= |s| then s[..n] else s + Nulls(n - |s|)
  }

  ghost function Resize<F, B>(g: Graph<F, B>, f: F, n: nat): (r: Graph<F, B>)
    requires WellFormed(g) && f in g.files
    ensures WellFormed(r) && r.blocks == g.blocks
  {
    g.(files := g.files[f := g.files[f].(slots := Resized(g.files[f].slots, n))])
  }

  ghost predicate AllLocal<B>(s: seq<Slot<B>>) {
    forall i :: 0 <= i < |s| ==> s[i].Held? && s[i].local
  }

  /** mark_local_available: sets the LOCAL bit of the slot, the bit of the block's first link to
      the file, and the file's flag once every slot is LOCAL. */
  ghost function MarkLocal<F, B>(g: Graph<F, B>, f: F, i: nat): (r: Graph<F, B>)
    requires WellFormed(g) && f in g.files && i < |g.files[f].slots| && g.files[f].slots[i].Held?
    ensures WellFormed(r)
  {
    var b := g.files[f].slots[i].block;
    var s := g.files[f].slots[i := Held(b, true)];
    g.(files := g.files[f := File(s, g.files[f].ready || AllLocal(s))],
       blocks := g.blocks[b := g.blocks[b].(links := MarkFirst(g.blocks[b].links, f))])
  }

  // ----- Each operation keeps both sides in agreement -----

  lemma AssignAgrees<F, B>(g: Graph<F, B>, f: F, i: nat, b: B)
    requires WellFormed(g) && SidesAgree(g) && f in g.files && i < |g.files[f].slots| && b in g.blocks
    requires g.files[f].slots[i] == Null
    ensures SidesAgree(Assign(g, f, i, b))
  {
    var r := Assign(g, f, i, b);
    var added := Link(f, i, AnyLocal(g.blocks[b].links));
    forall c, h, j: nat | c in r.blocks && h in r.files
      ensures Occurrences(r.blocks[c].links, h, j) == if Holds(r, h, j, c) then 1 else 0
    {
      assert Occurrences(g.blocks[c].links, h, j) == if Holds(g, h, j, c) then 1 else 0;
      if c == b {
        OccurrencesAppend(g.blocks[b].links, added, h, j);
      }
    }
    forall c, l | c in r.blocks && l in r.blocks[c].links ensures l.file in r.files {
      if c == b && l !in g.blocks[b].links { assert l == added; }
    }
  }

  lemma AssignKeeps<F, B>(g: Graph<F, B>, f: F, i: nat, b: B)
    requires Consistent(g) && f in g.files && i < |g.files[f].slots| && b in g.blocks
    requires g.files[f].slots[i] == Null
    ensures Consistent(Assign(g, f, i, b))
  {
    hide SidesAgree;
    AssignAgrees(g, f, i, b);
    var r := Assign(g, f, i, b);
    var added := Link(f, i, AnyLocal(g.blocks[b].links));
    forall h, j | h in r.files && 0 <= j < |r.files[h].slots| && r.files[h].slots[j].Held? && r.files[h].slots[j].local
      ensures LocalTo(r.blocks[r.files[h].slots[j].block].links, h)
    {
      assert r.files[h].slots[j] == g.files[h].slots[j];
      if g.files[h].slots[j].block == b {
        LocalToAppend(g.blocks[b].links, added, h);
      }
    }
  }

  /** Under agreement the indices returned by unlink are exactly the slots that hold the block. */
  lemma UnlinkIndices<F, B>(g: Graph<F, B>, f: F, b: B)
    requires Consistent(g) && f in g.files && b in g.blocks
    ensures forall i: nat :: i in IndicesOf(g.blocks[b].links, f) <==> Holds(g, f, i, b)
    ensures forall i: nat :: Holds(g, f, i, b) ==> IndicesOf(g.blocks[b].links, f) != []
  {
    forall i: nat ensures i in IndicesOf(g.blocks[b].links, f) <==> Holds(g, f, i, b) {
      IndicesMember(g.blocks[b].links, f, i);
      assert Occurrences(g.blocks[b].links, f, i) == if Holds(g, f, i, b) then 1 else 0;
    }
  }

  lemma RemoveBlockSlots<F, B>(g: Graph<F, B>, f: F, b: B)
    requires Consistent(g) && f in g.files && b in g.blocks
    ensures Removable(g, f, b)
    ensures forall i :: 0 <= i < |g.files[f].slots| ==>
      RemoveBlock(g, f, b).files[f].slots[i] == if Holds(g, f, i, b) then Null else g.files[f].slots[i]
  {
    UnlinkIndices(g, f, b);
    var indices := IndicesOf(g.blocks[b].links, f);
    forall k | 0 <= k < |indices| ensures indices[k] < |g.files[f].slots| {
      assert indices[k] in indices;
      assert Holds(g, f, indices[k], b);
    }
    forall i | 0 <= i < |g.files[f].slots|
      ensures NullAt(g.files[f].slots, indices)[i] == if Holds(g, f, i, b) then Null else g.files[f].slots[i]
    {
      NullAtIndex(g.files[f].slots, indices, i);
    }
  }

  lemma RemoveBlockAgrees<F, B>(g: Graph<F, B>, f: F, b: B)
    requires Consistent(g) && f in g.files && b in g.blocks && Removable(g, f, b)
    ensures SidesAgree(RemoveBlock(g, f, b))
  {
    RemoveBlockSlots(g, f, b);
    var r := RemoveBlock(g, f, b);
    forall c, h, j: nat | c in r.blocks && h in r.files
      ensures Occurrences(r.blocks[c].links, h, j) == if Holds(r, h, j, c) then 1 else 0
    {
      assert Occurrences(g.blocks[c].links, h, j) == if Holds(g, h, j, c) then 1 else 0;
      if c == b {
        OccurrencesWithout(g.blocks[b].links, f, h, j);
      }
    }
    forall c, l | c in r.blocks && l in r.blocks[c].links ensures l.file in r.files {
      if c == b { WithoutMember(g.blocks[b].links, f, l); }
    }
  }

  lemma RemoveBlockKeeps<F, B>(g: Graph<F, B>, f: F, b: B)
    requires Consistent(g) && f in g.files && b in g.blocks
    ensures Removable(g, f, b)
    ensures Consistent(RemoveBlock(g, f, b))
  {
    RemoveBlockSlots(g, f, b);
    RemoveBlockAgrees(g, f, b);
    var r := RemoveBlock(g, f, b);
    forall h, j | h in r.files && 0 <= j < |r.files[h].slots| && r.files[h].slots[j].Held? && r.files[h].slots[j].local
      ensures LocalTo(r.blocks[r.files[h].slots[j].block].links, h)
    {
      assert r.files[h].slots[j] == g.files[h].slots[j];
      if g.files[h].slots[j].block == b {
        assert Holds(g, h, j, b);
        LocalToWithout(g.blocks[b].links, f, h);
      }
    }
  }

  lemma RemoveAllKeeps<F, B>(g: Graph<F, B>, f: F)
    requires Consistent(g) && f in g.files
    ensures Consistent(RemoveAll(g, f))
  {
    var r := RemoveAll(g, f);
    forall c, h, j: nat | c in r.blocks && h in r.files
      ensures Occurrences(r.blocks[c].links, h, j) == if Holds(r, h, j, c) then 1 else 0
    {
      assert Occurrences(g.blocks[c].links, h, j) == if Holds(g, h, j, c) then 1 else 0;
      OccurrencesWithout(g.blocks[c].links, f, h, j);
    }
    forall c, l | c in r.blocks && l in r.blocks[c].links ensures l.file in r.files {
      WithoutMember(g.blocks[c].links, f, l);
    }
    forall h, j | h in r.files && 0 <= j < |r.files[h].slots| && r.files[h].slots[j].Held? && r.files[h].slots[j].local
      ensures LocalTo(r.blocks[r.files[h].slots[j].block].links, h)
    {
      assert h != f;
      LocalToWithout(g.blocks[g.files[h].slots[j].block].links, f, h);
    }
  }

  lemma MarkLocalAgrees<F, B>(g: Graph<F, B>, f: F, i: nat)
    requires WellFormed(g) && SidesAgree(g) && f in g.files && i < |g.files[f].slots| && g.files[f].slots[i].Held?
    ensures SidesAgree(MarkLocal(g, f, i))
  {
    var r := MarkLocal(g, f, i);
    var b := g.files[f].slots[i].block;
    forall c, h, j: nat | c in r.blocks && h in r.files
      ensures Occurrences(r.blocks[c].links, h, j) == if Holds(r, h, j, c) then 1 else 0
    {
      assert Occurrences(g.blocks[c].links, h, j) == if Holds(g, h, j, c) then 1 else 0;
      if c == b {
        OccurrencesMarkFirst(g.blocks[b].links, f, h, j);
      }
    }
    forall c, l | c in r.blocks && l in r.blocks[c].links ensures l.file in r.files {
      if c == b {
        MarkFirstLocality(g.blocks[b].links, f, l.file);
        assert LinkTo(MarkFirst(g.blocks[b].links, f), l.file);
      }
    }
  }

  /** A held block has a link to the file that holds it. */
  lemma HeldIsLinked<F, B>(g: Graph<F, B>, f: F, i: nat, b: B)
    requires SidesAgree(g) && b in g.blocks && Holds(g, f, i, b)
    ensures LinkTo(g.blocks[b].links, f)
  {
    assert Occurrences(g.blocks[b].links, f, i) == 1;
    OccurrencesMember(g.blocks[b].links, f, i);
  }

  lemma MarkLocalKeeps<F, B>(g: Graph<F, B>, f: F, i: nat)
    requires Consistent(g) && f in g.files && i < |g.files[f].slots| && g.files[f].slots[i].Held?
    ensures Consistent(MarkLocal(g, f, i))
  {
    hide SidesAgree;
    MarkLocalAgrees(g, f, i);
    var r := MarkLocal(g, f, i);
    var b := g.files[f].slots[i].block;
    HeldIsLinked(g, f, i, b);
    forall h, j | h in r.files && 0 <= j < |r.files[h].slots| && r.files[h].slots[j].Held? && r.files[h].slots[j].local
      ensures LocalTo(r.blocks[r.files[h].slots[j].block].links, h)
    {
      if h != f || j != i {
        assert r.files[h].slots[j] == g.files[h].slots[j];
      }
      if r.files[h].slots[j].block == b {
        MarkFirstLocality(g.blocks[b].links, f, h);
      }
    }
  }

  // ----- remove_blocks as a sequence of remove_block -----

  /** `g` is reached from `g0` by removing some of the blocks of `f`. */
  ghost predicate Partly<F, B>(g0: Graph<F, B>, g: Graph<F, B>, f: F) {
    && f in g0.files && f in g.files && g.files == g0.files[f := g.files[f]]
    && |g.files[f].slots| == |g0.files[f].slots|
    && g.blocks.Keys == g0.blocks.Keys
    && forall b :: b in g.blocks ==>
         g.blocks[b] == g0.blocks[b] || g.blocks[b] == Detached(g0.blocks[b], f)
  }

  /** A block after it has dropped its links to `f`. */
  ghost function Detached<F>(block: Block<F>, f: F): Block<F> {
    Block(Without(block.links, f),
          if |IndicesOf(block.links, f)| <= block.refs then block.refs - |IndicesOf(block.links, f)| else 0)
  }

  lemma {:induction false} WithoutTwice<F>(ls: seq<Link<F>>, f: F)
    ensures Without(Without(ls, f), f) == Without(ls, f)
    ensures IndicesOf(Without(ls, f), f) == []
  {
    if ls != [] {
      var init, last := ls[..|ls| - 1], ls[|ls| - 1];
      WithoutTwice(init, f);
      var kept := Without(init, f);
      if last.file == f {
        assert Without(ls, f) == kept;
      } else {
        assert (kept + [last])[..|kept|] == kept;
      }
    }
  }

  lemma PartlyNothing<F, B>(g: Graph<F, B>, f: F)
    requires f in g.files
    ensures Partly(g, g, f)
  {
    assert g.files == g.files[f := g.files[f]];
  }

  lemma DetachedTwice<F>(block: Block<F>, f: F)
    ensures Detached(Detached(block, f), f) == Detached(block, f)
  {
    WithoutTwice(block.links, f);
  }

  lemma PartlyStep<F, B>(g0: Graph<F, B>, g: Graph<F, B>, f: F, b: B)
    requires WellFormed(g) && Partly(g0, g, f) && b in g.blocks && Removable(g, f, b)
    ensures Partly(g0, RemoveBlock(g, f, b), f)
  {
    hide NullAt, Without, IndicesOf;
    var r := RemoveBlock(g, f, b);
    assert r.blocks == g.blocks[b := Detached(g.blocks[b], f)];
    DetachedTwice(g0.blocks[b], f);
    assert r.files == g0.files[f := r.files[f]];
  }

  /** A block that no slot of `f` holds has no link to `f`. */
  lemma DetachedAlready<F, B>(g: Graph<F, B>, f: F, b: B)
    requires Consistent(g) && f in g.files && b in g.blocks
    requires forall i :: 0 <= i < |g.files[f].slots| ==> !Holds(g, f, i, b)
    ensures Detached(g.blocks[b], f) == g.blocks[b]
  {
    var ls := g.blocks[b].links;
    forall l | l in ls ensures l.file != f {
      OccurrencesMember(ls, l.file, l.index);
    }
    WithoutNothing(ls, f);
  }

  lemma {:induction false} WithoutNothing<F>(ls: seq<Link<F>>, f: F)
    requires forall l :: l in ls ==> l.file != f
    ensures Without(ls, f) == ls && IndicesOf(ls, f) == []
  {
    if ls != [] {
      var init, last := ls[..|ls| - 1], ls[|ls| - 1];
      assert ls == init + [last];
      forall l | l in init ensures l.file != f { assert l in ls; }
      assert last in ls;
      WithoutNothing(init, f);
    }
  }

  lemma PartlyDone<F, B>(g0: Graph<F, B>, g: Graph<F, B>, f: F)
    requires Consistent(g0) && Consistent(g) && Partly(g0, g, f)
    requires forall i :: 0 <= i < |g.files[f].slots| ==> g.files[f].slots[i] == Null
    ensures Graph(g.files[f := File(g.files[f].slots, false)], g.blocks) == RemoveAll(g0, f)
  {
    hide SidesAgree, LocalSlotsLinked, Without, IndicesOf;
    forall b | b in g.blocks ensures g.blocks[b] == Detached(g0.blocks[b], f) {
      DetachedAlready(g, f, b);
    }
    assert g.files[f].slots == Nulls(|g0.files[f].slots|);
    RemoveAllShape(g0, g, f);
  }

  lemma RemoveAllShape<F, B>(g0: Graph<F, B>, g: Graph<F, B>, f: F)
    requires WellFormed(g0) && forall b :: b in g0.blocks ==> |g0.blocks[b].links| <= g0.blocks[b].refs
    requires f in g0.files && f in g.files && g.files == g0.files[f := g.files[f]]
    requires g.files[f].slots == Nulls(|g0.files[f].slots|)
    requires g.blocks.Keys == g0.blocks.Keys && forall b :: b in g.blocks ==> g.blocks[b] == Detached(g0.blocks[b], f)
    ensures Graph(g.files[f := File(g.files[f].slots, false)], g.blocks) == RemoveAll(g0, f)
  {
    hide WellFormed, Without, IndicesOf, Nulls;
    var r := RemoveAll(g0, f);
    assert g.blocks == r.blocks;
    assert g.files[f := File(g.files[f].slots, false)] == r.files;
  }
}
