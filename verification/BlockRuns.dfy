/**
  Whole runs over the file/block graph: the update of one file by another, the meaning of the
  reference counter, and the exact condition under which the availability bits of links and slots
  say the same thing.
 */
module BlockRuns {
  import opened BlockGraph

  // ----- The counter counts slots -----

  ghost function Places<F>(ls: seq<Link<F>>): set<(F, nat)> {
    set l | l in ls :: (l.file, l.index)
  }

  ghost function SlotsHolding<F, B>(g: Graph<F, B>, b: B): set<(F, nat)> {
    set f, i: nat | f in g.files && 0 <= i < |g.files[f].slots| && Holds(g, f, i, b) :: (f, i)
  }

  lemma {:induction false} DistinctPlaces<F>(ls: seq<Link<F>>)
    requires forall l :: l in ls ==> Occurrences(ls, l.file, l.index) == 1
    ensures |Places(ls)| == |ls|
  {
    if ls == [] {
      assert Places(ls) == {};
    } else {
      var init, last := ls[..|ls| - 1], ls[|ls| - 1];
      assert ls == init + [last];
      forall l | l in init ensures Occurrences(init, l.file, l.index) == 1 {
        assert l in ls;
        OccurrencesMember(init, l.file, l.index);
      }
      DistinctPlaces(init);
      var place := (last.file, last.index);
      assert last in ls;
      assert Occurrences(init, last.file, last.index) == 0;
      OccurrencesMember(init, last.file, last.index);
      assert place !in Places(init);
      assert Places(ls) == Places(init) + {place};
    }
  }

  /** A block has one link for each slot that holds it, over all files. */
  lemma LinksCountSlots<F, B>(g: Graph<F, B>, b: B)
    requires Consistent(g) && b in g.blocks
    ensures |g.blocks[b].links| == |SlotsHolding(g, b)|
  {
    var ls := g.blocks[b].links;
    forall l | l in ls
      ensures Occurrences(ls, l.file, l.index) == 1 && Holds(g, l.file, l.index, b)
    {
      OccurrencesMember(ls, l.file, l.index);
    }
    DistinctPlaces(ls);
    forall f, i: nat | f in g.files && Holds(g, f, i, b) ensures (f, i) in Places(ls) {
      assert Occurrences(ls, f, i) == 1;
      OccurrencesMember(ls, f, i);
    }
    assert Places(ls) == SlotsHolding(g, b);
  }

  // ----- update -----

  /** The hashes that are local to `f`: some block with that hash has an available link to `f`. */
  ghost function LocalHashes<F, B, H>(g: Graph<F, B>, f: F, hash: B -> H): set<H> {
    set b | b in g.blocks && LocalTo(g.blocks[b].links, f) :: hash(b)
  }

  /** The blocks that update marks: those whose hash is local to `f`. */
  ghost function Marks<F, B, H>(g: Graph<F, B>, f: F, hash: B -> H): set<B> {
    set b | b in g.blocks && hash(b) in LocalHashes(g, f, hash)
  }

  ghost predicate Known<F, B>(g: Graph<F, B>, src: seq<Slot<B>>) {
    forall i :: 0 <= i < |src| && src[i].Held? ==> src[i].block in g.blocks
  }

  ghost predicate SameNodes<F, B>(g: Graph<F, B>, r: Graph<F, B>) {
    r.files.Keys == g.files.Keys && r.blocks.Keys == g.blocks.Keys
  }

  /** The assignment loop of update can run: `f` has as many slots as the source. */
  ghost predicate Fillable<F, B>(g: Graph<F, B>, f: F, src: seq<Slot<B>>) {
    WellFormed(g) && f in g.files && |g.files[f].slots| == |src| && Known(g, src)
  }

  /** One round of the assignment loop of update. */
  ghost function Take<F, B>(g: Graph<F, B>, f: F, src: seq<Slot<B>>, marks: set<B>, i: nat): (r: Graph<F, B>)
    requires Fillable(g, f, src) && i < |src|
    ensures Fillable(r, f, src)
  {
    if src[i].Null? then g
    else
      var b := src[i].block;
      var a := Assign(g, f, i, b);
      if b in marks then MarkLocal(a, f, i) else a
  }

  /** The assignment loop of update, after `k` slots. */
  ghost function Fill<F, B>(g: Graph<F, B>, f: F, src: seq<Slot<B>>, marks: set<B>, k: nat): (r: Graph<F, B>)
    requires Fillable(g, f, src) && k <= |src|
    ensures Fillable(r, f, src)
  {
    if k == 0 then g else Take(Fill(g, f, src, marks, k - 1), f, src, marks, k - 1)
  }

  ghost function Cleared<F, B>(g: Graph<F, B>, f: F, other: F): (r: Graph<F, B>)
    requires Consistent(g) && f in g.files && other in g.files
    ensures Fillable(r, f, RemoveAll(g, f).files[other].slots)
  {
    Resize(RemoveAll(g, f), f, |RemoveAll(g, f).files[other].slots|)
  }

  /** update: the file gives up all its blocks, takes the other file's size, and then takes the
      other file's blocks one by one, marking those whose hash was local before. */
  ghost function Update<F, B, H>(g: Graph<F, B>, f: F, other: F, hash: B -> H): (r: Graph<F, B>)
    requires Consistent(g) && f in g.files && other in g.files
    ensures WellFormed(r) && f in r.files
  {
    var src := RemoveAll(g, f).files[other].slots;
    Fill(Cleared(g, f, other), f, src, Marks(g, f, hash), |src|)
  }

  lemma ResizeKeeps<F, B>(g: Graph<F, B>, f: F, n: nat)
    requires Consistent(g) && f in g.files
    requires forall i :: 0 <= i < |g.files[f].slots| ==> g.files[f].slots[i] == Null
    ensures Consistent(Resize(g, f, n))
    ensures Resize(g, f, n).files[f].slots == Nulls(n)
  {
    var r := Resize(g, f, n);
    assert r.files[f].slots == Nulls(n);
    forall c, h, j: nat | c in r.blocks && h in r.files
      ensures Occurrences(r.blocks[c].links, h, j) == if Holds(r, h, j, c) then 1 else 0
    {
      assert Occurrences(g.blocks[c].links, h, j) == if Holds(g, h, j, c) then 1 else 0;
    }
  }

  /** What update leaves in a slot once it has been processed. */
  ghost function Taken<B>(s: Slot<B>, marks: set<B>): Slot<B> {
    if s.Null? then Null else Held(s.block, s.block in marks)
  }

  lemma TakeKeeps<F, B>(g: Graph<F, B>, f: F, src: seq<Slot<B>>, marks: set<B>, i: nat)
    requires Consistent(g) && Fillable(g, f, src) && i < |src| && g.files[f].slots[i] == Null
    ensures Consistent(Take(g, f, src, marks, i))
    ensures SameNodes(g, Take(g, f, src, marks, i))
    ensures forall c :: c in g.blocks ==> Spare(Take(g, f, src, marks, i), c) == Spare(g, c)
  {
    if src[i].Held? {
      var b := src[i].block;
      AssignKeeps(g, f, i, b);
      if b in marks {
        MarkLocalKeeps(Assign(g, f, i, b), f, i);
      }
    }
  }

  lemma TakeSlots<F, B>(g: Graph<F, B>, f: F, src: seq<Slot<B>>, marks: set<B>, i: nat)
    requires Fillable(g, f, src) && i < |src| && g.files[f].slots[i] == Null
    ensures var r := Take(g, f, src, marks, i);
      && r.files == g.files[f := r.files[f]]
      && r.files[f].slots == g.files[f].slots[i := Taken(src[i], marks)]
      && (!g.files[f].ready ==> (r.files[f].ready <==> AllLocal(r.files[f].slots)))
  {
    var r := Take(g, f, src, marks, i);
    if src[i].Held? {
      var b := src[i].block;
      assert g.files[f].slots[i := Held(b, false)][i := Held(b, true)] == g.files[f].slots[i := Held(b, true)];
    }
    assert r.files[f].slots[i] == Taken(src[i], marks);
  }

  // ----- Availability bits -----

  /** A block has an available link to a file exactly when one of the file's slots holding it is LOCAL. */
  ghost predicate BitsAgree<F, B>(g: Graph<F, B>) {
    forall b, f :: b in g.blocks && f in g.files ==> (LocalTo(g.blocks[b].links, f) <==> LocalSlot(g, f, b))
  }

  lemma AssignBits<F, B>(g: Graph<F, B>, f: F, i: nat, b: B)
    requires Consistent(g) && BitsAgree(g)
    requires f in g.files && i < |g.files[f].slots| && b in g.blocks && g.files[f].slots[i] == Null
    ensures BitsAgree(Assign(g, f, i, b)) <==> (AnyLocal(g.blocks[b].links) ==> LocalSlot(g, f, b))
  {
    var r := Assign(g, f, i, b);
    var added := Link(f, i, AnyLocal(g.blocks[b].links));
    forall c, h | c in r.blocks && h in r.files
      ensures LocalSlot(r, h, c) <==> LocalSlot(g, h, c)
      ensures LocalTo(r.blocks[c].links, h) <==> LocalTo(g.blocks[c].links, h) || (c == b && h == f && added.local)
    {
      SameLocalSlot(g, r, f, i, h, c);
      if c == b {
        LocalToAppend(g.blocks[b].links, added, h);
      }
    }
    if BitsAgree(r) && added.local {
      assert LocalTo(r.blocks[b].links, f);
    }
  }

  lemma SameLocalSlot<F, B>(g: Graph<F, B>, r: Graph<F, B>, f: F, i: nat, h: F, c: B)
    requires f in g.files && i < |g.files[f].slots| && !(g.files[f].slots[i].Held? && g.files[f].slots[i].local)
    requires f in r.files && |r.files[f].slots| == |g.files[f].slots|
    requires !(r.files[f].slots[i].Held? && r.files[f].slots[i].local)
    requires r.files == g.files[f := g.files[f].(slots := g.files[f].slots[i := r.files[f].slots[i]])]
    ensures LocalSlot(r, h, c) <==> LocalSlot(g, h, c)
  {
    if LocalSlot(g, h, c) {
      var j :| 0 <= j < |g.files[h].slots| && g.files[h].slots[j] == Held(c, true);
      assert r.files[h].slots[j] == Held(c, true);
    }
    if LocalSlot(r, h, c) {
      var j :| 0 <= j < |r.files[h].slots| && r.files[h].slots[j] == Held(c, true);
      assert g.files[h].slots[j] == Held(c, true);
    }
  }

  lemma MarkLocalBits<F, B>(g: Graph<F, B>, f: F, i: nat)
    requires Consistent(g) && BitsAgree(g)
    requires f in g.files && i < |g.files[f].slots| && g.files[f].slots[i].Held?
    ensures BitsAgree(MarkLocal(g, f, i))
  {
    var r := MarkLocal(g, f, i);
    var b := g.files[f].slots[i].block;
    assert Occurrences(g.blocks[b].links, f, i) == if Holds(g, f, i, b) then 1 else 0;
    OccurrencesMember(g.blocks[b].links, f, i);
    forall c, h | c in r.blocks && h in r.files
      ensures LocalTo(r.blocks[c].links, h) <==> LocalSlot(r, h, c)
    {
      if c == b {
        MarkFirstLocality(g.blocks[b].links, f, h);
      }
      if c == b && h == f {
        assert r.files[f].slots[i] == Held(b, true);
      } else {
        if LocalSlot(g, h, c) {
          var j :| 0 <= j < |g.files[h].slots| && g.files[h].slots[j] == Held(c, true);
          assert r.files[h].slots[j] == Held(c, true);
        }
        if LocalSlot(r, h, c) {
          var j :| 0 <= j < |r.files[h].slots| && r.files[h].slots[j] == Held(c, true);
          assert g.files[h].slots[j] == Held(c, true);
        }
      }
    }
  }

  lemma RemoveAllBits<F, B>(g: Graph<F, B>, f: F)
    requires Consistent(g) && BitsAgree(g) && f in g.files
    ensures BitsAgree(RemoveAll(g, f))
  {
    var r := RemoveAll(g, f);
    forall c, h | c in r.blocks && h in r.files
      ensures LocalTo(r.blocks[c].links, h) <==> LocalSlot(r, h, c)
    {
      LocalToWithout(g.blocks[c].links, f, h);
      if h != f {
        assert r.files[h].slots == g.files[h].slots;
      }
    }
  }

  /** A caller can tell before the call whether update leaves the bits in agreement: no block that
      is taken without being local may be available through another file. */
  ghost predicate NoForeignCopy<F, B>(g: Graph<F, B>, f: F, src: seq<Slot<B>>, marks: set<B>)
    requires Known(g, src)
  {
    forall i :: 0 <= i < |src| && src[i].Held? && AnyLocal(Without(g.blocks[src[i].block].links, f)) ==>
      src[i].block in marks
  }

  ghost predicate TakenBefore<B>(src: seq<Slot<B>>, k: nat, c: B) {
    exists i :: 0 <= i < k && i < |src| && src[i].Held? && src[i].block == c
  }

  lemma TakenBeforeStep<B>(src: seq<Slot<B>>, k: nat, c: B)
    requires 0 < k <= |src|
    ensures TakenBefore(src, k, c) <==>
      TakenBefore(src, k - 1, c) || (src[k - 1].Held? && src[k - 1].block == c)
  {
  }

  lemma AnyLocalAppend<F>(ls: seq<Link<F>>, l: Link<F>)
    ensures AnyLocal(ls + [l]) <==> AnyLocal(ls) || l.local
  {
    var r := ls + [l];
    if AnyLocal(ls) {
      var k :| 0 <= k < |ls| && ls[k].local;
      assert r[k].local;
    }
    if l.local {
      assert r[|ls|].local;
    }
  }

  lemma AnyLocalIff<F>(ls: seq<Link<F>>)
    ensures AnyLocal(ls) <==> exists l :: l in ls && l.local
  {
    if AnyLocal(ls) {
      var k :| 0 <= k < |ls| && ls[k].local;
      assert ls[k] in ls;
    }
  }

  /** The bits after one round, in terms of the bits before it. */
  lemma TakeBits<F, B>(g: Graph<F, B>, f: F, src: seq<Slot<B>>, marks: set<B>, i: nat, c: B, h: F)
    requires Consistent(g) && Fillable(g, f, src) && i < |src| && g.files[f].slots[i] == Null
    requires c in g.blocks && h in g.files
    ensures c in Take(g, f, src, marks, i).blocks
    ensures var r := Take(g, f, src, marks, i); var taken := src[i].Held? && src[i].block == c;
      && (LocalTo(r.blocks[c].links, h) <==>
            LocalTo(g.blocks[c].links, h) || (taken && h == f && (AnyLocal(g.blocks[c].links) || c in marks)))
      && (LocalSlot(r, h, c) <==> LocalSlot(g, h, c) || (taken && h == f && c in marks))
      && (AnyLocal(r.blocks[c].links) <==> AnyLocal(g.blocks[c].links) || (taken && c in marks))
  {
    if src[i].Held? {
      var b := src[i].block;
      var a := Assign(g, f, i, b);
      var added := Link(f, i, AnyLocal(g.blocks[b].links));
      if c == b {
        LocalToAppend(g.blocks[b].links, added, h);
        AnyLocalAppend(g.blocks[b].links, added);
      }
      SameLocalSlot(g, a, f, i, h, c);
      if b in marks {
        assert added in a.blocks[b].links;
        TakeMarkedBits(a, f, i, c, h);
      }
    }
  }

  lemma TakeMarkedBits<F, B>(a: Graph<F, B>, f: F, i: nat, c: B, h: F)
    requires WellFormed(a) && f in a.files && i < |a.files[f].slots|
    requires a.files[f].slots[i].Held? && !a.files[f].slots[i].local
    requires c in a.blocks && h in a.files
    requires LinkTo(a.blocks[a.files[f].slots[i].block].links, f)
    ensures var b := a.files[f].slots[i].block; var r := MarkLocal(a, f, i);
      && (LocalTo(r.blocks[c].links, h) <==> LocalTo(a.blocks[c].links, h) || (b == c && h == f))
      && (LocalSlot(r, h, c) <==> LocalSlot(a, h, c) || (b == c && h == f))
      && (AnyLocal(r.blocks[c].links) <==> AnyLocal(a.blocks[c].links) || b == c)
  {
    var b := a.files[f].slots[i].block;
    var r := MarkLocal(a, f, i);
    if c == b {
      MarkFirstLocality(a.blocks[b].links, f, h);
      MarkFirstLocality(a.blocks[b].links, f, f);
      var l :| l in r.blocks[b].links && l.file == f && l.local;
      AnyLocalIff(r.blocks[b].links);
    }
    if LocalSlot(a, h, c) {
      var j :| 0 <= j < |a.files[h].slots| && a.files[h].slots[j] == Held(c, true);
      assert r.files[h].slots[j] == Held(c, true);
    }
    if b == c && h == f {
      assert r.files[f].slots[i] == Held(b, true);
    } else if LocalSlot(r, h, c) {
      var j :| 0 <= j < |r.files[h].slots| && r.files[h].slots[j] == Held(c, true);
      assert a.files[h].slots[j] == Held(c, true);
    }
  }

  /** References to a block that do not come from slots. */
  ghost function Spare<F, B>(g: Graph<F, B>, b: B): int
    requires b in g.blocks
  {
    g.blocks[b].refs - |g.blocks[b].links|
  }

  /** The bits of block `c` for file `h` in `p`, in terms of those in `g`, after `k` rounds of update. */
  ghost predicate BitsFrom<F, B>(g: Graph<F, B>, p: Graph<F, B>, f: F, src: seq<Slot<B>>, marks: set<B>, k: nat,
                                 c: B, h: F)
    requires c in g.blocks && c in p.blocks
  {
    var taken := TakenBefore(src, k, c);
    && (LocalTo(p.blocks[c].links, h) <==>
          LocalTo(g.blocks[c].links, h) || (taken && h == f && (AnyLocal(g.blocks[c].links) || c in marks)))
    && (LocalSlot(p, h, c) <==> LocalSlot(g, h, c) || (taken && h == f && c in marks))
    && (AnyLocal(p.blocks[c].links) <==> AnyLocal(g.blocks[c].links) || (taken && c in marks))
  }

  /** Everything that holds of `p` when it is reached from `g` by `k` rounds of update. */
  ghost predicate Filled<F, B>(g: Graph<F, B>, p: Graph<F, B>, f: F, src: seq<Slot<B>>, marks: set<B>, k: nat) {
    && Fillable(p, f, src) && f in g.files && SameNodes(g, p) && Consistent(p)
    && p.files == g.files[f := p.files[f]]
    && (forall i :: 0 <= i < |src| ==> p.files[f].slots[i] == if i < k then Taken(src[i], marks) else Null)
    && (p.files[f].ready <==> 0 < k == |src| && AllLocal(p.files[f].slots))
    && (forall c :: c in g.blocks ==> Spare(p, c) == Spare(g, c))
    && (forall c, h :: c in g.blocks && h in g.files ==> BitsFrom(g, p, f, src, marks, k, c, h))
  }

  lemma BitsStep<F, B>(g: Graph<F, B>, p: Graph<F, B>, f: F, src: seq<Slot<B>>, marks: set<B>, k: nat, c: B, h: F)
    requires k < |src| && c in g.blocks && h in g.files && Filled(g, p, f, src, marks, k)
    ensures c in Take(p, f, src, marks, k).blocks
    ensures BitsFrom(g, Take(p, f, src, marks, k), f, src, marks, k + 1, c, h)
  {
    assert BitsFrom(g, p, f, src, marks, k, c, h);
    TakeBits(p, f, src, marks, k, c, h);
    TakenBeforeStep(src, k + 1, c);
  }

  lemma FilledStep<F, B>(g: Graph<F, B>, p: Graph<F, B>, f: F, src: seq<Slot<B>>, marks: set<B>, k: nat)
    requires k < |src| && Filled(g, p, f, src, marks, k)
    ensures Filled(g, Take(p, f, src, marks, k), f, src, marks, k + 1)
  {
    var r := Take(p, f, src, marks, k);
    TakeKeeps(p, f, src, marks, k);
    forall c, h | c in g.blocks && h in g.files ensures BitsFrom(g, r, f, src, marks, k + 1, c, h) {
      BitsStep(g, p, f, src, marks, k, c, h);
    }
    FilledSlotsStep(g, p, f, src, marks, k);
  }

  lemma FilledSlotsStep<F, B>(g: Graph<F, B>, p: Graph<F, B>, f: F, src: seq<Slot<B>>, marks: set<B>, k: nat)
    requires k < |src| && Filled(g, p, f, src, marks, k)
    ensures var r := Take(p, f, src, marks, k);
      && r.files == g.files[f := r.files[f]]
      && (forall i :: 0 <= i < |src| ==> r.files[f].slots[i] == if i < k + 1 then Taken(src[i], marks) else Null)
      && (r.files[f].ready <==> k + 1 == |src| && AllLocal(r.files[f].slots))
  {
    TakeSlots(p, f, src, marks, k);
    var r := Take(p, f, src, marks, k);
    if k + 1 < |src| {
      assert r.files[f].slots[|src| - 1] == Null;
    }
  }

  lemma {:induction false} FillInvariant<F, B>(g: Graph<F, B>, f: F, src: seq<Slot<B>>, marks: set<B>, k: nat)
    requires Fillable(g, f, src) && k <= |src| && Filled(g, g, f, src, marks, 0)
    ensures Filled(g, Fill(g, f, src, marks, k), f, src, marks, k)
  {
    if k > 0 {
      hide Filled, Take, Fillable;
      FillInvariant(g, f, src, marks, k - 1);
      FilledStep(g, Fill(g, f, src, marks, k - 1), f, src, marks, k - 1);
    }
  }

  /** The state in which the loop of update starts. */
  lemma UpdateStart<F, B, H>(g: Graph<F, B>, f: F, other: F, hash: B -> H)
    requires Consistent(g) && f in g.files && other in g.files
    ensures var start := Cleared(g, f, other); var src := RemoveAll(g, f).files[other].slots;
      && Consistent(start) && start.blocks == RemoveAll(g, f).blocks && start.files[f].slots == Nulls(|src|)
      && Filled(start, start, f, src, Marks(g, f, hash), 0)
  {
    var src := RemoveAll(g, f).files[other].slots;
    var start, marks := Cleared(g, f, other), Marks(g, f, hash);
    RemoveAllKeeps(g, f);
    ResizeKeeps(RemoveAll(g, f), f, |src|);
    assert start.files == start.files[f := start.files[f]];
    forall c, h | c in start.blocks && h in start.files ensures BitsFrom(start, start, f, src, marks, 0, c, h) {
      assert !TakenBefore(src, 0, c);
    }
  }

  /** The state in which it ends. */
  lemma UpdateFilled<F, B, H>(g: Graph<F, B>, f: F, other: F, hash: B -> H)
    requires Consistent(g) && f in g.files && other in g.files
    ensures var start := Cleared(g, f, other); var src := RemoveAll(g, f).files[other].slots;
      && Consistent(start) && start.blocks == RemoveAll(g, f).blocks && start.files[f].slots == Nulls(|src|)
      && Filled(start, Update(g, f, other, hash), f, src, Marks(g, f, hash), |src|)
  {
    UpdateStart(g, f, other, hash);
    var src := RemoveAll(g, f).files[other].slots;
    FillInvariant(Cleared(g, f, other), f, src, Marks(g, f, hash), |src|);
  }

  /** update keeps both sides in agreement; slot i is LOCAL iff some block with its hash had an available
      link to the file before, and the file reports itself available iff all its slots are LOCAL. */
  lemma UpdateSlots<F, B, H>(g: Graph<F, B>, f: F, other: F, hash: B -> H)
    requires Consistent(g) && f in g.files && other in g.files && other != f
    ensures var r := Update(g, f, other, hash); var src := g.files[other].slots;
      && Consistent(r) && SameNodes(g, r)
      && |r.files[f].slots| == |src|
      && (forall i :: 0 <= i < |src| && src[i].Null? ==> r.files[f].slots[i] == Null)
      && (forall i :: 0 <= i < |src| && src[i].Held? ==>
            r.files[f].slots[i] == Held(src[i].block, hash(src[i].block) in LocalHashes(g, f, hash)))
      && (forall h :: h in g.files && h != f ==> r.files[h] == g.files[h])
      && (r.files[f].ready || src == [] <==> AllLocal(r.files[f].slots))
  {
    UpdateFilled(g, f, other, hash);
    assert RemoveAll(g, f).files[other].slots == g.files[other].slots;
  }

  /** A file updated from itself keeps its size and loses all its blocks. */
  lemma UpdateFromItself<F, B, H>(g: Graph<F, B>, f: F, hash: B -> H)
    requires Consistent(g) && f in g.files
    ensures var r := Update(g, f, f, hash);
      && Consistent(r) && SameNodes(g, r) && r.files[f].slots == Nulls(|g.files[f].slots|)
      && (forall h :: h in g.files && h != f ==> r.files[h] == g.files[h])
  {
    UpdateFilled(g, f, f, hash);
    assert Update(g, f, f, hash).files[f].slots == Nulls(|g.files[f].slots|);
  }

  /** update leaves slot bits and link bits in agreement exactly when NoForeignCopy held before it. */
  lemma UpdateBits<F, B, H>(g: Graph<F, B>, f: F, other: F, hash: B -> H)
    requires Consistent(g) && BitsAgree(g) && f in g.files && other in g.files && other != f
    ensures BitsAgree(Update(g, f, other, hash)) <==> NoForeignCopy(g, f, g.files[other].slots, Marks(g, f, hash))
  {
    var src, marks := g.files[other].slots, Marks(g, f, hash);
    var start, r := Cleared(g, f, other), Update(g, f, other, hash);
    assert RemoveAll(g, f).files[other].slots == src;
    UpdateFilled(g, f, other, hash);
    RemoveAllBits(g, f);
    forall c, h | c in r.blocks && h in r.files
      ensures (LocalTo(r.blocks[c].links, h) <==> LocalSlot(r, h, c)) <==>
        (TakenBefore(src, |src|, c) && h == f && AnyLocal(Without(g.blocks[c].links, f)) ==> c in marks)
    {
      assert BitsFrom(start, r, f, src, marks, |src|, c, h);
      LocalToWithout(g.blocks[c].links, f, h);
      assert LocalSlot(start, h, c) <==> LocalSlot(RemoveAll(g, f), h, c);
    }
    UpdateBitsPointwise(g, r, f, src, marks);
  }

  lemma UpdateBitsPointwise<F, B>(g: Graph<F, B>, r: Graph<F, B>, f: F, src: seq<Slot<B>>, marks: set<B>)
    requires Known(g, src) && SameNodes(g, r) && f in r.files
    requires forall c, h :: c in r.blocks && h in r.files ==>
      ((LocalTo(r.blocks[c].links, h) <==> LocalSlot(r, h, c)) <==>
        (TakenBefore(src, |src|, c) && h == f && AnyLocal(Without(g.blocks[c].links, f)) ==> c in marks))
    ensures BitsAgree(r) <==> NoForeignCopy(g, f, src, marks)
  {
    if BitsAgree(r) {
      forall i | 0 <= i < |src| && src[i].Held? && AnyLocal(Without(g.blocks[src[i].block].links, f))
        ensures src[i].block in marks
      {
        assert TakenBefore(src, |src|, src[i].block);
        assert LocalTo(r.blocks[src[i].block].links, f) <==> LocalSlot(r, f, src[i].block);
      }
    }
  }

  // ----- Runs -----

  datatype Op<F, B> =
    | NewFile(f: F)
    | NewBlock(b: B)
    | AddRef(b: B)
    | Release(b: B)
    | AssignBlock(f: F, i: nat, b: B)
    | RemoveBlocks(f: F)
    | ReserveBlocks(f: F, n: nat)
    | MarkAvailable(f: F, i: nat)
    | UpdateFrom(f: F, other: F)
    | DestroyFile(f: F)

  /** What the program asserts, or needs to be meaningful, before each operation. Only references
      that do not come from slots may be released from outside. */
  ghost predicate Enabled<F, B>(g: Graph<F, B>, op: Op<F, B>) {
    match op
    case NewFile(f) => f !in g.files
    case NewBlock(b) => b !in g.blocks
    case AddRef(b) => b in g.blocks && g.blocks[b].refs > 0
    case Release(b) => b in g.blocks && Spare(g, b) > 0
    case AssignBlock(f, i, b) =>
      && f in g.files && i < |g.files[f].slots| && g.files[f].slots[i] == Null
      && b in g.blocks && g.blocks[b].refs > 0
    case RemoveBlocks(f) => f in g.files
    case ReserveBlocks(f, _) => f in g.files
    case MarkAvailable(f, i) =>
      f in g.files && i < |g.files[f].slots| && g.files[f].slots[i].Held? && !g.files[f].slots[i].local
    case UpdateFrom(f, other) => f in g.files && other in g.files
    case DestroyFile(f) => f in g.files
  }

  ghost function Apply<F, B, H>(g: Graph<F, B>, op: Op<F, B>, hash: B -> H): (r: Graph<F, B>)
    requires Consistent(g) && Enabled(g, op)
  {
    match op
    case NewFile(f) => g.(files := g.files[f := File([], false)])
    case NewBlock(b) => g.(blocks := g.blocks[b := Block([], 1)])
    case AddRef(b) => g.(blocks := g.blocks[b := g.blocks[b].(refs := g.blocks[b].refs + 1)])
    case Release(b) => g.(blocks := g.blocks[b := g.blocks[b].(refs := g.blocks[b].refs - 1)])
    case AssignBlock(f, i, b) => Assign(g, f, i, b)
    case RemoveBlocks(f) => RemoveAll(g, f)
    case ReserveBlocks(f, n) => Resize(RemoveAll(g, f), f, n)
    case MarkAvailable(f, i) => MarkLocal(g, f, i)
    case UpdateFrom(f, other) => Update(g, f, other, hash)
    case DestroyFile(f) => var r := RemoveAll(g, f); r.(files := r.files - {f})
  }

  lemma SameShapeKeeps<F, B>(g: Graph<F, B>, r: Graph<F, B>)
    requires Consistent(g) && WellFormed(r)
    requires forall f :: f in g.files ==> f in r.files && r.files[f].slots == g.files[f].slots
    requires forall f :: f in r.files && f !in g.files ==> r.files[f].slots == []
    requires forall b :: b in g.blocks ==> b in r.blocks && r.blocks[b].links == g.blocks[b].links
    requires forall b :: b in r.blocks && b !in g.blocks ==> r.blocks[b].links == []
    requires forall b :: b in r.blocks ==> |r.blocks[b].links| <= r.blocks[b].refs
    ensures Consistent(r)
  {
    forall c, h, j: nat | c in r.blocks && h in r.files
      ensures Occurrences(r.blocks[c].links, h, j) == if Holds(r, h, j, c) then 1 else 0
    {
      if c in g.blocks {
        OccurrencesMember(g.blocks[c].links, h, j);
        if h in g.files {
          assert Occurrences(g.blocks[c].links, h, j) == if Holds(g, h, j, c) then 1 else 0;
        }
      }
    }
  }

  lemma DestroyKeeps<F, B>(g: Graph<F, B>, f: F)
    requires Consistent(g) && f in g.files
    ensures var r := RemoveAll(g, f); Consistent(r.(files := r.files - {f}))
  {
    RemoveAllKeeps(g, f);
    var p := RemoveAll(g, f);
    var r := p.(files := p.files - {f});
    forall c, h, j: nat | c in r.blocks && h in r.files
      ensures Occurrences(r.blocks[c].links, h, j) == if Holds(r, h, j, c) then 1 else 0
    {
      assert Occurrences(p.blocks[c].links, h, j) == if Holds(p, h, j, c) then 1 else 0;
    }
    forall c, l | c in r.blocks && l in r.blocks[c].links ensures l.file in r.files {
      WithoutMember(g.blocks[c].links, f, l);
    }
  }

  /** One step of any kind keeps both sides in agreement. */
  lemma ApplyKeeps<F, B, H>(g: Graph<F, B>, op: Op<F, B>, hash: B -> H)
    requires Consistent(g) && Enabled(g, op)
    ensures Consistent(Apply(g, op, hash))
  {
    match op
    case NewFile(_) => SameShapeKeeps(g, Apply(g, op, hash));
    case NewBlock(_) => SameShapeKeeps(g, Apply(g, op, hash));
    case AddRef(_) => SameShapeKeeps(g, Apply(g, op, hash));
    case Release(_) => SameShapeKeeps(g, Apply(g, op, hash));
    case AssignBlock(f, i, b) => AssignKeeps(g, f, i, b);
    case RemoveBlocks(f) => RemoveAllKeeps(g, f);
    case ReserveBlocks(f, n) => RemoveAllKeeps(g, f); ResizeKeeps(RemoveAll(g, f), f, n);
    case MarkAvailable(f, i) => MarkLocalKeeps(g, f, i);
    case UpdateFrom(f, other) => UpdateFilled(g, f, other, hash);
    case DestroyFile(f) => DestroyKeeps(g, f);
  }

  /** All files are still there, and those other than `f` are as they were. */
  ghost predicate OnlyFile<F, B>(g: Graph<F, B>, r: Graph<F, B>, f: F) {
    r.files.Keys == g.files.Keys && f in g.files && forall h :: h in g.files && h != f ==> r.files[h] == g.files[h]
  }

  /** What every kind of step makes of the slots; the links and the counters follow from them. */
  lemma ApplySlots<F, B, H>(g: Graph<F, B>, op: Op<F, B>, hash: B -> H)
    requires Consistent(g) && Enabled(g, op)
    ensures var r := Apply(g, op, hash);
      match op
      case NewFile(f) => r.files == g.files[f := File([], false)]
      case NewBlock(_) => r.files == g.files
      case AddRef(_) => r.files == g.files
      case Release(_) => r.files == g.files
      case AssignBlock(f, i, b) => OnlyFile(g, r, f) && r.files[f].slots == g.files[f].slots[i := Held(b, false)]
      case RemoveBlocks(f) => OnlyFile(g, r, f) && NothingHeld(r.files[f].slots, |g.files[f].slots|)
      case ReserveBlocks(f, n) => OnlyFile(g, r, f) && NothingHeld(r.files[f].slots, n)
      case MarkAvailable(f, i) =>
        OnlyFile(g, r, f) && r.files[f].slots == g.files[f].slots[i := Held(g.files[f].slots[i].block, true)]
      case UpdateFrom(f, other) =>
        && OnlyFile(g, r, f)
        && if other == f then NothingHeld(r.files[f].slots, |g.files[f].slots|)
           else SameBlocks(r.files[f].slots, g.files[other].slots)
      case DestroyFile(f) => r.files == g.files - {f}
  {
    hide Consistent, Update;
    match op
    case UpdateFrom(f, other) =>
      if other == f {
        UpdateFromItself(g, f, hash);
      } else {
        UpdateSlots(g, f, other, hash);
      }
    case _ =>
  }

  ghost predicate NothingHeld<B>(s: seq<Slot<B>>, n: nat) {
    |s| == n && forall i :: 0 <= i < n ==> s[i] == Null
  }

  ghost predicate SameBlocks<B>(s: seq<Slot<B>>, t: seq<Slot<B>>) {
    |s| == |t| && forall i :: 0 <= i < |t| ==> s[i].Held? == t[i].Held? && (t[i].Held? ==> s[i].block == t[i].block)
  }

  lemma ApplySpare<F, B, H>(g: Graph<F, B>, op: Op<F, B>, hash: B -> H, b: B)
    requires Consistent(g) && Enabled(g, op) && b in g.blocks
    ensures b in Apply(g, op, hash).blocks
    ensures !op.AddRef? && !op.Release? ==> Spare(Apply(g, op, hash), b) == Spare(g, b)
  {
    if op.UpdateFrom? {
      UpdateFilled(g, op.f, op.other, hash);
      assert Spare(RemoveAll(g, op.f), b) == Spare(g, b);
    }
  }

  /** The counter of a block moves by exactly the number of slots gained or lost, unless the step is
      about a reference held elsewhere. */
  lemma RefsFollowSlots<F, B, H>(g: Graph<F, B>, op: Op<F, B>, hash: B -> H, b: B)
    requires Consistent(g) && Enabled(g, op) && b in g.blocks
    requires !op.AddRef? && !op.Release?
    ensures b in Apply(g, op, hash).blocks
    ensures Apply(g, op, hash).blocks[b].refs - g.blocks[b].refs
         == |SlotsHolding(Apply(g, op, hash), b)| - |SlotsHolding(g, b)|
  {
    var r := Apply(g, op, hash);
    ApplyKeeps(g, op, hash);
    ApplySpare(g, op, hash, b);
    LinksCountSlots(g, b);
    LinksCountSlots(r, b);
  }

  /** A run: nothing is promised about a step from a graph whose sides disagree. */
  ghost predicate IsRun<F, B, H>(states: seq<Graph<F, B>>, ops: seq<Op<F, B>>, hash: B -> H) {
    && |states| == |ops| + 1
    && states[0] == Graph(map[], map[])
    && forall k :: 0 <= k < |ops| ==>
         Enabled(states[k], ops[k]) && (Consistent(states[k]) ==> states[k + 1] == Apply(states[k], ops[k], hash))
  }

  lemma {:induction false} RunKeeps<F, B, H>(states: seq<Graph<F, B>>, ops: seq<Op<F, B>>, hash: B -> H, k: nat)
    requires IsRun(states, ops, hash) && k < |states|
    ensures Consistent(states[k])
  {
    if k > 0 {
      RunKeeps(states, ops, hash, k - 1);
      ApplyKeeps(states[k - 1], ops[k - 1], hash);
    }
  }

  /** Over every run: slot i of file f holds block b iff b has exactly one link (f, i), otherwise b
      has none; a held block is alive; its counter is the number of its slots plus the references
      held elsewhere; and unlinking it from a file that holds it removes something. */
  lemma Reachable<F, B, H>(states: seq<Graph<F, B>>, ops: seq<Op<F, B>>, hash: B -> H, k: nat, f: F, i: nat, b: B)
    requires IsRun(states, ops, hash) && k < |states| && f in states[k].files && b in states[k].blocks
    ensures var r := states[k];
      && (Holds(r, f, i, b) <==> Occurrences(r.blocks[b].links, f, i) == 1)
      && (!Holds(r, f, i, b) <==> Occurrences(r.blocks[b].links, f, i) == 0)
      && r.blocks[b].refs == |SlotsHolding(r, b)| + Spare(r, b) && Spare(r, b) >= 0
      && (Holds(r, f, i, b) ==> r.blocks[b].refs > 0 && IndicesOf(r.blocks[b].links, f) != [])
  {
    var r := states[k];
    RunKeeps(states, ops, hash, k);
    LinksCountSlots(r, b);
    assert Occurrences(r.blocks[b].links, f, i) == if Holds(r, f, i, b) then 1 else 0;
    UnlinkIndices(r, f, b);
  }

  // ----- Availability bits over whole runs -----

  /** What a caller can look at before a step to know whether it keeps slot bits and link bits in
      agreement: a block that becomes available to no slot of the file must not have copies elsewhere. */
  ghost predicate BitsSafe<F, B, H>(g: Graph<F, B>, op: Op<F, B>, hash: B -> H)
    requires Consistent(g) && Enabled(g, op)
  {
    match op
    case AssignBlock(f, i, b) => AnyLocal(g.blocks[b].links) ==> LocalSlot(g, f, b)
    case UpdateFrom(f, other) => f == other || NoForeignCopy(g, f, g.files[other].slots, Marks(g, f, hash))
    case _ => true
  }

  lemma SameBits<F, B>(g: Graph<F, B>, r: Graph<F, B>)
    requires Consistent(g) && BitsAgree(g)
    requires forall f :: f in r.files && f in g.files ==> r.files[f].slots == g.files[f].slots
    requires forall f :: f in r.files && f !in g.files ==> r.files[f].slots == []
    requires forall b :: b in r.blocks && b in g.blocks ==> r.blocks[b].links == g.blocks[b].links
    requires forall b :: b in r.blocks && b !in g.blocks ==> r.blocks[b].links == []
    requires forall b, f :: b in r.blocks && f in r.files && b !in g.blocks ==> !LocalSlot(r, f, b)
    ensures BitsAgree(r)
  {
    forall b, f | b in r.blocks && f in r.files ensures LocalTo(r.blocks[b].links, f) <==> LocalSlot(r, f, b) {
      if b in g.blocks && f in g.files {
        assert LocalTo(g.blocks[b].links, f) <==> LocalSlot(g, f, b);
      }
    }
  }

  lemma NewBlockBits<F, B>(g: Graph<F, B>, b: B)
    requires Consistent(g) && BitsAgree(g) && b !in g.blocks
    ensures BitsAgree(g.(blocks := g.blocks[b := Block([], 1)]))
  {
    hide SidesAgree, LocalSlotsLinked;
    var r := g.(blocks := g.blocks[b := Block([], 1)]);
    forall f | f in r.files ensures !LocalSlot(r, f, b) {
      var s := g.files[f].slots;
      assert forall i :: 0 <= i < |s| && s[i].Held? ==> g.files[f].slots[i].block in g.blocks;
    }
    SameBits(g, r);
  }

  lemma ResizeBits<F, B>(g: Graph<F, B>, f: F, n: nat)
    requires WellFormed(g) && BitsAgree(g) && f in g.files
    requires forall i :: 0 <= i < |g.files[f].slots| ==> g.files[f].slots[i] == Null
    ensures BitsAgree(Resize(g, f, n))
  {
    var r := Resize(g, f, n);
    forall b, h | b in r.blocks && h in r.files ensures LocalTo(r.blocks[b].links, h) <==> LocalSlot(r, h, b) {
      assert LocalTo(g.blocks[b].links, h) <==> LocalSlot(g, h, b);
      if h != f { assert r.files[h] == g.files[h]; }
    }
  }

  lemma UpdateFromItselfBits<F, B, H>(g: Graph<F, B>, f: F, hash: B -> H)
    requires Consistent(g) && BitsAgree(g) && f in g.files
    ensures BitsAgree(Update(g, f, f, hash))
  {
    hide SidesAgree, LocalSlotsLinked, Fill;
    UpdateFilled(g, f, f, hash);
    UpdateFromItself(g, f, hash);
    var start, src, r := Cleared(g, f, f), RemoveAll(g, f).files[f].slots, Update(g, f, f, hash);
    RemoveAllBits(g, f);
    ResizeBits(RemoveAll(g, f), f, |src|);
    forall c, h | c in r.blocks && h in r.files ensures LocalTo(r.blocks[c].links, h) <==> LocalSlot(r, h, c) {
      assert BitsFrom(start, r, f, src, Marks(g, f, hash), |src|, c, h);
      assert !TakenBefore(src, |src|, c);
    }
  }

  /** A step keeps the bits in agreement exactly when it is safe. */
  lemma ApplyBits<F, B, H>(g: Graph<F, B>, op: Op<F, B>, hash: B -> H)
    requires Consistent(g) && BitsAgree(g) && Enabled(g, op)
    ensures BitsAgree(Apply(g, op, hash)) <==> BitsSafe(g, op, hash)
  {
    hide SidesAgree, LocalSlotsLinked, BitsAgree, Update;
    match op
    case NewFile(_) => SameLinksBits(g, Apply(g, op, hash));
    case NewBlock(b) => NewBlockBits(g, b);
    case AddRef(_) => SameLinksBits(g, Apply(g, op, hash));
    case Release(_) => SameLinksBits(g, Apply(g, op, hash));
    case AssignBlock(f, i, b) => AssignBits(g, f, i, b);
    case RemoveBlocks(f) => RemoveAllBits(g, f);
    case ReserveBlocks(f, n) => RemoveAllBits(g, f); ResizeBits(RemoveAll(g, f), f, n);
    case MarkAvailable(f, i) => MarkLocalBits(g, f, i);
    case UpdateFrom(f, other) =>
      if f == other { UpdateFromItselfBits(g, f, hash); } else { UpdateBits(g, f, other, hash); }
    case DestroyFile(f) => RemoveAllBits(g, f); RemoveAllKeeps(g, f); FewerFilesBits(RemoveAll(g, f), f);
  }

  lemma SameLinksBits<F, B>(g: Graph<F, B>, r: Graph<F, B>)
    requires Consistent(g) && BitsAgree(g)
    requires forall f :: f in r.files && f in g.files ==> r.files[f].slots == g.files[f].slots
    requires forall f :: f in r.files && f !in g.files ==> r.files[f].slots == []
    requires r.blocks.Keys == g.blocks.Keys && forall b :: b in r.blocks ==> r.blocks[b].links == g.blocks[b].links
    ensures BitsAgree(r)
  {
    SameBits(g, r);
  }

  lemma FewerFilesBits<F, B>(g: Graph<F, B>, f: F)
    requires Consistent(g) && BitsAgree(g) && f in g.files
    ensures BitsAgree(g.(files := g.files - {f}))
  {
    SameBits(g, g.(files := g.files - {f}));
  }

  /** Over every run: an available link means a LOCAL slot, and the other way round, in all states if
      and only if every step was safe when it was taken. */
  lemma RunBits<F, B, H>(states: seq<Graph<F, B>>, ops: seq<Op<F, B>>, hash: B -> H)
    requires IsRun(states, ops, hash)
    ensures forall k :: 0 <= k < |states| ==> Consistent(states[k])
    ensures (forall k :: 0 <= k < |states| ==> BitsAgree(states[k])) <==>
            (forall k :: 0 <= k < |ops| ==> BitsSafe(states[k], ops[k], hash))
  {
    hide Consistent, BitsAgree, BitsSafe, Apply, Enabled;
    forall k | 0 <= k < |states| ensures Consistent(states[k]) { RunKeeps(states, ops, hash, k); }
    if forall k :: 0 <= k < |states| ==> BitsAgree(states[k]) {
      forall k | 0 <= k < |ops| ensures BitsSafe(states[k], ops[k], hash) {
        ApplyBits(states[k], ops[k], hash);
        assert BitsAgree(states[k + 1]);
      }
    }
    if forall k :: 0 <= k < |ops| ==> BitsSafe(states[k], ops[k], hash) {
      forall k | 0 <= k < |states| ensures BitsAgree(states[k]) { SafeRun(states, ops, hash, k); }
    }
  }

  lemma {:induction false} SafeRun<F, B, H>(states: seq<Graph<F, B>>, ops: seq<Op<F, B>>, hash: B -> H, k: nat)
    requires IsRun(states, ops, hash) && k < |states|
    requires forall j :: 0 <= j < |states| ==> Consistent(states[j])
    requires forall j :: 0 <= j < |ops| ==> BitsSafe(states[j], ops[j], hash)
    ensures BitsAgree(states[k])
  {
    if k > 0 {
      hide Consistent, WellFormed, BitsAgree, BitsSafe, Apply, Enabled;
      SafeRun(states, ops, hash, k - 1);
      RunKeeps(states, ops, hash, k - 1);
      ApplyBits(states[k - 1], ops[k - 1], hash);
    }
  }

  // ----- Availability of whole files over runs -----

  /** What is_locally_available reports of a regular file. */
  ghost predicate Reported<B>(file: File<B>) {
    file.ready || file.slots == []
  }

  ghost predicate FlagsExact<F, B>(g: Graph<F, B>) {
    forall f :: f in g.files ==> (Reported(g.files[f]) <==> AllLocal(g.files[f].slots))
  }

  lemma NullsReported<B>(n: nat)
    ensures Reported(File<B>.File(Nulls(n), false)) <==> AllLocal<B>(Nulls(n))
  {
    if n > 0 {
      assert Nulls<B>(n)[0] == Null;
    }
  }

  lemma MarkedReported<F, B>(g: Graph<F, B>, f: F, i: nat)
    requires WellFormed(g) && FlagsExact(g) && f in g.files && i < |g.files[f].slots| && g.files[f].slots[i].Held?
    ensures FlagsExact(MarkLocal(g, f, i))
  {
    var r := MarkLocal(g, f, i);
    if g.files[f].ready {
      assert AllLocal(r.files[f].slots);
    }
  }

  lemma AssignedReported<F, B>(g: Graph<F, B>, f: F, i: nat, b: B)
    requires WellFormed(g) && FlagsExact(g) && f in g.files && i < |g.files[f].slots| && b in g.blocks
    requires g.files[f].slots[i] == Null
    ensures FlagsExact(Assign(g, f, i, b))
  {
    assert !AllLocal(g.files[f].slots);
    assert Assign(g, f, i, b).files[f].slots[i] == Held(b, false);
  }

  lemma UpdatedReported<F, B, H>(g: Graph<F, B>, f: F, other: F, hash: B -> H)
    requires Consistent(g) && FlagsExact(g) && f in g.files && other in g.files
    ensures FlagsExact(Update(g, f, other, hash))
  {
    hide SidesAgree, LocalSlotsLinked, Update;
    var r := Update(g, f, other, hash);
    if f == other {
      UpdateFromItself(g, f, hash);
      UpdateItselfReady(g, f, hash);
      NullsReported<B>(|g.files[f].slots|);
    } else {
      UpdateSlots(g, f, other, hash);
      assert r.files[f].slots == [] <==> g.files[other].slots == [];
    }
  }

  lemma UpdateItselfReady<F, B, H>(g: Graph<F, B>, f: F, hash: B -> H)
    requires Consistent(g) && f in g.files
    ensures !Update(g, f, f, hash).files[f].ready
  {
    UpdateFilled(g, f, f, hash);
  }

  lemma ApplyReported<F, B, H>(g: Graph<F, B>, op: Op<F, B>, hash: B -> H)
    requires Consistent(g) && FlagsExact(g) && Enabled(g, op)
    ensures FlagsExact(Apply(g, op, hash))
  {
    hide SidesAgree, LocalSlotsLinked, Update, MarkLocal, Assign;
    match op
    case AssignBlock(f, i, b) => AssignedReported(g, f, i, b);
    case RemoveBlocks(f) => NullsReported<B>(|g.files[f].slots|);
    case ReserveBlocks(f, n) => ClearedReported(g, f, n);
    case MarkAvailable(f, i) => MarkedReported(g, f, i);
    case UpdateFrom(f, other) => UpdatedReported(g, f, other, hash);
    case _ =>
  }

  lemma ClearedReported<F, B>(g: Graph<F, B>, f: F, n: nat)
    requires Consistent(g) && FlagsExact(g) && f in g.files
    ensures FlagsExact(Resize(RemoveAll(g, f), f, n))
  {
    RemoveAllKeeps(g, f);
    ResizeKeeps(RemoveAll(g, f), f, n);
    NullsReported<B>(n);
  }

  /** In every state of every run a regular file is reported as available iff all its slots are LOCAL. */
  lemma {:induction false} RunReported<F, B, H>(states: seq<Graph<F, B>>, ops: seq<Op<F, B>>, hash: B -> H, k: nat)
    requires IsRun(states, ops, hash) && k < |states|
    ensures forall f :: f in states[k].files ==> (Reported(states[k].files[f]) <==> AllLocal(states[k].files[f].slots))
  {
    if k > 0 {
      RunReported(states, ops, hash, k - 1);
      RunKeeps(states, ops, hash, k - 1);
      ApplyReported(states[k - 1], ops[k - 1], hash);
    }
  }

  // ----- What update calls local -----

  /** The hashes that the file really has: some slot of it that holds a block with that hash is LOCAL. */
  ghost function SlotHashes<F, B, H>(g: Graph<F, B>, f: F, hash: B -> H): set<H> {
    set b | b in g.blocks && LocalSlot(g, f, b) :: hash(b)
  }

  /** What a file has is always among what update takes it to have. */
  lemma SlotHashesKnown<F, B, H>(g: Graph<F, B>, f: F, hash: B -> H)
    requires Consistent(g) && f in g.files
    ensures SlotHashes(g, f, hash) <= LocalHashes(g, f, hash)
  {
    hide SidesAgree;
    forall b | b in g.blocks && LocalSlot(g, f, b) ensures LocalTo(g.blocks[b].links, f) {
      var i :| 0 <= i < |g.files[f].slots| && g.files[f].slots[i] == Held(b, true);
    }
  }

  /** No block of the source is taken for local without being so. */
  ghost predicate NothingInvented<F, B, H>(g: Graph<F, B>, f: F, src: seq<Slot<B>>, hash: B -> H) {
    forall i :: 0 <= i < |src| && src[i].Held? && hash(src[i].block) in LocalHashes(g, f, hash) ==>
      hash(src[i].block) in SlotHashes(g, f, hash)
  }

  /** The slots are LOCAL exactly where the file had the hash before. */
  ghost predicate LocalWhereHad<F, B, H>(g: Graph<F, B>, f: F, slots: seq<Slot<B>>, hash: B -> H) {
    forall i :: 0 <= i < |slots| && slots[i].Held? ==>
      (slots[i].local <==> hash(slots[i].block) in SlotHashes(g, f, hash))
  }

  /** After update a slot is LOCAL iff the file had its hash in a LOCAL slot before, for all slots, if
      and only if update took no block of the source for local that was not. */
  lemma UpdateLocalExact<F, B, H>(g: Graph<F, B>, f: F, other: F, hash: B -> H)
    requires Consistent(g) && f in g.files && other in g.files && other != f
    ensures f in Update(g, f, other, hash).files
    ensures LocalWhereHad(g, f, Update(g, f, other, hash).files[f].slots, hash)
       <==> NothingInvented(g, f, g.files[other].slots, hash)
  {
    hide Consistent, Update, LocalHashes, SlotHashes;
    UpdateSlots(g, f, other, hash);
    SlotHashesKnown(g, f, hash);
    var src, slots := g.files[other].slots, Update(g, f, other, hash).files[f].slots;
    assert forall i :: 0 <= i < |src| && src[i].Held? ==> slots[i].Held? && slots[i].block == src[i].block;
    assert forall i :: 0 <= i < |src| && src[i].Null? ==> slots[i].Null?;
  }

  /** Where slot bits and link bits agree, what a file has and what it is taken to have are the same. */
  lemma SlotHashesAgree<F, B, H>(g: Graph<F, B>, f: F, hash: B -> H)
    requires BitsAgree(g) && f in g.files
    ensures SlotHashes(g, f, hash) == LocalHashes(g, f, hash)
  {
    hide LocalSlot, LocalTo;
  }

  /** In every state of a run of safe steps, update leaves a slot LOCAL iff the file had its hash before. */
  lemma RunLocal<F, B, H>(states: seq<Graph<F, B>>, ops: seq<Op<F, B>>, hash: B -> H, k: nat, f: F, other: F)
    requires IsRun(states, ops, hash) && k < |states|
    requires f in states[k].files && other in states[k].files && other != f
    ensures forall j :: 0 <= j < |states| ==> Consistent(states[j])
    ensures (forall j :: 0 <= j < |ops| ==> BitsSafe(states[j], ops[j], hash)) ==>
      && SlotHashes(states[k], f, hash) == LocalHashes(states[k], f, hash)
      && f in Update(states[k], f, other, hash).files
      && LocalWhereHad(states[k], f, Update(states[k], f, other, hash).files[f].slots, hash)
  {
    hide Consistent, Update, LocalHashes, SlotHashes, BitsSafe, BitsAgree, LocalWhereHad, Enabled, Apply;
    RunBits(states, ops, hash);
    if forall j :: 0 <= j < |ops| ==> BitsSafe(states[j], ops[j], hash) {
      SlotHashesAgree(states[k], f, hash);
      UpdateLocalExact(states[k], f, other, hash);
    }
  }

  // ----- Findings: what the availability bits do not say -----

  /** File 0 holds block 0 and has it on disk; file 1 has one empty slot. */
  ghost function SharedBlock(): Graph<int, int> {
    Graph(map[0 := File([Held(0, true)], true), 1 := File([Null], false)], map[0 := Block([Link(0, 0, true)], 2)])
  }

  lemma SharedBlockConsistent()
    ensures Consistent(SharedBlock()) && BitsAgree(SharedBlock())
  {
    var g := SharedBlock();
    var l := Link(0, 0, true);
    forall b, f, i: nat | b in g.blocks && f in g.files
      ensures Occurrences(g.blocks[b].links, f, i) == if Holds(g, f, i, b) then 1 else 0
    {
      assert [l] == [] + [l];
      OccurrencesAppend([], l, f, i);
    }
    assert l in g.blocks[0].links;
    assert g.files[0].slots[0] == Held(0, true);
  }

  /** How the program gets there. */
  ghost function SharedOps(): seq<Op<int, int>> {
    [NewFile(0), NewBlock(0), ReserveBlocks(0, 1), AssignBlock(0, 0, 0), MarkAvailable(0, 0),
     NewFile(1), ReserveBlocks(1, 1)]
  }

  ghost function OneFile(file: File<int>, block: Block<int>): Graph<int, int> {
    Graph(map[0 := file], map[0 := block])
  }

  ghost function TwoFiles(file: File<int>): Graph<int, int> {
    Graph(map[0 := File([Held(0, true)], true), 1 := file], map[0 := Block([Link(0, 0, true)], 2)])
  }

  ghost function SharedStates(): seq<Graph<int, int>> {
    [Graph(map[], map[]),
     Graph(map[0 := File([], false)], map[]),
     OneFile(File([], false), Block([], 1)),
     OneFile(File([Null], false), Block([], 1)),
     OneFile(File([Held(0, false)], false), Block([Link(0, 0, false)], 2)),
     OneFile(File([Held(0, true)], true), Block([Link(0, 0, true)], 2)),
     TwoFiles(File([], false)),
     TwoFiles(File([Null], false))]
  }

  lemma EmptyFileResized(g: Graph<int, int>, f: int)
    requires Consistent(g) && f in g.files && g.files[f] == File([], false)
    requires forall b :: b in g.blocks ==> Without(g.blocks[b].links, f) == g.blocks[b].links
    ensures Resize(RemoveAll(g, f), f, 1) == g.(files := g.files[f := File([Null], false)])
  {
    hide SidesAgree, LocalSlotsLinked, Without, IndicesOf;
    var r := Resize(RemoveAll(g, f), f, 1);
    assert r.files[f].slots == [Null];
    assert r.files == g.files[f := File([Null], false)];
    forall b | b in g.blocks ensures r.blocks[b] == g.blocks[b] {
      assert |IndicesOf(g.blocks[b].links, f)| == 0;
    }
    assert r.blocks == g.blocks;
  }

  lemma FirstReserved()
    ensures var g := OneFile(File([], false), Block([], 1));
      Consistent(g) ==> Resize(RemoveAll(g, 0), 0, 1) == OneFile(File([Null], false), Block([], 1))
  {
    hide Consistent, RemoveAll, Resize, Without;
    var g := OneFile(File([], false), Block([], 1));
    WithoutNothing<int>([], 0);
    if Consistent(g) {
      EmptyFileResized(g, 0);
      assert g.files[0 := File([Null], false)] == map[0 := File([Null], false)];
    }
  }

  lemma SecondReserved()
    ensures var g := TwoFiles(File([], false));
      Consistent(g) ==> Resize(RemoveAll(g, 1), 1, 1) == TwoFiles(File([Null], false))
  {
    hide Consistent, RemoveAll, Resize, Without;
    var g := TwoFiles(File([], false));
    WithoutNothing([Link(0, 0, true)], 1);
    if Consistent(g) {
      EmptyFileResized(g, 1);
      assert g.files[1 := File([Null], false)] == TwoFiles(File([Null], false)).files;
    }
  }

  lemma FirstAssigned()
    ensures var g := OneFile(File([Null], false), Block([], 1));
      && WellFormed(g)
      && Assign(g, 0, 0, 0) == OneFile(File([Held(0, false)], false), Block([Link(0, 0, false)], 2))
  {
    var g := OneFile(File([Null], false), Block([], 1));
    var r := Assign(g, 0, 0, 0);
    assert r.files[0].slots == [Held(0, false)];
    assert r.blocks[0].links == [Link(0, 0, false)];
    assert r.files == map[0 := File([Held(0, false)], false)];
    assert r.blocks == map[0 := Block([Link(0, 0, false)], 2)];
  }

  lemma FirstMarked()
    ensures var g := OneFile(File([Held(0, false)], false), Block([Link(0, 0, false)], 2));
      && WellFormed(g)
      && MarkLocal(g, 0, 0) == OneFile(File([Held(0, true)], true), Block([Link(0, 0, true)], 2))
  {
    var g := OneFile(File([Held(0, false)], false), Block([Link(0, 0, false)], 2));
    var r := MarkLocal(g, 0, 0);
    assert r.files[0].slots == [Held(0, true)];
    assert r.blocks[0].links == [Link(0, 0, true)];
    assert r.files == map[0 := File([Held(0, true)], true)];
    assert r.blocks == map[0 := Block([Link(0, 0, true)], 2)];
  }

  /** The first steps of a run and its last one, on plain graphs. */
  lemma NewNodes()
    ensures map[][0 := File<int>.File([], false)] == map[0 := File<int>.File([], false)]
    ensures map[][0 := Block<int>.Block([], 1)] == map[0 := Block<int>.Block([], 1)]
    ensures OneFile(File([Held(0, true)], true), Block([Link(0, 0, true)], 2)).files[1 := File([], false)]
         == TwoFiles(File([], false)).files
  {
  }

  /** The state is reached by a run, so what follows happens to the program. */
  lemma SharedBlockReached(hash: int -> int)
    ensures IsRun(SharedStates(), SharedOps(), hash) && SharedStates()[7] == SharedBlock()
  {
    hide Consistent, RemoveAll, Resize, Assign, MarkLocal, Update;
    var s, ops := SharedStates(), SharedOps();
    NewNodes();
    FirstReserved();
    FirstAssigned();
    FirstMarked();
    SecondReserved();
    forall k | 0 <= k < 7
      ensures Enabled(s[k], ops[k]) && (Consistent(s[k]) ==> s[k + 1] == Apply(s[k], ops[k], hash))
    {
      assert k == 0 || k == 1 || k == 2 || k == 3 || k == 4 || k == 5 || k == 6;
    }
  }

  /** The new link of file 1 is born available although nothing of file 1 is on disk. */
  lemma BornAvailable()
    ensures var g := Assign(SharedBlock(), 1, 0, 0);
      Consistent(g) && !BitsAgree(g) && LocalTo(g.blocks[0].links, 1) && !LocalSlot(g, 1, 0)
  {
    SharedBlockConsistent();
    var g0 := SharedBlock();
    AssignKeeps(g0, 1, 0, 0);
    assert g0.blocks[0].links[0].local;
    var g := Assign(g0, 1, 0, 0);
    LocalToAppend(g0.blocks[0].links, Link(1, 0, true), 1);
    assert g.files[1].slots == [Held(0, false)];
  }

  /** When file 0 then gives the block up, the block still reports an available copy while no slot
      of any file has one. */
  lemma StaleAvailability()
    ensures var g := RemoveAll(Assign(SharedBlock(), 1, 0, 0), 0);
      AnyLocal(g.blocks[0].links) && forall f :: f in g.files ==> !LocalSlot(g, f, 0)
  {
    hide Without, IndicesOf, Occurrences;
    var g0, born := SharedBlock(), Link(1, 0, true);
    assert g0.blocks[0].links[0].local;
    var g := Assign(g0, 1, 0, 0);
    assert g.blocks[0].links == [Link(0, 0, true), born];
    WithoutMember(g.blocks[0].links, 0, born);
    AnyLocalIff(RemoveAll(g, 0).blocks[0].links);
  }

  // ----- A file that is reported available and has nothing -----

  /** A run can be continued by any operation that is enabled. */
  lemma RunExtends<F, B, H>(states: seq<Graph<F, B>>, ops: seq<Op<F, B>>, op: Op<F, B>, next: Graph<F, B>, hash: B -> H)
    requires IsRun(states, ops, hash) && Enabled(states[|ops|], op)
    requires Consistent(states[|ops|]) ==> next == Apply(states[|ops|], op, hash)
    ensures IsRun(states + [next], ops + [op], hash)
  {
    hide Consistent, Enabled, Apply;
    var s, o := states + [next], ops + [op];
    forall k | 0 <= k < |o|
      ensures Enabled(s[k], o[k]) && (Consistent(s[k]) ==> s[k + 1] == Apply(s[k], o[k], hash))
    {
      assert s[k] == states[k];
      if k < |ops| {
        assert s[k + 1] == states[k + 1] && o[k] == ops[k];
      }
    }
  }

  /** Files 1 and 2 with the given contents, next to file 0 that has block 0; `links` are those of the others. */
  ghost function Sharing(files: map<int, File<int>>, links: seq<Link<int>>): Graph<int, int> {
    Graph(map[0 := File([Held(0, true)], true)] + files, map[0 := Block([Link(0, 0, true)] + links, 2 + |links|)])
  }

  ghost function Holder(): File<int> { File([Held(0, false)], false) }

  lemma SecondAssigned()
    ensures WellFormed(SharedBlock())
    ensures Assign(SharedBlock(), 1, 0, 0) == Sharing(map[1 := Holder()], [Link(1, 0, true)])
  {
    var g := SharedBlock();
    assert g.blocks[0].links[0].local;
    var r, e := Assign(g, 1, 0, 0), Sharing(map[1 := Holder()], [Link(1, 0, true)]);
    assert r.files[1].slots == [Held(0, false)];
    assert r.files == e.files;
    assert r.blocks[0].links == e.blocks[0].links;
    assert r.blocks == e.blocks;
  }

  lemma ThirdCreated()
    ensures var g := Sharing(map[1 := Holder()], [Link(1, 0, true)]);
      g.files[2 := File([], false)] == Sharing(map[1 := Holder(), 2 := File([], false)], [Link(1, 0, true)]).files
  {
  }

  lemma ThirdReserved()
    ensures var g := Sharing(map[1 := Holder(), 2 := File([], false)], [Link(1, 0, true)]);
      Consistent(g) ==>
        Resize(RemoveAll(g, 2), 2, 1) == Sharing(map[1 := Holder(), 2 := File([Null], false)], [Link(1, 0, true)])
  {
    hide Consistent, RemoveAll, Resize, Without;
    var g := Sharing(map[1 := Holder(), 2 := File([], false)], [Link(1, 0, true)]);
    var ls := [Link(0, 0, true)] + [Link(1, 0, true)];
    WithoutNothing(ls, 2);
    if Consistent(g) {
      EmptyFileResized(g, 2);
      var e := Sharing(map[1 := Holder(), 2 := File([Null], false)], [Link(1, 0, true)]);
      assert g.files[2 := File([Null], false)] == e.files;
    }
  }

  lemma ThirdAssigned()
    ensures var g := Sharing(map[1 := Holder(), 2 := File([Null], false)], [Link(1, 0, true)]);
      && WellFormed(g)
      && Assign(g, 2, 0, 0) == Sharing(map[1 := Holder(), 2 := Holder()], [Link(1, 0, true), Link(2, 0, true)])
  {
    var g := Sharing(map[1 := Holder(), 2 := File([Null], false)], [Link(1, 0, true)]);
    assert g.blocks[0].links[0].local;
    var r, e := Assign(g, 2, 0, 0), Sharing(map[1 := Holder(), 2 := Holder()], [Link(1, 0, true), Link(2, 0, true)]);
    assert r.files[2].slots == [Held(0, false)];
    assert r.files == e.files;
    assert r.blocks[0].links == e.blocks[0].links;
    assert r.blocks == e.blocks;
  }

  /** Files 1 and 2 hold the block without having it, and both their links were born available. */
  ghost function ThreeHolders(): Graph<int, int> {
    Sharing(map[1 := Holder(), 2 := Holder()], [Link(1, 0, true), Link(2, 0, true)])
  }

  lemma ThreeHoldersReached(hash: int -> int) returns (states: seq<Graph<int, int>>, ops: seq<Op<int, int>>)
    ensures IsRun(states, ops, hash) && states[|ops|] == ThreeHolders()
  {
    hide Consistent, RemoveAll, Resize, Assign, Update, IsRun;
    SharedBlockReached(hash);
    SecondAssigned();
    ThirdCreated();
    ThirdReserved();
    ThirdAssigned();
    states, ops := SharedStates(), SharedOps();
    RunShape(states, ops, hash);
    states, ops := Extended(states, ops, AssignBlock(1, 0, 0), Sharing(map[1 := Holder()], [Link(1, 0, true)]), hash);
    states, ops := Extended(states, ops, NewFile(2),
                            Sharing(map[1 := Holder(), 2 := File([], false)], [Link(1, 0, true)]), hash);
    states, ops := Extended(states, ops, ReserveBlocks(2, 1),
                            Sharing(map[1 := Holder(), 2 := File([Null], false)], [Link(1, 0, true)]), hash);
    states, ops := Extended(states, ops, AssignBlock(2, 0, 0), ThreeHolders(), hash);
  }

  lemma RunShape<F, B, H>(states: seq<Graph<F, B>>, ops: seq<Op<F, B>>, hash: B -> H)
    requires IsRun(states, ops, hash)
    ensures |states| == |ops| + 1
  {
  }

  lemma Extended(states: seq<Graph<int, int>>, ops: seq<Op<int, int>>, op: Op<int, int>, next: Graph<int, int>,
                 hash: int -> int)
    returns (states': seq<Graph<int, int>>, ops': seq<Op<int, int>>)
    requires IsRun(states, ops, hash) && |states| == |ops| + 1 && Enabled(states[|ops|], op)
    requires Consistent(states[|ops|]) ==> next == Apply(states[|ops|], op, hash)
    ensures IsRun(states', ops', hash) && |states'| == |ops'| + 1 && states'[|ops'|] == next
  {
    hide Consistent, Enabled, Apply, IsRun;
    RunExtends(states, ops, op, next, hash);
    states', ops' := states + [next], ops + [op];
  }

  /** In that state no slot of file 1 is LOCAL; updated from file 2 it is reported as available. */
  lemma InventedCopy(hash: int -> int)
    ensures var g := ThreeHolders();
      && Consistent(g) && SlotHashes(g, 1, hash) == {}
      && Update(g, 1, 2, hash).files[1] == File([Held(0, true)], true)
  {
    hide IsRun, Update;
    var g := ThreeHolders();
    var states, ops := ThreeHoldersReached(hash);
    RunShape(states, ops, hash);
    RunKeeps(states, ops, hash, |ops|);
    hide Consistent;
    UpdateSlots(g, 1, 2, hash);
    var l := Link(1, 0, true);
    assert g.blocks[0].links[1] == l && l in g.blocks[0].links;
    assert LocalTo(g.blocks[0].links, 1);
    assert hash(0) in LocalHashes(g, 1, hash);
    var r := Update(g, 1, 2, hash).files[1];
    assert r.slots == [Held(0, true)];
  }
}
