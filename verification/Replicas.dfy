/**
  Replicas that share a file: each holds a version and changes it only by updating its own counter
  or by taking over another replica's version that contains its own. The one-counter test of
  `Contains` then decides full pointwise dominance.
 */
module Replicas {
  import opened Versions

  // ----- Reading counters -----

  predicate DistinctIds(cs: seq<Counter>) {
    forall i, j :: 0 <= i < j < |cs| ==> cs[i].id != cs[j].id
  }

  /** The value a version records for a device, or -1. */
  function At(cs: seq<Counter>, id: nat): int {
    var i := Find(cs, id);
    if i < |cs| then Plain(cs[i].value) else -1
  }

  /** Pointwise dominance: for every device that `b` knows, `a` records at least as much. */
  ghost predicate Dominates(a: seq<Counter>, b: seq<Counter>) {
    forall id: nat :: At(a, id) >= At(b, id)
  }

  function Reread(cs: seq<Counter>): seq<Counter>
    requires cs != []
  {
    FromWire(ToWire(cs))
  }

  /** A version as it is after being read from its wire form. */
  predicate Canonical(cs: seq<Counter>) {
    cs != [] && DistinctIds(cs) && cs == Reread(cs)
  }

  lemma AtMember(cs: seq<Counter>, i: nat)
    requires DistinctIds(cs) && i < |cs|
    ensures Find(cs, cs[i].id) == i && At(cs, cs[i].id) == Plain(cs[i].value)
  {
    var k := Find(cs, cs[i].id);
  }

  lemma {:induction false} FindById(a: seq<Counter>, b: seq<Counter>, id: nat)
    requires |a| == |b| && forall i :: 0 <= i < |a| ==> a[i].id == b[i].id
    ensures Find(a, id) == Find(b, id)
  {
    var i, j := Find(a, id), Find(b, id);
  }

  /** Reading from the wire form changes no recorded value. */
  lemma RereadAt(cs: seq<Counter>, id: nat)
    requires cs != []
    ensures At(Reread(cs), id) == At(cs, id)
    ensures |Reread(cs)| == |cs| && forall i :: 0 <= i < |cs| ==> Reread(cs)[i].id == cs[i].id
    ensures ToWire(Reread(cs)) == ToWire(cs)
  {
    FindById(Reread(cs), cs, id);
  }

  lemma RereadCanonical(cs: seq<Counter>)
    requires cs != [] && DistinctIds(cs)
    ensures Canonical(Reread(cs))
  {
    RereadAt(cs, 0);
  }

  lemma {:induction false} BestIsLastMark(cs: seq<Counter>, m: nat)
    requires m < |cs| && Marked(cs[m].value) && forall j :: m < j < |cs| ==> !Marked(cs[j].value)
    ensures Best(cs) == Counter(cs[m].id, Plain(cs[m].value))
  {
    if m < |cs| - 1 {
      BestIsLastMark(cs[..|cs| - 1], m);
    }
  }

  /** The best counter of a canonical version is its first greatest counter, the only marked one. */
  lemma CanonicalBest(cs: seq<Counter>)
    requires Canonical(cs)
    ensures var m := MaxIndex(ToWire(cs));
      && Best(cs) == Counter(cs[m].id, Plain(cs[m].value))
      && (forall j :: 0 <= j < |cs| ==> (Marked(cs[j].value) <==> j == m))
      && (forall j :: 0 <= j < |cs| ==> Plain(cs[j].value) <= Best(cs).value)
      && At(cs, Best(cs).id) == Best(cs).value
  {
    hide Canonical, FromWire, Best, At, MaxIndex;
    CanonicalMarks(cs);
    var w := ToWire(cs);
    var m := MaxIndex(w);
    BestIsLastMark(cs, m);
    AtMember(cs, m);
    forall j | 0 <= j < |cs| ensures Plain(cs[j].value) <= Best(cs).value {
      assert w[j].value <= w[m].value;
    }
  }

  lemma CanonicalMarks(cs: seq<Counter>)
    requires Canonical(cs)
    ensures DistinctIds(cs) && ToWire(cs) != []
    ensures forall j :: 0 <= j < |cs| ==> (Marked(cs[j].value) <==> j == MaxIndex(ToWire(cs)))
  {
    hide MaxIndex;
    var w := ToWire(cs);
    forall j | 0 <= j < |cs| ensures Marked(cs[j].value) <==> j == MaxIndex(w) {
      assert cs[j] == FromWire(w)[j];
    }
  }

  lemma AtMostBest(cs: seq<Counter>, id: nat)
    requires Canonical(cs)
    ensures At(cs, id) <= Best(cs).value
  {
    CanonicalBest(cs);
  }

  /** Dominance always passes the one-counter test. */
  lemma DominatesContains(a: seq<Counter>, b: seq<Counter>)
    requires Canonical(b) && Dominates(a, b)
    ensures ContainsSpec(a, b)
  {
    CanonicalBest(b);
    assert At(a, Best(b).id) >= At(b, Best(b).id);
  }

  // ----- One update -----

  lemma NextExceeds(p: seq<Counter>, now: Value)
    requires Canonical(p)
    ensures NextValue(p, now) > Best(p).value && AnyMarked(p)
    ensures forall j :: 0 <= j < |p| ==> Plain(p[j].value) < NextValue(p, now)
  {
    hide Canonical;
    CanonicalBest(p);
    var m := MaxIndex(ToWire(p));
    assert Marked(p[m].value);
  }

  lemma UpdatedDistinct(p: seq<Counter>, id: nat, now: Value)
    requires DistinctIds(p)
    ensures DistinctIds(Updated(p, id, now)) || !AnyMarked(p)
  {
  }

  lemma UpdatedShape(p: seq<Counter>, id: nat, now: Value)
    requires Canonical(p) && NextValue(p, now) < BEST
    ensures var u := Updated(p, id, now); var v := NextValue(p, now); var i := Find(p, id);
      && DistinctIds(u) && i < |u| && u[i] == Counter(id, Mark(v))
      && (forall j :: 0 <= j < |p| ==> j < |u| && (j != i ==> u[j] == p[j]))
      && (forall j :: 0 <= j < |u| && j != i ==> j < |p| && u[j] == p[j] && Plain(u[j].value) < v)
  {
    UpdatedDistinct(p, id, now);
    NextExceeds(p, now);
  }

  lemma MarkPlain(v: Value)
    requires v < BEST
    ensures Plain(Mark(v)) == v
  {
  }

  lemma UpdatedAt(p: seq<Counter>, id: nat, now: Value, e: nat)
    requires Canonical(p) && NextValue(p, now) < BEST
    ensures At(Updated(p, id, now), e) == if e == id then NextValue(p, now) else At(p, e)
  {
    hide Updated, NextValue, Canonical, DistinctIds, Plain, Mark;
    UpdatedShape(p, id, now);
    MarkPlain(NextValue(p, now));
    var u, i := Updated(p, id, now), Find(p, id);
    if e == id {
      AtMember(u, i);
    } else if Find(p, e) < |p| {
      var j := Find(p, e);
      assert u[j] == p[j];
      AtMember(u, j);
    }
  }

  lemma MaxIndexUnique(w: seq<Counter>, i: nat)
    requires i < |w| && forall j :: 0 <= j < |w| && j != i ==> w[j].value < w[i].value
    ensures MaxIndex(w) == i
  {
  }

  lemma UpdatedBest(p: seq<Counter>, id: nat, now: Value)
    requires Canonical(p) && NextValue(p, now) < BEST
    ensures Updated(p, id, now) != []
    ensures var n := Reread(Updated(p, id, now));
      Canonical(n) && Best(n) == Counter(id, NextValue(p, now))
  {
    hide Updated, NextValue, Canonical, DistinctIds, MaxIndex, Best, At;
    UpdatedShape(p, id, now);
    var u, i, v := Updated(p, id, now), Find(p, id), NextValue(p, now);
    var n, w := Reread(u), ToWire(u);
    RereadCanonical(u);
    RereadAt(u, id);
    CanonicalBest(n);
    assert w[i] == Counter(id, v);
    MaxIndexUnique(w, i);
    assert ToWire(n)[i] == w[i];
  }

  /** The effect of an update that is then re-read, as seen through At and Best. */
  lemma AdvanceFacts(p: seq<Counter>, id: nat, now: Value)
    requires Canonical(p) && NextValue(p, now) < BEST
    ensures Updated(p, id, now) != []
    ensures var n := Reread(Updated(p, id, now)); var v := NextValue(p, now);
      && Canonical(n) && Best(n) == Counter(id, v) && v > Best(p).value
      && (forall e: nat :: At(n, e) == if e == id then v else At(p, e))
      && (forall e: nat :: At(p, e) < v)
  {
    hide *;
    UpdatedBest(p, id, now);
    NextExceeds(p, now);
    var u := Updated(p, id, now);
    forall e: nat
      ensures At(Reread(u), e) == if e == id then NextValue(p, now) else At(p, e)
      ensures At(p, e) < NextValue(p, now)
    {
      RereadAt(u, e);
      UpdatedAt(p, id, now, e);
      AtMostBest(p, e);
    }
  }

  lemma ContainsAt(a: seq<Counter>, b: seq<Counter>)
    ensures ContainsSpec(a, b) <==> At(a, Best(b).id) >= Best(b).value
  {
  }

  /** Once re-read, an updated version contains its predecessor and is not contained in it. */
  lemma UpdateAdvances(p: seq<Counter>, id: nat, now: Value)
    requires Canonical(p) && NextValue(p, now) < BEST
    ensures Updated(p, id, now) != []
    ensures var n := Reread(Updated(p, id, now)); Dominates(n, p) && ContainsSpec(n, p) && !ContainsSpec(p, n)
  {
    hide *;
    AdvanceFacts(p, id, now);
    var n := Reread(Updated(p, id, now));
    assert At(p, id) < NextValue(p, now);
    AdvanceDominates(p, n, id, NextValue(p, now));
    DominatesContains(n, p);
    ContainsAt(p, n);
  }

  lemma AdvanceDominates(p: seq<Counter>, n: seq<Counter>, id: nat, v: int)
    requires forall e: nat :: At(n, e) == if e == id then v else At(p, e)
    requires forall e: nat :: At(p, e) < v
    ensures Dominates(n, p)
  {
    hide At;
  }

  /** Without being re-read the updated version keeps the older mark as well, and then its predecessor
      claims to contain it exactly when the device's counter stands before the marked one. */
  lemma UpdateWithoutReread(p: seq<Counter>, id: nat, now: Value)
    requires Canonical(p) && NextValue(p, now) < BEST
    ensures ContainsSpec(p, Updated(p, id, now)) <==> Find(p, id) < MaxIndex(ToWire(p))
    ensures ContainsSpec(Updated(p, id, now), p)
  {
    hide Updated, NextValue, Reread, DistinctIds, MaxIndex, Best, At, ContainsSpec;
    var u, i, m := Updated(p, id, now), Find(p, id), MaxIndex(ToWire(p));
    UpdatedShape(p, id, now);
    CanonicalBest(p);
    UpdatedAt(p, id, now, Best(p).id);
    NextExceeds(p, now);
    AtMostBest(p, id);
    ContainsAt(p, u);
    ContainsAt(u, p);
    if i < m {
      BestIsLastMark(u, m);
    } else {
      BestIsLastMark(u, i);
    }
  }

  /** Two counters of which the second is the marked one. */
  lemma TwoCounters(p: seq<Counter>, x: Value, y: Value)
    requires x < y < BEST && p == [Counter(1, x), Counter(2, Mark(y))]
    ensures ToWire(p) == [Counter(1, x), Counter(2, y)]
  {
    hide Mark, Plain;
    MarkPlain(y);
    PlainSmall(x);
    var w := ToWire(p);
    assert w[0] == Counter(1, x) && w[1] == Counter(2, y);
  }

  lemma PlainSmall(v: Value)
    requires v < BEST
    ensures Plain(v) == v && !Marked(v)
  {
  }

  lemma NextOfTwo(p: seq<Counter>, x: Value, y: Value)
    requires x < y < BEST && p == [Counter(1, x), Counter(2, Mark(y))]
    ensures NextValue(p, 0) == y + 1 && AnyMarked(p)
  {
    hide Mark, Plain, NextValue;
    MarkPlain(y);
    PlainSmall(x);
    NextOfLast(p);
    NextOfLast(p[..1]);
    NextOfNothing(p[..1][..0]);
    assert Marked(p[1].value);
  }

  lemma NextOfLast(cs: seq<Counter>)
    requires cs != []
    ensures var v := NextValue(cs[..|cs| - 1], 0); var last := cs[|cs| - 1];
      NextValue(cs, 0) == if Marked(last.value) && Plain(last.value) + 1 > v then Plain(last.value) + 1 else v
  {
  }

  lemma NextOfNothing(cs: seq<Counter>)
    requires cs == []
    ensures NextValue(cs, 0) == 0
  {
  }

  lemma CanonicalTwo(p: seq<Counter>, x: Value, y: Value)
    requires x < y < BEST && p == [Counter(1, x), Counter(2, Mark(y))]
    ensures Canonical(p) && MaxIndex(ToWire(p)) == 1
  {
    hide ToWire, MaxIndex, Mark;
    TwoCounters(p, x, y);
    MaxIndexUnique(ToWire(p), 1);
  }

  /** After an update of device 1 both counters are marked, and the older version claims to contain
      the newer one. */
  lemma StaleMarkExample()
    ensures var p := [Counter(1, 3), Counter(2, Mark(5))];
      && Canonical(p)
      && Updated(p, 1, 0) == [Counter(1, Mark(6)), Counter(2, Mark(5))]
      && ContainsSpec(p, Updated(p, 1, 0))
  {
    hide Canonical, Updated, ContainsSpec, Mark;
    var p := [Counter(1, 3), Counter(2, Mark(5))];
    StaleMark(p, 3, 5);
    assert p[0 := Counter(1, Mark(6))] == [Counter(1, Mark(6)), Counter(2, Mark(5))];
  }

  lemma StaleMark(p: seq<Counter>, x: Value, y: Value)
    requires x < y && y + 1 < BEST && p == [Counter(1, x), Counter(2, Mark(y))]
    ensures Canonical(p) && Updated(p, 1, 0) == p[0 := Counter(1, Mark(y + 1))] && ContainsSpec(p, Updated(p, 1, 0))
  {
    hide NextValue, ToWire, MaxIndex, ContainsSpec, Canonical, Mark, AnyMarked, Updated, Find;
    CanonicalTwo(p, x, y);
    NextOfTwo(p, x, y);
    UpdatedFirst(p, 1, 0);
    UpdateWithoutReread(p, 1, 0);
  }

  lemma UpdatedFirst(p: seq<Counter>, id: nat, now: Value)
    requires p != [] && p[0].id == id && AnyMarked(p)
    ensures Find(p, id) == 0 && Updated(p, id, now) == p[0 := Counter(id, Mark(NextValue(p, now)))]
  {
    hide NextValue, AnyMarked, Mark;
  }

  // ----- Runs of several replicas -----

  /** `log` collects every version that any replica has held. */
  datatype State = State(replicas: seq<seq<Counter>>, log: set<seq<Counter>>)

  datatype Step = Advance(r: nat, now: Value) | Adopt(r: nat, from: nat)

  predicate Enabled(s: State, ids: seq<nat>, step: Step)
    requires |s.replicas| == |ids|
  {
    match step
    case Advance(r, now) => r < |ids| && NextValue(s.replicas[r], now) < BEST
    case Adopt(r, from) => r < |ids| && from < |ids| && ContainsSpec(s.replicas[from], s.replicas[r])
  }

  function Apply(s: State, ids: seq<nat>, step: Step): (t: State)
    requires |s.replicas| == |ids| && Enabled(s, ids, step)
    ensures |t.replicas| == |ids|
  {
    match step
    case Advance(r, now) =>
      var n := Reread(Updated(s.replicas[r], ids[r], now));
      State(s.replicas[r := n], s.log + {n})
    case Adopt(r, from) => s.(replicas := s.replicas[r := s.replicas[from]])
  }

  ghost predicate Contained(s: State) {
    forall a, b :: a in s.log && b in s.log && ContainsSpec(a, b) ==> Dominates(a, b)
  }

  /** Nobody has seen a later counter of a replica than the replica itself. */
  ghost predicate Owned(s: State, ids: seq<nat>)
    requires |s.replicas| == |ids|
  {
    forall r, v :: 0 <= r < |ids| && v in s.log ==> At(v, ids[r]) <= At(s.replicas[r], ids[r])
  }

  ghost predicate Causal(s: State, ids: seq<nat>) {
    && |s.replicas| == |ids|
    && (forall r :: 0 <= r < |ids| ==> s.replicas[r] in s.log)
    && (forall v :: v in s.log ==> Canonical(v))
    && Contained(s)
    && Owned(s, ids)
  }

  ghost predicate DistinctDevices(ids: seq<nat>) {
    forall i, j :: 0 <= i < j < |ids| ==> ids[i] != ids[j]
  }

  /** Dominance between a new version of device `ids[r]` and any version seen so far. */
  lemma AdvanceCompared(s: State, ids: seq<nat>, r: nat, now: Value, y: seq<Counter>)
    requires Causal(s, ids) && r < |ids| && NextValue(s.replicas[r], now) < BEST && y in s.log
    ensures Updated(s.replicas[r], ids[r], now) != []
    ensures var n := Reread(Updated(s.replicas[r], ids[r], now));
      (ContainsSpec(n, y) ==> Dominates(n, y)) && !ContainsSpec(y, n)
  {
    hide Updated, Reread, Canonical, NextValue, Best, At, ContainsSpec;
    var p, id := s.replicas[r], ids[r];
    AdvanceFacts(p, id, now);
    var n := Reread(Updated(p, id, now));
    assert At(y, id) <= At(p, id);
    ContainsAt(y, n);
    if ContainsSpec(n, y) {
      var e := Best(y).id;
      ContainsAt(n, y);
      ContainsAt(p, y);
      CanonicalBest(y);
      assert At(p, e) >= At(y, e) by {
        if e != id { assert At(n, e) == At(p, e); }
      }
      assert Dominates(p, y);
      forall d: nat ensures At(n, d) >= At(y, d) {
        assert At(n, d) >= At(p, d) >= At(y, d);
      }
    }
  }

  lemma AdvanceOwned(s: State, ids: seq<nat>, r: nat, now: Value)
    requires Causal(s, ids) && DistinctDevices(ids) && Enabled(s, ids, Advance(r, now))
    ensures Owned(Apply(s, ids, Advance(r, now)), ids)
  {
    hide Updated, Reread, Canonical, NextValue, Best, At, Contained;
    var t := Apply(s, ids, Advance(r, now));
    var p := s.replicas[r];
    AdvanceFacts(p, ids[r], now);
    var n := Reread(Updated(p, ids[r], now));
    forall q, v | 0 <= q < |ids| && v in t.log ensures At(v, ids[q]) <= At(t.replicas[q], ids[q]) {
      if v in s.log {
        assert At(v, ids[q]) <= At(s.replicas[q], ids[q]);
        if q == r { assert At(p, ids[r]) < At(n, ids[r]); }
      } else if q != r {
        assert ids[q] != ids[r];
        assert At(n, ids[q]) == At(p, ids[q]) <= At(s.replicas[q], ids[q]);
      }
    }
  }

  lemma AdvanceKeeps(s: State, ids: seq<nat>, r: nat, now: Value)
    requires Causal(s, ids) && DistinctDevices(ids) && Enabled(s, ids, Advance(r, now))
    ensures Causal(Apply(s, ids, Advance(r, now)), ids)
  {
    hide Updated, Reread, Canonical, NextValue, Best, At, ContainsSpec, Owned, Dominates;
    var t := Apply(s, ids, Advance(r, now));
    AdvanceFacts(s.replicas[r], ids[r], now);
    AdvanceOwned(s, ids, r, now);
    var n := Reread(Updated(s.replicas[r], ids[r], now));
    DominatesItself(n);
    forall a, b | a in t.log && b in t.log && ContainsSpec(a, b) ensures Dominates(a, b) {
      if a == n && b in s.log {
        AdvanceCompared(s, ids, r, now, b);
      } else if b == n && a in s.log {
        AdvanceCompared(s, ids, r, now, a);
      }
    }
  }

  lemma DominatesItself(a: seq<Counter>)
    ensures Dominates(a, a)
  {
  }

  lemma DominatesAt(a: seq<Counter>, b: seq<Counter>, id: nat)
    ensures Dominates(a, b) ==> At(a, id) >= At(b, id)
  {
  }

  lemma AdoptKeeps(s: State, ids: seq<nat>, r: nat, from: nat)
    requires Causal(s, ids) && Enabled(s, ids, Adopt(r, from))
    ensures Causal(Apply(s, ids, Adopt(r, from)), ids)
  {
    hide Canonical, At, ContainsSpec, Dominates;
    DominatesAt(s.replicas[from], s.replicas[r], ids[r]);
    var t := Apply(s, ids, Adopt(r, from));
    forall q, v | 0 <= q < |ids| && v in t.log ensures At(v, ids[q]) <= At(t.replicas[q], ids[q]) {
      assert At(v, ids[q]) <= At(s.replicas[q], ids[q]);
    }
  }

  /** All replicas start from one version read from the wire. */
  function Start(wire: seq<Counter>, ids: seq<nat>): State
    requires wire != []
  {
    State(seq(|ids|, _ => FromWire(wire)), {FromWire(wire)})
  }

  predicate ValidWire(wire: seq<Counter>) {
    wire != [] && DistinctIds(wire) && forall i :: 0 <= i < |wire| ==> wire[i].value < BEST
  }

  lemma StartCanonical(wire: seq<Counter>)
    requires ValidWire(wire)
    ensures Canonical(FromWire(wire))
  {
    hide Canonical, FromWire, DistinctIds;
    PlainWire(wire);
    RereadCanonical(wire);
  }

  lemma PlainWire(wire: seq<Counter>)
    requires ValidWire(wire)
    ensures ToWire(wire) == wire && Reread(wire) == FromWire(wire) && DistinctIds(wire)
  {
    hide FromWire, DistinctIds;
  }

  /** A single version is ordered with respect to itself. */
  lemma AloneContained(s: State, v: seq<Counter>)
    requires s.log == {v}
    ensures Contained(s)
  {
    hide ContainsSpec, Dominates;
    DominatesItself(v);
  }

  lemma AloneOwned(s: State, ids: seq<nat>, v: seq<Counter>)
    requires |s.replicas| == |ids| && s.log == {v} && forall r :: 0 <= r < |ids| ==> s.replicas[r] == v
    ensures Owned(s, ids)
  {
    hide At;
  }

  lemma StartCausal(wire: seq<Counter>, ids: seq<nat>)
    requires ValidWire(wire)
    ensures Causal(Start(wire, ids), ids)
  {
    hide FromWire, Canonical, Contained, Owned, ValidWire;
    StartCanonical(wire);
    WireExists(wire);
    var s := Start(wire, ids);
    AloneContained(s, FromWire(wire));
    AloneOwned(s, ids, FromWire(wire));
  }

  lemma WireExists(wire: seq<Counter>)
    requires ValidWire(wire)
    ensures wire != []
  {
  }

  ghost predicate IsRun(states: seq<State>, steps: seq<Step>, wire: seq<Counter>, ids: seq<nat>) {
    && wire != [] && |states| == |steps| + 1 && states[0] == Start(wire, ids)
    && forall k :: 0 <= k < |steps| ==>
         && |states[k].replicas| == |ids| && Enabled(states[k], ids, steps[k])
         && states[k + 1] == Apply(states[k], ids, steps[k])
  }

  lemma {:induction false} RunCausal(states: seq<State>, steps: seq<Step>, wire: seq<Counter>, ids: seq<nat>, k: nat)
    requires ValidWire(wire) && DistinctDevices(ids) && IsRun(states, steps, wire, ids) && k < |states|
    ensures Causal(states[k], ids)
  {
    if k == 0 {
      StartCausal(wire, ids);
    } else {
      RunCausal(states, steps, wire, ids, k - 1);
      match steps[k - 1]
      case Advance(r, now) => AdvanceKeeps(states[k - 1], ids, r, now);
      case Adopt(r, from) => AdoptKeeps(states[k - 1], ids, r, from);
    }
  }

  /** In every reachable state, for any two versions that any replicas have held so far, the
      one-counter test agrees with pointwise dominance. */
  lemma ContainsIsDominance(states: seq<State>, steps: seq<Step>, wire: seq<Counter>, ids: seq<nat>, k: nat,
                            a: seq<Counter>, b: seq<Counter>)
    requires ValidWire(wire) && DistinctDevices(ids) && IsRun(states, steps, wire, ids) && k < |states|
    requires a in states[k].log && b in states[k].log
    ensures ContainsSpec(a, b) <==> Dominates(a, b)
  {
    RunCausal(states, steps, wire, ids, k);
    if Dominates(a, b) {
      DominatesContains(a, b);
    }
  }
}
