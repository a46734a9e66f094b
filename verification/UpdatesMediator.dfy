/**
  Masks for the file system events that the program causes itself. A mask is good for one event; it
  lives in one of two generations, and the older one is dropped when it expires.
 */
module UpdatesMediator {
  import opened Common

  type Path = string

  /** Masks by path, and the moment at which they expire. */
  datatype Generation = Generation(updates: map<Path, nat>, deadline: Option<int>)

  datatype State = State(next: Generation, postponed: Generation, enabled: bool)

  /** What the program is configured with: the retention interval and the test for temporary files. */
  datatype Config = Config(interval: int, temporal: Path -> bool)

  // ----- What the operations compute -----

  function Stored(g: Generation, p: Path): nat {
    if p in g.updates then g.updates[p] else 0
  }

  function Insert(g: Generation, p: Path, n: nat): Generation {
    g.(updates := g.updates[p := Stored(g, p) + n])
  }

  function InsertBoth(g: Generation, p: Path, prev: Option<Path>, n: nat, c: Config): Generation {
    var one := Insert(g, p, n);
    if prev.Some? && !c.temporal(prev.value) then Insert(one, prev.value, n) else one
  }

  /** The mask goes to the current generation, unless that one has another deadline. */
  predicate Current(s: State, deadline: int) {
    s.next.deadline == Some(deadline) || s.next.deadline == None
  }

  /** mask: a mask of the younger generation takes the older ones of the same path along. */
  function Mask(s: State, p: Path, prev: Option<Path>, deadline: int, c: Config): State {
    if !s.enabled || c.temporal(p) then s
    else if Current(s, deadline) then
      s.(next := InsertBoth(s.next.(deadline := Some(deadline)), p, prev, 1, c))
    else
      var renewed := s.postponed.(deadline := Some(s.next.deadline.value + c.interval));
      var target := if s.postponed.updates == map[] then renewed else s.postponed;
      s.(next := s.next.(updates := s.next.updates - {p}),
         postponed := InsertBoth(target, p, prev, 1 + Stored(s.next, p), c))
  }

  function Use(g: Generation, p: Path): Generation
    requires p in g.updates && g.updates[p] > 0
  {
    g.(updates := if g.updates[p] == 1 then g.updates - {p} else g.updates[p := g.updates[p] - 1])
  }

  predicate Answers(g: Generation, p: Path) {
    g.deadline.Some? && p in g.updates && g.updates[p] > 0
  }

  /** is_masked: the younger generation is asked first. */
  function IsMasked(s: State, p: Path): State {
    if Answers(s.postponed, p) then s.(postponed := Use(s.postponed, p))
    else if Answers(s.next, p) then s.(next := Use(s.next, p))
    else s
  }

  /** clean_expired */
  function Clean(s: State): State {
    s.(next := s.postponed, postponed := Generation(map[], None))
  }

  // ----- Counting -----

  /** The events of `p` that would be answered. */
  function Count(s: State, p: Path): nat {
    (if s.postponed.deadline.Some? then Stored(s.postponed, p) else 0)
    + if s.next.deadline.Some? then Stored(s.next, p) else 0
  }

  ghost predicate Sound(g: Generation) {
    (g.updates != map[] ==> g.deadline.Some?) && forall p :: p in g.updates ==> g.updates[p] > 0
  }

  ghost predicate Valid(s: State) {
    Sound(s.next) && Sound(s.postponed)
  }

  lemma CountIsStored(s: State, p: Path)
    requires Valid(s)
    ensures Count(s, p) == Stored(s.postponed, p) + Stored(s.next, p)
  {
  }

  /** A mask without a previous path adds one event of its own path and touches no other. */
  lemma MaskCounts(s: State, p: Path, deadline: int, c: Config, q: Path)
    requires Valid(s) && s.enabled && !c.temporal(p)
    ensures Valid(Mask(s, p, None, deadline, c))
    ensures Count(Mask(s, p, None, deadline, c), q) == Count(s, q) + if q == p then 1 else 0
  {
    var r := Mask(s, p, None, deadline, c);
    assert Sound(r.next) && Sound(r.postponed);
    CountIsStored(s, q);
    CountIsStored(r, q);
  }

  /** The events that one call of mask stands for. */
  function Events(p: Path, prev: Option<Path>, c: Config, q: Path): nat {
    (if q == p then 1 else 0) + (if prev == Some(q) && !c.temporal(q) then 1 else 0)
  }

  /** While the current generation has no deadline, or the same one, a mask goes there. */
  lemma MaskNow(s: State, p: Path, prev: Option<Path>, deadline: int, c: Config, q: Path)
    requires s.enabled && !c.temporal(p) && (s.next.deadline == None || s.next.deadline == Some(deadline))
    ensures var r := Mask(s, p, prev, deadline, c);
      && r.postponed == s.postponed && r.next.deadline == Some(deadline)
      && Stored(r.next, q) == Stored(s.next, q) + Events(p, prev, c, q)
  {
  }

  /** Otherwise it goes to the younger generation, and takes the masks of its path along. The deadline
      of a younger generation without masks is one interval after that of the current one. */
  lemma MaskLater(s: State, p: Path, prev: Option<Path>, deadline: int, c: Config, q: Path)
    requires s.enabled && !c.temporal(p) && s.next.deadline.Some? && s.next.deadline.value != deadline
    ensures var r := Mask(s, p, prev, deadline, c);
      && r.next.deadline == s.next.deadline
      && r.postponed.deadline == (if s.postponed.updates == map[] then Some(s.next.deadline.value + c.interval)
                                  else s.postponed.deadline)
      && Stored(r.next, q) == (if q == p then 0 else Stored(s.next, q))
      && Stored(r.postponed, q) == Stored(s.postponed, q) + Events(p, prev, c, q) * (1 + Stored(s.next, p))
  {
    var renewed := s.postponed.(deadline := Some(s.next.deadline.value + c.interval));
    InsertedEvents(renewed, p, prev, 1 + Stored(s.next, p), c, q);
    InsertedEvents(s.postponed, p, prev, 1 + Stored(s.next, p), c, q);
    hide Events, InsertBoth;
  }

  lemma InsertedEvents(g: Generation, p: Path, prev: Option<Path>, n: nat, c: Config, q: Path)
    ensures Stored(InsertBoth(g, p, prev, n, c), q) == Stored(g, q) + Events(p, prev, c, q) * n
    ensures InsertBoth(g, p, prev, n, c).deadline == g.deadline
  {
  }

  /** A rename adds one event of the new path, and one of the old path exactly unless the mask takes
      earlier masks of the new path along to the younger generation: those are then counted for the
      old path as well. A rename onto the same path counts twice. */
  lemma RenameCounts(s: State, p: Path, prev: Path, deadline: int, c: Config)
    requires Valid(s) && s.enabled && !c.temporal(p) && !c.temporal(prev)
    ensures var r := Mask(s, p, Some(prev), deadline, c);
      var later := s.next.deadline.Some? && s.next.deadline.value != deadline;
      var moved := if later then Stored(s.next, p) else 0;
      && Valid(r)
      && (prev != p ==> Count(r, p) == Count(s, p) + 1 && Count(r, prev) == Count(s, prev) + 1 + moved)
      && (prev == p ==> Count(r, p) == Count(s, p) + 2 + moved)
      && (moved == 0 <==> !later || p !in s.next.updates)
  {
    var r := Mask(s, p, Some(prev), deadline, c);
    assert Sound(r.next) && Sound(r.postponed);
    CountIsStored(s, p);
    CountIsStored(r, p);
    CountIsStored(s, prev);
    CountIsStored(r, prev);
  }

  /** One file was written, and is then renamed from "a" while the first mask is still current: two
      events of "a" are masked although one is caused. */
  lemma RenameExample(c: Config)
    requires !c.temporal("a") && !c.temporal("b")
    ensures var s := Run([MaskOp("b", 1)], true, c); var r := Mask(s, "b", Some("a"), 2, c);
      Count(s, "a") == 0 && Count(s, "b") == 1 && Count(r, "a") == 2 && Count(r, "b") == 2
  {
    hide Mask, Run, Tallied;
    FirstMask("b", 1, c);
    var s := Run([MaskOp("b", 1)], true, c);
    RenameCounts(s, "b", "a", 2, c);
  }

  lemma FirstMask(p: Path, deadline: int, c: Config)
    requires !c.temporal(p)
    ensures Run([MaskOp(p, deadline)], true, c)
         == State(Generation(map[p := 1], Some(deadline)), Generation(map[], None), true)
  {
    var ops := [MaskOp(p, deadline)];
    assert ops[..0] == [];
    var start := Run([], true, c);
    assert Run(ops, true, c) == Mask(start, p, None, deadline, c);
    assert map[][p := 1] == map[p := 1];
  }

  lemma UseSound(g: Generation, p: Path, q: Path)
    requires Sound(g) && p in g.updates
    ensures Sound(Use(g, p)) && Use(g, p).deadline == g.deadline
    ensures Stored(Use(g, p), q) == Stored(g, q) - if q == p then 1 else 0
  {
    assert g.updates != map[];
  }

  /** A question is answered exactly when there is an event to answer, and then uses one up. */
  lemma QueryCounts(s: State, p: Path, q: Path)
    requires Valid(s)
    ensures Valid(IsMasked(s, p))
    ensures Count(IsMasked(s, p), q) == Count(s, q) - if q == p && Count(s, p) > 0 then 1 else 0
    ensures (Answers(s.postponed, p) || Answers(s.next, p)) <==> Count(s, p) > 0
  {
    if Answers(s.postponed, p) {
      UseSound(s.postponed, p, q);
    } else if Answers(s.next, p) {
      UseSound(s.next, p, q);
    }
    CountIsStored(s, q);
    CountIsStored(IsMasked(s, p), q);
  }

  /** Expiry drops the current generation and nothing else. */
  lemma CleanCounts(s: State, q: Path)
    requires Valid(s)
    ensures Valid(Clean(s)) && Count(Clean(s), q) == Count(s, q) - Stored(s.next, q)
  {
    CountIsStored(s, q);
    CountIsStored(Clean(s), q);
  }

  /** A mask made while the current generation has another deadline survives the next expiry,
      together with all earlier masks of that path. */
  lemma MaskSurvives(s: State, p: Path, deadline: int, c: Config)
    requires Valid(s) && s.enabled && !c.temporal(p) && s.next.deadline.Some? && s.next.deadline.value != deadline
    ensures Count(Clean(Mask(s, p, None, deadline, c)), p) == Count(s, p) + 1
  {
    hide Mask;
    MaskCounts(s, p, deadline, c, p);
    MaskLater(s, p, None, deadline, c, p);
    CleanCounts(Mask(s, p, None, deadline, c), p);
  }

  /** Any other mask is gone after the next expiry, and with it all masks of the path that were not
      already in the younger generation. */
  lemma MaskExpires(s: State, p: Path, deadline: int, c: Config)
    requires Valid(s) && s.enabled && !c.temporal(p) && (s.next.deadline == None || s.next.deadline == Some(deadline))
    ensures Count(Clean(Mask(s, p, None, deadline, c)), p) == Stored(s.postponed, p)
  {
    hide Mask;
    var r := Mask(s, p, None, deadline, c);
    MaskCounts(s, p, deadline, c, p);
    MaskNow(s, p, None, deadline, c, p);
    CleanCounts(r, p);
    CountIsStored(r, p);
  }

  /** A question uses up an event of the younger generation first; two expiries leave nothing. */
  lemma QueryThenClean(s: State, p: Path)
    requires Valid(s)
    ensures Count(Clean(IsMasked(s, p)), p) == if Stored(s.postponed, p) > 0 then Stored(s.postponed, p) - 1 else 0
    ensures Count(Clean(Clean(s)), p) == 0
  {
    QueryCounts(s, p, p);
    CleanCounts(IsMasked(s, p), p);
    CleanCounts(s, p);
    CountIsStored(s, p);
    CountIsStored(Clean(s), p);
    CountIsStored(IsMasked(s, p), p);
  }

  // ----- Runs -----

  datatype Op = MaskOp(path: Path, deadline: int) | QueryOp(path: Path) | CleanOp | EnableOp(value: bool)

  function Apply(s: State, op: Op, c: Config): State {
    match op
    case MaskOp(p, deadline) => Mask(s, p, None, deadline, c)
    case QueryOp(p) => IsMasked(s, p)
    case CleanOp => Clean(s)
    case EnableOp(value) => s.(enabled := value)
  }

  function Run(ops: seq<Op>, enabled: bool, c: Config): State {
    if ops == [] then State(Generation(map[], None), Generation(map[], None), enabled)
    else Apply(Run(ops[..|ops| - 1], enabled, c), ops[|ops| - 1], c)
  }

  /** Accepted masks of `p`, answered questions about `p` and masks of `p` that expired. */
  datatype Tally = Tally(masks: nat, hits: nat, dropped: nat)

  function Tallied(ops: seq<Op>, enabled: bool, c: Config, p: Path): Tally {
    if ops == [] then Tally(0, 0, 0)
    else
      var t, s := Tallied(ops[..|ops| - 1], enabled, c, p), Run(ops[..|ops| - 1], enabled, c);
      match ops[|ops| - 1]
      case MaskOp(q, _) => if q == p && s.enabled && !c.temporal(p) then t.(masks := t.masks + 1) else t
      case QueryOp(q) => if q == p && Count(s, p) > 0 then t.(hits := t.hits + 1) else t
      case CleanOp => t.(dropped := t.dropped + Stored(s.next, p))
      case EnableOp(_) => t
  }

  lemma StepCounts(s: State, op: Op, c: Config, p: Path)
    requires Valid(s)
    ensures Valid(Apply(s, op, c))
    ensures var r := Count(Apply(s, op, c), p);
      match op
      case MaskOp(q, _) => r == Count(s, p) + (if q == p && s.enabled && !c.temporal(p) then 1 else 0)
      case QueryOp(q) => r == Count(s, p) - (if q == p && Count(s, p) > 0 then 1 else 0)
      case CleanOp => r == Count(s, p) - Stored(s.next, p)
      case EnableOp(_) => r == Count(s, p)
  {
    match op
    case MaskOp(q, deadline) =>
      if s.enabled && !c.temporal(q) {
        MaskCounts(s, q, deadline, c, p);
      }
    case QueryOp(q) => QueryCounts(s, q, p);
    case CleanOp => CleanCounts(s, p);
    case EnableOp(_) =>
  }

  /** In every run: the events that would be answered are the masks less the hits less the expired. */
  lemma {:induction false} Conserved(ops: seq<Op>, enabled: bool, c: Config, p: Path)
    ensures Valid(Run(ops, enabled, c))
    ensures var t := Tallied(ops, enabled, c, p); Count(Run(ops, enabled, c), p) == t.masks - t.hits - t.dropped
  {
    if ops != [] {
      hide Apply, Count, Stored;
      var init := ops[..|ops| - 1];
      Conserved(init, enabled, c, p);
      StepCounts(Run(init, enabled, c), ops[|ops| - 1], c, p);
    } else {
      CountIsStored(Run([], enabled, c), p);
    }
  }

  // ----- The object -----

  class Mediator {
    const config: Config
    var enabled: bool
    var next: Generation
    var postponed: Generation

    constructor (config: Config, enabled: bool)
      ensures View() == Run([], enabled, config) && this.config == config
    {
      this.config, this.enabled := config, enabled;
      next, postponed := Generation(map[], None), Generation(map[], None);
    }

    ghost function View(): State
      reads this
    {
      State(next, postponed, enabled)
    }

    /** mask, with `prev` absent when the path was not renamed. */
    method MaskPath(path: Path, prev: Option<Path>, deadline: int)
      modifies this`next, this`postponed
      ensures View() == Mask(old(View()), path, prev, deadline, config)
    {
      if !enabled {
        return;
      }
      if config.temporal(path) {
        return;
      }
      var counter: nat := 1;
      var target := next;
      var later := false;
      if next.deadline == Some(deadline) {
      } else if next.deadline == None {
        target := target.(deadline := Some(deadline));
      } else {
        target, later := postponed, true;
        if path in next.updates {
          counter := counter + next.updates[path];
          next := next.(updates := next.updates - {path});
        }
        if target.updates == map[] {
          target := target.(deadline := Some(next.deadline.value + config.interval));
        }
      }
      target := Inserted(target, path, counter);
      if prev.Some? && !config.temporal(prev.value) {
        target := Inserted(target, prev.value, counter);
      }
      if later {
        postponed := target;
      } else {
        next := target;
      }
      assert path !in old(next.updates) ==> old(next.updates) - {path} == old(next.updates);
    }

    method Inserted(g: Generation, path: Path, counter: nat) returns (r: Generation)
      ensures r == Insert(g, path, counter)
    {
      if path in g.updates {
        r := g.(updates := g.updates[path := g.updates[path] + counter]);
      } else {
        r := g.(updates := g.updates[path := counter]);
      }
    }

    /** is_masked: the number of events left before this one, zero if the event is not masked. */
    method Ask(path: Path) returns (events: nat)
      requires Valid(View())
      modifies this`next, this`postponed
      ensures Valid(View()) && View() == IsMasked(old(View()), path)
      ensures events > 0 <==> Count(old(View()), path) > 0
      ensures events == if Answers(old(postponed), path) then Stored(old(postponed), path) else Stored(old(next), path)
    {
      QueryCounts(View(), path, path);
      if postponed.deadline.Some? && path in postponed.updates {
        events := postponed.updates[path];
        var left := events - 1;
        var masks := postponed.updates;
        postponed := postponed.(updates := if left == 0 then masks - {path} else masks[path := left]);
        return;
      }
      if next.deadline.Some? && path in next.updates {
        events := next.updates[path];
        var left := events - 1;
        var masks := next.updates;
        next := next.(updates := if left == 0 then masks - {path} else masks[path := left]);
        return;
      }
      events := 0;
    }

    /** clean_expired: whether the generation that is current now has any masks. */
    method CleanExpired() returns (more: bool)
      modifies this`next, this`postponed
      ensures View() == Clean(old(View())) && (more <==> next.updates != map[])
    {
      next := next.(deadline := None);
      if next.updates != map[] {
        next := next.(updates := map[]);
      }
      next, postponed := postponed, next;
      more := |next.updates| > 0;
    }

    method Enable(value: bool)
      modifies this`enabled
      ensures View() == Apply(old(View()), EnableOp(value), config)
    {
      enabled := value;
    }
  }
}
