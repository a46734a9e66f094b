/**
  The window of block requests that a controller keeps open towards its peer: a ring of slots whose
  indices serve as request ids, and a pool of bytes.
 */
module RequestWindow {
  import opened Common

  /** What a response needs to know about its request. */
  datatype Context = Context(block: int, size: nat)

  /** `asked` records, for each id that was put on the wire and is not answered yet, what was asked. */
  datatype Window = Window(
    slots: seq<Option<Context>>,
    next: nat,
    rx: nat,
    pool: int,
    asked: map<nat, Context>)

  /** The ring size is a 32-bit number; the count of open requests is unsigned, and at least as wide. */
  const RING_MAX: nat := 0xFFFF_FFFF
  const RX_MAX: nat := 0xFFFF_FFFF_FFFF_FFFF

  function Up(rx: nat): nat {
    if rx == RX_MAX then 0 else rx + 1
  }

  function Down(rx: nat): nat {
    if rx == 0 then RX_MAX else rx - 1
  }

  function Occupied(slots: seq<Option<Context>>): (n: nat)
    ensures n <= |slots|
  {
    if slots == [] then 0
    else Occupied(slots[..|slots| - 1]) + if slots[|slots| - 1].Some? then 1 else 0
  }

  function Bytes(slots: seq<Option<Context>>): nat {
    if slots == [] then 0
    else Bytes(slots[..|slots| - 1]) + if slots[|slots| - 1].Some? then slots[|slots| - 1].value.size else 0
  }

  function Weight(s: Option<Context>): nat {
    if s.Some? then s.value.size else 0
  }

  lemma {:induction false} SlotUpdate(slots: seq<Option<Context>>, i: nat, s: Option<Context>)
    requires i < |slots|
    ensures Occupied(slots[i := s]) == Occupied(slots) - (if slots[i].Some? then 1 else 0) + (if s.Some? then 1 else 0)
    ensures Bytes(slots[i := s]) == Bytes(slots) - Weight(slots[i]) + Weight(s)
  {
    var n := |slots| - 1;
    if i == n {
      assert slots[i := s][..n] == slots[..n];
    } else {
      assert slots[i := s][..n] == slots[..n][i := s];
      SlotUpdate(slots[..n], i, s);
    }
  }

  lemma {:induction false} AllOccupied(slots: seq<Option<Context>>)
    requires forall i :: 0 <= i < |slots| ==> slots[i].Some?
    ensures Occupied(slots) == |slots|
  {
    if slots != [] {
      AllOccupied(slots[..|slots| - 1]);
    }
  }

  // ----- The ring scan -----

  function Following(i: nat, n: nat): nat {
    if i + 1 >= n then 0 else i + 1
  }

  /** The scan of preprocess_block: up to `steps` slots are looked at, starting from `i`. */
  function Scan(slots: seq<Option<Context>>, i: nat, steps: nat): (r: nat)
    requires i < |slots|
    ensures r < |slots|
    decreases steps
  {
    if steps == 0 then i
    else if slots[i].None? then i
    else Scan(slots, Following(i, |slots|), steps - 1)
  }

  /** The slot `k` places after `i` on the ring. */
  function Ahead(i: nat, k: nat, n: nat): nat
    requires i < n && k <= n
  {
    if i + k >= n then i + k - n else i + k
  }

  lemma {:induction false} ScanMisses(slots: seq<Option<Context>>, i: nat, steps: nat, k: nat)
    requires i < |slots| && k < steps <= |slots|
    requires slots[Scan(slots, i, steps)].Some?
    ensures slots[Ahead(i, k, |slots|)].Some?
    decreases steps
  {
    if slots[i].Some? && k > 0 {
      ScanMisses(slots, Following(i, |slots|), steps - 1, k - 1);
    }
  }

  /** A full turn finds a free slot whenever one exists. */
  lemma ScanFinds(slots: seq<Option<Context>>, i: nat)
    requires i < |slots| && Occupied(slots) < |slots|
    ensures slots[Scan(slots, i, |slots|)] == None
  {
    if slots[Scan(slots, i, |slots|)].Some? {
      forall j | 0 <= j < |slots| ensures slots[j].Some? {
        var k := if j >= i then j - i else j + |slots| - i;
        ScanMisses(slots, i, |slots|, k);
        assert Ahead(i, k, |slots|) == j;
      }
      AllOccupied(slots);
    }
  }

  // ----- Requests and responses -----

  /** The range test on the id of a response. */
  predicate PassesRange(id: int, ring: nat) {
    !(id > ring || id < 0)
  }

  /** The test accepts exactly the places of the ring, unless the id is the size of the ring. */
  lemma RangeTestExact(id: int, ring: nat)
    ensures (PassesRange(id, ring) <==> 0 <= id < ring) <==> id != ring
  {
  }

  /** On a window without any request the size of the ring passes the test, and is not a place of it. */
  lemma RangeTestExample(max: nat, initial: int)
    requires max > 0
    ensures PassesRange(max, |Fresh(max, initial).slots|) && !(0 <= max < |Fresh(max, initial).slots|)
  {
  }

  function Fetch(w: Window, c: Context): Window
    requires w.next < |w.slots|
  {
    var id := Scan(w.slots, w.next, |w.slots|);
    Window(w.slots[id := Some(c)],
           if w.slots[id].None? then Following(id, |w.slots|) else w.next,
           Up(w.rx), w.pool - c.size, w.asked[id := c])
  }

  /** Any response is counted first. */
  function Counted(w: Window): Window {
    w.(rx := Down(w.rx))
  }

  /** The slot of an answered request is freed; only a good response refunds the pool. */
  function Freed(w: Window, id: nat, good: bool): Window
    requires id < |w.slots| && w.slots[id].Some?
  {
    Window(w.slots[id := None], id, w.rx,
           w.pool + (if good then w.slots[id].value.size else 0), w.asked - {id})
  }

  function Respond(w: Window, id: nat, good: bool): Window
    requires id < |w.slots| && w.slots[id].Some?
  {
    Freed(Counted(w), id, good)
  }

  /** A response that nothing was asked for wraps the count around and closes the window. */
  lemma UnaskedCloses(w: Window)
    requires w.rx == 0 && |w.slots| <= RING_MAX
    ensures !Open(Counted(w)) && Counted(w).rx == RX_MAX
  {
  }

  /** The part of can_pull_more that is about the window. */
  predicate Open(w: Window) {
    w.rx < |w.slots| && w.pool >= 0
  }

  ghost predicate SlotsMatch(w: Window) {
    && (forall id :: id in w.asked ==> id < |w.slots| && w.slots[id] == Some(w.asked[id]))
    && (forall id :: 0 <= id < |w.slots| && w.slots[id].Some? ==> id in w.asked)
  }

  ghost predicate WindowInv(w: Window, max: nat, initial: int, largest: nat) {
    && |w.slots| == max <= RING_MAX && w.next < max
    && Occupied(w.slots) == w.rx
    && w.pool + Bytes(w.slots) <= initial
    && w.pool + largest >= 0
    && SlotsMatch(w)
  }

  function Fresh(max: nat, initial: int): Window
    requires max > 0
  {
    Window(seq(max, _ => None), 0, 0, initial, map[])
  }

  lemma {:induction false} NothingOccupied(slots: seq<Option<Context>>)
    requires forall i :: 0 <= i < |slots| ==> slots[i].None?
    ensures Occupied(slots) == 0 && Bytes(slots) == 0
  {
    if slots != [] {
      NothingOccupied(slots[..|slots| - 1]);
    }
  }

  lemma FreshInv(max: nat, initial: nat, largest: nat)
    requires 0 < max <= RING_MAX
    ensures WindowInv(Fresh(max, initial), max, initial, largest)
  {
    NothingOccupied(Fresh(max, initial).slots);
  }

  /** A request made through an open window takes a free id, which is not on the wire; its bytes move
      from the pool to the wire. */
  lemma FetchKeeps(w: Window, c: Context, max: nat, initial: int, largest: nat)
    requires WindowInv(w, max, initial, largest) && Open(w) && c.size <= largest
    ensures WindowInv(Fetch(w, c), max, initial, largest)
    ensures var id := Scan(w.slots, w.next, max); id !in w.asked && Fetch(w, c).asked == w.asked[id := c]
    ensures Fetch(w, c).pool + Bytes(Fetch(w, c).slots) == w.pool + Bytes(w.slots)
    ensures forall x :: Times(Fetch(w, c).slots, Some(x)) == Times(w.slots, Some(x)) + if x == c then 1 else 0
  {
    var id := Scan(w.slots, w.next, max);
    ScanFinds(w.slots, w.next);
    SlotUpdate(w.slots, id, Some(c));
    forall x ensures Times(Fetch(w, c).slots, Some(x)) == Times(w.slots, Some(x)) + if x == c then 1 else 0 {
      TimesUpdate(w.slots, id, Some(c), Some(x));
    }
  }

  /** A response retrieves what its own request stored, and leaves the other requests alone. A good one
      returns exactly the bytes that were asked for to the pool, any other loses them. */
  lemma RespondKeeps(w: Window, id: nat, good: bool, max: nat, initial: int, largest: nat)
    requires WindowInv(w, max, initial, largest) && id in w.asked
    ensures id < |w.slots| && w.slots[id] == Some(w.asked[id])
    ensures WindowInv(Respond(w, id, good), max, initial, largest)
    ensures forall other :: other in w.asked && other != id ==>
      other in Respond(w, id, good).asked && Respond(w, id, good).slots[other] == Some(w.asked[other])
    ensures Respond(w, id, good).pool == w.pool + if good then w.asked[id].size else 0
    ensures Bytes(Respond(w, id, good).slots) == Bytes(w.slots) - w.asked[id].size
    ensures forall x ::
      Times(Respond(w, id, good).slots, Some(x)) == Times(w.slots, Some(x)) - if x == w.asked[id] then 1 else 0
  {
    SlotUpdate(w.slots, id, None);
    forall x ensures
      Times(Respond(w, id, good).slots, Some(x)) == Times(w.slots, Some(x)) - if x == w.asked[id] then 1 else 0
    {
      TimesUpdate(w.slots, id, None, Some(x));
    }
  }

  /** An id that was answered is the next one to be used. */
  lemma AnsweredIsNext(w: Window, id: nat, good: bool, c: Context)
    requires id < |w.slots| && w.slots[id].Some?
    ensures Fetch(Respond(w, id, good), c).slots == w.slots[id := Some(c)]
  {
  }

  /** On free places requests take one id after the other, around the ring. */
  lemma ConsecutiveIds(w: Window, c: Context, d: Context)
    requires w.next < |w.slots| && w.slots[w.next].None?
    ensures var after := if w.next + 1 == |w.slots| then 0 else w.next + 1;
      |w.slots| > 1 && w.slots[after].None? ==>
        Fetch(Fetch(w, c), d).slots == w.slots[w.next := Some(c)][after := Some(d)]
  {
  }

  /** Bytes on the wire never exceed the pool by more than one block. */
  lemma WindowBounds(w: Window, max: nat, initial: int, largest: nat)
    requires WindowInv(w, max, initial, largest)
    ensures 0 <= w.rx <= max && Bytes(w.slots) <= initial + largest
    ensures |w.asked| == w.rx
  {
    OccupiedIds(w.slots);
    assert w.asked.Keys == Ids(w.slots);
    assert |w.asked| == |w.asked.Keys|;
  }

  function Ids(slots: seq<Option<Context>>): set<nat> {
    set id | 0 <= id < |slots| && slots[id].Some?
  }

  lemma {:induction false} OccupiedIds(slots: seq<Option<Context>>)
    ensures |Ids(slots)| == Occupied(slots)
  {
    if slots == [] {
      assert Ids(slots) == {};
    } else {
      var n := |slots| - 1;
      OccupiedIds(slots[..n]);
      assert Ids(slots) == Ids(slots[..n]) + (if slots[n].Some? then {n} else {});
    }
  }
}
