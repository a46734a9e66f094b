/**
  Version vectors. A counter carries its device id and a 64-bit value whose top bit marks the "best"
  counter. `Contains` looks at one counter only.
 */
module Versions {

  const BEST: nat := 0x8000_0000_0000_0000

  type Value = v: nat | v < 0x1_0000_0000_0000_0000

  datatype Counter = Counter(id: nat, value: Value)

  predicate Marked(v: Value) {
    v >= BEST
  }

  /** value & ~BEST_MASK */
  function Plain(v: Value): (r: Value)
    ensures r < BEST
  {
    if v >= BEST then v - BEST else v
  }

  /** value | BEST_MASK */
  function Mark(v: Value): (r: Value)
    ensures Marked(r) && (v < BEST ==> Plain(r) == v)
  {
    if v >= BEST then v else v + BEST
  }

  // ----- What the loops compute -----

  /** The last marked counter, without its mark; a zero counter when there is none. */
  function Best(cs: seq<Counter>): Counter {
    if cs == [] then Counter(0, 0)
    else
      var last := cs[|cs| - 1];
      if Marked(last.value) then Counter(last.id, Plain(last.value)) else Best(cs[..|cs| - 1])
  }

  /** Position of the first counter of a device, or the number of counters. */
  function Find(cs: seq<Counter>, id: nat): (i: nat)
    ensures i <= |cs|
    ensures i < |cs| ==> cs[i].id == id
    ensures forall j :: 0 <= j < i ==> cs[j].id != id
  {
    if cs == [] then 0 else if cs[0].id == id then 0 else 1 + Find(cs[1..], id)
  }

  function ContainsSpec(a: seq<Counter>, b: seq<Counter>): bool {
    var best := Best(b);
    var i := Find(a, best.id);
    i < |a| && Plain(a[i].value) >= best.value
  }

  /** Position of the first greatest value. */
  function MaxIndex(cs: seq<Counter>): (i: nat)
    requires cs != []
    ensures i < |cs|
    ensures forall j :: 0 <= j < |cs| ==> cs[j].value <= cs[i].value
    ensures forall j :: 0 <= j < i ==> cs[j].value < cs[i].value
  {
    if |cs| == 1 then 0
    else
      var i := MaxIndex(cs[..|cs| - 1]);
      if cs[|cs| - 1].value > cs[i].value then |cs| - 1 else i
  }

  /** A version read from the wire: the first greatest counter is marked. */
  function FromWire(w: seq<Counter>): (r: seq<Counter>)
    requires w != []
    ensures |r| == |w|
  {
    var i := MaxIndex(w);
    w[i := Counter(w[i].id, Mark(w[i].value))]
  }

  function ToWire(cs: seq<Counter>): (r: seq<Counter>)
    ensures |r| == |cs|
    ensures forall i :: 0 <= i < |cs| ==> r[i] == Counter(cs[i].id, Plain(cs[i].value))
  {
    if cs == [] then [] else ToWire(cs[..|cs| - 1]) + [Counter(cs[|cs| - 1].id, Plain(cs[|cs| - 1].value))]
  }

  /** The value that update assigns: the least that is at least the clock and above every marked counter. */
  function NextValue(cs: seq<Counter>, now: Value): (v: Value)
    ensures v >= now
    ensures forall i :: 0 <= i < |cs| && Marked(cs[i].value) ==> v > Plain(cs[i].value)
    ensures v == now || exists i :: 0 <= i < |cs| && Marked(cs[i].value) && v == Plain(cs[i].value) + 1
  {
    if cs == [] then now
    else
      var v := NextValue(cs[..|cs| - 1], now);
      var last := cs[|cs| - 1];
      if Marked(last.value) && Plain(last.value) + 1 > v then Plain(last.value) + 1 else v
  }

  predicate AnyMarked(cs: seq<Counter>) {
    exists i :: 0 <= i < |cs| && Marked(cs[i].value)
  }

  /** update: the device's counter is looked for only while some counter is marked. */
  function Updated(cs: seq<Counter>, id: nat, now: Value): seq<Counter> {
    var own := Counter(id, Mark(NextValue(cs, now)));
    var i := Find(cs, id);
    if AnyMarked(cs) && i < |cs| then cs[i := own] else cs + [own]
  }

  // ----- The object -----

  class Version {
    var counters: seq<Counter>

    constructor Read(wire: seq<Counter>)
      requires wire != []
      ensures counters == FromWire(wire)
    {
      var copy: seq<Counter> := [];
      var best, bestIndex := wire[0], 0;
      for i := 0 to |wire|
        invariant copy == wire[..i]
        invariant bestIndex < |wire| && best == wire[bestIndex]
        invariant i == 0 ==> bestIndex == 0
        invariant i > 0 ==> bestIndex == MaxIndex(wire[..i])
      {
        var c := wire[i];
        copy := copy + [c];
        assert wire[..i + 1][..i] == wire[..i];
        if c.value > best.value {
          best, bestIndex := c, i;
        }
      }
      assert wire[..|wire|] == wire;
      counters := copy[bestIndex := Counter(copy[bestIndex].id, Mark(copy[bestIndex].value))];
    }

    constructor Create(id: nat, now: Value)
      ensures counters == [Counter(id, Mark(now))]
    {
      counters := [];
      new;
      Update(id, now);
    }

    method ToProto() returns (wire: seq<Counter>)
      ensures wire == ToWire(counters)
    {
      wire := [];
      for i := 0 to |counters|
        invariant wire == ToWire(counters[..i])
      {
        assert counters[..i + 1][..i] == counters[..i];
        wire := wire + [Counter(counters[i].id, Plain(counters[i].value))];
      }
      assert counters[..|counters|] == counters;
    }

    /** The search for the counter of a device, the inner loop of update. */
    method IndexOf(id: nat) returns (i: nat)
      ensures i == Find(counters, id)
    {
      i := 0;
      while i < |counters| && counters[i].id != id
        invariant 0 <= i <= |counters|
        invariant forall j :: 0 <= j < i ==> counters[j].id != id
      {
        i := i + 1;
      }
    }

    method Update(id: nat, now: Value)
      modifies this
      ensures counters == Updated(old(counters), id, now)
    {
      hide NextValue, Find;
      NextValueStarts(counters, now);
      var v: Value := now;
      var bestIndex := -1;
      for k := 0 to |counters|
        invariant counters == old(counters)
        invariant v == NextValue(counters[..k], now)
        invariant var i := Find(counters, id);
          bestIndex == if AnyMarked(counters[..k]) && i < |counters| then i else -1
      {
        NextValueStep(counters, k, now);
        var c := counters[k];
        if Marked(c.value) {
          assert AnyMarked(counters[..k + 1]) by { assert counters[..k + 1][k] == c; }
          v := if Plain(c.value) + 1 > v then Plain(c.value) + 1 else v;
          var i := IndexOf(id);
          if i < |counters| {
            bestIndex := i;
          }
        } else {
          MarkedPrefix(counters, k);
        }
      }
      assert counters[..|counters|] == counters;
      if bestIndex < 0 {
        counters := counters + [Counter(id, Mark(v))];
      } else {
        counters := counters[bestIndex := Counter(id, Mark(v))];
      }
    }

    method GetBest() returns (r: Counter)
      ensures r == Best(counters)
    {
      r := Counter(0, 0);
      for i := 0 to |counters|
        invariant r == Best(counters[..i])
      {
        assert counters[..i + 1][..i] == counters[..i];
        if Marked(counters[i].value) {
          r := Counter(counters[i].id, Plain(counters[i].value));
        }
      }
      assert counters[..|counters|] == counters;
    }

    method Contains(other: Version) returns (r: bool)
      ensures r == ContainsSpec(counters, other.counters)
    {
      var best := other.GetBest();
      for i := 0 to |counters|
        invariant forall j :: 0 <= j < i ==> counters[j].id != best.id
      {
        if counters[i].id == best.id {
          return Plain(counters[i].value) >= best.value;
        }
      }
      return false;
    }

    method IdenticalTo(other: Version) returns (r: bool)
      ensures r <==> ToWire(counters) == ToWire(other.counters)
    {
      if |counters| == |other.counters| {
        for i := 0 to |counters|
          invariant forall j :: 0 <= j < i ==> ToWire(counters)[j] == ToWire(other.counters)[j]
        {
          if !(counters[i].id == other.counters[i].id && Plain(counters[i].value) == Plain(other.counters[i].value)) {
            assert ToWire(counters)[i] != ToWire(other.counters)[i];
            return false;
          }
        }
        return true;
      }
      return false;
    }
  }

  lemma NextValueStarts(cs: seq<Counter>, now: Value)
    ensures NextValue(cs[..0], now) == now
  {
  }

  lemma NextValueStep(cs: seq<Counter>, k: nat, now: Value)
    requires k < |cs|
    ensures var v, p := NextValue(cs[..k], now), Plain(cs[k].value);
      NextValue(cs[..k + 1], now) == if Marked(cs[k].value) && p + 1 > v then p + 1 else v
  {
    assert cs[..k + 1][..k] == cs[..k];
  }

  lemma MarkedPrefix(cs: seq<Counter>, k: nat)
    requires k < |cs| && !Marked(cs[k].value)
    ensures AnyMarked(cs[..k + 1]) <==> AnyMarked(cs[..k])
  {
    if AnyMarked(cs[..k]) {
      var i :| 0 <= i < k && Marked(cs[..k][i].value);
      assert cs[..k + 1][i] == cs[i];
    }
    if AnyMarked(cs[..k + 1]) {
      var i :| 0 <= i < k + 1 && Marked(cs[..k + 1][i].value);
      assert cs[..k][i] == cs[i];
    }
  }
}
