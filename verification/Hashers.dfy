/**
  Distribution of blocks over hashers. The plugin keeps one small signed 32-bit counter per hasher
  and takes the least counter off all of them on the way; the counters nevertheless order the
  hashers by the number of bytes that each has received in total.
 */
module Hashers {

  newtype int32 = x: int | -0x8000_0000 <= x < 0x8000_0000

  const LIMIT: int32 := 0x7FFF_FFFF

  // ----- What the plugin is meant to do -----

  /** The first hasher with the least total. */
  function Least(totals: seq<nat>): (k: nat)
    requires totals != []
    ensures k < |totals|
    ensures forall i :: 0 <= i < |totals| ==> totals[k] <= totals[i]
    ensures forall i :: 0 <= i < k ==> totals[k] < totals[i]
  {
    if |totals| == 1 then 0
    else
      var k := Least(totals[..|totals| - 1]);
      if totals[|totals| - 1] < totals[k] then |totals| - 1 else k
  }

  /** The totals after blocks of the given sizes, each sent to a least loaded hasher. */
  function Totals(n: nat, sizes: seq<nat>): (r: seq<nat>)
    requires n > 0
    ensures |r| == n
  {
    if sizes == [] then Zeros(n)
    else
      var before := Totals(n, sizes[..|sizes| - 1]);
      var k := Least(before);
      before[k := before[k] + sizes[|sizes| - 1]]
  }

  function Sum(s: seq<nat>): nat {
    if s == [] then 0 else Sum(s[..|s| - 1]) + s[|s| - 1]
  }

  lemma {:induction false} SumUpdate(s: seq<nat>, k: nat, v: nat)
    requires k < |s|
    ensures Sum(s[k := v]) == Sum(s) - s[k] + v
  {
    var n := |s| - 1;
    if k == n {
      assert s[k := v][..n] == s[..n];
    } else {
      assert s[k := v][..n] == s[..n][k := v];
      SumUpdate(s[..n], k, v);
    }
  }

  function Zeros(n: nat): (r: seq<nat>)
    ensures |r| == n && forall i :: 0 <= i < n ==> r[i] == 0
  {
    if n == 0 then [] else Zeros(n - 1) + [0]
  }

  lemma {:induction false} SumZero(n: nat)
    ensures Sum(Zeros(n)) == 0
  {
    if n > 0 {
      assert Zeros(n)[..n - 1] == Zeros(n - 1);
      SumZero(n - 1);
    }
  }

  ghost predicate Close(totals: seq<nat>, largest: nat) {
    forall i, j :: 0 <= i < |totals| && 0 <= j < |totals| ==> totals[i] <= totals[j] + largest
  }

  lemma StaysClose(totals: seq<nat>, size: nat, largest: nat)
    requires totals != [] && Close(totals, largest) && size <= largest
    ensures var k := Least(totals); Close(totals[k := totals[k] + size], largest)
  {
    hide Least;
  }

  /** No byte is lost, and no two hashers are ever further apart than one largest block. */
  lemma {:induction false} Balanced(n: nat, sizes: seq<nat>, largest: nat)
    requires n > 0 && forall i :: 0 <= i < |sizes| ==> sizes[i] <= largest
    ensures Sum(Totals(n, sizes)) == Sum(sizes)
    ensures Close(Totals(n, sizes), largest)
  {
    hide *;
    if sizes == [] {
      Unused(n, largest);
    } else {
      var init, last := sizes[..|sizes| - 1], sizes[|sizes| - 1];
      Balanced(n, init, largest);
      LastBlock(n, sizes);
      var before := Totals(n, init);
      SumUpdate(before, Least(before), before[Least(before)] + last);
      StaysClose(before, last, largest);
    }
  }

  lemma Unused(n: nat, largest: nat)
    requires n > 0
    ensures Sum(Totals(n, [])) == Sum([]) && Close(Totals(n, []), largest)
  {
    SumZero(n);
  }

  lemma LastBlock(n: nat, sizes: seq<nat>)
    requires n > 0 && sizes != []
    ensures var last := sizes[|sizes| - 1]; var before := Totals(n, sizes[..|sizes| - 1]); var k := Least(before);
      Totals(n, sizes) == before[k := before[k] + last] && Sum(sizes) == Sum(sizes[..|sizes| - 1]) + last
  {
  }

  // ----- The plugin -----

  class HasherPlugin {
    const usages: array<int32>
    var minUsage: int32
    /** The bytes sent to each hasher so far, and what has been taken off the counters. */
    ghost var totals: seq<nat>
    ghost var taken: nat
    ghost const largest: nat

    /** The counters are the totals, shifted down; they stay within twice the largest block. */
    ghost predicate Valid()
      reads this, usages
    {
      && 0 < usages.Length == |totals| && 2 * largest <= LIMIT as int
      && 0 <= minUsage && minUsage as int <= largest
      && (usages.Length > 1 ==> forall i :: 0 <= i < usages.Length ==>
            && minUsage <= usages[i] && usages[i] as int <= minUsage as int + largest
            && totals[i] == taken + usages[i] as int)
    }

    constructor (number: nat, ghost largest: nat)
      requires number > 0 && 2 * largest <= LIMIT as int
      ensures Valid() && fresh(usages) && usages.Length == number && this.largest == largest
      ensures totals == Totals(number, [])
    {
      usages := new int32[number](_ => 0);
      minUsage := 0;
      totals, taken := Totals(number, []), 0;
      this.largest := largest;
    }

    /** The loop of calc_digest: the least counter is taken off all counters, the first of the least is found. */
    method Renormalise() returns (minIndex: nat, minValue: int32)
      requires Valid() && usages.Length > 1
      modifies usages
      ensures minIndex < usages.Length && minValue == usages[minIndex]
      ensures forall i :: 0 <= i < usages.Length ==> usages[i] as int == old(usages[i]) as int - minUsage as int
      ensures forall i :: 0 <= i < usages.Length ==> minValue <= usages[i]
      ensures forall i :: 0 <= i < minIndex ==> minValue < usages[i]
    {
      var index := -1;
      minValue := LIMIT;
      for i := 0 to usages.Length
        invariant forall j :: 0 <= j < i ==> usages[j] as int == old(usages[j]) as int - minUsage as int
        invariant forall j :: i <= j < usages.Length ==> usages[j] == old(usages[j])
        invariant -1 <= index < i && (i > 0 ==> index >= 0)
        invariant minValue == if index < 0 then LIMIT else usages[index]
        invariant forall j :: 0 <= j < i ==> minValue <= usages[j]
        invariant forall j :: 0 <= j < index ==> minValue < usages[j]
      {
        usages[i] := usages[i] - minUsage;
        if usages[i] < minValue {
          index, minValue := i, usages[i];
        }
      }
      minIndex := index;
    }

    /** calc_digest: the hasher that gets a block of `size` bytes. With one hasher nothing is counted. */
    method CalcDigest(size: int32) returns (chosen: nat)
      requires Valid() && 0 <= size && size as int <= largest
      modifies this`minUsage, this`totals, this`taken, usages
      ensures Valid() && chosen == Least(old(totals))
      ensures totals == old(totals)[chosen := old(totals)[chosen] + size as int]
      ensures forall i :: 0 <= i < usages.Length && usages.Length > 1 ==>
        0 <= usages[i] && usages[i] as int <= 2 * largest
    {
      if usages.Length > 1 {
        var minIndex, minValue := Renormalise();
        taken := taken + minUsage as int;
        assert forall i :: 0 <= i < usages.Length ==> totals[i] == taken + usages[i] as int;
        chosen := minIndex;
        minUsage := minValue;
        usages[minIndex] := usages[minIndex] + size;
      } else {
        chosen := 0;
      }
      totals := totals[chosen := totals[chosen] + size as int];
    }
  }

  /** Over any run the plugin sends every block to a least loaded hasher, by true totals. */
  method Distribute(number: nat, sizes: seq<nat>, ghost largest: nat) returns (choices: seq<nat>)
    requires number > 0 && 2 * largest <= LIMIT as int
    requires forall i :: 0 <= i < |sizes| ==> sizes[i] <= largest
    ensures |choices| == |sizes|
    ensures forall i :: 0 <= i < |sizes| ==> choices[i] == Least(Totals(number, sizes[..i]))
  {
    hide Least, Totals;
    var plugin := new HasherPlugin(number, largest);
    choices := [];
    assert sizes[..0] == [];
    for i := 0 to |sizes|
      invariant plugin.Valid() && plugin.largest == largest && fresh(plugin) && fresh(plugin.usages)
      invariant |choices| == i && plugin.usages.Length == number
      invariant plugin.totals == Totals(number, sizes[..i])
      invariant forall j :: 0 <= j < i ==> choices[j] == Least(Totals(number, sizes[..j]))
    {
      var chosen := plugin.CalcDigest(sizes[i] as int32);
      choices := choices + [chosen];
      TotalsStep(number, sizes, i);
    }
  }

  lemma TotalsStep(n: nat, sizes: seq<nat>, i: nat)
    requires n > 0 && i < |sizes|
    ensures var before := Totals(n, sizes[..i]); var k := Least(before);
      Totals(n, sizes[..i + 1]) == before[k := before[k] + sizes[i]]
  {
    assert sizes[..i + 1][..i] == sizes[..i];
  }
}
