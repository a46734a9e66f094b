/** Types that several modules share. */
module Common {

  datatype Option<+T> = None | Some(value: T)

  type Byte = b: nat | b < 256

  /** Occurrences of `x`. */
  ghost function Times<T>(s: seq<T>, x: T): nat {
    if s == [] then 0 else Times(s[..|s| - 1], x) + if s[|s| - 1] == x then 1 else 0
  }

  lemma TimesAppend<T>(s: seq<T>, y: T, x: T)
    ensures Times(s + [y], x) == Times(s, x) + if y == x then 1 else 0
  {
    assert (s + [y])[..|s|] == s;
  }

  lemma {:induction false} TimesConcat<T>(a: seq<T>, b: seq<T>, x: T)
    ensures Times(a + b, x) == Times(a, x) + Times(b, x)
  {
    if b == [] {
      assert a + b == a;
    } else {
      assert (a + b)[..|a + b| - 1] == a + b[..|b| - 1];
      TimesConcat(a, b[..|b| - 1], x);
    }
  }

  lemma {:induction false} TimesUpdate<T>(s: seq<T>, i: nat, y: T, x: T)
    requires i < |s|
    ensures Times(s[i := y], x) == Times(s, x) - (if s[i] == x then 1 else 0) + (if y == x then 1 else 0)
  {
    var n := |s| - 1;
    if i == n {
      assert s[i := y][..n] == s[..n];
    } else {
      assert s[i := y][..n] == s[..n][i := y];
      TimesUpdate(s[..n], i, y, x);
    }
  }

  /** The elements of `a` are found in `b` at the places `at`, in the same order. */
  ghost predicate FoundAt<T>(a: seq<T>, b: seq<T>, at: seq<nat>) {
    && |at| == |a|
    && (forall i :: 0 <= i < |at| ==> at[i] < |b| && a[i] == b[at[i]])
    && (forall i, j :: 0 <= i < j < |at| ==> at[i] < at[j])
  }

  ghost predicate Subsequence<T>(a: seq<T>, b: seq<T>) {
    exists at: seq<nat> :: FoundAt(a, b, at)
  }

  lemma NothingFound<T>()
    ensures Subsequence<T>([], [])
  {
    assert FoundAt<T>([], [], []);
  }

  /** With one more element behind both, or behind the second only. */
  lemma FoundLater<T>(a: seq<T>, b: seq<T>, at: seq<nat>, x: T)
    requires FoundAt(a, b, at)
    ensures FoundAt(a + [x], b + [x], at + [|b|]) && FoundAt(a, b + [x], at)
    ensures Subsequence(a + [x], b + [x]) && Subsequence(a, b + [x])
  {
    assert FoundAt(a + [x], b + [x], at + [|b|]);
    assert FoundAt(a, b + [x], at);
  }
}
