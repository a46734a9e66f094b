/**
  The check characters of device ids: the Luhn algorithm over an alphabet of 32 letters, and the
  errors that it detects.
 */
module Luhn32 {

  const N: int := 32

  // ----- The alphabet of section 6 of RFC 4648 -----

  /** out_alphabet: the code point of a letter, or -1. */
  function Code(c: char): (r: int)
    ensures -1 <= r < N
  {
    if 'A' <= c <= 'Z' then c as int - 'A' as int
    else if '2' <= c <= '7' then c as int - '2' as int + 26
    else -1
  }

  /** in_alphabet */
  function Letter(k: int): (c: char)
    requires 0 <= k < N
    ensures Code(c) == k
  {
    if k < 26 then 'A' + k as char else '2' + (k - 26) as char
  }

  /** Table 3 of section 6 of RFC 4648. */
  lemma Alphabet(k: nat)
    requires k < 32
    ensures Letter(k) == "ABCDEFGHIJKLMNOPQRSTUVWXYZ234567"[k]
  {
  }

  /** The table of code points has 255 entries. */
  predicate Beyond(c: char) {
    c as int >= 255
  }

  /** A byte that is negative as a signed character. */
  predicate Negative(c: char) {
    c as int >= 128
  }

  predicate IsLetter(c: char) {
    Code(c) >= 0
  }

  predicate AllLetters(s: string) {
    forall i :: 0 <= i < |s| ==> IsLetter(s[i])
  }

  lemma LetterOfCode(c: char)
    requires IsLetter(c)
    ensures Letter(Code(c)) == c
  {
  }

  // ----- The weighted sum -----

  /** The quotient and the remainder of the product add up; a bad character is carried along. */
  function Addend(product: int): int {
    if product < 0 then product else product / N + product % N
  }

  /** Characters at even places count once, the others twice. */
  function Factor(i: nat): int {
    if i % 2 == 0 then 1 else 2
  }

  function Term(i: nat, c: char): int {
    Addend(Factor(i) * Code(c))
  }

  function Sum(s: string): int {
    if s == "" then 0 else Sum(s[..|s| - 1]) + Term(|s| - 1, s[|s| - 1])
  }

  /** The letter that makes the whole sum divisible by 32. */
  function Check(s: string): char {
    Letter(-Sum(s) % N)
  }

  /** validate */
  predicate Valid(s: string) {
    s != "" && s[|s| - 1] == Check(s[..|s| - 1])
  }

  /** Remainder in the sense of C, which takes the sign of the dividend. */
  function Remainder(a: int): int {
    if a >= 0 then a % N else -(-a % N)
  }

  /** Some character is looked up past the end of the table. */
  ghost predicate Overruns(s: string) {
    exists i :: 0 <= i < |s| && Beyond(s[i])
  }

  /** calc; `broken` if it leaves the table. */
  method Calc(s: string) returns (c: char, broken: bool)
    ensures broken <==> Overruns(s)
    ensures !broken ==> c == Check(s)
  {
    c, broken := 'A', false;
    var factor, sum := 1, 0;
    for i := 0 to |s|
      invariant factor == Factor(i) && sum == Sum(s[..i]) && !broken
      invariant forall j :: 0 <= j < i ==> !Beyond(s[j])
    {
      if Beyond(s[i]) {
        return 'A', true;
      }
      var addend := factor * Code(s[i]);
      factor := if factor == 2 then 1 else 2;
      addend := if addend < 0 then addend else addend / N + addend % N;
      assert s[..i + 1][..i] == s[..i];
      sum := sum + addend;
    }
    assert s[..|s|] == s;
    var index := (N - Remainder(sum)) % N;
    CheckIndex(sum);
    c := Letter(index);
  }

  /** The check letter, and no other, makes the whole sum divisible by 32. */
  lemma CheckCompletes(s: string, c: char)
    requires IsLetter(c)
    ensures (Sum(s) + Code(c)) % 32 == 0 <==> c == Check(s)
  {
    hide Sum;
    LetterOfCode(c);
    Completes(Sum(s), Code(c));
  }

  lemma Completes(sum: int, code: int)
    requires 0 <= code < 32
    ensures (sum + code) % 32 == 0 <==> code == -sum % 32
  {
    assert -sum == -sum / 32 * 32 + -sum % 32;
    assert sum + code == (sum + code) / 32 * 32 + (sum + code) % 32;
  }

  lemma CheckIndex(sum: int)
    ensures (N - Remainder(sum)) % N == -sum % N
  {
  }

  /** validate; `broken` if it leaves the table. The last character is compared and not looked up. */
  method Validate(s: string) returns (valid: bool, broken: bool)
    ensures broken <==> s != "" && Overruns(s[..|s| - 1])
    ensures !broken ==> valid == Valid(s)
  {
    if |s| == 0 {
      return false, false;
    }
    var c;
    c, broken := Calc(s[..|s| - 1]);
    valid := s[|s| - 1] == c;
  }

  // ----- What is detected -----

  lemma {:induction false} SumUpdate(s: string, i: nat, c: char)
    requires i < |s|
    ensures Sum(s[i := c]) == Sum(s) - Term(i, s[i]) + Term(i, c)
  {
    var n := |s| - 1;
    if i == n {
      assert s[i := c][..n] == s[..n];
    } else {
      assert s[i := c][..n] == s[..n][i := c];
      SumUpdate(s[..n], i, c);
    }
  }

  /** What a code point counts for at a place where it is doubled. */
  function Doubled(k: int): int {
    if k < 16 then 2 * k else 2 * k - 31
  }

  lemma TermValue(i: nat, c: char)
    requires IsLetter(c)
    ensures Term(i, c) == if i % 2 == 0 then Code(c) else Doubled(Code(c))
  {
  }

  /** At any one place different letters count differently. */
  lemma TermInjective(i: nat, a: char, b: char)
    requires IsLetter(a) && IsLetter(b) && a != b
    ensures 0 <= Term(i, a) < N && 0 <= Term(i, b) < N && Term(i, a) != Term(i, b)
  {
    LetterOfCode(a);
    LetterOfCode(b);
    TermValue(i, a);
    TermValue(i, b);
    hide Term, Code, Letter;
  }

  /** Nearby sums have the same check letter only if they are equal. */
  lemma SameCheck(s: string, t: string)
    requires -N < Sum(s) - Sum(t) < N
    ensures Check(s) == Check(t) <==> Sum(s) == Sum(t)
  {
    hide Sum, Letter;
    NearRemainders(-Sum(s), -Sum(t));
  }

  lemma NearRemainders(a: int, b: int)
    requires -N < a - b < N
    ensures a % N == b % N <==> a == b
  {
    assert a == a / N * N + a % N && b == b / N * N + b % N;
  }

  /** Every replacement of one letter by another, in the data or in the check character, is detected. */
  lemma SubstitutionDetected(s: string, i: nat, c: char)
    requires Valid(s) && AllLetters(s) && i < |s| && IsLetter(c) && c != s[i]
    ensures !Valid(s[i := c])
  {
    hide Sum, Term, Check, Code;
    var n := |s| - 1;
    var data := s[..n];
    if i < n {
      assert s[i := c][..n] == data[i := c];
      SumUpdate(data, i, c);
      TermInjective(i, s[i], c);
      SameCheck(data, data[i := c]);
    } else {
      assert s[i := c][..n] == data;
    }
  }

  /** The letter that counts, at place `i`, for the same as any character outside of the alphabet. */
  function Blind(i: nat): char {
    if i % 2 == 0 then '7' else 'P'
  }

  lemma ForeignTerm(i: nat, a: char, c: char)
    requires IsLetter(a) && !IsLetter(c)
    ensures 0 < Term(i, a) - Term(i, c) <= N + 1
    ensures (Term(i, a) - Term(i, c)) % N == 0 <==> a == Blind(i)
  {
    hide Letter, Term;
    LetterOfCode(a);
    TermValue(i, a);
    ForeignValue(i, c);
    ForeignCode(Code(a));
    LetterOfCode(Blind(i));
  }

  lemma ForeignValue(i: nat, c: char)
    requires !IsLetter(c)
    ensures Term(i, c) == -Factor(i)
  {
  }

  lemma ForeignCode(k: int)
    requires 0 <= k < N
    ensures (k + 1) % N == 0 <==> k == 31
    ensures 0 < Doubled(k) + 2 <= N + 1 && ((Doubled(k) + 2) % N == 0 <==> k == 15)
  {
  }

  /** Sums that differ by a multiple of 32, and no others, have the same check letter. */
  lemma SameCheckModulo(s: string, t: string)
    requires 0 < Sum(s) - Sum(t) < 2 * N
    ensures Check(s) == Check(t) <==> (Sum(s) - Sum(t)) % N == 0
  {
    hide Sum, Letter;
    ModuloNear(-Sum(s), -Sum(t));
  }

  lemma ModuloNear(a: int, b: int)
    requires 0 < b - a < 2 * N
    ensures a % N == b % N <==> (b - a) % N == 0
  {
    assert a == a / N * N + a % N && b == b / N * N + b % N;
  }

  lemma LettersInTable(s: string)
    requires AllLetters(s)
    ensures !Overruns(s)
  {
    forall i | 0 <= i < |s| ensures !Beyond(s[i]) {
      assert IsLetter(s[i]);
    }
  }

  /** One character in letters leaves the table iff it is past its end. */
  lemma OverrunsAt(s: string, i: nat, c: char)
    requires AllLetters(s) && i < |s|
    ensures Overruns(s[i := c]) <==> Beyond(c)
  {
    hide Code;
    LettersInTable(s);
    if Beyond(c) {
      assert s[i := c][i] == c;
    }
    if Overruns(s[i := c]) {
      var j :| 0 <= j < |s| && Beyond(s[i := c][j]);
      assert j != i ==> Beyond(s[j]);
    }
  }

  lemma SubstitutionOverruns(s: string, i: nat, c: char)
    requires AllLetters(s) && i < |s|
    ensures Overruns(s[i := c][..|s| - 1]) <==> Beyond(c) && i + 1 < |s|
  {
    hide Code, Overruns;
    var data := s[..|s| - 1];
    if i < |data| {
      assert s[i := c][..|s| - 1] == data[i := c];
      OverrunsAt(data, i, c);
    } else {
      assert s[i := c][..|s| - 1] == data;
      LettersInTable(data);
    }
  }

  /** Replacing one character by any other leaves the table iff a byte of 255 comes into the data, and
      otherwise goes unnoticed in exactly one case: a character outside of the alphabet replaces, in the
      data, the letter that counts for the same at that place. */
  lemma SubstitutionExact(s: string, i: nat, c: char)
    requires Valid(s) && AllLetters(s) && i < |s| && c != s[i]
    ensures Overruns(s[i := c][..|s| - 1]) <==> Beyond(c) && i + 1 < |s|
    ensures Valid(s[i := c]) <==> !IsLetter(c) && i + 1 < |s| && s[i] == Blind(i)
  {
    hide Sum, Term, Check, Code, Blind, Overruns;
    SubstitutionOverruns(s, i, c);
    if IsLetter(c) {
      SubstitutionDetected(s, i, c);
    } else {
      ForeignUnnoticed(s, i, c);
    }
  }

  lemma ForeignUnnoticed(s: string, i: nat, c: char)
    requires Valid(s) && AllLetters(s) && i < |s| && !IsLetter(c)
    ensures Valid(s[i := c]) <==> i + 1 < |s| && s[i] == Blind(i)
  {
    hide Sum, Term, Code, Blind, Letter;
    var n := |s| - 1;
    var data := s[..n];
    if i < n {
      assert s[i := c][..n] == data[i := c];
      SumUpdate(data, i, c);
      ForeignTerm(i, s[i], c);
      hide Check;
      SameCheckModulo(data, data[i := c]);
    } else {
      assert s[i := c][..n] == data;
    }
  }

  /** The digit 0, which is not a letter of the alphabet, passes for a 7. */
  lemma ForeignExample()
    ensures Valid("7B") && Valid("0B") && !IsLetter('0')
  {
    assert "7B"[..1] == "7" && "0B"[..1] == "0" && "7"[..0] == "" && "0"[..0] == "";
    assert Sum("7") == 31 && Sum("0") == -1;
  }

  function Swapped(s: string, i: nat): string
    requires i + 1 < |s|
  {
    s[i := s[i + 1]][i + 1 := s[i]]
  }

  /** The first and the last letter of the alphabet. */
  predicate FirstAndLast(a: char, b: char) {
    (Code(a) == 0 && Code(b) == 31) || (Code(a) == 31 && Code(b) == 0)
  }

  lemma SwapTerms(i: nat, a: char, b: char)
    requires IsLetter(a) && IsLetter(b)
    ensures var d := Term(i, a) + Term(i + 1, b) - Term(i, b) - Term(i + 1, a);
      -N < d < N && (d == 0 <==> a == b || FirstAndLast(a, b))
  {
    hide Term, Letter;
    LetterOfCode(a);
    LetterOfCode(b);
    TermValue(i, a);
    TermValue(i, b);
    TermValue(i + 1, a);
    TermValue(i + 1, b);
    var x, y := Code(a), Code(b);
    hide Code;
    assert x == y <==> a == b;
    DoubledDifference(x, y);
  }

  lemma DoubledDifference(x: int, y: int)
    requires 0 <= x < N && 0 <= y < N
    ensures var d := x + Doubled(y) - y - Doubled(x);
      -N < d < N && (d == 0 <==> x == y || (x == 0 && y == 31) || (x == 31 && y == 0))
  {
  }

  /** The exchange of two neighbours in the data is detected, except for equal letters and for the
      first and the last letter of the alphabet. */
  lemma TranspositionDetected(s: string, i: nat)
    requires Valid(s) && AllLetters(s) && i + 2 < |s|
    ensures Valid(Swapped(s, i)) <==> s[i] == s[i + 1] || FirstAndLast(s[i], s[i + 1])
  {
    hide Sum, Term, Check, Code, FirstAndLast;
    var n := |s| - 1;
    var data := s[..n];
    assert Swapped(s, i)[..n] == Swapped(data, i);
    SumSwapped(data, i);
    SwapTerms(i, s[i], s[i + 1]);
    SameCheck(data, Swapped(data, i));
  }

  lemma SumSwapped(s: string, i: nat)
    requires i + 1 < |s|
    ensures var d := Term(i, s[i]) + Term(i + 1, s[i + 1]) - Term(i, s[i + 1]) - Term(i + 1, s[i]);
      Sum(Swapped(s, i)) == Sum(s) - d
  {
    hide Sum, Term;
    SumUpdate(s, i, s[i + 1]);
    SumUpdate(s[i := s[i + 1]], i + 1, s[i]);
  }
}
