/**
  Device ids as text: the hash of a certificate in base 32, with a check letter behind each thirteen
  letters and a dash between groups of seven.
 */
module DeviceIds {
  import opened Common
  import opened Luhn32
  import opened Base32

  const SHA256_B32_SIZE: nat := 52
  const CHECK_DIGIT_INT: nat := 13
  const LUHN_ITERATIONS: nat := 4
  const LUHNIZED_SIZE: nat := 56
  const DASH_INT: nat := 7
  const DASH_ITERATIONS: nat := 8
  const DASHED_SIZE: nat := 63

  // ----- The text of an id -----

  /** The first `k` groups of thirteen letters, each with its check letter. */
  function Luhnized(s: string, k: nat): (r: string)
    requires 13 * k <= |s|
    ensures |r| == 14 * k
  {
    if k == 0 then ""
    else
      var group := s[13 * (k - 1)..13 * k];
      Luhnized(s, k - 1) + group + [Check(group)]
  }

  /** The first `k` groups of seven letters, with dashes. */
  function Dashed(t: string, k: nat): (r: string)
    requires 7 * k <= |t| && k <= DASH_ITERATIONS
    ensures |r| == if k == DASH_ITERATIONS then DASHED_SIZE else 8 * k
  {
    if k == 0 then ""
    else Dashed(t, k - 1) + t[7 * (k - 1)..7 * k] + if k < DASH_ITERATIONS then "-" else ""
  }

  function IdText(h: seq<Byte>): (r: string)
    requires |h| == 32
    ensures |r| == DASHED_SIZE
  {
    Dashed(Luhnized(Letters(Encoded(h)), LUHN_ITERATIONS), DASH_ITERATIONS)
  }

  // ----- Reading a text -----

  /** The characters other than dashes. */
  function Kept(s: string): (r: string)
    ensures |r| <= |s|
  {
    if s == "" then "" else Kept(s[..|s| - 1]) + if s[|s| - 1] == '-' then "" else [s[|s| - 1]]
  }

  /** Moving the kept characters to the front of a buffer leaves the rest of it as it was. */
  function Compacted(s: string): (r: string)
    ensures |r| == |s|
  {
    Kept(s) + s[|Kept(s)|..]
  }

  /** The characters other than the check letters. */
  function Stripped(t: string): (r: string)
    ensures |r| <= |t|
  {
    if t == "" then "" else Stripped(t[..|t| - 1]) + if (|t| - 1) % 14 == 13 then "" else [t[|t| - 1]]
  }

  predicate GroupsValid(t: string)
    requires |t| == LUHNIZED_SIZE
  {
    forall k :: 0 <= k < LUHN_ITERATIONS ==> Valid(t[14 * k..14 * k + 14])
  }

  /** from_string, as a function of the text. */
  function ParseId(text: string): Option<seq<Byte>> {
    if |text| != DASHED_SIZE then None
    else
      var t := Compacted(text)[..LUHNIZED_SIZE];
      if GroupsValid(t) then DecodedText(Stripped(t)) else None
  }

  /** The group `k` passes validate, which looks its first thirteen characters up in the table. */
  ghost predicate GroupPasses(t: string, k: nat)
    requires |t| == LUHNIZED_SIZE && k < LUHN_ITERATIONS
  {
    !GroupOverruns(t, k) && Valid(t[14 * k..14 * k + 14])
  }

  ghost predicate GroupOverruns(t: string, k: nat)
    requires |t| == LUHNIZED_SIZE && k < LUHN_ITERATIONS
  {
    Overruns(t[14 * k..14 * k + 13])
  }

  /** The groups are looked at in order up to the first that does not pass, and decoded if all pass. */
  ghost predicate Leaves(t: string)
    requires |t| == LUHNIZED_SIZE
  {
    (exists k :: 0 <= k < LUHN_ITERATIONS && GroupOverruns(t, k) && forall j :: 0 <= j < k ==> GroupPasses(t, j))
    || ((forall k :: 0 <= k < LUHN_ITERATIONS ==> GroupPasses(t, k)) && DecodeOverruns(Stripped(t)))
  }

  /** Reading the text leaves the table of code points. */
  ghost predicate ReadOverruns(text: string) {
    |text| == DASHED_SIZE && Leaves(Compacted(text)[..LUHNIZED_SIZE])
  }

  // ----- Reading undoes writing -----

  lemma {:induction false} KeptConcat(a: string, b: string)
    ensures Kept(a + b) == Kept(a) + Kept(b)
  {
    if b == "" {
      assert a + b == a;
    } else {
      assert (a + b)[..|a + b| - 1] == a + b[..|b| - 1];
      KeptConcat(a, b[..|b| - 1]);
    }
  }

  ghost predicate NoDash(s: string) {
    forall i :: 0 <= i < |s| ==> s[i] != '-'
  }

  lemma LettersNoDash(s: string)
    requires AllLetters(s)
    ensures NoDash(s)
  {
    forall i | 0 <= i < |s| ensures s[i] != '-' {
      assert IsLetter(s[i]);
    }
  }

  lemma {:induction false} KeptNoDash(s: string)
    requires NoDash(s)
    ensures Kept(s) == s
  {
    if s != "" {
      KeptNoDash(s[..|s| - 1]);
    }
  }

  lemma KeptDash()
    ensures Kept("-") == "" && Kept("") == ""
  {
    assert "-"[..0] == "";
  }

  /** Dashes come and go without touching the other characters. */
  lemma {:induction false} KeptDashed(t: string, k: nat)
    requires 7 * k <= |t| && k <= DASH_ITERATIONS
    ensures Kept(Dashed(t, k)) == Kept(t[..7 * k])
  {
    hide Kept, Dashed;
    KeptDash();
    if k == 0 {
      DashedNothing(t);
    } else {
      KeptDashed(t, k - 1);
      var before, group := Dashed(t, k - 1), t[7 * (k - 1)..7 * k];
      var dash := if k < DASH_ITERATIONS then "-" else "";
      DashedStep(t, k);
      KeptConcat(before + group, dash);
      KeptConcat(before, group);
      KeptConcat(t[..7 * (k - 1)], group);
      SliceJoin(t, 7 * (k - 1), 7 * k);
    }
  }

  lemma DashedNothing(t: string)
    ensures Dashed(t, 0) == "" == t[..0]
  {
  }

  lemma SliceJoin(t: string, i: nat, j: nat)
    requires i <= j <= |t|
    ensures t[..i] + t[i..j] == t[..j]
  {
  }

  lemma DashedStep(t: string, k: nat)
    requires 0 < k <= DASH_ITERATIONS && 7 * k <= |t|
    ensures Dashed(t, k) == Dashed(t, k - 1) + t[7 * (k - 1)..7 * k] + if k < DASH_ITERATIONS then "-" else ""
  {
  }

  lemma CompactedDashed(t: string)
    requires |t| == LUHNIZED_SIZE && NoDash(t)
    ensures Compacted(Dashed(t, DASH_ITERATIONS))[..LUHNIZED_SIZE] == t
  {
    hide Kept, Dashed;
    KeptDashed(t, DASH_ITERATIONS);
    assert t[..LUHNIZED_SIZE] == t;
    KeptNoDash(t);
  }

  lemma {:induction false} LuhnizedLetters(s: string, k: nat)
    requires 13 * k <= |s| && AllLetters(s)
    ensures AllLetters(Luhnized(s, k))
  {
    if k > 0 {
      LuhnizedLetters(s, k - 1);
    }
  }

  lemma {:induction false} LuhnizedGroup(s: string, k: nat, i: nat)
    requires 13 * k <= |s| && i < k
    ensures var group := s[13 * i..13 * i + 13]; Luhnized(s, k)[14 * i..14 * i + 14] == group + [Check(group)]
  {
    hide Check;
    var group := s[13 * (k - 1)..13 * k];
    var init, last := Luhnized(s, k - 1), group + [Check(group)];
    assert Luhnized(s, k) == init + last;
    hide Luhnized;
    if i < k - 1 {
      LuhnizedGroup(s, k - 1, i);
      LeftSlice(init, last, 14 * i, 14 * i + 14);
    } else {
      RightSlice(init, last);
    }
  }

  lemma LuhnizedStep(s: string, k: nat)
    requires 13 * k + 13 <= |s|
    ensures Luhnized(s, 0) == ""
    ensures var group := s[13 * k..13 * k + 13]; Luhnized(s, k + 1) == Luhnized(s, k) + group + [Check(group)]
  {
    hide Check;
  }

  lemma LuhnizedValid(s: string)
    requires |s| == SHA256_B32_SIZE
    ensures GroupsValid(Luhnized(s, LUHN_ITERATIONS))
  {
    hide Luhnized, Check;
    forall i | 0 <= i < LUHN_ITERATIONS ensures Valid(Luhnized(s, LUHN_ITERATIONS)[14 * i..14 * i + 14]) {
      LuhnizedGroup(s, LUHN_ITERATIONS, i);
      var group := s[13 * i..13 * i + 13];
      assert (group + [Check(group)])[..13] == group;
    }
  }

  lemma StrippedStep(t: string, c: char)
    ensures Stripped(t + [c]) == Stripped(t) + if |t| % 14 == 13 then "" else [c]
  {
    assert (t + [c])[..|t|] == t;
  }

  lemma StrippedNothing(t: string)
    ensures Stripped(t[..0]) == ""
  {
  }

  lemma {:induction false} StrippedSize(t: string)
    ensures |Stripped(t)| == |t| - |t| / 14
  {
    if t != "" {
      StrippedSize(t[..|t| - 1]);
    }
  }

  /** Within a group nothing is stripped. */
  lemma {:induction false} StrippedGroup(t: string, group: string)
    requires |t| % 14 == 0 && |group| <= 13
    ensures Stripped(t + group) == Stripped(t) + group
  {
    hide Stripped;
    if group == "" {
      assert t + group == t;
    } else {
      var init, last := group[..|group| - 1], group[|group| - 1];
      StrippedGroup(t, init);
      StrippedStep(t + init, last);
      Offset(|t|, |init|);
      assert group == init + [last];
      Associates(t, init, [last]);
      Associates(Stripped(t), init, [last]);
    }
  }

  lemma Offset(n: nat, m: nat)
    requires n % 14 == 0 && m < 13
    ensures (n + m) % 14 == m
  {
  }

  lemma {:induction false} StrippedLuhnized(s: string, k: nat)
    requires 13 * k <= |s|
    ensures Stripped(Luhnized(s, k)) == s[..13 * k]
  {
    hide Stripped, Check, Luhnized;
    if k == 0 {
      StrippedNothing(s);
      LuhnizedNothing(s);
    } else {
      StrippedLuhnized(s, k - 1);
      LuhnizedStep(s, k - 1);
      StrippedWhole(Luhnized(s, k - 1), s[13 * (k - 1)..13 * k], Check(s[13 * (k - 1)..13 * k]), k - 1);
      SliceJoin(s, 13 * (k - 1), 13 * k);
    }
  }

  lemma LuhnizedNothing(s: string)
    ensures Luhnized(s, 0) == "" == s[..0]
  {
  }

  /** A group and its check letter. */
  lemma StrippedWhole(t: string, group: string, c: char, k: nat)
    requires |t| == 14 * k && |group| == 13
    ensures Stripped(t + group + [c]) == Stripped(t) + group
  {
    hide Stripped;
    Multiple(k);
    StrippedGroup(t, group);
    StrippedStep(t + group, c);
  }

  lemma Multiple(k: nat)
    ensures 14 * k % 14 == 0 && (14 * k + 13) % 14 == 13
  {
  }

  /** The text made from a hash reads back as the hash, without leaving the table. */
  lemma IdRoundTrip(h: seq<Byte>)
    requires |h| == 32
    ensures ParseId(IdText(h)) == Some(h) && !ReadOverruns(IdText(h))
  {
    hide Letters, Encoded, Luhnized, Dashed, Compacted, GroupsValid, Stripped, DecodedText, AllLetters, ParseId, IdText,
      ReadOverruns;
    var s := Letters(Encoded(h));
    var t := Luhnized(s, LUHN_ITERATIONS);
    EncodedLetters(h);
    LuhnizedLetters(s, LUHN_ITERATIONS);
    LettersNoDash(t);
    CompactedDashed(t);
    LuhnizedValid(s);
    StrippedLuhnized(s, LUHN_ITERATIONS);
    assert s[..13 * LUHN_ITERATIONS] == s;
    TextRoundTrip(h);
    ParseParts(h, s, t);
    IdInside(h);
  }

  lemma EncodedLetters(h: seq<Byte>)
    ensures AllLetters(Letters(Encoded(h))) && |Letters(Encoded(h))| == (8 * |h| + 4) / 5
  {
    hide Letters, Encoded;
  }

  lemma ParseParts(h: seq<Byte>, s: string, t: string)
    requires |h| == 32 && s == Letters(Encoded(h)) && |s| == SHA256_B32_SIZE && t == Luhnized(s, LUHN_ITERATIONS)
    requires Compacted(Dashed(t, DASH_ITERATIONS))[..LUHNIZED_SIZE] == t && GroupsValid(t)
    requires Stripped(t) == s && DecodedText(s) == Some(h)
    ensures ParseId(IdText(h)) == Some(h)
  {
    hide Letters, Encoded, Luhnized, Dashed, Compacted, GroupsValid, Stripped, DecodedText;
  }

  // ----- A mistyped letter is noticed -----

  /** The place in the text of the letter `i` of the luhnized form. */
  function Place(i: nat): nat {
    i + i / 7
  }

  lemma DashedAppend(a: string, b: string, i: nat, c: char)
    requires i < |b|
    ensures (a + b)[|a| + i := c] == a + b[i := c]
  {
  }

  lemma LeftUpdate(a: string, b: string, i: nat, c: char)
    requires i < |a|
    ensures (a + b)[i := c] == a[i := c] + b
  {
  }

  lemma {:induction false} DashedUpdate(t: string, k: nat, i: nat, c: char)
    requires 7 * k <= |t| && k <= DASH_ITERATIONS && i < |t|
    ensures i < 7 * k ==> Place(i) < |Dashed(t, k)| && Dashed(t[i := c], k) == Dashed(t, k)[Place(i) := c]
    ensures i >= 7 * k ==> Dashed(t[i := c], k) == Dashed(t, k)
  {
    hide Dashed;
    if k == 0 {
      DashedNothing(t);
      DashedNothing(t[i := c]);
    } else {
      DashedUpdate(t, k - 1, i, c);
      DashedStep(t, k);
      DashedStep(t[i := c], k);
      var before, group, dash := Dashed(t, k - 1), t[7 * (k - 1)..7 * k], if k < DASH_ITERATIONS then "-" else "";
      if i < 7 * (k - 1) {
        assert t[i := c][7 * (k - 1)..7 * k] == group;
        LeftUpdate(before, group, Place(i), c);
        LeftUpdate(before + group, dash, Place(i), c);
      } else if i < 7 * k {
        var j := i - 7 * (k - 1);
        assert t[i := c][7 * (k - 1)..7 * k] == group[j := c];
        assert Place(i) == |before| + j;
        DashedAppend(before, group, j, c);
        LeftUpdate(before + group, dash, |before| + j, c);
      } else {
        assert t[i := c][7 * (k - 1)..7 * k] == group;
      }
    }
  }

  lemma GroupBroken(t: string, i: nat, c: char)
    requires |t| == LUHNIZED_SIZE && AllLetters(t) && GroupsValid(t) && i < |t| && IsLetter(c) && c != t[i]
    ensures !GroupsValid(t[i := c])
  {
    hide Valid, Code;
    var k := i / 14;
    var group := t[14 * k..14 * k + 14];
    assert t[i := c][14 * k..14 * k + 14] == group[i - 14 * k := c];
    SubstitutionDetected(group, i - 14 * k, c);
  }

  /** A character outside of the alphabet is not a check letter, and in the data it is not decoded. */
  lemma ForeignRejected(t: string, i: nat)
    requires |t| == LUHNIZED_SIZE && i < |t| && !IsLetter(t[i])
    ensures GroupsValid(t) ==> DecodedText(Stripped(t)) == None
  {
    hide Check, Stripped, Decoded, Codes;
    if i % 14 == 13 {
      CheckPlace(t, i / 14);
    } else {
      StrippedForeign(t, i);
    }
  }

  lemma CheckPlace(t: string, k: nat)
    requires |t| == LUHNIZED_SIZE && k < LUHN_ITERATIONS
    ensures GroupsValid(t) ==> IsLetter(t[14 * k + 13])
  {
    hide Sum;
    var group := t[14 * k..14 * k + 14];
    assert group[13] == t[14 * k + 13];
  }

  lemma {:induction false} StrippedForeign(t: string, i: nat)
    requires i < |t| && i % 14 != 13 && !IsLetter(t[i])
    ensures !AllLetters(Stripped(t))
  {
    hide Stripped, Code;
    var n := |t| - 1;
    var before := Stripped(t[..n]);
    assert t == t[..n] + [t[n]];
    StrippedStep(t[..n], t[n]);
    if i < n {
      StrippedForeign(t[..n], i);
      var j :| 0 <= j < |before| && !IsLetter(before[j]);
      assert Stripped(t)[j] == before[j];
    } else {
      assert Stripped(t)[|before|] == t[n];
    }
  }

  /** With a dash in the place of a letter the last check place holds a dash of the text. */
  lemma DashRejected(t: string, i: nat)
    requires |t| == LUHNIZED_SIZE && AllLetters(t) && i < |t|
    ensures var t' := t[i := '-']; !GroupsValid(Compacted(Dashed(t', DASH_ITERATIONS))[..LUHNIZED_SIZE])
  {
    hide Kept, Dashed, GroupsValid, Code;
    var t' := t[i := '-'];
    KeptDashed(t', DASH_ITERATIONS);
    assert t'[..LUHNIZED_SIZE] == t';
    KeptWithout(t, i);
    LastDash(t');
    var r := Compacted(Dashed(t', DASH_ITERATIONS))[..LUHNIZED_SIZE];
    assert r[55] == Dashed(t', DASH_ITERATIONS)[55];
    CheckPlace(r, 3);
    DashIsForeign();
  }

  lemma DashIsForeign()
    ensures !IsLetter('-')
  {
  }

  lemma KeptWithout(t: string, i: nat)
    requires AllLetters(t) && i < |t|
    ensures |Kept(t[i := '-'])| == |t| - 1
  {
    LettersNoDash(t);
    KeptDash();
    hide Kept, AllLetters;
    var a, b := t[..i], t[i + 1..];
    assert t[i := '-'] == a + "-" + b;
    KeptConcat(a + "-", b);
    KeptConcat(a, "-");
    KeptNoDash(a);
    KeptNoDash(b);
  }

  lemma LastDash(t: string)
    requires |t| == LUHNIZED_SIZE
    ensures Dashed(t, DASH_ITERATIONS)[55] == '-'
  {
    hide Dashed;
    DashedStep(t, 8);
    DashedStep(t, 7);
    var six, group := Dashed(t, 6), t[42..49];
    assert (six + group + "-")[55] == '-';
  }

  // ----- Leaving the table -----

  lemma JoinOverruns(a: string, b: string)
    ensures Overruns(a + b) <==> Overruns(a) || Overruns(b)
  {
    forall i | 0 <= i < |a| ensures (a + b)[i] == a[i] {}
    forall i | 0 <= i < |b| ensures (a + b)[|a| + i] == b[i] {}
    if Overruns(a + b) {
      var i :| 0 <= i < |a + b| && Beyond((a + b)[i]);
      assert if i < |a| then Beyond(a[i]) else Beyond(b[i - |a|]);
    }
  }

  lemma SliceOverruns(s: string, i: nat, j: nat)
    requires i <= j <= |s|
    ensures Overruns(s[i..j]) ==> Overruns(s)
  {
    forall k | 0 <= k < j - i ensures s[i..j][k] == s[i + k] {}
  }

  lemma {:induction false} KeptOverruns(s: string)
    ensures Overruns(Kept(s)) ==> Overruns(s)
  {
    if s != "" {
      hide Overruns;
      var n := |s| - 1;
      KeptOverruns(s[..n]);
      assert s == s[..n] + [s[n]];
      JoinOverruns(s[..n], [s[n]]);
      JoinOverruns(Kept(s[..n]), [s[n]]);
    }
  }

  lemma {:induction false} DashedOverruns(t: string, k: nat)
    requires 7 * k <= |t| && k <= DASH_ITERATIONS && !Overruns(t)
    ensures !Overruns(Dashed(t, k))
  {
    if k > 0 {
      var before, group, dash := Dashed(t, k - 1), t[7 * (k - 1)..7 * k], if k < DASH_ITERATIONS then "-" else "";
      assert !Overruns(dash);
      DashedOverruns(t, k - 1);
      DashedStep(t, k);
      hide Dashed, Overruns;
      SliceOverruns(t, 7 * (k - 1), 7 * k);
      JoinOverruns(before, group);
      JoinOverruns(before + group, dash);
    }
  }

  lemma CompactedOverruns(s: string)
    requires !Overruns(s)
    ensures !Overruns(Compacted(s))
  {
    hide Overruns, Kept;
    KeptOverruns(s);
    SliceOverruns(s, |Kept(s)|, |s|);
    assert s[|Kept(s)|..|s|] == s[|Kept(s)|..];
    JoinOverruns(Kept(s), s[|Kept(s)|..]);
  }

  /** A text inside of the table whose groups do not all pass is not decoded. */
  lemma StaysInside(t: string)
    requires |t| == LUHNIZED_SIZE && !Overruns(t) && !GroupsValid(t)
    ensures !Leaves(t)
  {
    hide Overruns, Valid, DecodeOverruns, Stripped;
    forall k | 0 <= k < LUHN_ITERATIONS ensures !GroupOverruns(t, k) {
      SliceOverruns(t, 14 * k, 14 * k + 13);
    }
    var k :| 0 <= k < LUHN_ITERATIONS && !Valid(t[14 * k..14 * k + 14]);
    assert !GroupPasses(t, k);
  }

  /** A dash in the place of a letter does not lead out of the table. */
  lemma DashInside(t: string, i: nat)
    requires |t| == LUHNIZED_SIZE && AllLetters(t) && i < |t|
    ensures !Leaves(Compacted(Dashed(t[i := '-'], DASH_ITERATIONS))[..LUHNIZED_SIZE])
  {
    hide Dashed, Compacted, GroupsValid, Leaves, AllLetters;
    OverrunsAt(t, i, '-');
    hide Overruns;
    var text := Dashed(t[i := '-'], DASH_ITERATIONS);
    DashedOverruns(t[i := '-'], DASH_ITERATIONS);
    CompactedOverruns(text);
    SliceOverruns(Compacted(text), 0, LUHNIZED_SIZE);
    DashRejected(t, i);
    StaysInside(Compacted(text)[..LUHNIZED_SIZE]);
  }

  lemma {:induction false} StrippedUpdate(t: string, i: nat, c: char)
    requires i < |t| && i % 14 != 13
    ensures i - i / 14 < |Stripped(t)| && Stripped(t[i := c]) == Stripped(t)[i - i / 14 := c]
  {
    hide Stripped;
    var n := |t| - 1;
    var init, last := t[..n], t[n];
    StrippedSize(init);
    assert t == init + [last];
    StrippedStep(init, last);
    if i < n {
      StrippedUpdate(init, i, c);
      assert t[i := c] == init[i := c] + [last];
      StrippedStep(init[i := c], last);
    } else {
      assert t[i := c] == init + [c];
      StrippedStep(init, c);
    }
  }

  lemma {:induction false} StrippedLetters(t: string)
    requires AllLetters(t)
    ensures AllLetters(Stripped(t))
  {
    if t != "" {
      StrippedLetters(t[..|t| - 1]);
    }
  }

  /** One group holds the new character; the others pass as before. */
  lemma GroupUpdate(t: string, i: nat, c: char, k: nat)
    requires |t| == LUHNIZED_SIZE && AllLetters(t) && GroupsValid(t) && i < |t| && c != t[i] && k < LUHN_ITERATIONS
    ensures k != i / 14 ==> GroupPasses(t[i := c], k) && !GroupOverruns(t[i := c], k)
    ensures k == i / 14 ==> (GroupOverruns(t[i := c], k) <==> Beyond(c) && i % 14 != 13)
    ensures k == i / 14 ==>
      (Valid(t[i := c][14 * k..14 * k + 14]) <==> !IsLetter(c) && i % 14 != 13 && t[i] == Blind(i % 14))
  {
    hide Valid, Code, Overruns, Blind;
    var t' := t[i := c];
    var group := t[14 * k..14 * k + 14];
    var group' := t'[14 * k..14 * k + 14];
    assert t'[14 * k..14 * k + 13] == group'[..13];
    if k == i / 14 {
      assert group' == group[i % 14 := c];
      SubstitutionExact(group, i % 14, c);
    } else {
      assert group' == group;
      LettersInTable(group[..13]);
    }
  }

  /** With one character replaced, the groups before it pass, and the one that holds it decides. */
  lemma LeavesWhere(t: string, i: nat, c: char)
    requires |t| == LUHNIZED_SIZE && AllLetters(t) && GroupsValid(t) && i < |t| && c != t[i]
    ensures Leaves(t[i := c]) <==> i % 14 != 13 && Negative(c) && (Beyond(c) || t[i] == Blind(i % 14))
  {
    hide Valid, Code, Overruns, DecodeOverruns, Stripped, Blind, GroupOverruns, GroupsValid, AllLetters;
    var t' := t[i := c];
    var m := i / 14;
    forall k | 0 <= k < LUHN_ITERATIONS
      ensures k != m ==> GroupPasses(t', k) && !GroupOverruns(t', k)
    {
      GroupUpdate(t, i, c, k);
    }
    GroupUpdate(t, i, c, m);
    assert GroupPasses(t', m) <==> !Beyond(c) && !IsLetter(c) && i % 14 != 13 && t[i] == Blind(i % 14);
    if !IsLetter(c) && i % 14 != 13 {
      StrippedUpdate(t, i, c);
      StrippedLetters(t);
      ForeignOverruns(Stripped(t), i - i / 14, c);
    }
    if Negative(c) {
      NegativeIsForeign(c);
    }
  }

  /** Any letter of an id replaced by any other character makes the text unreadable, but for bytes above
      127. Such a byte leads out of the table exactly where it is looked up: a byte of 255 by validate,
      any other by decode, which it reaches in the place of the letter that counts for the same. */
  lemma MistypedIdRejected(h: seq<Byte>, i: nat, c: char)
    requires |h| == 32 && i < LUHNIZED_SIZE && Place(i) < DASHED_SIZE && c != IdText(h)[Place(i)]
    ensures ParseId(IdText(h)[Place(i) := c]) == None
    ensures ReadOverruns(IdText(h)[Place(i) := c]) <==>
      i % 14 != 13 && Negative(c) && (Beyond(c) || IdText(h)[Place(i)] == Blind(i % 14))
  {
    hide Letters, Encoded, Luhnized, Dashed, Compacted, GroupsValid, DecodedText, Code, Stripped, Leaves, Blind;
    var s := Letters(Encoded(h));
    var t := Luhnized(s, LUHN_ITERATIONS);
    EncodedLetters(h);
    LuhnizedLetters(s, LUHN_ITERATIONS);
    LettersNoDash(t);
    LuhnizedValid(s);
    DashedUpdate(t, DASH_ITERATIONS, i, c);
    DashedUpdate(t, DASH_ITERATIONS, i, t[i]);
    assert t[i := t[i]] == t;
    if c == '-' {
      DashRejected(t, i);
      DashInside(t, i);
    } else {
      CompactedDashed(t[i := c]);
      LeavesWhere(t, i, c);
      if IsLetter(c) {
        GroupBroken(t, i, c);
      } else {
        ForeignRejected(t[i := c], i);
      }
    }
  }

  /** The text of an id is read inside of the table. */
  lemma IdInside(h: seq<Byte>)
    requires |h| == 32
    ensures !ReadOverruns(IdText(h))
  {
    hide Letters, Encoded, Luhnized, Dashed, Compacted, GroupsValid, Stripped, AllLetters;
    var s := Letters(Encoded(h));
    var t := Luhnized(s, LUHN_ITERATIONS);
    EncodedLetters(h);
    LuhnizedLetters(s, LUHN_ITERATIONS);
    LettersNoDash(t);
    CompactedDashed(t);
    StrippedLetters(t);
    StrippedSize(t);
    NothingNegative(Stripped(t));
    LettersInTable(t);
    hide Overruns, DecodeOverruns, Valid;
    forall k | 0 <= k < LUHN_ITERATIONS ensures !GroupOverruns(t, k) {
      SliceOverruns(t, 14 * k, 14 * k + 13);
    }
  }

  /** The id of a hash that begins with 255 begins with 7; the byte 128 in its place leads out of the table. */
  lemma NegativeExample(h: seq<Byte>)
    requires |h| == 32 && h[0] == 255
    ensures ReadOverruns(IdText(h)[0 := 128 as char])
  {
    hide Letters, Encoded, Luhnized, Dashed, ReadOverruns;
    var s := Letters(Encoded(h));
    var t := Luhnized(s, LUHN_ITERATIONS);
    FirstDigit(h);
    EncodedLetters(h);
    assert s[0] == '7';
    LuhnizedGroup(s, LUHN_ITERATIONS, 0);
    assert t[0] == t[0..14][0] == '7';
    DashedUpdate(t, DASH_ITERATIONS, 0, t[0]);
    assert t[0 := t[0]] == t;
    MistypedIdRejected(h, 0, 128 as char);
  }

  lemma SamePiece(t: string, k: nat, piece: string)
    requires |t| == LUHNIZED_SIZE && k < LUHN_ITERATIONS && |piece| == 14
    requires forall j :: 0 <= j < 14 ==> piece[j] == t[14 * k + j]
    ensures piece == t[14 * k..14 * k + 14] && piece[..13] == t[14 * k..14 * k + 13]
  {
  }

  lemma PassesInside(t: string)
    requires |t| == LUHNIZED_SIZE && forall k :: 0 <= k < LUHN_ITERATIONS ==> GroupPasses(t, k)
    ensures GroupsValid(t) && (Leaves(t) <==> DecodeOverruns(Stripped(t)))
  {
    hide Valid, Overruns, Stripped, DecodeOverruns;
    forall k | 0 <= k < LUHN_ITERATIONS ensures Valid(t[14 * k..14 * k + 14]) && !GroupOverruns(t, k) {
      assert GroupPasses(t, k);
    }
  }

  lemma FirstFailure(t: string, k: nat)
    requires |t| == LUHNIZED_SIZE && k < LUHN_ITERATIONS && !GroupOverruns(t, k) && !Valid(t[14 * k..14 * k + 14])
    requires forall j :: 0 <= j < k ==> GroupPasses(t, j)
    ensures !Leaves(t) && !GroupsValid(t)
  {
    hide Valid, Overruns, Stripped, DecodeOverruns;
    assert !GroupPasses(t, k);
    forall j | 0 <= j < k ensures !GroupOverruns(t, j) {
      assert GroupPasses(t, j);
    }
  }

  // ----- The methods -----

  /** memcpy behind what has been written. */
  method Append(buffer: array<char>, at: nat, piece: string) returns (end: nat)
    requires at + |piece| <= buffer.Length
    modifies buffer
    ensures end == at + |piece| && buffer[..end] == old(buffer[..at]) + piece
  {
    for i := 0 to |piece|
      invariant buffer[..at + i] == old(buffer[..at]) + piece[..i]
    {
      buffer[at + i] := piece[i];
    }
    assert piece[..|piece|] == piece;
    end := at + |piece|;
  }

  method Luhnize(s: string) returns (t: string)
    requires |s| == SHA256_B32_SIZE && AllLetters(s)
    ensures t == Luhnized(s, LUHN_ITERATIONS)
  {
    hide Luhnized, Check;
    var luhnized := new char[LUHNIZED_SIZE](_ => '\0');
    var ptr := 0;
    LuhnizedStep(s, 0);
    for i := 0 to LUHN_ITERATIONS
      invariant ptr == 14 * i && luhnized[..ptr] == Luhnized(s, i)
    {
      LuhnizedStep(s, i);
      var piece := s[13 * i..13 * i + CHECK_DIGIT_INT];
      ptr := Append(luhnized, ptr, piece);
      LettersInTable(piece);
      var c, _ := Calc(piece);
      ptr := Append(luhnized, ptr, [c]);
    }
    t := luhnized[..];
  }

  method AddDashes(t: string) returns (text: string)
    requires |t| == LUHNIZED_SIZE
    ensures text == Dashed(t, DASH_ITERATIONS)
  {
    hide Dashed;
    var dashed := new char[DASHED_SIZE](_ => '\0');
    var ptr := 0;
    DashedNothing(t);
    for i := 0 to DASH_ITERATIONS
      invariant ptr == |Dashed(t, i)| && dashed[..ptr] == Dashed(t, i)
    {
      DashedStep(t, i + 1);
      ptr := Append(dashed, ptr, t[DASH_INT * i..DASH_INT * i + DASH_INT]);
      if i < DASH_ITERATIONS - 1 {
        ptr := Append(dashed, ptr, "-");
      }
    }
    text := dashed[..];
  }

  /** from_sha256 */
  method FromSha256(h: seq<Byte>) returns (r: Option<string>)
    ensures r == if |h| == 32 then Some(IdText(h)) else None
  {
    hide Letters, Encoded, Luhnized, Dashed;
    var encoded := Encode(h);
    if |encoded| != SHA256_B32_SIZE {
      return None;
    }
    EncodedLetters(h);
    var luhnized := Luhnize(encoded);
    var text := AddDashes(luhnized);
    r := Some(text);
  }

  /** The loop that removes dashes in place. */
  method RemoveDashes(buff: array<char>)
    modifies buff
    ensures buff[..] == Compacted(old(buff[..]))
  {
    ghost var text := buff[..];
    var i, o := 0, 0;
    while i != buff.Length
      invariant 0 <= o <= i <= buff.Length && o == |Kept(text[..i])|
      invariant buff[..o] == Kept(text[..i]) && buff[o..] == text[o..]
      decreases buff.Length - i
    {
      assert text[..i + 1][..i] == text[..i] && buff[i] == text[i];
      if buff[i] != '-' {
        buff[o] := buff[i];
        o, i := o + 1, i + 1;
      } else {
        i := i + 1;
      }
    }
    assert text[..i] == text;
    assert buff[..] == buff[..o] + buff[o..];
  }

  /** The loop that removes the check letters in place. */
  method RemoveChecks(buff: array<char>, ghost t: string) returns (ptr: nat)
    requires buff.Length == DASHED_SIZE && |t| == LUHNIZED_SIZE && buff[..LUHNIZED_SIZE] == t
    modifies buff
    ensures ptr <= buff.Length && buff[..ptr] == Stripped(t)
  {
    hide Stripped;
    ptr := 0;
    var c := 0;
    StrippedNothing(t);
    for i := 0 to LUHNIZED_SIZE
      invariant ptr == |Stripped(t[..i])| <= i && buff[..ptr] == Stripped(t[..i])
      invariant c == i % 14 && buff[i..LUHNIZED_SIZE] == t[i..]
    {
      assert t[..i + 1] == t[..i] + [t[i]] && buff[i] == buff[i..LUHNIZED_SIZE][0];
      assert buff[i + 1..LUHNIZED_SIZE] == buff[i..LUHNIZED_SIZE][1..] == t[i + 1..];
      StrippedStep(t[..i], t[i]);
      if c == CHECK_DIGIT_INT {
        c := -1;
      } else {
        ghost var before, rest := buff[..ptr], buff[i + 1..LUHNIZED_SIZE];
        buff[ptr] := buff[i];
        ptr := ptr + 1;
        assert buff[..ptr] == before + [t[i]] && buff[i + 1..LUHNIZED_SIZE] == rest;
      }
      c := c + 1;
    }
    assert t[..LUHNIZED_SIZE] == t;
  }

  /** from_string. The hash of the id that the text stands for, if it is an id; `broken` if reading the
      text leaves the table. */
  method FromString(text: string) returns (r: Option<seq<Byte>>, broken: bool)
    ensures broken <==> ReadOverruns(text)
    ensures !broken ==> r == ParseId(text)
  {
    hide Compacted, Stripped, Valid, DecodedText, Overruns, DecodeOverruns;
    if |text| != DASHED_SIZE {
      return None, false;
    }
    var buff := new char[DASHED_SIZE](i requires 0 <= i < |text| => text[i]);
    assert buff[..] == text;
    RemoveDashes(buff);
    ghost var t := Compacted(text)[..LUHNIZED_SIZE];
    buff[LUHNIZED_SIZE] := '\0';
    assert buff[..LUHNIZED_SIZE] == t;
    for k := 0 to LUHN_ITERATIONS
      invariant buff[..LUHNIZED_SIZE] == t && forall j :: 0 <= j < k ==> GroupPasses(t, j)
    {
      var piece := buff[14 * k..14 * k + 14];
      assert forall j :: 0 <= j < 14 ==> piece[j] == buff[..LUHNIZED_SIZE][14 * k + j];
      SamePiece(t, k, piece);
      var valid;
      valid, broken := Validate(piece);
      if broken {
        assert GroupOverruns(t, k);
        return None, true;
      }
      if !valid {
        FirstFailure(t, k);
        return None, false;
      }
    }
    var end := RemoveChecks(buff, t);
    StrippedSize(t);
    PassesInside(t);
    r, broken := Decode(buff[..LUHNIZED_SIZE - LUHN_ITERATIONS]);
  }
}
