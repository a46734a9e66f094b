/**
  Which texts are ids. The text of an id is laid out in full, and reading is compared with it: a text
  that reads as a hash need not be the text of that hash.
 */
module IdTexts {
  import opened Common
  import opened Luhn32
  import opened Base32
  import opened DeviceIds

  // ----- Bits of what is decoded -----

  /** Bytes that are the octets of some bits have those bits. */
  lemma {:induction false} ByteBitsOf(s: seq<Byte>, bits: seq<bool>)
    requires |bits| == 8 * |s| && forall k :: 0 <= k < |s| ==> s[k] == Octet(bits, k)
    ensures ByteBits(s) == bits
  {
    if s != [] {
      hide *;
      var n := |s| - 1;
      var init := bits[..8 * n];
      forall k | 0 <= k < n ensures s[..n][k] == Octet(init, k) {
        OctetBits(bits, k);
        OctetBits(init, k);
        InnerSlice(bits, 8 * n, 8 * k, 8 * k + 8);
      }
      ByteBitsOf(s[..n], init);
      OctetBits(bits, n);
      ByteBitsLast(s);
      SplitAt(bits, 8 * n);
    }
  }

  lemma OctetBits(bits: seq<bool>, k: nat)
    requires 8 * k + 8 <= |bits|
    ensures Octet(bits, k) == Value(bits[8 * k..8 * k + 8]) && Bits(8, Octet(bits, k)) == bits[8 * k..8 * k + 8]
  {
    BitsOfValue(bits[8 * k..8 * k + 8]);
  }

  lemma ByteBitsLast(s: seq<Byte>)
    requires s != []
    ensures ByteBits(s) == ByteBits(s[..|s| - 1]) + Bits(8, s[|s| - 1])
  {
  }

  /** The bits of what is decoded are the first bits of the digits. */
  lemma DecodedBits(d: seq<Digit>)
    ensures ByteBits(Decoded(d)) == DigitBits(d)[..8 * |Decoded(d)|]
  {
    hide ByteBits, DigitBits;
    var h := Decoded(d);
    var bits := DigitBits(d)[..8 * |h|];
    forall k | 0 <= k < |h| ensures h[k] == Octet(bits, k) {
      InnerSlice(DigitBits(d), 8 * |h|, 8 * k, 8 * k + 8);
    }
    ByteBitsOf(h, bits);
  }

  /** Of the last of 52 digits one bit belongs to the hash; the other four are filled up. */
  lemma LastDigit(d: seq<Digit>)
    requires |d| == 52
    ensures DigitBits(d) == DigitBits(d)[..256] + Bits(4, d[51] % 16)
  {
    Powers();
    BitsSplit(1, 4, d[51] / 16, d[51] % 16);
    DigitBitsAt(d, 51);
    hide Bits, DigitBits, Pow2;
    var bits := DigitBits(d);
    assert bits[255..260] == Bits(1, d[51] / 16) + Bits(4, d[51] % 16);
    assert bits[256..260] == bits[255..260][1..];
    SplitAt(bits, 256);
  }

  /** Digits decode to a hash and are not filled up with other bits iff they are its encoding. */
  lemma EncodedExactly(d: seq<Digit>, h: seq<Byte>)
    requires |d| == 52
    ensures Decoded(d) == h && d[51] % 16 == 0 <==> |h| == 32 && d == Encoded(h)
  {
    hide Bits, DigitBits, ByteBits, Decoded, Encoded, Padded;
    LastDigit(d);
    if Decoded(d) == h && d[51] % 16 == 0 {
      DecodedBits(d);
      PaddedHash(h);
      EncodedFrom(d, h);
    }
    if |h| == 32 && d == Encoded(h) {
      RoundTrip(h);
      PaddedHash(h);
      EncodedPadded(h);
      assert DigitBits(d)[256..] == Bits(4, d[51] % 16) && DigitBits(d)[256..] == Bits(4, 0);
      Powers();
      BitsInjective(4, d[51] % 16, 0);
    }
  }

  lemma PaddedHash(h: seq<Byte>)
    requires |h| == 32
    ensures Padded(h) == ByteBits(h) + Bits(4, 0)
  {
  }

  lemma EncodedPadded(h: seq<Byte>)
    ensures DigitBits(Encoded(h)) == Padded(h)
  {
    DigitBitsOf(Encoded(h), Padded(h));
  }

  // ----- The layout of an id -----

  /** Dashes stand between groups of seven, and nowhere else. */
  ghost predicate Shaped(text: string) {
    |text| == 63 && forall i :: 0 <= i < 63 ==> (text[i] == '-' <==> i % 8 == 7)
  }

  function Undashed(text: string): (t: string)
    requires |text| == 63
    ensures |t| == 56
  {
    seq(56, j requires 0 <= j < 56 => text[j + j / 7])
  }

  /** The characters of a text with dashes, by place. */
  lemma {:induction false} DashedAt(t: string, k: nat, i: nat)
    requires 7 * k <= |t| && k <= 8 && i < |Dashed(t, k)|
    ensures if i % 8 == 7 then Dashed(t, k)[i] == '-' else i - i / 8 < |t| && Dashed(t, k)[i] == t[i - i / 8]
  {
    hide Dashed;
    if k == 0 {
      DashedNothing(t);
      assert false;
    } else {
      DashedStep(t, k);
      var before, group := Dashed(t, k - 1), t[7 * (k - 1)..7 * k];
      if i < |before| {
        DashedAt(t, k - 1, i);
      } else {
        GroupPlace(k - 1, i);
      }
    }
  }

  lemma GroupPlace(k: nat, i: nat)
    requires 8 * k <= i < 8 * k + 8
    ensures i % 8 == i - 8 * k && i / 8 == k
  {
  }

  /** A text of the right shape is its other characters with dashes. */
  lemma ShapedDashed(text: string)
    requires Shaped(text)
    ensures NoDash(Undashed(text)) && Dashed(Undashed(text), 8) == text
  {
    hide Dashed;
    var t := Undashed(text);
    forall i | 0 <= i < 63 ensures Dashed(t, 8)[i] == text[i] {
      DashedAt(t, 8, i);
      if i % 8 != 7 {
        Back(i);
      }
    }
    forall j | 0 <= j < 56 ensures t[j] != '-' {
      assert (j + j / 7) % 8 != 7;
    }
  }

  lemma Back(i: nat)
    requires i % 8 != 7
    ensures var j := i - i / 8; j + j / 7 == i
  {
  }

  lemma DashedShaped(t: string)
    requires |t| == 56 && NoDash(t)
    ensures Shaped(Dashed(t, 8)) && Undashed(Dashed(t, 8)) == t
  {
    hide Dashed;
    forall i | 0 <= i < 63 ensures Dashed(t, 8)[i] == '-' <==> i % 8 == 7 {
      DashedAt(t, 8, i);
    }
    forall j | 0 <= j < 56 ensures Undashed(Dashed(t, 8))[j] == t[j] {
      DashedAt(t, 8, j + j / 7);
      assert (j + j / 7) % 8 != 7 && (j + j / 7) - (j + j / 7) / 8 == j;
    }
  }

  /** The characters of an id: dashes, the letters of the hash five bits at a time, and the letters that
      make each group's sum divisible by 32. */
  lemma IdLayout(h: seq<Byte>, i: nat)
    requires |h| == 32 && i < 63
    ensures IdText(h)[i] == '-' <==> i % 8 == 7
    ensures i % 8 != 7 ==> var j := i - i / 8; var s := Letters(Encoded(h));
      && IsLetter(IdText(h)[i])
      && if j % 14 == 13 then (Sum(s[13 * (j / 14)..13 * (j / 14) + 13]) + Code(IdText(h)[i])) % 32 == 0
         else Code(IdText(h)[i]) == Value(Padded(h)[5 * (j - j / 14)..5 * (j - j / 14) + 5])
  {
    hide Letters, Encoded, Luhnized, Dashed, Sum, Padded, Code, Letter, Value, Check;
    var s := Letters(Encoded(h));
    var t := Luhnized(s, LUHN_ITERATIONS);
    EncodedLetters(h);
    LuhnizedLetters(s, LUHN_ITERATIONS);
    LettersNoDash(t);
    DashedShaped(t);
    DashedAt(t, 8, i);
    if i % 8 != 7 {
      var j := i - i / 8;
      LuhnizedAt(s, j);
      if j % 14 == 13 {
        CheckCompletes(s[13 * (j / 14)..13 * (j / 14) + 13], t[j]);
      } else {
        EncodedAt(h, j - j / 14);
      }
    }
  }

  lemma EncodedAt(h: seq<Byte>, k: nat)
    requires k < |Encoded(h)|
    ensures Code(Letters(Encoded(h))[k]) == Encoded(h)[k] == Value(Padded(h)[5 * k..5 * k + 5])
  {
    GroupBits(Padded(h), k);
  }

  lemma LuhnizedAt(s: string, j: nat)
    requires |s| == 52 && j < 56
    ensures var t := Luhnized(s, 4); var group := s[13 * (j / 14)..13 * (j / 14) + 13];
      t[j] == if j % 14 == 13 then Check(group) else s[j - j / 14]
  {
    hide Luhnized, Check;
    var k := j / 14;
    var group := s[13 * k..13 * k + 13];
    LuhnizedGroup(s, 4, k);
    assert Luhnized(s, 4)[j] == Luhnized(s, 4)[14 * k..14 * k + 14][j - 14 * k];
    assert (group + [Check(group)])[j - 14 * k] == if j % 14 == 13 then Check(group) else group[j - 14 * k];
  }

  // ----- Reading and writing -----

  /** Characters in valid groups are the luhnized form of what is left without the check letters. */
  lemma ValidLuhnized(t: string)
    requires |t| == 56 && GroupsValid(t)
    ensures |Stripped(t)| == 52 && Luhnized(Stripped(t), 4) == t
  {
    hide Stripped, Luhnized, Check;
    StrippedSize(t);
    var s := Stripped(t);
    forall j | 0 <= j < 56 ensures Luhnized(s, 4)[j] == t[j] {
      var k := j / 14;
      LuhnizedAt(s, j);
      StrippedSlice(t, k);
      var group := t[14 * k..14 * k + 14];
      assert Valid(group);
      assert group[j - 14 * k] == t[j];
      assert s[13 * k..13 * k + 13] == group[..13];
      if j % 14 != 13 {
        StrippedAt(t, j);
      }
    }
  }

  lemma StrippedSlice(t: string, k: nat)
    requires |t| == 56 && k < 4
    ensures |Stripped(t)| == 52 && Stripped(t)[13 * k..13 * k + 13] == t[14 * k..14 * k + 14][..13]
  {
    hide Stripped;
    StrippedSize(t);
    var a, b := Stripped(t)[13 * k..13 * k + 13], t[14 * k..14 * k + 14][..13];
    forall i | 0 <= i < 13 ensures a[i] == b[i] {
      assert (14 * k + i) % 14 == i && (14 * k + i) / 14 == k;
      StrippedAt(t, 14 * k + i);
    }
  }

  lemma {:induction false} StrippedAt(t: string, j: nat)
    requires j < |t| && j % 14 != 13
    ensures j - j / 14 < |Stripped(t)| && Stripped(t)[j - j / 14] == t[j]
  {
    hide Stripped;
    var n := |t| - 1;
    assert t == t[..n] + [t[n]];
    StrippedStep(t[..n], t[n]);
    StrippedSize(t[..n]);
    if j < n {
      StrippedAt(t[..n], j);
    }
  }

  /** The last letter of the hash holds nothing but its bit: it is A or Q. */
  ghost predicate Unpadded(text: string)
    requires |text| == 63
  {
    text[61] == 'A' || text[61] == 'Q'
  }

  lemma HalfLetters(c: char)
    requires IsLetter(c)
    ensures Code(c) % 16 == 0 <==> c == 'A' || c == 'Q'
  {
  }

  /** A text that reads as some hash has 63 characters, and the hash has 32 bytes. */
  lemma ReadSizes(text: string, h: seq<Byte>)
    requires ParseId(text) == Some(h)
    ensures |text| == 63 && |h| == 32
  {
    hide Compacted, Stripped, Decoded, Valid;
    StrippedSize(Compacted(text)[..56]);
  }

  /** A text reads as a hash, has dashes exactly where an id has them and is not filled up with other bits
      iff it is the text of that hash. */
  lemma TextExactly(text: string, h: seq<Byte>)
    ensures ParseId(text) == Some(h) && Shaped(text) && Unpadded(text) <==> |h| == 32 && text == IdText(h)
  {
    hide ParseId, Unpadded, IdText;
    if ParseId(text) == Some(h) && Shaped(text) && Unpadded(text) {
      ReadIsWritten(text, h);
    }
    if |h| == 32 && text == IdText(h) {
      IdRoundTrip(h);
      WrittenShape(h);
    }
  }

  lemma WrittenShape(h: seq<Byte>)
    requires |h| == 32
    ensures Shaped(IdText(h)) && Unpadded(IdText(h))
  {
    hide IdText, Encoded, Decoded, Padded, Value;
    forall i | 0 <= i < 63 ensures IdText(h)[i] == '-' <==> i % 8 == 7 {
      IdLayout(h, i);
    }
    IdLayout(h, 61);
    EncodedAt(h, 51);
    EncodedExactly(Encoded(h), h);
    HalfLetters(IdText(h)[61]);
  }

  lemma ReadIsWritten(text: string, h: seq<Byte>)
    requires ParseId(text) == Some(h) && Shaped(text) && Unpadded(text)
    ensures |h| == 32 && text == IdText(h)
  {
    ShapedDashed(text);
    var t := Undashed(text);
    assert t[54] == text[61];
    hide Dashed, Compacted, Stripped, Decoded, Valid, Encoded, Letters, Luhnized, Undashed, Shaped;
    CompactedDashed(t);
    ValidLuhnized(t);
    var s := Stripped(t);
    StrippedAt(t, 54);
    HalfLetters(s[51]);
    EncodedExactly(Codes(s), h);
    LettersOfCodes(s);
  }

  lemma LettersOfCodes(s: string)
    requires AllLetters(s)
    ensures Letters(Codes(s)) == s
  {
    forall i | 0 <= i < |s| ensures Letters(Codes(s))[i] == s[i] {
      LetterOfCode(s[i]);
    }
  }

  /** The letters of an id without dashes, and any seven characters behind them, read as the same hash. */
  lemma JunkIgnored(h: seq<Byte>, junk: string)
    requires |h| == 32 && |junk| == 7
    ensures var text := Luhnized(Letters(Encoded(h)), 4) + junk; ParseId(text) == Some(h) && text != IdText(h)
  {
    hide Letters, Encoded, Luhnized, Dashed, Kept, Stripped, GroupsValid, DecodedText, AllLetters;
    var s := Letters(Encoded(h));
    var t := Luhnized(s, 4);
    EncodedLetters(h);
    LuhnizedLetters(s, 4);
    LettersNoDash(t);
    KeptConcat(t, junk);
    KeptNoDash(t);
    assert Compacted(t + junk)[..56] == t;
    LuhnizedValid(s);
    StrippedLuhnized(s, 4);
    assert s[..52] == s;
    TextRoundTrip(h);
    IdLayout(h, 7);
    assert (t + junk)[7] == t[7] != '-';
  }

  /** Characters that the buffer still holds make up for those that are missing: with eight dashes in front
      and without the last letter, an id reads as its hash iff the letter eight places further front is
      the same. */
  lemma LeftoverRead(h: seq<Byte>)
    requires |h| == 32
    ensures var t := Luhnized(Letters(Encoded(h)), 4);
      ParseId("--------" + t[..55]) == Some(h) <==> t[47] == t[55]
  {
    hide Letters, Encoded, Luhnized, Dashed, Kept, Stripped, GroupsValid, DecodedText, AllLetters, Code;
    var s := Letters(Encoded(h));
    var t := Luhnized(s, 4);
    EncodedLetters(h);
    LuhnizedLetters(s, 4);
    LettersNoDash(t);
    KeptNoDash(t[..55]);
    EightDashes();
    KeptConcat("--------", t[..55]);
    assert [] + t[..55] == t[..55];
    assert Compacted("--------" + t[..55])[..56] == t[55 := t[47]];
    LuhnizedValid(s);
    if t[47] == t[55] {
      assert t[55 := t[47]] == t;
      StrippedLuhnized(s, 4);
      assert s[..52] == s;
      TextRoundTrip(h);
    } else {
      IsLetterAt(t, 47);
      GroupBroken(t, 55, t[47]);
    }
  }

  lemma IsLetterAt(t: string, i: nat)
    requires AllLetters(t) && i < |t|
    ensures IsLetter(t[i])
  {
  }

  lemma EightDashes()
    ensures Kept("--------") == ""
  {
    hide Kept;
    KeptDash();
    KeptConcat("-", "-");
    KeptConcat("--", "--");
    KeptConcat("----", "----");
    assert "-" + "-" == "--" && "--" + "--" == "----" && "----" + "----" == "--------";
  }

  /** A text whose last letter is filled up with other bits reads as the same hash. */
  lemma PaddingIgnored(h: seq<Byte>, c: char)
    requires |h| == 32 && IsLetter(c) && Code(c) / 16 == Code(Letters(Encoded(h))[51]) / 16
    ensures ParseId(Dashed(Luhnized(Letters(Encoded(h))[51 := c], 4), 8)) == Some(h)
  {
    hide Letters, Encoded, Luhnized, Dashed, Compacted, Stripped, GroupsValid, Decoded, AllLetters, Codes;
    var s := Letters(Encoded(h))[51 := c];
    EncodedLetters(h);
    assert AllLetters(s) by { LetterReplaced(Letters(Encoded(h)), 51, c); }
    var t := Luhnized(s, 4);
    LuhnizedLetters(s, 4);
    LettersNoDash(t);
    CompactedDashed(t);
    LuhnizedValid(s);
    StrippedLuhnized(s, 4);
    assert s[..52] == s;
    SameHash(h, s);
  }

  lemma LetterReplaced(s: string, i: nat, c: char)
    requires AllLetters(s) && i < |s| && IsLetter(c)
    ensures AllLetters(s[i := c])
  {
  }

  lemma SameHash(h: seq<Byte>, s: string)
    requires |h| == 32 && |s| == 52 && AllLetters(s) && Code(s[51]) / 16 == Encoded(h)[51] / 16
    requires forall i :: 0 <= i < 51 ==> s[i] == Letters(Encoded(h))[i]
    ensures Decoded(Codes(s)) == h
  {
    var d, e := Codes(s), Encoded(h);
    assert d[..51] == e[..51];
    hide Codes, Letters, Encoded, Decoded, Letter, Code;
    RoundTrip(h);
    FirstBitsAgree(d, e);
    DecodedBits(e);
    assert ByteBits(h) == DigitBits(d)[..256];
    DecodedFrom(d, h);
  }

  lemma FirstBitsAgree(d: seq<Digit>, e: seq<Digit>)
    requires |d| == |e| == 52 && d[..51] == e[..51] && d[51] / 16 == e[51] / 16
    ensures DigitBits(d)[..256] == DigitBits(e)[..256]
  {
    FirstBits256(d);
    FirstBits256(e);
  }

  lemma FirstBits256(d: seq<Digit>)
    requires |d| == 52
    ensures DigitBits(d)[..256] == DigitBits(d[..51]) + Bits(1, d[51] / 16)
  {
    Powers();
    BitsSplit(1, 4, d[51] / 16, d[51] % 16);
    DigitBitsLast(d);
    hide Bits, DigitBits, Pow2;
    var a, b, c := DigitBits(d[..51]), Bits(1, d[51] / 16), Bits(4, d[51] % 16);
    assert DigitBits(d) == a + (b + c);
    assert (a + (b + c))[..256] == a + b;
  }
}
