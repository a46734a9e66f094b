/**
  Base 32 as in section 6 of RFC 4648, without padding characters: the bits of the bytes, most
  significant first, in groups of five. The loops work on a 16-bit window; what they compute is
  stated on sequences of bits.
 */
module Base32 {
  import opened Common
  import opened Luhn32

  type Digit = d: nat | d < 32

  // ----- Bits -----

  function Pow2(n: nat): (r: nat)
    ensures r > 0
  {
    if n == 0 then 1 else 2 * Pow2(n - 1)
  }

  /** The lowest `w` bits of `v`, most significant first. */
  function Bits(w: nat, v: nat): (r: seq<bool>)
    ensures |r| == w
  {
    if w == 0 then [] else Bits(w - 1, v / 2) + [v % 2 == 1]
  }

  function ByteBits(s: seq<Byte>): (r: seq<bool>)
    ensures |r| == 8 * |s|
  {
    if s == [] then [] else ByteBits(s[..|s| - 1]) + Bits(8, s[|s| - 1])
  }

  function DigitBits(s: seq<Digit>): (r: seq<bool>)
    ensures |r| == 5 * |s|
  {
    if s == [] then [] else DigitBits(s[..|s| - 1]) + Bits(5, s[|s| - 1])
  }

  lemma {:induction false} BitsSplit(a: nat, b: nat, hi: nat, lo: nat)
    requires lo < Pow2(b)
    ensures Bits(a + b, hi * Pow2(b) + lo) == Bits(a, hi) + Bits(b, lo)
  {
    hide Pow2, Bits;
    if b == 0 {
      NoBits(hi, lo);
      assert Bits(a, hi) + [] == Bits(a, hi);
    } else {
      PowTwice(b - 1, hi);
      BitsSplit(a, b - 1, hi, lo / 2);
      BitsStep(b, lo);
      BitsStep(a + b, hi * Pow2(b) + lo);
      Halves(hi * Pow2(b - 1), hi * Pow2(b), lo);
      assert Bits(a, hi) + (Bits(b - 1, lo / 2) + [lo % 2 == 1]) == (Bits(a, hi) + Bits(b - 1, lo / 2)) + [lo % 2 == 1];
    }
  }

  lemma NoBits(hi: nat, lo: nat)
    requires lo < Pow2(0)
    ensures hi * Pow2(0) + lo == hi && Bits(0, lo) == []
  {
  }

  lemma PowTwice(b: nat, hi: nat)
    ensures Pow2(b + 1) == 2 * Pow2(b) && hi * Pow2(b + 1) == 2 * (hi * Pow2(b))
  {
  }

  lemma BitsStep(w: nat, v: nat)
    requires w > 0
    ensures Bits(w, v) == Bits(w - 1, v / 2) + [v % 2 == 1]
  {
  }

  lemma Halves(half: nat, whole: nat, lo: nat)
    requires whole == 2 * half
    ensures (whole + lo) / 2 == half + lo / 2 && (whole + lo) % 2 == lo % 2
  {
  }

  lemma {:induction false} BitsInjective(w: nat, u: nat, v: nat)
    requires u < Pow2(w) && v < Pow2(w) && Bits(w, u) == Bits(w, v)
    ensures u == v
  {
    if w > 0 {
      var p, q := Bits(w - 1, u / 2), Bits(w - 1, v / 2);
      assert Bits(w, u)[w - 1] == (u % 2 == 1) && Bits(w, v)[w - 1] == (v % 2 == 1);
      assert p == Bits(w, u)[..w - 1] && q == Bits(w, v)[..w - 1];
      BitsInjective(w - 1, u / 2, v / 2);
    }
  }

  function Value(bits: seq<bool>): nat {
    if bits == [] then 0 else 2 * Value(bits[..|bits| - 1]) + if bits[|bits| - 1] then 1 else 0
  }

  lemma {:induction false} BitsOfValue(bits: seq<bool>)
    ensures Bits(|bits|, Value(bits)) == bits && Value(bits) < Pow2(|bits|)
  {
    if bits != [] {
      BitsOfValue(bits[..|bits| - 1]);
      assert bits == bits[..|bits| - 1] + [bits[|bits| - 1]];
    }
  }

  lemma ValueOfBits(w: nat, v: nat)
    requires v < Pow2(w)
    ensures Value(Bits(w, v)) == v
  {
    BitsOfValue(Bits(w, v));
    BitsInjective(w, Value(Bits(w, v)), v);
  }

  lemma Powers()
    ensures Pow2(0) == 1 && Pow2(1) == 2 && Pow2(2) == 4 && Pow2(3) == 8 && Pow2(4) == 16 && Pow2(5) == 32
    ensures Pow2(6) == 64 && Pow2(7) == 128 && Pow2(8) == 256 && Pow2(9) == 512 && Pow2(10) == 1024
    ensures Pow2(11) == 2048 && Pow2(12) == 4096 && Pow2(13) == 8192 && Pow2(14) == 16384 && Pow2(15) == 32768
    ensures Pow2(16) == 65536
  {
    assert Pow2(4) == 16;
    assert Pow2(8) == 256;
    assert Pow2(12) == 4096;
  }

  // ----- What is encoded and decoded -----

  /** The bits of the bytes, filled up to whole groups of five. */
  function Padded(s: seq<Byte>): (r: seq<bool>)
    ensures |r| == 5 * ((8 * |s| + 4) / 5)
  {
    ByteBits(s) + Bits(5 * ((8 * |s| + 4) / 5) - 8 * |s|, 0)
  }

  lemma SmallValue(bits: seq<bool>)
    ensures |bits| == 5 ==> Value(bits) < 32
    ensures |bits| == 8 ==> Value(bits) < 256
  {
    BitsOfValue(bits);
    Powers();
  }

  function Group(bits: seq<bool>, k: nat): Digit
    requires 5 * k + 5 <= |bits|
  {
    SmallValue(bits[5 * k..5 * k + 5]);
    Value(bits[5 * k..5 * k + 5])
  }

  function Octet(bits: seq<bool>, k: nat): Byte
    requires 8 * k + 8 <= |bits|
  {
    SmallValue(bits[8 * k..8 * k + 8]);
    Value(bits[8 * k..8 * k + 8])
  }

  function Encoded(s: seq<Byte>): (r: seq<Digit>)
    ensures |r| == (8 * |s| + 4) / 5 && forall k :: 0 <= k < |r| ==> r[k] == Group(Padded(s), k)
  {
    seq((8 * |s| + 4) / 5, k requires 0 <= k < (8 * |s| + 4) / 5 => Group(Padded(s), k))
  }

  function Decoded(d: seq<Digit>): (r: seq<Byte>)
    ensures |r| == 5 * |d| / 8 && forall k :: 0 <= k < |r| ==> r[k] == Octet(DigitBits(d), k)
  {
    seq(5 * |d| / 8, k requires 0 <= k < 5 * |d| / 8 => Octet(DigitBits(d), k))
  }

  lemma LeftSlice<T>(a: seq<T>, b: seq<T>, i: nat, j: nat)
    requires i <= j <= |a|
    ensures (a + b)[i..j] == a[i..j]
  {
  }

  lemma RightSlice<T>(a: seq<T>, b: seq<T>)
    ensures (a + b)[|a|..|a| + |b|] == b
  {
  }

  lemma SplitAt<T>(a: seq<T>, n: nat)
    requires n <= |a|
    ensures a == a[..n] + a[n..|a|]
  {
  }

  lemma InnerSlice<T>(a: seq<T>, n: nat, i: nat, j: nat)
    requires i <= j <= n <= |a|
    ensures a[..n][i..j] == a[i..j]
  {
  }

  lemma {:induction false} DigitBitsAt(d: seq<Digit>, k: nat)
    requires k < |d|
    ensures DigitBits(d)[5 * k..5 * k + 5] == Bits(5, d[k])
  {
    hide Bits;
    var init, last := DigitBits(d[..|d| - 1]), Bits(5, d[|d| - 1]);
    if k < |d| - 1 {
      DigitBitsAt(d[..|d| - 1], k);
      LeftSlice(init, last, 5 * k, 5 * k + 5);
    } else {
      RightSlice(init, last);
    }
  }

  lemma {:induction false} ByteBitsAt(s: seq<Byte>, k: nat)
    requires k < |s|
    ensures ByteBits(s)[8 * k..8 * k + 8] == Bits(8, s[k])
  {
    hide Bits;
    var init, last := ByteBits(s[..|s| - 1]), Bits(8, s[|s| - 1]);
    if k < |s| - 1 {
      ByteBitsAt(s[..|s| - 1], k);
      LeftSlice(init, last, 8 * k, 8 * k + 8);
    } else {
      RightSlice(init, last);
    }
  }

  /** Digits are determined by their bits. */
  lemma GroupOfDigits(d: seq<Digit>, k: nat)
    requires k < |d|
    ensures Group(DigitBits(d), k) == d[k]
  {
    DigitBitsAt(d, k);
    Powers();
    ValueOfBits(5, d[k]);
  }

  lemma OctetOfBytes(s: seq<Byte>, k: nat)
    requires k < |s|
    ensures Octet(ByteBits(s), k) == s[k]
  {
    ByteBitsAt(s, k);
    Powers();
    ValueOfBits(8, s[k]);
  }

  lemma {:induction false} DigitBitsOf(d: seq<Digit>, bits: seq<bool>)
    requires |bits| == 5 * |d| && forall k :: 0 <= k < |d| ==> d[k] == Group(bits, k)
    ensures DigitBits(d) == bits
  {
    if d != [] {
      hide *;
      var n := |d| - 1;
      var init := bits[..5 * n];
      forall k | 0 <= k < n ensures d[..n][k] == Group(init, k) {
        GroupBits(bits, k);
        GroupBits(init, k);
        InnerSlice(bits, 5 * n, 5 * k, 5 * k + 5);
      }
      DigitBitsOf(d[..n], init);
      GroupBits(bits, n);
      DigitBitsLast(d);
      SplitAt(bits, 5 * n);
    }
  }

  lemma GroupBits(bits: seq<bool>, k: nat)
    requires 5 * k + 5 <= |bits|
    ensures Group(bits, k) == Value(bits[5 * k..5 * k + 5]) && Bits(5, Group(bits, k)) == bits[5 * k..5 * k + 5]
  {
    BitsOfValue(bits[5 * k..5 * k + 5]);
  }

  lemma DigitBitsLast(d: seq<Digit>)
    requires d != []
    ensures DigitBits(d) == DigitBits(d[..|d| - 1]) + Bits(5, d[|d| - 1])
  {
  }

  /** Decoding undoes encoding, for any number of bytes. */
  lemma RoundTrip(s: seq<Byte>)
    ensures Decoded(Encoded(s)) == s
  {
    var d := Encoded(s);
    DigitBitsOf(d, Padded(s));
    forall k | 0 <= k < |s| ensures Decoded(d)[k] == s[k] {
      LeftSlice(ByteBits(s), Bits(|Padded(s)| - 8 * |s|, 0), 8 * k, 8 * k + 8);
      OctetOfBytes(s, k);
    }
  }

  /** The first digit holds the upper bits of the first byte. */
  lemma FirstDigit(s: seq<Byte>)
    requires s != []
    ensures Encoded(s)[0] == s[0] / 8
  {
    FirstBits(s);
    UpperBits(s[0]);
    hide Bits, Padded, Value;
    assert Padded(s)[5 * 0..5 * 0 + 5] == Padded(s)[0..5];
  }

  lemma FirstBits(s: seq<Byte>)
    requires s != []
    ensures Padded(s)[0..5] == Bits(8, s[0])[0..5]
  {
    ByteBitsAt(s, 0);
    hide Bits, ByteBits;
    LeftSlice(ByteBits(s), Bits(|Padded(s)| - 8 * |s|, 0), 0, 5);
    InnerSlice(ByteBits(s), 8, 0, 5);
    assert ByteBits(s)[8 * 0..8 * 0 + 8] == ByteBits(s)[..8];
  }

  lemma UpperBits(b: Byte)
    ensures Value(Bits(8, b)[0..5]) == b / 8
  {
    Powers();
    BitsSplit(5, 3, b / 8, b % 8);
    ValueOfBits(5, b / 8);
    hide Bits, Pow2, Value;
    LeftSlice(Bits(5, b / 8), Bits(3, b % 8), 0, 5);
  }

  /** Digits whose bits are the padded bits of the bytes are the encoding of the bytes. */
  lemma EncodedFrom(d: seq<Digit>, s: seq<Byte>)
    requires DigitBits(d) == Padded(s)
    ensures d == Encoded(s)
  {
    forall k | 0 <= k < |d| ensures d[k] == Encoded(s)[k] {
      GroupOfDigits(d, k);
    }
  }

  /** Bytes whose bits begin the bits of the digits are what is decoded from the digits. */
  lemma DecodedFrom(d: seq<Digit>, s: seq<Byte>)
    requires |s| == 5 * |d| / 8 && ByteBits(s) == DigitBits(d)[..8 * |s|]
    ensures s == Decoded(d)
  {
    forall k | 0 <= k < |s| ensures s[k] == Decoded(d)[k] {
      InnerSlice(DigitBits(d), 8 * |s|, 8 * k, 8 * k + 8);
      OctetOfBytes(s, k);
    }
  }

  // ----- The loops -----

  function Letters(d: seq<Digit>): (r: string)
    ensures |r| == |d| && forall i :: 0 <= i < |d| ==> r[i] == Letter(d[i])
  {
    if d == [] then "" else Letters(d[..|d| - 1]) + [Letter(d[|d| - 1])]
  }

  function ShiftLeft(v: nat, n: nat): nat {
    v * Pow2(n)
  }

  /** The window holds `k` bits, `top`, at its upper end. */
  ghost predicate InWindow(window: nat, k: nat, top: nat) {
    k <= 16 && top < Pow2(k) && window == top * Pow2(16 - k)
  }

  lemma {:induction false} PowAdd(a: nat, b: nat)
    ensures Pow2(a + b) == Pow2(a) * Pow2(b)
  {
    if b > 0 {
      PowAdd(a, b - 1);
    }
  }

  /** Division of a scaled number, on plain numbers. */
  lemma Scaled(top: nat, p: nat, q: nat, a: nat, r: nat)
    requires p * q == 2048 && top == a * p + r && r < p
    ensures top * q == a * 2048 + r * q && r * q < 2048
  {
    assert a * p * q == a * (p * q);
    assert (p - r) * q > 0;
  }

  lemma BoundedQuotient(v: nat, p: nat, a: nat, n: nat)
    requires v < n * p && a * p <= v
    ensures a < n
  {
    if a >= n {
      Larger(a, n, p);
    }
  }

  lemma Larger(a: nat, n: nat, p: nat)
    requires a >= n
    ensures a * p >= n * p
  {
    assert (a - n) * p >= 0;
  }

  lemma FullWindow(window: nat, top: nat, p: nat, q: nat, a: nat, r: nat)
    requires p * q == 2048 && top == a * p + r && r < p && top < 32 * p && window == top * q
    ensures a < 32 && window / 2048 == a && window * 32 % 0x1_0000 == 32 * (r * q)
  {
    Scaled(top, p, q, a, r);
    BoundedQuotient(top, p, a, 32);
    Quotient(window, a, r * q);
  }

  lemma Quotient(window: nat, a: nat, r: nat)
    requires window == a * 2048 + r && r < 2048
    ensures window / 2048 == a && window * 32 % 0x1_0000 == 32 * r
  {
    Upper(window * 32, a, 32 * r);
  }

  lemma Upper(x: nat, a: nat, r: nat)
    requires x == a * 0x1_0000 + r && r < 0x1_0000
    ensures x % 0x1_0000 == r
  {
  }

  lemma LastWindow(window: nat, top: nat, m: nat, q: nat)
    requires window == top * (q * 2048) && m * q == 32 && top < m
    ensures window / 2048 == top * q < 32 && window * 32 % 0x1_0000 == 0
  {
    assert top * (q * 2048) == top * q * 2048;
    assert (m - top) * q > 0;
    Quotient(window, top * q, 0);
  }

  lemma PulledWindow(window: nat, top: nat, byte: nat, q: nat)
    requires window == top * (q * 256)
    ensures window + byte * q == (top * 256 + byte) * q
  {
    assert top * (q * 256) == top * 256 * q;
  }

  /** Five bits leave the window. */
  lemma EmitFull(window: nat, k: nat, top: nat)
    requires InWindow(window, k, top) && 5 <= k
    ensures window / 2048 < 32
    ensures InWindow(window * 32 % 0x1_0000, k - 5, top % Pow2(k - 5))
    ensures Bits(k, top) == Bits(5, window / 2048) + Bits(k - 5, top % Pow2(k - 5))
  {
    hide *;
    var p, q, a, r := Divided(window, k, top);
    FullWindow(window, top, p, q, a, r);
    BitsSplit(5, k - 5, a, r);
    Refilled(window, k, top, p, q, r);
  }

  lemma Divided(window: nat, k: nat, top: nat) returns (p: nat, q: nat, a: nat, r: nat)
    requires InWindow(window, k, top) && 5 <= k
    ensures k <= 16 && p == Pow2(k - 5) && q == Pow2(16 - k) && a == top / p && r == top % p
    ensures p * q == 2048 && top == a * p + r && r < p && top < 32 * p && window == top * q
  {
    p, q := Pow2(k - 5), Pow2(16 - k);
    Powers();
    PowAdd(k - 5, 16 - k);
    PowAdd(k - 5, 5);
    hide Pow2;
    a, r := top / p, top % p;
  }

  lemma Refilled(window: nat, k: nat, top: nat, p: nat, q: nat, r: nat)
    requires 5 <= k <= 16 && p == Pow2(k - 5) && q == Pow2(16 - k) && r < p
    ensures InWindow(32 * (r * q), k - 5, r)
  {
    Powers();
    PowAdd(16 - k, 5);
    hide Pow2;
    assert 32 * (r * q) == r * (q * 32);
  }

  /** The last bits leave the window, filled up with zeros. */
  lemma EmitLast(window: nat, k: nat, top: nat)
    requires InWindow(window, k, top) && 0 < k < 5
    ensures window / 2048 < 32 && window * 32 % 0x1_0000 == 0
    ensures Bits(5, window / 2048) == Bits(k, top) + Bits(5 - k, 0)
  {
    Powers();
    PowAdd(5 - k, 11);
    PowAdd(k, 5 - k);
    BitsSplit(k, 5 - k, top, 0);
    hide Pow2, Bits;
    LastWindow(window, top, Pow2(k), Pow2(5 - k));
  }

  /** A byte enters the window. */
  lemma PullByte(window: nat, k: nat, top: nat, byte: Byte)
    requires InWindow(window, k, top) && k <= 8
    ensures InWindow(window + ShiftLeft(byte, 8 - k), k + 8, top * 256 + byte)
    ensures Bits(k + 8, top * 256 + byte) == Bits(k, top) + Bits(8, byte)
  {
    Powers();
    PowAdd(8 - k, 8);
    PowAdd(k, 8);
    BitsSplit(k, 8, top, byte);
    hide Pow2, Bits;
    PulledWindow(window, top, byte, Pow2(8 - k));
  }

  /** The state of the encoding loop: the digits written and the bits in the window are the bits read;
      in the end the last digit may have taken bits that were not there. */
  ghost predicate Encoding(input: seq<Byte>, ptr: nat, window: nat, bits: int, top: nat, digits: seq<Digit>) {
    && ptr <= |input| && -5 < bits <= 16
    && (bits >= 0 ==> InWindow(window, bits, top) && DigitBits(digits) + Bits(bits, top) == ByteBits(input[..ptr]))
    && (bits < 0 ==> ptr == |input| && DigitBits(digits) == ByteBits(input) + Bits(-bits, 0))
  }

  lemma DigitAppended(digits: seq<Digit>, d: Digit)
    ensures DigitBits(digits + [d]) == DigitBits(digits) + Bits(5, d)
  {
    hide Bits;
    assert (digits + [d])[..|digits|] == digits;
  }

  lemma ByteAppended(input: seq<Byte>, ptr: nat)
    requires ptr < |input|
    ensures ByteBits(input[..ptr + 1]) == ByteBits(input[..ptr]) + Bits(8, input[ptr])
  {
    hide Bits;
    assert input[..ptr + 1][..ptr] == input[..ptr];
  }

  lemma Remainder32(half: nat, q: nat, r: nat)
    requires 2 * half == q * 0x1_0000 + r
    ensures r % 2 == 0
  {
    assert r == 2 * (half - q * 0x8000);
  }

  lemma EvenWindow(window: nat)
    ensures window * 32 % 0x1_0000 % 2 == 0
  {
    Remainder32(window * 16, window * 32 / 0x1_0000, window * 32 % 0x1_0000);
  }

  lemma Associates<T>(a: seq<T>, b: seq<T>, c: seq<T>)
    ensures a + (b + c) == a + b + c
  {
  }

  lemma EmitStep(input: seq<Byte>, ptr: nat, window: nat, bits: int, top: nat, digits: seq<Digit>) returns (top': nat)
    requires Encoding(input, ptr, window, bits, top, digits) && 0 < bits && (bits >= 5 || ptr == |input|)
    ensures window / 2048 < 32
    ensures Encoding(input, ptr, window * 32 % 0x1_0000, bits - 5, top', digits + [window / 2048])
  {
    hide Bits, DigitBits, ByteBits, InWindow;
    top' := 0;
    if bits >= 5 {
      EmitFull(window, bits, top);
      top' := top % Pow2(bits - 5);
      DigitAppended(digits, window / 2048);
      Associates(DigitBits(digits), Bits(5, window / 2048), Bits(bits - 5, top'));
    } else {
      EmitLast(window, bits, top);
      DigitAppended(digits, window / 2048);
      Associates(DigitBits(digits), Bits(bits, top), Bits(5 - bits, 0));
      assert input[..ptr] == input;
    }
  }

  lemma PullStep(input: seq<Byte>, ptr: nat, window: nat, bits: int, top: nat, digits: seq<Digit>)
    requires Encoding(input, ptr, window, bits, top, digits) && 0 <= bits <= 8 && ptr < |input|
    ensures Encoding(input, ptr + 1, window + ShiftLeft(input[ptr], 8 - bits), bits + 8, top * 256 + input[ptr], digits)
  {
    hide Bits, DigitBits, ByteBits, InWindow, Pow2, ShiftLeft;
    PullByte(window, bits, top, input[ptr]);
    ByteAppended(input, ptr);
    Associates(DigitBits(digits), Bits(bits, top), Bits(8, input[ptr]));
  }

  lemma StartEncoding(input: seq<Byte>)
    ensures Encoding(input, 0, 0, 0, 0, []) && Letters([]) == ""
  {
  }

  /** What the loop has written when it ends. */
  lemma EndEncoding(input: seq<Byte>, window: nat, bits: int, top: nat, digits: seq<Digit>)
    requires Encoding(input, |input|, window, bits, top, digits) && bits <= 0
    ensures digits == Encoded(input)
  {
    hide Encoding, DigitBits, ByteBits, Bits, Padded;
    EndBits(input, window, bits, top, digits);
    PaddedFrom(DigitBits(digits), input, -bits);
    EncodedFrom(digits, input);
  }

  lemma EndBits(input: seq<Byte>, window: nat, bits: int, top: nat, digits: seq<Digit>)
    requires Encoding(input, |input|, window, bits, top, digits) && bits <= 0
    ensures -bits < 5 && DigitBits(digits) == ByteBits(input) + Bits(-bits, 0)
  {
    hide DigitBits, ByteBits, Bits, InWindow;
    assert input[..|input|] == input;
    NothingPending(top, DigitBits(digits));
    NothingPending(top, ByteBits(input));
  }

  lemma NothingPending(top: nat, bits: seq<bool>)
    ensures bits + Bits(0, top) == bits == bits + Bits(0, 0)
  {
  }

  lemma PaddedFrom(bits: seq<bool>, s: seq<Byte>, n: nat)
    requires |bits| % 5 == 0 && n < 5 && bits == ByteBits(s) + Bits(n, 0)
    ensures bits == Padded(s)
  {
    hide Bits, ByteBits;
    assert 5 * ((8 * |s| + 4) / 5) == 8 * |s| + n;
  }

  lemma LettersAppended(digits: seq<Digit>, d: Digit)
    ensures Letters(digits + [d]) == Letters(digits) + [Letter(d)]
  {
    assert (digits + [d])[..|digits|] == digits;
  }

  /** pull_in: the next byte, if any, enters the window. */
  method PullIn(input: seq<Byte>, ptr: nat, window: nat, inBits: int, signBits: int, ghost top: nat,
                ghost digits: seq<Digit>)
    returns (ptr': nat, window': nat, inBits': int, signBits': int, ghost top': nat)
    requires Encoding(input, ptr, window, inBits, top, digits) && 0 <= inBits <= 8
    ensures Encoding(input, ptr', window', inBits', top', digits)
    ensures signBits' == signBits + 8 && ptr' == (if ptr < |input| then ptr + 1 else ptr)
    ensures inBits' == inBits + if ptr < |input| then 8 else 0
  {
    hide *;
    ptr', window', inBits', signBits', top' := ptr, window, inBits, signBits, top;
    if ptr < |input| {
      PullStep(input, ptr, window, inBits, top, digits);
      inBits' := inBits + 8;
      window' := window + ShiftLeft(input[ptr], 16 - inBits');
      ptr', top' := ptr + 1, top * 256 + input[ptr];
    }
    signBits' := signBits + 8;
  }

  /** encode */
  method Encode(input: seq<Byte>) returns (encoded: string)
    ensures encoded == Letters(Encoded(input))
  {
    hide Encoded, Letters, Encoding;
    var buffer := new char[(|input| + 4) / 5 * 8](_ => '\0');
    var ptr, window, inBits, signBits, outIndex := 0, 0, 0, 0, 0;
    ghost var top, digits: seq<Digit> := 0, [];
    StartEncoding(input);
    ptr, window, inBits, signBits, top := PullIn(input, ptr, window, inBits, signBits, top, digits);
    ptr, window, inBits, signBits, top := PullIn(input, ptr, window, inBits, signBits, top, digits);
    while ptr < |input| || inBits > 0
      invariant Encoding(input, ptr, window, inBits, top, digits)
      invariant ptr <= |input| && -5 < inBits <= 16 && (ptr < |input| ==> 8 < inBits == signBits)
      invariant ptr == |input| || signBits == inBits
      invariant outIndex == |digits| && 5 * outIndex + inBits == 8 * ptr
      invariant outIndex <= buffer.Length && buffer[..outIndex] == Letters(digits)
      decreases 8 * (|input| - ptr) + inBits + 5
    {
      ghost var next := EmitStep(input, ptr, window, inBits, top, digits);
      var index := window / 2048;
      LettersAppended(digits, index);
      buffer[outIndex] := Letter(index);
      outIndex := outIndex + 1;
      digits, top := digits + [index], next;
      inBits, signBits := inBits - 5, signBits - 5;
      EvenWindow(window);
      var shifted := window * 32 % 0x1_0000;
      window := shifted - shifted % 2;
      if signBits <= 8 && ptr < |input| {
        ptr, window, inBits, signBits, top := PullIn(input, ptr, window, inBits, signBits, top, digits);
      }
    }
    EndEncoding(input, window, inBits, top, digits);
    encoded := buffer[..outIndex];
  }

  // ----- Decoding -----

  function Codes(s: string): (r: seq<Digit>)
    requires AllLetters(s)
    ensures |r| == |s| && forall i :: 0 <= i < |s| ==> r[i] == Code(s[i])
  {
    if s == "" then [] else Codes(s[..|s| - 1]) + [Code(s[|s| - 1])]
  }

  /** The bytes of a text; a character outside of the alphabet makes it unreadable. */
  function DecodedText(s: string): Option<seq<Byte>> {
    if AllLetters(s) then Some(Decoded(Codes(s))) else None
  }

  function Quo(v: nat, p: nat): nat
    requires p > 0
  {
    v / p
  }

  function Rem(v: nat, p: nat): nat
    requires p > 0
  {
    v % p
  }

  /** The upper part of a number, and its lowest `n` bits. */
  function High(v: nat, n: nat): nat { Quo(v, Pow2(n)) }
  function Low(v: nat, n: nat): nat { Rem(v, Pow2(n)) }

  /** The state of the decoding loop. */
  ghost predicate Decoding(digits: seq<Digit>, out: nat, bits: nat, decoded: seq<Byte>) {
    out < Pow2(bits) && ByteBits(decoded) + Bits(bits, out) == DigitBits(digits)
  }

  /** Five more bits are shifted in. */
  lemma ShiftIn(out: nat, bits: nat, d: Digit)
    requires out < Pow2(bits)
    ensures out * 32 + d < Pow2(bits + 5) && Bits(bits + 5, out * 32 + d) == Bits(bits, out) + Bits(5, d)
  {
    Powers();
    PowAdd(bits, 5);
    BitsSplit(bits, 5, out, d);
    hide Pow2, Bits;
  }

  lemma HighLow(v: nat, n: nat)
    requires v < Pow2(n + 8)
    ensures v == High(v, n) * Pow2(n) + Low(v, n) && Low(v, n) < Pow2(n) && High(v, n) < 256
  {
    Powers();
    PowAdd(n, 8);
    hide Pow2;
    BoundedQuotient(v, Pow2(n), v / Pow2(n), 256);
  }

  lemma ShiftInStep(digits: seq<Digit>, out: nat, bits: nat, decoded: seq<Byte>, d: Digit)
    requires Decoding(digits, out, bits, decoded)
    ensures Decoding(digits + [d], out * 32 + d, bits + 5, decoded)
  {
    hide Bits, DigitBits, ByteBits, Pow2;
    ShiftIn(out, bits, d);
    DigitAppended(digits, d);
    Associates(ByteBits(decoded), Bits(bits, out), Bits(5, d));
  }

  /** Eight bits are taken off the upper end. */
  lemma ShiftOutStep(digits: seq<Digit>, out: nat, n: nat, decoded: seq<Byte>)
    requires Decoding(digits, out, n + 8, decoded)
    ensures High(out, n) < 256 && Decoding(digits, Low(out, n), n, decoded + [High(out, n)])
  {
    hide Bits, DigitBits, ByteBits, Pow2, High, Low;
    HighLow(out, n);
    var a, r := High(out, n), Low(out, n);
    BitsSplit(8, n, a, r);
    AppendByte(decoded, a);
    Associates(ByteBits(decoded), Bits(8, a), Bits(n, r));
  }

  lemma AppendByte(s: seq<Byte>, b: Byte)
    ensures ByteBits(s + [b]) == ByteBits(s) + Bits(8, b)
  {
    hide Bits;
    assert (s + [b])[..|s|] == s;
  }

  lemma EndDecoding(digits: seq<Digit>, out: nat, bits: nat, decoded: seq<Byte>)
    requires Decoding(digits, out, bits, decoded) && bits < 8
    ensures |decoded| == 5 * |digits| / 8 && decoded == Decoded(digits)
  {
    hide Bits, DigitBits, ByteBits, Decoded;
    assert |ByteBits(decoded) + Bits(bits, out)| == |DigitBits(digits)|;
    LeftSlice(ByteBits(decoded), Bits(bits, out), 0, 8 * |decoded|);
    DecodedFrom(digits, decoded);
  }

  lemma StartDecoding()
    ensures Decoding([], 0, 0, [])
  {
  }

  lemma CodesStep(s: string, i: nat)
    requires i < |s| && AllLetters(s[..i]) && IsLetter(s[i])
    ensures AllLetters(s[..i + 1]) && Codes(s[..i + 1]) == Codes(s[..i]) + [Code(s[i])]
  {
    assert s[..i + 1] == s[..i] + [s[i]];
    assert s[..i + 1][..i] == s[..i];
  }

  /** push_out: a complete byte leaves `out`. */
  method PushOut(decoded: array<Byte>, outIdx: nat, out: nat, outBits: nat, ghost digits: seq<Digit>)
    returns (outIdx': nat, out': nat, outBits': nat)
    requires outIdx <= decoded.Length && Decoding(digits, out, outBits, decoded[..outIdx])
    requires outBits < 16 && (outBits >= 8 ==> outIdx < decoded.Length)
    modifies decoded
    ensures outIdx' <= decoded.Length && Decoding(digits, out', outBits', decoded[..outIdx']) && outBits' < 8
    ensures 8 * outIdx' + outBits' == 8 * outIdx + outBits
  {
    hide *;
    outIdx', out', outBits' := outIdx, out, outBits;
    if outBits >= 8 {
      var shift := outBits - 8;
      ShiftOutStep(digits, out, shift, decoded[..outIdx]);
      var value := High(out, shift) % 256;
      outBits' := shift;
      decoded[outIdx] := value;
      outIdx' := outIdx + 1;
      out' := Low(out, shift);
      assert decoded[..outIdx'] == old(decoded[..outIdx]) + [value];
    }
  }

  /** The loop looks at a first character unconditionally, and looks a byte above 127 up with a negative
      index, unless another character outside of the alphabet has stopped it before. */
  ghost predicate DecodeOverruns(s: string) {
    s == "" || exists k :: 0 <= k < |s| && Negative(s[k]) && AllLetters(s[..k])
  }

  /** A character that is neither a letter nor negative stops the loop before it can leave the table. */
  lemma StopsHere(s: string, i: nat)
    requires i < |s| && AllLetters(s[..i]) && !IsLetter(s[i]) && !Negative(s[i])
    ensures !DecodeOverruns(s) && !AllLetters(s)
  {
    forall k | 0 <= k < |s| && Negative(s[k]) ensures !AllLetters(s[..k]) {
      if k < i {
        assert s[..i][k] == s[k];
        NegativeIsForeign(s[k]);
      } else {
        assert s[..k][i] == s[i];
      }
    }
  }

  lemma NegativeIsForeign(c: char)
    requires Negative(c)
    ensures !IsLetter(c)
  {
  }

  lemma NothingNegative(s: string)
    requires s != "" && AllLetters(s)
    ensures !DecodeOverruns(s)
  {
    forall k | 0 <= k < |s| ensures !Negative(s[k]) {
      if Negative(s[k]) { NegativeIsForeign(s[k]); }
    }
  }

  /** One character outside of the alphabet in letters leaves the table iff it is negative. */
  lemma ForeignOverruns(s: string, i: nat, c: char)
    requires AllLetters(s) && i < |s| && !IsLetter(c)
    ensures DecodeOverruns(s[i := c]) <==> Negative(c)
  {
    hide Code;
    var s' := s[i := c];
    assert s'[..i] == s[..i];
    if Negative(c) {
      assert s'[i] == c;
    } else {
      StopsHere(s', i);
    }
  }

  /** decode; `broken` if it leaves the text or the table. */
  method Decode(input: string) returns (r: Option<seq<Byte>>, broken: bool)
    ensures broken <==> DecodeOverruns(input)
    ensures !broken ==> r == DecodedText(input)
  {
    hide Codes, Decoded, Decoding;
    if input == "" {
      return None, true;
    }
    broken := false;
    var decoded := new Byte[5 * |input| / 8](_ => 0);
    var outIdx, out, outBits, inIdx := 0, 0, 0, 0;
    StartDecoding();
    ghost var digits: seq<Digit> := [];
    CodesNothing(input);
    while inIdx < |input|
      invariant 0 <= inIdx <= |input| && outBits >= 0 && out >= 0 && 0 <= outIdx <= decoded.Length
      invariant AllLetters(input[..inIdx]) && digits == Codes(input[..inIdx])
      invariant Decoding(digits, out, outBits, decoded[..outIdx]) && outBits < 8
      invariant 8 * outIdx + outBits == 5 * inIdx
    {
      if Negative(input[inIdx]) {
        return None, true;
      }
      var quintet := Code(input[inIdx]);
      if quintet == -1 {
        StopsHere(input, inIdx);
        return None, false;
      }
      CodesStep(input, inIdx);
      ShiftInStep(digits, out, outBits, decoded[..outIdx], quintet);
      digits := digits + [quintet];
      inIdx := inIdx + 1;
      out := out * 32 + quintet;
      outBits := outBits + 5;
      outIdx, out, outBits := PushOut(decoded, outIdx, out, outBits, digits);
    }
    assert input[..|input|] == input;
    NothingNegative(input);
    EndDecoding(digits, out, outBits, decoded[..outIdx]);
    assert decoded[..outIdx] == decoded[..];
    r := Some(decoded[..]);
  }

  lemma CodesNothing(s: string)
    ensures Codes(s[..0]) == []
  {
  }

  /** Encoded text decodes to the bytes it was made from. */
  lemma TextRoundTrip(s: seq<Byte>)
    ensures DecodedText(Letters(Encoded(s))) == Some(s)
  {
    var d := Encoded(s);
    var t := Letters(d);
    assert AllLetters(t);
    assert Codes(t) == d;
    RoundTrip(s);
  }
}
