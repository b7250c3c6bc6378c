/**
 * Base-32 and base-64 armor (async/armor.C): five bytes become eight characters, or three four, and
 * back. An alphabet is a table from digits to characters and one from characters to digits.
 */
module Armor {
  import opened RpcTypes

  /** A character code. */
  type Char = nat

  /** `b2a` gives the character of a digit, `a2b` the digit of a character, or -1. */
  datatype Alphabet = Alphabet(b2a: nat -> Char, a2b: Char -> int)

  /** The tables are inverse to each other on the digits below `n`; the end of a string and the
      padding character are not digits. */
  ghost predicate Proper(t: Alphabet, n: nat) {
    && (forall d: nat :: d < n ==> t.a2b(t.b2a(d)) == d)
    && t.a2b(0) < 0 && t.a2b(PAD) < 0
  }

  const PAD: Char := 61   // '='

  // The alphabets, async/armor.C:26-76, 238-266 and 376-433, by ranges of character codes.

  /** a-k, m, n, p-z, 2-9 */
  function Sfs32(): (t: Alphabet)
    ensures Proper(t, 32)
  {
    Alphabet(
      d => if d < 11 then 97 + d else if d < 13 then 98 + d else if d < 24 then 99 + d else 26 + d,
      c => if 97 <= c <= 107 then c - 97 else if 109 <= c <= 110 then c - 98
           else if 112 <= c <= 122 then c - 99 else if 50 <= c <= 57 then c - 26 else -1)
  }

  /** a-z, 2-7 */
  function Rfc32(): (t: Alphabet)
    ensures Proper(t, 32)
  {
    Alphabet(
      d => if d < 26 then 97 + d else 24 + d,
      c => if 97 <= c <= 122 then c - 97 else if 50 <= c <= 55 then c - 24 else -1)
  }

  /** A-Z, a-z, 0-9 and two more characters. */
  function Table64(x: Char, y: Char): (t: Alphabet)
    requires {x, y} == {43, 47} || {x, y} == {43, 45} || {x, y} == {64, 95}
    ensures Proper(t, 64)
  {
    Alphabet(
      d => if d < 26 then 65 + d else if d < 52 then 71 + d else if d < 62 then d - 4 else if d == 62 then x else y,
      c => if 65 <= c <= 90 then c - 65 else if 97 <= c <= 122 then c - 71 else if 48 <= c <= 57 then c + 4
           else if c == x then 62 else if c == y then 63 else -1)
  }

  /** The digits 0, 1, ... are written as these characters, and no others are digits. */
  ghost predicate Writes(t: Alphabet, s: string) {
    && (forall d: nat :: d < |s| ==> t.b2a(d) == s[d] as nat)
    && (forall c: Char :: t.a2b(c) >= 0 ==> t.a2b(c) < |s| && s[t.a2b(c)] as nat == c)
  }

  const UPPER := "ABCDEFGHIJKLMNOPQRSTUVWXYZ"
  const LOWER := "abcdefghijklmnopqrstuvwxyz"
  const DIGITS := "0123456789"

  /** The alphabets of base 32. */
  lemma Alphabets32()
    ensures Writes(Sfs32(), "abcdefghijkmnpqrstuvwxyz23456789")
    ensures Writes(Rfc32(), LOWER + "234567")
  {
    WritesSfs();
    InOrder(LOWER, 97);
  }

  lemma WritesSfs()
    ensures Writes(Sfs32(), "abcdefghijkmnpqrstuvwxyz23456789")
  {
  }

  /** Those of base 64. */
  lemma Alphabets64()
    ensures Writes(Table64(43, 47), UPPER + LOWER + DIGITS + "+/")
    ensures Writes(Table64(43, 45), UPPER + LOWER + DIGITS + "+-")
    ensures Writes(Table64(64, 95), UPPER + LOWER + DIGITS + "@_")
    ensures PAD == '=' as nat
  {
    InOrder(UPPER, 65);
    InOrder(LOWER, 97);
    InOrder(DIGITS, 48);
  }

  /** These characters have consecutive codes. */
  lemma InOrder(s: string, first: nat)
    requires (s == UPPER && first == 65) || (s == LOWER && first == 97) || (s == DIGITS && first == 48)
    ensures |s| == if s == DIGITS then 10 else 26
    ensures forall i :: 0 <= i < |s| ==> s[i] as nat == first + i
  {
  }

  // Base 32: the bits of five bytes in eight digits.

  function N(b: byte): (n: nat)
    ensures n < 0x100
  {
    b as nat
  }

  /** The low eight bits, as a `char` keeps them. */
  function Low8(n: nat): (b: byte) { (n % 0x100) as byte }

  /** async/armor.C:99-106 */
  function Split32(p: Bytes): (d: seq<nat>)
    requires |p| == 5
    ensures |d| == 8 && forall i :: 0 <= i < 8 ==> d[i] < 32
  {
    [N(p[0]) / 8, N(p[0]) % 8 * 4 + N(p[1]) / 64, N(p[1]) / 2 % 32, N(p[1]) % 2 * 16 + N(p[2]) / 16,
     N(p[2]) % 16 * 2 + N(p[3]) / 128, N(p[3]) / 4 % 32, N(p[3]) % 4 * 8 + N(p[4]) / 32, N(p[4]) % 32]
  }

  /** async/armor.C:175-187; the digits' bits do not overlap, so that `|` is a sum. */
  function Join32(c: seq<nat>): (p: Bytes)
    requires |c| == 8
    ensures |p| == 5
  {
    [Low8(c[0] * 8 + c[1] / 4), Low8(c[1] * 64 + c[2] * 2 + c[3] / 16), Low8(c[3] * 16 + c[4] / 2),
     Low8(c[4] * 128 + c[5] * 4 + c[6] / 8), Low8(c[6] * 32 + c[7])]
  }

  lemma Halves(n: nat)
    requires n < 0x100
    ensures n / 2 % 32 * 2 + n % 2 + n / 64 * 64 == n
    ensures n / 4 % 32 * 4 + n % 4 + n / 128 * 128 == n
  {
    assert n / 2 / 32 == n / 64 && n / 4 / 32 == n / 128;
  }

  lemma KeepLow(b: byte, high: nat)
    ensures Low8(N(b) + high * 0x100) == b
  {
  }

  /** The five bytes, each from the digits that hold its bits. */
  lemma Bits32(p0: nat, p1: nat, p2: nat, p3: nat, p4: nat)
    requires p0 < 0x100 && p1 < 0x100 && p2 < 0x100 && p3 < 0x100 && p4 < 0x100
    ensures p0 / 8 * 8 + (p0 % 8 * 4 + p1 / 64) / 4 == p0
    ensures (p0 % 8 * 4 + p1 / 64) * 64 + p1 / 2 % 32 * 2 + (p1 % 2 * 16 + p2 / 16) / 16 == p1 + p0 % 8 * 0x100
    ensures (p1 % 2 * 16 + p2 / 16) * 16 + (p2 % 16 * 2 + p3 / 128) / 2 == p2 + p1 % 2 * 0x100
    ensures (p2 % 16 * 2 + p3 / 128) * 128 + p3 / 4 % 32 * 4 + (p3 % 4 * 8 + p4 / 32) / 8 == p3 + p2 % 16 * 0x100
    ensures (p3 % 4 * 8 + p4 / 32) * 32 + p4 % 32 == p4 + p3 % 4 * 0x100
  {
    Halves(p1);
    Halves(p3);
    assert (p0 % 8 * 4 + p1 / 64) / 4 == p0 % 8;
    assert (p1 % 2 * 16 + p2 / 16) / 16 == p1 % 2;
    assert (p2 % 16 * 2 + p3 / 128) / 2 == p2 % 16;
    assert (p3 % 4 * 8 + p4 / 32) / 8 == p3 % 4;
  }

  lemma Join32Split(p: Bytes)
    requires |p| == 5
    ensures Join32(Split32(p)) == p
  {
    Bits32(N(p[0]), N(p[1]), N(p[2]), N(p[3]), N(p[4]));
    Bytes32(p, Split32(p));
  }

  lemma Bytes32(p: Bytes, c: seq<nat>)
    requires |p| == 5 && |c| == 8
    requires c[0] * 8 + c[1] / 4 == N(p[0])
    requires c[1] * 64 + c[2] * 2 + c[3] / 16 == N(p[1]) + N(p[0]) % 8 * 0x100
    requires c[3] * 16 + c[4] / 2 == N(p[2]) + N(p[1]) % 2 * 0x100
    requires c[4] * 128 + c[5] * 4 + c[6] / 8 == N(p[3]) + N(p[2]) % 16 * 0x100
    requires c[6] * 32 + c[7] == N(p[4]) + N(p[3]) % 4 * 0x100
    ensures Join32(c) == p
  {
    KeepLow(p[0], 0);
    KeepLow(p[1], N(p[0]) % 8);
    KeepLow(p[2], N(p[1]) % 2);
    KeepLow(p[3], N(p[2]) % 16);
    KeepLow(p[4], N(p[3]) % 4);
  }

  /** The digits are those of the bytes read as one number, the first byte and digit the most significant. */
  lemma Number32(p: Bytes)
    requires |p| == 5
    ensures var d := Split32(p);
      (((N(p[0]) * 0x100 + N(p[1])) * 0x100 + N(p[2])) * 0x100 + N(p[3])) * 0x100 + N(p[4]) ==
        ((((((d[0] * 32 + d[1]) * 32 + d[2]) * 32 + d[3]) * 32 + d[4]) * 32 + d[5]) * 32 + d[6]) * 32 + d[7]
  {
    Halves(N(p[1]));
    Halves(N(p[3]));
  }

  // Base 64: the bits of three bytes in four digits.

  lemma Number64(p: Bytes)
    requires |p| == 3
    ensures var d := Split64(p);
      (N(p[0]) * 0x100 + N(p[1])) * 0x100 + N(p[2]) == ((d[0] * 64 + d[1]) * 64 + d[2]) * 64 + d[3]
  {
  }

  /** async/armor.C:278-281 */
  function Split64(p: Bytes): (d: seq<nat>)
    requires |p| == 3
    ensures |d| == 4 && forall i :: 0 <= i < 4 ==> d[i] < 64
  {
    [N(p[0]) / 4, N(p[0]) % 4 * 16 + N(p[1]) / 16, N(p[1]) % 16 * 4 + N(p[2]) / 64, N(p[2]) % 64]
  }

  /** async/armor.C:326-332 */
  function Join64(c: seq<nat>): (p: Bytes)
    requires |c| == 4
    ensures |p| == 3
  {
    [Low8(c[0] * 4 + c[1] / 16), Low8(c[1] * 16 + c[2] / 4), Low8(c[2] * 64 + c[3])]
  }

  lemma Join64Split(p: Bytes)
    requires |p| == 3
    ensures Join64(Split64(p)) == p
  {
    Bits64(N(p[0]), N(p[1]), N(p[2]));
    KeepLow(p[0], 0);
    KeepLow(p[1], N(p[0]) % 4);
    KeepLow(p[2], N(p[1]) % 16);
  }

  lemma Bits64(p0: nat, p1: nat, p2: nat)
    requires p0 < 0x100 && p1 < 0x100 && p2 < 0x100
    ensures p0 / 4 * 4 + (p0 % 4 * 16 + p1 / 16) / 16 == p0
    ensures (p0 % 4 * 16 + p1 / 16) * 16 + (p1 % 16 * 4 + p2 / 64) / 4 == p1 + p0 % 4 * 0x100
    ensures (p1 % 16 * 4 + p2 / 64) * 64 + p2 % 64 == p2 + p1 % 16 * 0x100
  {
    assert (p0 % 4 * 16 + p1 / 16) / 16 == p0 % 4;
    assert (p1 % 16 * 4 + p2 / 64) / 4 == p1 % 16;
  }

  // Characters and digits.

  function Chars(t: Alphabet, ds: seq<nat>): (s: seq<Char>)
    ensures |s| == |ds|
  {
    seq<Char>(|ds|, i requires 0 <= i < |ds| => t.b2a(ds[i]))
  }

  ghost predicate AllDigits(t: Alphabet, s: seq<Char>) { forall i :: 0 <= i < |s| ==> t.a2b(s[i]) >= 0 }

  function Nums(t: Alphabet, s: seq<Char>): (ds: seq<nat>)
    requires AllDigits(t, s)
    ensures |ds| == |s|
  {
    seq<nat>(|s|, i requires 0 <= i < |s| => t.a2b(s[i]))
  }

  lemma NumsChars(t: Alphabet, n: nat, ds: seq<nat>)
    requires Proper(t, n) && forall i :: 0 <= i < |ds| ==> ds[i] < n
    ensures AllDigits(t, Chars(t, ds)) && Nums(t, Chars(t, ds)) == ds
  {
    forall i | 0 <= i < |ds| ensures t.a2b(Chars(t, ds)[i]) == ds[i] {
      assert Chars(t, ds)[i] == t.b2a(ds[i]);
    }
  }

  // Whole strings, block by block.

  /**
   * A way to turn blocks of `n` bytes into `m` digits below `base`. Fewer than n bytes are padded
   * with zeros, and `digits` of the m digits are kept; `bytes` says how many bytes a number of
   * digits less than m stands for, -1 if none.
   */
  datatype Coder = Coder(
    n: nat, m: nat, base: nat,
    split: Bytes -> seq<nat>, join: seq<nat> -> Bytes,
    digits: nat -> nat, bytes: nat -> int)

  function Zeros<T>(n: nat, zero: T): (z: seq<T>)
    ensures |z| == n
  {
    seq(n, _ => zero)
  }

  function Padded(n: nat, p: Bytes): (q: Bytes)
    requires |p| <= n
    ensures |q| == n && q[..|p|] == p
  {
    p + Zeros(n - |p|, 0)
  }

  /** A short block is filled up with zeros. */
  lemma PaddedIs(n: nat, p: Bytes, i: nat)
    requires |p| <= n && i < n
    ensures Padded(n, p)[i] == if i < |p| then p[i] else 0
  {
  }

  ghost predicate GoodBlocks(k: Coder) {
    && 0 < k.n < k.m
    && (forall q: Bytes {:trigger k.split(q)} :: |q| == k.n ==> |k.split(q)| == k.m && k.join(k.split(q)) == q)
    && (forall q: Bytes, i {:trigger k.split(q)[i]} :: |q| == k.n && 0 <= i < |k.split(q)| ==> k.split(q)[i] < k.base)
    && (forall c: seq<nat> {:trigger k.join(c)} :: |c| == k.m ==> |k.join(c)| == k.n)
  }

  /** The digits that are not kept are zero. */
  ghost predicate GoodTail(k: Coder, p: Bytes)
    requires |p| < k.n
  {
    && k.digits(|p|) < k.m && k.bytes(k.digits(|p|)) == |p|
    && |k.split(Padded(k.n, p))| == k.m
    && k.split(Padded(k.n, p)) == k.split(Padded(k.n, p))[..k.digits(|p|)] + Zeros(k.m - k.digits(|p|), 0)
  }

  ghost predicate Good(k: Coder) {
    GoodBlocks(k) && forall p: Bytes {:trigger GoodTail(k, p)} :: |p| < k.n ==> GoodTail(k, p)
  }

  function Digits(k: Coder, p: Bytes): (d: seq<nat>)
    requires Good(k)
    decreases |p|
  {
    if |p| >= k.n then k.split(p[..k.n]) + Digits(k, p[k.n..])
    else
      assert GoodTail(k, p);
      k.split(Padded(k.n, p))[..k.digits(|p|)]
  }

  /** What the digits stand for, None if no bytes have that number of digits. */
  function Undigits(k: Coder, c: seq<nat>): (r: Option<Bytes>)
    requires Good(k)
    decreases |c|
  {
    if |c| >= k.m then
      var r := Undigits(k, c[k.m..]);
      if r.None? then None else Some(k.join(c[..k.m]) + r.value)
    else if 0 <= k.bytes(|c|) <= k.n then Some(k.join(c + Zeros(k.m - |c|, 0))[..k.bytes(|c|)])
    else None
  }

  lemma {:induction false} RoundTrip(k: Coder, p: Bytes)
    requires Good(k)
    ensures Undigits(k, Digits(k, p)) == Some(p)
    ensures forall i :: 0 <= i < |Digits(k, p)| ==> Digits(k, p)[i] < k.base
    decreases |p|
  {
    if |p| < k.n {
      assert GoodTail(k, p);
      assert k.join(k.split(Padded(k.n, p))) == Padded(k.n, p);
    } else {
      var q, rest := p[..k.n], p[k.n..];
      RoundTrip(k, rest);
      var d, e := k.split(q), Digits(k, rest);
      assert (d + e)[..k.m] == d && (d + e)[k.m..] == e;
      assert p == q + rest && k.join(d) == q;
    }
  }

  /** The length that the source allots, so that its closing assertions hold. */
  lemma {:induction false} DigitsLength(k: Coder, p: Bytes, q: nat, r: nat)
    requires Good(k) && r < k.n && |p| == q * k.n + r
    ensures |Digits(k, p)| == q * k.m + k.digits(r)
    decreases q
  {
    if q == 0 {
      assert GoodTail(k, p);
    } else {
      assert q * k.n == (q - 1) * k.n + k.n && q * k.m == (q - 1) * k.m + k.m;
      assert (q - 1) * k.n >= 0;
      DigitsLength(k, p[k.n..], q - 1, r);
      assert |k.split(p[..k.n])| == k.m;
    }
  }

  lemma {:induction false} UndigitsLength(k: Coder, c: seq<nat>, q: nat, r: nat)
    requires Good(k) && r < k.m && |c| == q * k.m + r && k.bytes(r) <= k.n
    ensures Undigits(k, c).Some? <==> k.bytes(r) >= 0
    ensures Undigits(k, c).Some? ==> |Undigits(k, c).value| == q * k.n + k.bytes(r)
    decreases q
  {
    if q == 0 {
      assert |k.join(c + Zeros(k.m - |c|, 0))| == k.n;
    } else {
      assert q * k.n == (q - 1) * k.n + k.n && q * k.m == (q - 1) * k.m + k.m;
      assert (q - 1) * k.m >= 0;
      UndigitsLength(k, c[k.m..], q - 1, r);
      assert |k.join(c[..k.m])| == k.n;
    }
  }

  /** At most one block. */
  lemma OneBlock(k: Coder, p: Bytes)
    requires Good(k) && |p| <= k.n && k.digits(0) == 0
    ensures |p| == k.n ==> Digits(k, p) == k.split(p)
    ensures |p| < k.n ==> GoodTail(k, p) && Digits(k, p) == k.split(Padded(k.n, p))[..k.digits(|p|)]
  {
    if |p| == k.n {
      assert p[..k.n] == p && p[k.n..] == [] && Padded(k.n, p) == p;
      assert GoodTail(k, []);
      assert Digits(k, []) == [] && k.split(p) + [] == k.split(p);
    } else {
      assert GoodTail(k, p);
    }
  }

  lemma OneBlock64(k: Coder, p: Bytes)
    requires Good(k) && k.n == 3 && k.m == 4 && k.digits(0) == 0 && k.digits(1) == 2 && k.digits(2) == 3
    requires 0 < |p| <= 3
    ensures |k.split(Padded(3, p))| == 4 && Digits(k, p) == k.split(Padded(3, p))[..|p| + 1]
  {
    OneBlock(k, p);
    assert |p| == 3 ==> Padded(3, p) == p;
    assert |k.split(Padded(3, p))| == 4;
  }

  // The two coders of the source.

  /** The tables of async/armor.C:78-79: how many digits fewer than five bytes take, and back. */
  function Coder32(): (k: Coder) {
    Coder(5, 8, 32,
      (q: Bytes) => if |q| == 5 then Split32(q) else [],
      (c: seq<nat>) => if |c| == 8 then Join32(c) else [],
      (i: nat) => if i < 5 then [0, 2, 4, 5, 7][i] else 0,
      (i: nat) => if i < 8 then [0, -1, 1, -1, 2, 3, -1, 4][i] else -1)
  }

  function Coder64(): (k: Coder) {
    Coder(3, 4, 64,
      (q: Bytes) => if |q| == 3 then Split64(q) else [],
      (c: seq<nat>) => if |c| == 4 then Join64(c) else [],
      (i: nat) => if i < 3 then [0, 2, 3][i] else 0,
      (i: nat) => if i < 4 then [0, -1, 1, 2][i] else -1)
  }

  lemma Tail32(p: Bytes)
    requires |p| < 5
    ensures GoodTail(Coder32(), p)
  {
    var k := Coder32();
    var d, m := Split32(Padded(k.n, p)), k.digits(|p|);
    assert forall i :: 0 <= i < 8 && m <= i ==> d[i] == 0;
    assert d == d[..m] + Zeros(8 - m, 0);
  }

  lemma Tail64(p: Bytes)
    requires |p| < 3
    ensures GoodTail(Coder64(), p)
  {
    var k := Coder64();
    var d, m := Split64(Padded(k.n, p)), k.digits(|p|);
    assert forall i :: 0 <= i < 4 && m <= i ==> d[i] == 0;
    assert d == d[..m] + Zeros(4 - m, 0);
  }

  lemma Good32()
    ensures Good(Coder32())
  {
    var k := Coder32();
    forall q: Bytes | |q| == k.n ensures |k.split(q)| == k.m && k.join(k.split(q)) == q {
      Join32Split(q);
    }
    forall p: Bytes | |p| < k.n ensures GoodTail(k, p) {
      Tail32(p);
    }
  }

  lemma Good64()
    ensures Good(Coder64())
  {
    var k := Coder64();
    forall q: Bytes | |q| == k.n ensures |k.split(q)| == k.m && k.join(k.split(q)) == q {
      Join64Split(q);
    }
    forall p: Bytes | |p| < k.n ensures GoodTail(k, p) {
      Tail64(p);
    }
  }
}
