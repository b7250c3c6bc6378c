/**
 * The armor routines as they run (async/armor.C:89-212, 268-346), and that decoding inverts
 * encoding. Lengths are explicit. Base-64 decoding may look at what memory holds behind the text,
 * `after` in what follows; from the end of `after` on there are zeros, which are no digits.
 */
module ArmorText {
  import opened RpcTypes
  import opened Armor

  // Base 32.

  ghost function Armored32(t: Alphabet, p: Bytes): (s: seq<Char>) {
    Good32();
    Chars(t, Digits(Coder32(), p))
  }

  ghost function Dearmored32(t: Alphabet, s: seq<Char>): (r: Option<Bytes>)
    requires AllDigits(t, s)
  {
    Good32();
    Undigits(Coder32(), Nums(t, s))
  }

  /** dearmor32 (armor32 (p)) is p, for every string of bytes. */
  lemma RoundTrip32(t: Alphabet, p: Bytes)
    requires Proper(t, 32)
    ensures AllDigits(t, Armored32(t, p)) && Dearmored32(t, Armored32(t, p)) == Some(p)
  {
    Good32();
    RoundTrip(Coder32(), p);
    NumsChars(t, 32, Digits(Coder32(), p));
  }

  lemma CharsJoin(t: Alphabet, a: seq<nat>, b: seq<nat>)
    ensures Chars(t, a + b) == Chars(t, a) + Chars(t, b)
  {
  }

  /** One block in front. */
  lemma Armored32Step(t: Alphabet, p: Bytes)
    requires |p| >= 5
    ensures Armored32(t, p) == Chars(t, Split32(p[..5])) + Armored32(t, p[5..])
  {
    Good32();
    CharsJoin(t, Split32(p[..5]), Digits(Coder32(), p[5..]));
  }

  /** The characters of a block, of which `n` bytes are there, as the switch of async/armor.C:111-142 writes them. */
  lemma Armored32Tail(t: Alphabet, p: Bytes)
    requires |p| < 5
    ensures Armored32(t, p) == Chars(t, Split32(Padded(5, p))[..Coder32().digits(|p|)])
  {
    Good32();
    assert GoodTail(Coder32(), p);
  }

  /** async/armor.C:99-106 */
  method Block32(t: Alphabet, p: Bytes) returns (res: seq<Char>)
    requires |p| == 5
    ensures res == Chars(t, Split32(p))
  {
    res := [t.b2a(N(p[0]) / 8), t.b2a(N(p[0]) % 8 * 4 + N(p[1]) / 64), t.b2a(N(p[1]) / 2 % 32),
            t.b2a(N(p[1]) % 2 * 16 + N(p[2]) / 16), t.b2a(N(p[2]) % 16 * 2 + N(p[3]) / 128),
            t.b2a(N(p[3]) / 4 % 32), t.b2a(N(p[3]) % 4 * 8 + N(p[4]) / 32), t.b2a(N(p[4]) % 32)];
  }

  /** async/armor.C:89-146; the closing assertion is on the length of the result. */
  method Armor32(t: Alphabet, p: Bytes) returns (res: seq<Char>)
    ensures res == Armored32(t, p)
    ensures |res| == |p| / 5 * 8 + [0, 2, 4, 5, 7][|p| % 5]
  {
    ghost var whole := Armored32(t, p);
    ghost var left, todo := p, whole;
    var i: nat := 0;
    res := [];
    while i + 5 <= |p|
      invariant i <= |p| && left == p[i..] && todo == Armored32(t, left) && res + todo == whole
    {
      Armored32Step(t, left);
      assert left[..5] == p[i..i + 5] && left[5..] == p[i + 5..];
      var block := Block32(t, p[i..i + 5]);
      left, todo := left[5..], Armored32(t, left[5..]);
      Assoc(res, block, todo);
      res := res + block;
      i := i + 5;
    }
    var tail := Tail32Chars(t, p[i..]);
    res := res + tail;
    Length32(t, p);
  }

  lemma Length32(t: Alphabet, p: Bytes)
    ensures |Armored32(t, p)| == |p| / 5 * 8 + [0, 2, 4, 5, 7][|p| % 5]
  {
    Good32();
    DigitsLength(Coder32(), p, |p| / 5, |p| % 5);
  }

  /** The switch of async/armor.C:111-142. */
  method Tail32Chars(t: Alphabet, p: Bytes) returns (res: seq<Char>)
    requires |p| < 5
    ensures res == Armored32(t, p)
  {
    Armored32Tail(t, p);
    ghost var d := Split32(Padded(5, p));
    res := [];
    if |p| == 4 {
      res := [t.b2a(N(p[0]) / 8), t.b2a(N(p[0]) % 8 * 4 + N(p[1]) / 64), t.b2a(N(p[1]) / 2 % 32),
              t.b2a(N(p[1]) % 2 * 16 + N(p[2]) / 16), t.b2a(N(p[2]) % 16 * 2 + N(p[3]) / 128),
              t.b2a(N(p[3]) / 4 % 32), t.b2a(N(p[3]) % 4 * 8)];
    } else if |p| == 3 {
      res := [t.b2a(N(p[0]) / 8), t.b2a(N(p[0]) % 8 * 4 + N(p[1]) / 64), t.b2a(N(p[1]) / 2 % 32),
              t.b2a(N(p[1]) % 2 * 16 + N(p[2]) / 16), t.b2a(N(p[2]) % 16 * 2)];
    } else if |p| == 2 {
      res := [t.b2a(N(p[0]) / 8), t.b2a(N(p[0]) % 8 * 4 + N(p[1]) / 64), t.b2a(N(p[1]) / 2 % 32),
              t.b2a(N(p[1]) % 2 * 16)];
    } else if |p| == 1 {
      res := [t.b2a(N(p[0]) / 8), t.b2a(N(p[0]) % 8 * 4)];
    }
  }

  /** A length that no armor has is refused; otherwise the result has the length that is allotted. */
  lemma Length32Back(t: Alphabet, s: seq<Char>)
    requires AllDigits(t, s)
    ensures var r, n := Dearmored32(t, s), [0, -1, 1, -1, 2, 3, -1, 4][|s| % 8];
      (r.Some? <==> n >= 0) && (r.Some? ==> |r.value| == |s| / 8 * 5 + n)
  {
    Good32();
    UndigitsLength(Coder32(), Nums(t, s), |s| / 8, |s| % 8);
  }

  ghost function Ahead(b: Bytes, r: Option<Bytes>): (o: Option<Bytes>) { if r.None? then None else Some(b + r.value) }

  lemma Dearmored32Step(t: Alphabet, s: seq<Char>)
    requires AllDigits(t, s) && |s| >= 8
    ensures AllDigits(t, s[..8]) && AllDigits(t, s[8..])
    ensures Dearmored32(t, s) == Ahead(Join32(Nums(t, s[..8])), Dearmored32(t, s[8..]))
  {
    Good32();
    assert Nums(t, s)[..8] == Nums(t, s[..8]) && Nums(t, s)[8..] == Nums(t, s[8..]);
  }

  lemma Dearmored32Tail(t: Alphabet, s: seq<Char>)
    requires AllDigits(t, s) && |s| < 8 && Coder32().bytes(|s|) >= 0
    ensures Dearmored32(t, s) == Some(Join32(Nums(t, s) + Zeros(8 - |s|, 0))[..Coder32().bytes(|s|)])
  {
    Good32();
  }

  /** The loop body of async/armor.C:174-188. */
  method Unblock32(t: Alphabet, s: seq<Char>) returns (d: Bytes)
    requires |s| == 8 && AllDigits(t, s)
    ensures d == Join32(Nums(t, s))
  {
    var c0, c1, c2, c3 := t.a2b(s[0]), t.a2b(s[1]), t.a2b(s[2]), t.a2b(s[3]);
    var c4, c5, c6, c7 := t.a2b(s[4]), t.a2b(s[5]), t.a2b(s[6]), t.a2b(s[7]);
    d := [Low8(c0 * 8 + c1 / 4), Low8(c1 * 64 + c2 * 2 + c3 / 16), Low8(c3 * 16 + c4 / 2),
          Low8(c4 * 128 + c5 * 4 + c6 / 8), Low8(c6 * 32 + c7)];
  }

  /** The nested tests of async/armor.C:190-208. */
  method Untail32(t: Alphabet, s: seq<Char>, rem: nat) returns (d: Bytes)
    requires |s| < 8 && AllDigits(t, s) && rem == Coder32().bytes(|s|)
    ensures Dearmored32(t, s) == Some(d) && |d| == rem
  {
    Dearmored32Tail(t, s);
    ghost var c := Nums(t, s) + Zeros(8 - |s|, 0);
    assert forall i :: 0 <= i < |s| ==> c[i] == t.a2b(s[i]);
    d := [];
    if rem >= 1 {
      var c0, c1 := t.a2b(s[0]), t.a2b(s[1]);
      d := d + [Low8(c0 * 8 + c1 / 4)];
      if rem >= 2 {
        var c2, c3 := t.a2b(s[2]), t.a2b(s[3]);
        d := d + [Low8(c1 * 64 + c2 * 2 + c3 / 16)];
        if rem >= 3 {
          var c4 := t.a2b(s[4]);
          d := d + [Low8(c3 * 16 + c4 / 2)];
          if rem >= 4 {
            var c5, c6 := t.a2b(s[5]), t.a2b(s[6]);
            d := d + [Low8(c4 * 128 + c5 * 4 + c6 / 8)];
          }
        }
      }
    }
    assert d == Join32(c)[..rem];
  }

  /** async/armor.C:157-212, for characters of the alphabet; None where the source returns NULL. */
  method Dearmor32(t: Alphabet, s: seq<Char>) returns (r: Option<Bytes>)
    requires AllDigits(t, s)
    ensures r == Dearmored32(t, s)
  {
    Length32Back(t, s);
    var rem := [0, -1, 1, -1, 2, 3, -1, 4][|s| % 8];
    if rem < 0 {
      return None;
    }
    ghost var whole := Dearmored32(t, s);
    ghost var left, todo := s, whole;
    var bin: Bytes := [];
    assert whole.Some? ==> bin + whole.value == whole.value;
    var i: nat := 0;
    ghost var j: nat := 0;
    while i + 8 <= |s|
      invariant i == 8 * j <= |s| && left == s[i..]
      invariant todo == Dearmored32(t, left) && whole == Ahead(bin, todo)
    {
      Dearmored32Step(t, left);
      assert left[..8] == s[i..i + 8] && left[8..] == s[i + 8..];
      var block := Unblock32(t, s[i..i + 8]);
      left := left[8..];
      todo := Dearmored32(t, left);
      AheadMore(bin, block, todo);
      bin := bin + block;
      i, j := i + 8, j + 1;
    }
    Remainder(|s|, j);
    var tail := Untail32(t, s[i..], rem);
    r := Some(bin + tail);
  }

  lemma Remainder(n: nat, j: nat)
    requires 8 * j <= n < 8 * j + 8
    ensures n % 8 == n - 8 * j
  {
  }

  lemma AheadMore(a: Bytes, b: Bytes, r: Option<Bytes>)
    ensures Ahead(a, Ahead(b, r)) == Ahead(a + b, r)
  {
    if r.Some? {
      Assoc(a, b, r.value);
    }
  }

  // Base 64.

  /** The padding of a last block of `rem` bytes. */
  function Pads(rem: nat): (s: seq<Char>)
    requires rem < 3
    ensures |s| == if rem == 0 then 0 else 3 - rem
  {
    [[], [PAD, PAD], [PAD]][rem]
  }

  ghost function Digits64(p: Bytes): (d: seq<nat>) {
    Good64();
    Digits(Coder64(), p)
  }

  ghost function Armored64(t: Alphabet, endpad: bool, p: Bytes): (s: seq<Char>) {
    Chars(t, Digits64(p)) + if endpad then Pads(|p| % 3) else []
  }

  /** The digit at a place; at and after the end there are zeros. */
  function DigitAt(t: Alphabet, s: seq<Char>, i: nat): (c: int) { t.a2b(if i < |s| then s[i] else 0) }

  /** What the decoder needs, since it does not check it: digits up to the last block, and two there. */
  ghost predicate Decodable64(t: Alphabet, s: seq<Char>, after: seq<Char>)
    decreases |s|
  {
    if |s| > 4 then AllDigits(t, s[..4]) && Decodable64(t, s[4..], after)
    else s == [] || (DigitAt(t, s + after, 0) >= 0 && DigitAt(t, s + after, 1) >= 0)
  }

  /** async/armor.C:335-342: as many bytes as there are digits, wherever the text ends. */
  function Last64(t: Alphabet, s: seq<Char>): (d: Bytes)
    requires DigitAt(t, s, 0) >= 0 && DigitAt(t, s, 1) >= 0
  {
    var c0, c1, c2, c3 := DigitAt(t, s, 0), DigitAt(t, s, 1), DigitAt(t, s, 2), DigitAt(t, s, 3);
    if c2 < 0 then [Low8(c0 * 4 + c1 / 16)]
    else if c3 < 0 then [Low8(c0 * 4 + c1 / 16), Low8(c1 * 16 + c2 / 4)]
    else [Low8(c0 * 4 + c1 / 16), Low8(c1 * 16 + c2 / 4), Low8(c2 * 64 + c3)]
  }

  function Dearmored64(t: Alphabet, s: seq<Char>, after: seq<Char>): (d: Bytes)
    requires Decodable64(t, s, after)
    decreases |s|
  {
    if |s| > 4 then Join64(Nums(t, s[..4])) + Dearmored64(t, s[4..], after)
    else if s == [] then []
    else Last64(t, s + after)
  }

  /** The text ends with its last block, or no digit follows it. */
  ghost predicate Closed64(t: Alphabet, s: seq<Char>, after: seq<Char>) {
    |s| % 4 == 0 || DigitAt(t, after, 0) < 0
  }

  /** Two digits follow a rest of one or two characters. */
  ghost predicate Overruns64(t: Alphabet, s: seq<Char>, after: seq<Char>) {
    0 < |s| % 4 < 3 && DigitAt(t, after, 0) >= 0 && DigitAt(t, after, 1) >= 0
  }

  /** A last block of one, two or three bytes, padded or not. */
  lemma LastRoundTrip(t: Alphabet, endpad: bool, p: Bytes, after: seq<Char>)
    requires Proper(t, 64) && 0 < |p| <= 3
    ensures var s := Armored64(t, endpad, p);
      && 2 <= |s| <= 4 && Decodable64(t, s, after)
      && (Dearmored64(t, s, after) == p <==> Closed64(t, s, after))
  {
    SmallDigits(p);
    var pads := if endpad then Pads(|p| % 3) else [];
    FullPads(|p|);
    LastBack(t, p, Digits64(p), pads, after);
  }

  lemma FullPads(n: nat)
    requires 0 < n <= 3
    ensures n + 1 + |Pads(n % 3)| == 4 && forall i :: 0 <= i < |Pads(n % 3)| ==> Pads(n % 3)[i] == PAD
  {
    assert n % 3 == if n == 3 then 0 else n;
  }

  lemma LastBack(t: Alphabet, p: Bytes, d: seq<nat>, pads: seq<Char>, after: seq<Char>)
    requires Proper(t, 64) && 0 < |p| <= 3 && |d| == |p| + 1 && d == Split64(Padded(3, p))[..|d|]
    requires (pads == [] || |d| + |pads| == 4) && forall i :: 0 <= i < |pads| ==> pads[i] == PAD
    ensures var s := Chars(t, d) + pads;
      && 2 <= |s| <= 4 && Decodable64(t, s, after)
      && (Dearmored64(t, s, after) == p <==> Closed64(t, s, after))
  {
    NumsChars(t, 64, d);
    LastBytes(p, d);
    var s := Chars(t, d) + pads;
    LastDigits(t, d, s, pads, after);
    if Closed64(t, s, after) {
      Last64Is(t, s + after, d, p);
    }
  }

  /** The block has the digits `d` and then no digit, so it has the bytes of `d`. */
  lemma Last64Is(t: Alphabet, u: seq<Char>, d: seq<nat>, p: Bytes)
    requires 0 < |p| <= 3 && |d| == |p| + 1
    requires forall i :: 0 <= i < |d| ==> DigitAt(t, u, i) == d[i]
    requires |d| < 4 ==> DigitAt(t, u, |d|) < 0
    requires p[0] == Low8(d[0] * 4 + d[1] / 16)
    requires |p| > 1 ==> p[1] == Low8(d[1] * 16 + d[2] / 4)
    requires |p| > 2 ==> p[2] == Low8(d[2] * 64 + d[3])
    ensures Last64(t, u) == p
  {
    assert DigitAt(t, u, 0) == d[0] && DigitAt(t, u, 1) == d[1];
    if |p| == 2 {
      assert DigitAt(t, u, 2) == d[2];
    } else if |p| == 3 {
      assert DigitAt(t, u, 2) == d[2] && DigitAt(t, u, 3) == d[3];
    }
  }

  /** The digits at the places of a last block, and whether one comes behind them. */
  lemma LastDigits(t: Alphabet, d: seq<nat>, s: seq<Char>, pads: seq<Char>, after: seq<Char>)
    requires Proper(t, 64) && 2 <= |d| <= 4 && AllDigits(t, Chars(t, d)) && Nums(t, Chars(t, d)) == d
    requires s == Chars(t, d) + pads && (pads == [] || |s| == 4) && forall i :: 0 <= i < |pads| ==> pads[i] == PAD
    ensures forall i :: 0 <= i < |d| ==> DigitAt(t, s + after, i) == d[i]
    ensures |d| < 4 ==> (DigitAt(t, s + after, |d|) < 0 <==> Closed64(t, s, after))
  {
    forall i | 0 <= i < |d| ensures DigitAt(t, s + after, i) == d[i] {
      assert (s + after)[i] == Chars(t, d)[i] && Nums(t, Chars(t, d))[i] == t.a2b(Chars(t, d)[i]);
    }
    if |d| < 4 {
      assert DigitAt(t, s + after, |d|) == if pads == [] then DigitAt(t, after, 0) else t.a2b(PAD);
    }
  }

  lemma SmallDigits(p: Bytes)
    requires 0 < |p| <= 3
    ensures Digits64(p) == Split64(Padded(3, p))[..|p| + 1]
  {
    Good64();
    OneBlock64(Coder64(), p);
    assert Coder64().split(Padded(3, p)) == Split64(Padded(3, p));
  }

  /** The bytes from their digits. */
  lemma LastBytes(p: Bytes, d: seq<nat>)
    requires 0 < |p| <= 3 && |d| == |p| + 1 && d == Split64(Padded(3, p))[..|d|]
    ensures p[0] == Low8(d[0] * 4 + d[1] / 16)
    ensures |p| > 1 ==> p[1] == Low8(d[1] * 16 + d[2] / 4)
    ensures |p| > 2 ==> p[2] == Low8(d[2] * 64 + d[3])
  {
    var q := Padded(3, p);
    Join64Split(q);
    assert p == q[..|p|];
  }

  lemma Digits64Step(p: Bytes)
    requires |p| >= 3
    ensures Digits64(p) == Split64(p[..3]) + Digits64(p[3..])
  {
    Good64();
  }

  lemma Armored64Step(t: Alphabet, endpad: bool, p: Bytes)
    requires |p| >= 3
    ensures Armored64(t, endpad, p) == Chars(t, Split64(p[..3])) + Armored64(t, endpad, p[3..])
  {
    var d, e, pads := Split64(p[..3]), Digits64(p[3..]), if endpad then Pads(|p| % 3) else [];
    Digits64Step(p);
    CharsJoin(t, d, e);
    Assoc(Chars(t, d), Chars(t, e), pads);
    assert (|p| - 3) % 3 == |p| % 3;
  }

  lemma NoDigits64()
    ensures Digits64([]) == []
  {
    Good64();
    OneBlock(Coder64(), []);
  }

  lemma Nothing64(t: Alphabet, endpad: bool)
    ensures Armored64(t, endpad, []) == []
  {
    NoDigits64();
  }

  /**
   * dearmor64 (armor64 (p)) is p, for every string of bytes, with padding and without, exactly if
   * the armor consists of whole blocks or no digit follows it in memory.
   */
  lemma {:induction false} RoundTrip64(t: Alphabet, endpad: bool, p: Bytes, after: seq<Char>)
    requires Proper(t, 64)
    ensures var s := Armored64(t, endpad, p);
      && Decodable64(t, s, after) && (p != [] ==> |s| >= 2)
      && (Dearmored64(t, s, after) == p <==> Closed64(t, s, after))
    decreases |p|
  {
    if p == [] {
      Nothing64(t, endpad);
    } else if |p| <= 3 {
      LastRoundTrip(t, endpad, p, after);
    } else {
      var rest := Armored64(t, endpad, p[3..]);
      RoundTrip64(t, endpad, p[3..], after);
      Armored64Step(t, endpad, p);
      FirstBlock(t, p[..3], rest, after);
      Cancels(p[..3], Dearmored64(t, rest, after), p[3..]);
      assert p == p[..3] + p[3..];
    }
  }

  lemma Cancels(a: Bytes, b: Bytes, c: Bytes)
    ensures a + b == a + c <==> b == c
  {
    if a + b == a + c {
      assert b == (a + b)[|a|..] && c == (a + c)[|a|..];
    }
  }

  lemma FirstBlock(t: Alphabet, q: Bytes, rest: seq<Char>, after: seq<Char>)
    requires Proper(t, 64) && |q| == 3 && rest != [] && Decodable64(t, rest, after)
    ensures var s := Chars(t, Split64(q)) + rest;
      && Decodable64(t, s, after) && Dearmored64(t, s, after) == q + Dearmored64(t, rest, after)
      && (Closed64(t, s, after) <==> Closed64(t, rest, after))
  {
    var d := Split64(q);
    var s := Chars(t, d) + rest;
    NumsChars(t, 64, d);
    Join64Split(q);
    assert s[..4] == Chars(t, d) && s[4..] == rest;
  }

  /** A text that is followed by digits: "AA" is the armor of a zero byte, "AAAA" that of three. */
  lemma FollowedByDigits()
    ensures var t, s := Table64(43, 45), [65, 65];
      && Armored64(t, false, [0]) == s && Decodable64(t, s, [65, 65])
      && Dearmored64(t, s, [65, 65]) == [0, 0, 0] && 3 > |s| - |s| / 4
  {
    var t := Table64(43, 45);
    var p: Bytes := [0];
    SmallDigits(p);
    assert Padded(3, p) == [0, 0, 0];
    assert Chars(t, [0, 0]) == [65, 65];
    assert [65, 65] + [65, 65] == [65, 65, 65, 65];
  }

  /** async/armor.C:278-281 */
  method Block64(t: Alphabet, p: Bytes) returns (res: seq<Char>)
    requires |p| == 3
    ensures res == Chars(t, Split64(p))
  {
    res := [t.b2a(N(p[0]) / 4), t.b2a(N(p[0]) % 4 * 16 + N(p[1]) / 16), t.b2a(N(p[1]) % 16 * 4 + N(p[2]) / 64),
            t.b2a(N(p[2]) % 64)];
  }

  /** The switch of async/armor.C:286-300, always padded. */
  method Tail64Chars(t: Alphabet, p: Bytes) returns (res: seq<Char>)
    requires |p| < 3
    ensures res == Armored64(t, true, p) && |res| == if p == [] then 0 else 4
    ensures Armored64(t, false, p) == res[..|res| - |Pads(|p|)|]
  {
    res := [];
    if p == [] {
      Nothing64(t, true);
      Nothing64(t, false);
    } else {
      SmallDigits(p);
      ghost var d := Split64(Padded(3, p));
      if |p| == 1 {
        res := [t.b2a(N(p[0]) / 4), t.b2a(N(p[0]) % 4 * 16), PAD, PAD];
      } else {
        res := [t.b2a(N(p[0]) / 4), t.b2a(N(p[0]) % 4 * 16 + N(p[1]) / 16), t.b2a(N(p[1]) % 16 * 4), PAD];
      }
      assert Chars(t, d[..|p| + 1]) == res[..|p| + 1];
      assert res == res[..|p| + 1] + Pads(|p|);
    }
  }

  lemma ShortLength64(t: Alphabet, p: Bytes)
    requires 0 < |p| < 3
    ensures |Armored64(t, true, p)| == 4
  {
    SmallDigits(p);
    assert |p| % 3 == |p|;
  }

  lemma {:induction false} Armored64Length(t: Alphabet, p: Bytes, q: nat, r: nat)
    requires |p| == 3 * q + r && r < 3
    ensures |Armored64(t, true, p)| == 4 * q + if r == 0 then 0 else 4
    decreases q
  {
    if q > 0 {
      Armored64Step(t, true, p);
      Armored64Length(t, p[3..], q - 1, r);
    } else if r == 0 {
      Nothing64(t, true);
    } else {
      ShortLength64(t, p);
    }
  }

  /** The length that async/armor.C:274 allots, a multiple of four. */
  lemma Allotted64(t: Alphabet, p: Bytes)
    ensures |Armored64(t, true, p)| == (|p| + 2) / 3 * 4 && |Armored64(t, true, p)| % 4 == 0
  {
    Armored64Length(t, p, |p| / 3, |p| % 3);
    Thirds(|p|, |Armored64(t, true, p)|);
  }

  lemma Thirds(n: nat, len: nat)
    requires len == n / 3 * 4 + if n % 3 == 0 then 0 else 4
    ensures len == (n + 2) / 3 * 4 && len % 4 == 0
  {
  }

  /** async/armor.C:268-307; the closing assertion is on the length of the padded result. */
  method Armor64(t: Alphabet, endpad: bool, p: Bytes) returns (res: seq<Char>)
    ensures res == Armored64(t, endpad, p)
  {
    ghost var left, todo := p, Armored64(t, true, p);
    var i: nat := 0;
    res := [];
    while i + 3 <= |p|
      invariant i <= |p| && left == p[i..] && todo == Armored64(t, true, left)
      invariant res + todo == Armored64(t, true, p) && res + Armored64(t, false, left) == Armored64(t, false, p)
    {
      Armored64Step(t, true, left);
      Armored64Step(t, false, left);
      assert left[..3] == p[i..i + 3] && left[3..] == p[i + 3..];
      var block := Block64(t, p[i..i + 3]);
      left, todo := left[3..], Armored64(t, true, left[3..]);
      Assoc(res, block, todo);
      Assoc(res, block, Armored64(t, false, left));
      res := res + block;
      i := i + 3;
    }
    var tail := Tail64Chars(t, p[i..]);
    var rem := |p| - i;
    Allotted64(t, p);
    assert |res + tail| == (|p| + 2) / 3 * 4;
    res := res + if endpad || rem == 0 then tail else tail[..rem + 1];
  }

  /** async/armor.C:315-346, for strings that hold digits where it does not check for them. */
  method Dearmor64(t: Alphabet, s: seq<Char>, after: seq<Char>) returns (bin: Bytes)
    requires Decodable64(t, s, after)
    ensures bin == Dearmored64(t, s, after)
  {
    bin := [];
    if s == [] {
      return;
    }
    ghost var left, todo := s, Dearmored64(t, s, after);
    ghost var whole := todo;
    var i: nat := 0;
    while |s| - i > 4
      invariant i < |s| && left == s[i..] && Decodable64(t, left, after)
      invariant todo == Dearmored64(t, left, after) && bin + todo == whole
      decreases |s| - i
    {
      assert left[..4] == s[i..i + 4] && left[4..] == s[i + 4..];
      var block := Unblock64(t, s[i..i + 4]);
      left := left[4..];
      todo := Dearmored64(t, left, after);
      Assoc(bin, block, todo);
      bin := bin + block;
      i := i + 4;
    }
    bin := bin + Last64(t, s[i..] + after);
  }

  method Unblock64(t: Alphabet, s: seq<Char>) returns (d: Bytes)
    requires |s| == 4 && AllDigits(t, s)
    ensures d == Join64(Nums(t, s))
  {
    var c0, c1, c2, c3 := t.a2b(s[0]), t.a2b(s[1]), t.a2b(s[2]), t.a2b(s[3]);
    d := [Low8(c0 * 4 + c1 / 16), Low8(c1 * 16 + c2 / 4), Low8(c2 * 64 + c3)];
  }

  /** The result fits the space that async/armor.C:321 allots exactly if no two digits follow so. */
  lemma {:induction false} Fits64(t: Alphabet, s: seq<Char>, after: seq<Char>)
    requires Decodable64(t, s, after)
    ensures |Dearmored64(t, s, after)| <= |s| - |s| / 4 <==> !Overruns64(t, s, after)
    decreases |s|
  {
    if |s| > 4 {
      Fits64(t, s[4..], after);
      assert |s[4..]| / 4 == |s| / 4 - 1 && |s[4..]| % 4 == |s| % 4;
    } else if s != [] {
      LastFits(t, s, after);
    }
  }

  lemma LastFits(t: Alphabet, s: seq<Char>, after: seq<Char>)
    requires 0 < |s| <= 4 && DigitAt(t, s + after, 0) >= 0 && DigitAt(t, s + after, 1) >= 0
    ensures |Last64(t, s + after)| <= |s| - |s| / 4 <==> !Overruns64(t, s, after)
  {
    var u := s + after;
    assert forall i: nat :: DigitAt(t, u, |s| + i) == DigitAt(t, after, i);
  }

  /** All five alphabets of the source: two of base 32, and of base 64 the padded one with `+` and `/`,
      the unpadded one with `+` and `-`, the padded one with `@` and `_`. */
  lemma EveryAlphabet(p: Bytes)
    ensures Inverts32(Sfs32(), p) && Inverts32(Rfc32(), p)
    ensures Inverts64(Table64(43, 47), true, p) && Inverts64(Table64(43, 45), false, p)
    ensures Inverts64(Table64(64, 95), true, p)
  {
    Inverse32(Sfs32(), p);
    Inverse32(Rfc32(), p);
    Inverse64(Table64(43, 47), true, p);
    Inverse64(Table64(43, 45), false, p);
    Inverse64(Table64(64, 95), true, p);
  }

  /** Decoding the armor of `p` gives `p`. */
  ghost predicate Inverts32(t: Alphabet, p: Bytes) {
    AllDigits(t, Armored32(t, p)) && Dearmored32(t, Armored32(t, p)) == Some(p)
  }

  /** Likewise, whatever follows a padded armor, which has a length that `dearmor64` does not refuse,
      and whatever follows another if it does not begin with a digit. */
  ghost predicate Inverts64(t: Alphabet, endpad: bool, p: Bytes) {
    var s := Armored64(t, endpad, p);
    && (endpad ==> |s| % 4 == 0)
    && forall after :: (endpad || DigitAt(t, after, 0) < 0) ==> Decodable64(t, s, after) && Dearmored64(t, s, after) == p
  }

  lemma Inverse32(t: Alphabet, p: Bytes)
    requires Proper(t, 32)
    ensures Inverts32(t, p)
  {
    RoundTrip32(t, p);
  }

  lemma Inverse64(t: Alphabet, endpad: bool, p: Bytes)
    requires Proper(t, 64)
    ensures Inverts64(t, endpad, p)
  {
    Allotted64(t, p);
    forall after: seq<Char> | endpad || DigitAt(t, after, 0) < 0
      ensures Decodable64(t, Armored64(t, endpad, p), after)
      ensures Dearmored64(t, Armored64(t, endpad, p), after) == p
    {
      RoundTrip64(t, endpad, p, after);
    }
  }
}