/**
 * Bitmaps of free blocks (`bbfree`, async/bbuddy.C, on `bitvec`, async/bitvec.h): an array of
 * 64-bit words with a count of set bits and a hint at a nonzero word.  A word is the set of its
 * 1 bits, so `|`, `&` and `~` are union, intersection and complement.
 */
module Bbfree {

  /** 0, ..., n - 1 */
  function Below(n: nat): (r: set<nat>)
    ensures forall b: nat :: b in r <==> b < n
  {
    if n == 0 then {} else Below(n - 1) + {n - 1}
  }

  type Word = w: set<nat> | forall b :: b in w ==> b < 64

  /** map_t (-1) << s */
  function HighBits(s: nat): Word {
    set b | b in Below(64) && s <= b
  }

  /** ~w */
  function Not(w: Word): Word {
    Below(64) - w
  }

  /** A position is its word and its bit within the word. */
  lemma SamePlace(pos: nat)
    ensures forall p: nat :: p / 64 == pos / 64 && p % 64 == pos % 64 ==> p == pos
  {
  }

  class BbFree {
    var words: seq<Word>
    var nbits: nat
    var hint: nat
    var cnt: nat
    var nmaps: nat
    ghost var bits: set<nat>   // the positions of the 1 bits

    ghost predicate Valid()
      reads this
    {
      && |words| == nmaps == (nbits + 63) / 64
      && (forall p: nat :: p in bits <==> p / 64 < nmaps && p % 64 in words[p / 64])
      && (forall p :: p in bits ==> p < nbits)
      && cnt == |bits|
      && (hint < nmaps || hint == 0)
    }

    constructor ()
      ensures Valid() && nbits == 0 && bits == {}
    {
      words, nbits, hint, cnt, nmaps, bits := [], 0, 0, 0, 0, {};
    }

    /** async/bitvec.h:97-110: clear the bits of [s, e). */
    method RangeClr(s: nat, e: nat)
      requires s <= e <= |words| * 64
      modifies this`words
      ensures |words| == |old(words)|
      ensures forall i, b :: 0 <= i < |words| && 0 <= b < 64 ==>
        (b in words[i] <==> b in old(words)[i] && !(s <= 64 * i + b < e))
    {
      var sp, ep := s / 64, e / 64;
      var sb, eb := s % 64, e % 64;
      if sp == ep {
        if eb != 0 {
          words := words[sp := words[sp] * (Not(HighBits(sb)) + HighBits(eb))];
        }
      } else {
        words := words[sp := words[sp] * Not(HighBits(sb))];
        if eb != 0 {
          words := words[ep := words[ep] * HighBits(eb)];
        }
        ghost var mid := words;
        var i := sp + 1;
        while i < ep
          invariant sp + 1 <= i <= ep && |words| == |mid|
          invariant forall j :: 0 <= j < |words| ==> words[j] == if sp < j < i then {} else mid[j]
        {
          words := words[i := {}];
          i := i + 1;
        }
      }
    }

    /** async/bbuddy.C:54-60: grow to nb bits; the new words hold garbage until they are cleared. */
    method Init(nb: nat)
      requires Valid() && nb >= nbits
      modifies this
      ensures Valid() && nbits == nb && bits == old(bits)
    {
      var obits := nbits;
      var more := (nb + 63) / 64 - nmaps;
      assert |seq(more, _ => HighBits(0))| == more;
      var garbage: seq<Word> :| |garbage| == more;
      words := words + garbage;
      nbits := nb;
      nmaps := (nb + 63) / 64;
      RangeClr(obits, nmaps * 64);
      forall p: nat
        ensures p in bits <==> p / 64 < nmaps && p % 64 in words[p / 64]
      {
        assert 64 * (p / 64) + p % 64 == p;
      }
    }

    function GetBit(pos: nat): (b: bool)
      requires Valid() && pos < nbits
      reads this
      ensures b <==> pos in bits
    {
      pos % 64 in words[pos / 64]
    }

    /** async/bbuddy.C:64-75. */
    method SetBit(pos: nat)
      requires Valid() && pos < nbits && pos !in bits
      modifies this
      ensures Valid() && bits == old(bits) + {pos} && nbits == old(nbits)
    {
      var mi := pos / 64;
      words := words[mi := words[mi] + {pos % 64}];
      if words[hint] == {} {
        hint := mi;
      }
      cnt := cnt + 1;
      bits := bits + {pos};
      SamePlace(pos);
    }

    /** async/bbuddy.C:76-85. */
    method ClrBit(pos: nat)
      requires Valid() && pos < nbits && pos in bits
      modifies this
      ensures Valid() && bits == old(bits) - {pos} && nbits == old(nbits)
    {
      var mi := pos / 64;
      words := words[mi := words[mi] - {pos % 64}];
      cnt := cnt - 1;
      bits := bits - {pos};
      SamePlace(pos);
    }

    /** async/bbuddy.C:91-107: some set bit, exactly if there is one; the panic is unreachable. */
    method FindBit() returns (found: bool, pos: nat)
      requires Valid()
      modifies this`hint
      ensures Valid()
      ensures found <==> bits != {}
      ensures found ==> pos in bits
    {
      pos := 0;
      if cnt == 0 || nbits == 0 {
        return false, pos;
      }
      if words[hint] != {} {
        var b :| b in words[hint];
        assert (hint * 64 + b) / 64 == hint && (hint * 64 + b) % 64 == b;
        return true, hint * 64 + b;
      }
      var i := 0;
      while i < nmaps
        invariant i <= nmaps && hint == old(hint)
        invariant forall j :: 0 <= j < i ==> words[j] == {}
      {
        if words[i] != {} {
          hint := i;
          var b :| b in words[i];
          assert (i * 64 + b) / 64 == i && (i * 64 + b) % 64 == b;
          return true, i * 64 + b;
        }
        i := i + 1;
      }
      assert false;
    }
  }
}
