/** Words of 32 bits in network byte order. */
module BigEndian {
  import opened RpcTypes
  import opened Powers

  function Word(n: nat): (w: Bytes)
    requires n < TWO_TO_32
    ensures |w| == 4
  {
    [(n / 0x100_0000) as byte, (n / 0x1_0000 % 0x100) as byte, (n / 0x100 % 0x100) as byte, (n % 0x100) as byte]
  }

  function Unword(w: Bytes): (n: nat)
    requires |w| == 4
    ensures n < TWO_TO_32
  {
    ((w[0] as nat * 0x100 + w[1] as nat) * 0x100 + w[2] as nat) * 0x100 + w[3] as nat
  }

  lemma WordUnword(n: nat)
    requires n < TWO_TO_32
    ensures Unword(Word(n)) == n
  {
    var a, b := n / 0x100, n / 0x1_0000;
    assert a / 0x100 == b && b / 0x100 == n / 0x100_0000;
  }

  lemma UnwordWord(w: Bytes)
    requires |w| == 4
    ensures Word(Unword(w)) == w
  {
    var a, b, c, d := w[0] as nat, w[1] as nat, w[2] as nat, w[3] as nat;
    var n := Unword(w);
    assert n / 0x100 == (a * 0x100 + b) * 0x100 + c && n % 0x100 == d;
    assert n / 0x1_0000 == n / 0x100 / 0x100 == a * 0x100 + b && n / 0x100 % 0x100 == c;
    assert n / 0x100_0000 == n / 0x1_0000 / 0x100 == a && n / 0x1_0000 % 0x100 == b;
  }

  /** The most significant byte comes first. */
  lemma NetworkOrder(n: nat, w: Bytes)
    requires n < TWO_TO_32
    ensures w == Word(n) <==>
      |w| == 4 && n == w[0] as nat * 0x100_0000 + w[1] as nat * 0x1_0000 + w[2] as nat * 0x100 + w[3] as nat
  {
    WordUnword(n);
    if |w| == 4 {
      UnwordWord(w);
    }
  }
}
