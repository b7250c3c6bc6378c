/** Vocabulary shared by the RPC client, the RPC servers, the transports and the data structures. */
module RpcTypes {

  newtype byte = i: int | 0 <= i < 0x100

  type Bytes = seq<byte>

  /** An RPC transaction identifier. */
  type Xid = nat

  datatype Option<+T> = None | Some(value: T)

  ghost function Elements<T>(s: seq<T>): set<T> { set x | x in s }

  lemma Assoc<T>(a: seq<T>, b: seq<T>, c: seq<T>)
    ensures a + (b + c) == a + b + c
  {
  }

  /** No element occurs twice. */
  ghost predicate Distinct<T>(s: seq<T>) {
    forall i, j :: 0 <= i < j < |s| ==> s[i] != s[j]
  }

  /** The sequence without the occurrences of one element. */
  function Without<T(==, !new)>(s: seq<T>, x: T): (r: seq<T>)
    ensures |r| <= |s|
    ensures forall y :: y in r <==> y in s && y != x
    ensures x !in s ==> r == s
  {
    if s == [] then []
    else if s[0] == x then Without(s[1..], x)
    else [s[0]] + Without(s[1..], x)
  }

  /** Removing an element keeps the others in their order. */
  lemma {:induction false} WithoutOrder<T(!new)>(s: seq<T>, x: T, i: nat, j: nat) returns (k: nat, l: nat)
    requires i < j < |Without(s, x)|
    ensures k < l < |s| && s[k] == Without(s, x)[i] && s[l] == Without(s, x)[j]
  {
    var t := s[1..];
    if s[0] == x {
      k, l := WithoutOrder(t, x, i, j);
      k, l := k + 1, l + 1;
    } else if i == 0 {
      assert Without(s, x)[j] == Without(t, x)[j - 1] && Without(t, x)[j - 1] in t;
      l :| 0 <= l < |t| && t[l] == Without(s, x)[j];
      k, l := 0, l + 1;
    } else {
      k, l := WithoutOrder(t, x, i - 1, j - 1);
      k, l := k + 1, l + 1;
    }
  }

  lemma WithoutDistinct<T(!new)>(s: seq<T>, x: T)
    requires Distinct(s)
    ensures Distinct(Without(s, x))
  {
    var r := Without(s, x);
    forall i, j | 0 <= i < j < |r| ensures r[i] != r[j] {
      var k, l := WithoutOrder(s, x, i, j);
    }
  }
}
