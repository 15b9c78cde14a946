/** Bytes and the little-endian encodings of integers and field elements. */
module Bytes {
  import opened Arithmetic
  import opened Field
  import opened Group

  type byte = x: nat | x < 256
  type bytes = seq<byte>

  datatype Option<T> = None | Some(value: T)

  function Pow256(n: nat): (p: nat)
    ensures p > 0
  {
    if n == 0 then 1 else 256 * Pow256(n - 1)
  }

  /** `to_le_bytes`, `n` bytes. */
  function LittleEndian(x: nat, n: nat): (s: bytes)
    ensures |s| == n
    decreases n, x
  {
    if n == 0 then [] else [x % 256] + LittleEndian(x / 256, n - 1)
  }

  /** `from_le_bytes` */
  function FromLittleEndian(s: bytes): nat
  {
    if s == [] then 0 else s[0] + 256 * FromLittleEndian(s[1..])
  }

  lemma {:induction false} LittleEndianRead(x: nat, n: nat)
    requires x < Pow256(n)
    ensures FromLittleEndian(LittleEndian(x, n)) == x
    decreases n
  {
    if n > 0 {
      LittleEndianRead(x / 256, n - 1);
      assert LittleEndian(x, n)[1..] == LittleEndian(x / 256, n - 1);
    }
  }

  lemma {:induction false} LittleEndianWritten(s: bytes)
    ensures FromLittleEndian(s) < Pow256(|s|)
    ensures LittleEndian(FromLittleEndian(s), |s|) == s
  {
    if s != [] {
      LittleEndianWritten(s[1..]);
      var rest := FromLittleEndian(s[1..]);
      DivUnique(s[0] + 256 * rest, 256, rest, s[0]);
      assert s == [s[0]] + s[1..];
    }
  }

  /** `to_repr` of an element of either field: 32 bytes. */
  function Repr(x: nat): (s: bytes)
    ensures |s| == 32
  {
    LittleEndian(x, 32)
  }

  /** `from_repr`: only the canonical representative is accepted. */
  function BaseFromBytes(s: bytes): (x: Option<Base>)
    requires |s| == 32
  {
    var x := FromLittleEndian(s);
    if x < P then Some(x) else None
  }

  function ScalarFromBytes(s: bytes): (x: Option<Scalar>)
    requires |s| == 32
  {
    var x := FromLittleEndian(s);
    if x < Q then Some(x) else None
  }

  lemma Pow256Values()
    ensures Pow256(8) == 0x1_0000_0000_0000_0000
    ensures Pow256(32) == 0x1_0000_0000_0000_0000_0000_0000_0000_0000_0000_0000_0000_0000_0000_0000_0000_0000
  {
    assert Pow256(4) == 0x1_0000_0000;
    assert Pow256(8) == 0x1_0000_0000_0000_0000;
    assert Pow256(12) == 0x1_0000_0000_0000_0000_0000_0000;
    assert Pow256(16) == 0x1_0000_0000_0000_0000_0000_0000_0000_0000;
    assert Pow256(20) == 0x1_0000_0000_0000_0000_0000_0000_0000_0000_0000_0000;
    assert Pow256(24) == 0x1_0000_0000_0000_0000_0000_0000_0000_0000_0000_0000_0000_0000;
    assert Pow256(28) == 0x1_0000_0000_0000_0000_0000_0000_0000_0000_0000_0000_0000_0000_0000_0000;
  }

  /** Field elements and 32-byte strings: one encoding each, and only canonical ones are read. */
  lemma BaseCodec(x: Base, s: bytes)
    requires |s| == 32
    ensures BaseFromBytes(Repr(x)) == Some(x)
    ensures BaseFromBytes(s) == Some(x) <==> s == Repr(x)
  {
    Pow256Values();
    LittleEndianRead(x, 32);
    LittleEndianWritten(s);
  }

  lemma ScalarCodec(x: Scalar, s: bytes)
    requires |s| == 32
    ensures ScalarFromBytes(Repr(x)) == Some(x)
    ensures ScalarFromBytes(s) == Some(x) <==> s == Repr(x)
  {
    Pow256Values();
    LittleEndianRead(x, 32);
    LittleEndianWritten(s);
  }

  lemma AppendAssociates<T>(a: seq<T>, b: seq<T>, c: seq<T>)
    ensures a + (b + c) == (a + b) + c
  {}

  /** `collect` into an optional vector: all of them, or nothing. */
  function AllSome<T>(rs: seq<Option<T>>): (r: Option<seq<T>>)
    ensures r.Some? ==> |r.value| == |rs|
  {
    if rs == [] then Some([])
    else
      var others := AllSome(rs[1..]);
      if rs[0].None? || others.None? then None else Some([rs[0].value] + others.value)
  }

  lemma {:induction false} AllSomeExact<T>(rs: seq<Option<T>>, vs: seq<T>)
    ensures AllSome(rs) == Some(vs) <==> |rs| == |vs| && forall i | 0 <= i < |rs| :: rs[i] == Some(vs[i])
  {
    if |rs| == |vs| && rs != [] {
      AllSomeExact(rs[1..], vs[1..]);
      assert vs == [vs[0]] + vs[1..];
      assert forall i | 0 < i < |rs| :: rs[i] == rs[1..][i - 1] && vs[i] == vs[1..][i - 1];
    }
  }
}
