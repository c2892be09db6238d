/** Little-endian 64-bit words in byte memory. */
module Words {

  type Byte = b: int | 0 <= b < 256

  const TWO32: nat := 0x1_0000_0000
  const TWO64: nat := 0x1_0000_0000_0000_0000

  function Pow256(n: nat): nat {
    if n == 0 then 1 else 256 * Pow256(n - 1)
  }

  function FromBytes(s: seq<Byte>): nat {
    if s == [] then 0 else s[0] + 256 * FromBytes(s[1..])
  }

  function ToBytes(v: nat, n: nat): (s: seq<Byte>)
    ensures |s| == n
  {
    if n == 0 then [] else [v % 256] + ToBytes(v / 256, n - 1)
  }

  lemma {:induction false} RoundTrip(v: nat, n: nat)
    requires v < Pow256(n)
    ensures FromBytes(ToBytes(v, n)) == v
  {
    if n > 0 {
      assert v / 256 < Pow256(n - 1);
      RoundTrip(v / 256, n - 1);
      assert ToBytes(v, n)[1..] == ToBytes(v / 256, n - 1);
    }
  }

  function Get64(mem: seq<Byte>, i: nat): nat
    requires i + 8 <= |mem|
  {
    FromBytes(mem[i..i + 8])
  }

  function Put64(mem: seq<Byte>, i: nat, v: nat): (r: seq<Byte>)
    requires i + 8 <= |mem|
    ensures |r| == |mem|
  {
    mem[..i] + ToBytes(v, 8) + mem[i + 8..]
  }

  lemma EightBytes()
    ensures Pow256(8) == TWO64
  {
    assert Pow256(4) == 0x1_0000_0000;
    assert Pow256(8) == 256 * (256 * (256 * (256 * Pow256(4))));
  }

  /** The low byte comes first. */
  lemma LowByteFirst(mem: seq<Byte>, i: nat, v: nat)
    requires i + 8 <= |mem|
    ensures Put64(mem, i, v)[i] == v % 256
  {
    assert ToBytes(v, 8)[0] == v % 256;
  }

  /** A word reads back as written, and the write touches no other byte and no disjoint word. */
  lemma {:induction false} PutGet(mem: seq<Byte>, i: nat, v: nat)
    requires i + 8 <= |mem| && v < TWO64
    ensures Get64(Put64(mem, i, v), i) == v
    ensures forall j: nat | j < |mem| && (j < i || i + 8 <= j) :: Put64(mem, i, v)[j] == mem[j]
    ensures forall j: nat | j + 8 <= |mem| && (j + 8 <= i || i + 8 <= j) :: Get64(Put64(mem, i, v), j) == Get64(mem, j)
  {
    hide FromBytes, ToBytes;
    var mem' := Put64(mem, i, v);
    EightBytes();
    RoundTrip(v, 8);
    assert mem'[i..i + 8] == ToBytes(v, 8);
    forall j: nat | j + 8 <= |mem| && (j + 8 <= i || i + 8 <= j) ensures Get64(mem', j) == Get64(mem, j) {
      assert mem'[j..j + 8] == mem[j..j + 8];
    }
  }
}
