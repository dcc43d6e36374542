// Big-endian numbers of 32 bytes: what is written as a word is read back as the same number, and
// every word read is below 2^256.
module Words32 {
  import opened Chunks

  function Pow256(k: nat): (p: nat)
    ensures p > 0
  {
    if k == 0 then 1 else 256 * Pow256(k - 1)
  }

  /** The last k bytes of a number. */
  function BigEndian(n: nat, k: nat): (s: seq<byte>)
    ensures |s| == k
  {
    if k == 0 then [] else BigEndian(n / 256, k - 1) + [n % 256]
  }

  function FromBytes(s: seq<byte>): nat {
    if s == [] then 0 else 256 * FromBytes(s[..|s| - 1]) + s[|s| - 1]
  }

  lemma {:induction false} FromBytesBound(s: seq<byte>)
    ensures FromBytes(s) < Pow256(|s|)
  {
    if s != [] {
      FromBytesBound(s[..|s| - 1]);
    }
  }

  lemma {:induction false} BigEndianValue(n: nat, k: nat)
    requires n < Pow256(k)
    ensures FromBytes(BigEndian(n, k)) == n
  {
    if k > 0 {
      BigEndianValue(n / 256, k - 1);
      var s := BigEndian(n, k);
      assert s[..k - 1] == BigEndian(n / 256, k - 1);
    }
  }

  /** One word of 32 bytes. */
  function Word32(n: nat): (s: seq<byte>)
    ensures |s| == 32
  {
    BigEndian(n, 32)
  }

  function Modulus(): nat {
    Pow256(32)
  }

  lemma ModulusIsLarge()
    ensures Modulus() > 65535
  {
    assert Pow256(32) == 256 * Pow256(31) && Pow256(31) == 256 * Pow256(30);
  }

  lemma WordValue(n: nat)
    requires n < Modulus()
    ensures FromBytes(Word32(n)) == n
  {
    BigEndianValue(n, 32);
  }
}
