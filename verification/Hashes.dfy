/** The hash of hash.c. A `Hash` is the key structure handed to the table. */
module Hashes {
  type Bytes = seq<bv8>

  const FNV_OFFSET: bv32 := 0x811c9dc5
  const FNV_PRIME: bv32 := 0x01000193

  datatype Hash = Hash(bytes: Bytes, value: nat)

  function Mix(h: bv32, b: bv8): bv32 {
    (h ^ (b as bv32)) * FNV_PRIME
  }

  function Fnv1a(s: Bytes): bv32 {
    if s == [] then FNV_OFFSET else Mix(Fnv1a(s[..|s| - 1]), s[|s| - 1])
  }

  function HashOf(data: Bytes): Hash {
    Hash(data, Fnv1a(data) as nat)
  }

  method Compute(data: Bytes) returns (hash: Hash)
    ensures hash == HashOf(data)
  {
    var h := FNV_OFFSET;
    for i := 0 to |data|
      invariant h == Fnv1a(data[..i])
    {
      h := Mix(h, data[i]);
      assert data[..i + 1][..i] == data[..i];
    }
    assert data[..|data|] == data;
    hash := Hash(data, h as nat);
  }

  lemma OneMoreByte(s: Bytes, b: bv8)
    ensures Fnv1a(s + [b]) == Mix(Fnv1a(s), b)
  {
    assert (s + [b])[..|s|] == s;
  }

  /** Test values published for FNV-1a with 32 bits: of nothing, of "a" and of "foobar". */
  lemma KnownHashes()
    ensures HashOf([]).value == 0x811c9dc5
    ensures HashOf([0x61]).value == 0xe40c292c
    ensures HashOf([0x66, 0x6f, 0x6f, 0x62, 0x61, 0x72]).value == 0xbf9cf968
  {
    Mixed([], 0x61, Fnv1a([]), [0x61]);
    assert Mix(0x811c9dc5, 0x61) == 0xe40c292c;
    var f, fo, foo := [0x66], [0x66, 0x6f], [0x66, 0x6f, 0x6f];
    var foob, fooba, foobar := foo + [0x62], foo + [0x62, 0x61], foo + [0x62, 0x61, 0x72];
    Mixed([], 0x66, 0x811c9dc5, f);
    Mixed(f, 0x6f, 0xe30c2799, fo);
    Mixed(fo, 0x6f, 0x6222e842, foo);
    Mixed(foo, 0x62, 0xa9f37ed7, foob);
    Mixed(foob, 0x61, 0x3f5076ef, fooba);
    Mixed(fooba, 0x72, 0x39aaa18a, foobar);
    assert foobar == [0x66, 0x6f, 0x6f, 0x62, 0x61, 0x72];
  }

  lemma Mixed(s: Bytes, b: bv8, h: bv32, t: Bytes)
    requires t == s + [b] && Fnv1a(s) == h
    ensures Fnv1a(t) == Mix(h, b)
  {
    OneMoreByte(s, b);
  }
}
