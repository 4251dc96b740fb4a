/** Keys, their zero padding to whole 64-bit words, and the hash over those words. */
module KeyHash {
  import opened Base

  const CONFIG_MAX_KEY_LENGTH := 256

  function Zeros(n: nat): (r: Bytes)
    ensures |r| == n && forall i | 0 <= i < n :: r[i] == 0
  {
    seq(n, _ => 0)
  }

  /** The key followed by zeros up to a multiple of eight bytes. */
  function Pad(key: Bytes): (r: Bytes)
    ensures |r| == Align8(|key|) && r[..|key|] == key
  {
    key + Zeros(Align8(|key|) - |key|)
  }

  /** compareKey: equal lengths and equal padded words mean equal keys. */
  lemma SamePadSameKey(a: Bytes, b: Bytes)
    ensures a == b <==> |a| == |b| && Pad(a) == Pad(b)
  {
    if |a| == |b| && Pad(a) == Pad(b) {
      assert a == Pad(a)[..|a|] == Pad(b)[..|b|] == b;
    }
  }

  function Mix(h: nat, b: Byte): nat {
    Wrap64(31 * h + b as nat)
  }

  /** Folds in one word, most significant byte first; words are little-endian in memory. */
  function MixWord(h: nat, w: Bytes): nat
    requires |w| == 8
  {
    Mix(Mix(Mix(Mix(Mix(Mix(Mix(Mix(h, w[7]), w[6]), w[5]), w[4]), w[3]), w[2]), w[1]), w[0])
  }

  function HashWords(h: nat, data: Bytes): nat
    decreases |data|
  {
    if |data| < 8 then h else HashWords(MixWord(h, data[..8]), data[8..])
  }

  /** calcHash. */
  method CalcHash(data: Bytes) returns (h: nat)
    requires |data| % 8 == 0
    ensures h == HashWords(0, data)
  {
    hide MixWord;
    h := 0;
    var start := 0;
    while start < |data|
      invariant 0 <= start <= |data| && start % 8 == 0
      invariant HashWords(0, data) == HashWords(h, data[start..])
    {
      var value := data[start..start + 8];
      assert data[start..][..8] == value && data[start..][8..] == data[start + 8..];
      h := MixWord(h, value);
      start := start + 8;
    }
  }

  // ----- the hash as a polynomial

  /** The bytes in the order in which they are folded in: the words in order, each from its last byte to its first. */
  function FoldOrder(data: Bytes): Bytes {
    if |data| < 8 then []
    else [data[7], data[6], data[5], data[4], data[3], data[2], data[1], data[0]] + FoldOrder(data[8..])
  }

  /** The value of the bytes as digits to the base 31, the last byte being the unit. */
  function Base31(bs: Bytes): nat {
    if bs == [] then 0 else Base31(bs[..|bs| - 1]) * 31 + bs[|bs| - 1] as nat
  }

  function Fold(h: nat, bs: Bytes): nat {
    if bs == [] then h else Mix(Fold(h, bs[..|bs| - 1]), bs[|bs| - 1])
  }

  lemma {:induction false} FoldIsBase31(bs: Bytes)
    ensures Fold(0, bs) == Wrap64(Base31(bs))
  {
    if bs != [] {
      var front := bs[..|bs| - 1];
      FoldIsBase31(front);
      MixWraps(Base31(front), bs[|bs| - 1]);
    }
  }

  lemma MixWraps(x: nat, b: Byte)
    ensures Mix(Wrap64(x), b) == Wrap64(x * 31 + b as nat)
  {
    var q := x / U64;
    assert x == U64 * q + Wrap64(x);
    assert x * 31 + b as nat == 31 * Wrap64(x) + b as nat + U64 * (31 * q);
    WrapMultiple(31 * Wrap64(x) + b as nat, 31 * q);
  }

  lemma WrapMultiple(x: nat, k: nat)
    ensures Wrap64(x + U64 * k) == Wrap64(x)
  {
  }

  lemma {:induction false} FoldOver(h: nat, a: Bytes, b: Bytes)
    ensures Fold(h, a + b) == Fold(Fold(h, a), b)
    decreases |b|
  {
    if b == [] {
      assert a + b == a;
    } else {
      var n := |b| - 1;
      assert (a + b)[..|a + b| - 1] == a + b[..n];
      FoldOver(h, a, b[..n]);
    }
  }

  lemma {:induction false} HashIsFold(h: nat, data: Bytes)
    ensures HashWords(h, data) == Fold(h, FoldOrder(data))
    decreases |data|
  {
    if |data| >= 8 {
      var word := [data[7], data[6], data[5], data[4], data[3], data[2], data[1], data[0]];
      HashIsFold(MixWord(h, data[..8]), data[8..]);
      WordIsFold(h, data[..8], word);
      FoldOver(h, word, FoldOrder(data[8..]));
    }
  }

  lemma WordIsFold(h: nat, w: Bytes, word: Bytes)
    requires |w| == 8 && word == [w[7], w[6], w[5], w[4], w[3], w[2], w[1], w[0]]
    ensures MixWord(h, w) == Fold(h, word)
  {
    hide Mix, Fold;
    assert word[..8] == word && word[..0] == [];
    FoldNothing(h);
    FoldUpTo(h, word, 8);
    FoldUpTo(h, word, 7);
    FoldUpTo(h, word, 6);
    FoldUpTo(h, word, 5);
    FoldUpTo(h, word, 4);
    FoldUpTo(h, word, 3);
    FoldUpTo(h, word, 2);
    FoldUpTo(h, word, 1);
  }

  lemma FoldNothing(h: nat)
    ensures Fold(h, []) == h
  {
  }

  lemma FoldUpTo(h: nat, bs: Bytes, n: nat)
    requires 0 < n <= |bs|
    ensures Fold(h, bs[..n]) == Mix(Fold(h, bs[..n - 1]), bs[n - 1])
  {
    assert bs[..n][..n - 1] == bs[..n - 1];
  }

  /** The hash is the number the bytes stand for to the base 31, modulo 2^64. */
  lemma HashIsBase31(data: Bytes)
    ensures HashWords(0, data) == Wrap64(Base31(FoldOrder(data)))
  {
    HashIsFold(0, data);
    FoldIsBase31(FoldOrder(data));
  }

  /** The bucket of a key in a table of n bins. */
  function BinOf(key: Bytes, n: nat): (b: nat)
    requires n > 0
    ensures b < n
  {
    HashWords(0, Pad(key)) % n
  }

  /** alignKey: copies the key into a word buffer and clears the rest of its last word. */
  method AlignKey(key: Bytes, buffer: array<Byte>) returns (cbKeyAligned: nat)
    requires |key| < CONFIG_MAX_KEY_LENGTH == buffer.Length
    modifies buffer
    ensures cbKeyAligned == Align8(|key|) <= buffer.Length && buffer[..cbKeyAligned] == Pad(key)
  {
    cbKeyAligned := Align8(|key|);
    forall i | 0 <= i < |key| {
      buffer[i] := key[i];
    }
    for i := |key| to cbKeyAligned
      invariant buffer[..i] == Pad(key)[..i]
    {
      buffer[i] := 0;
    }
  }
}
