/** Decimal text and 64-bit words: the conversions behind incr and decr. */
module Decimal {
  import opened Base

  const ZERO: Byte := 48
  const MAX_DIGITS := 20  // CONFIG_UINT64_STRING_LENGTH

  predicate IsDigit(c: Byte) {
    48 <= c <= 57
  }

  function DigitsFrom(acc: nat, s: Bytes): nat
    decreases |s|
  {
    if s == [] then acc
    else if IsDigit(s[0]) then DigitsFrom(Wrap64(acc * 10 + (s[0] - ZERO) as nat), s[1..])
    else 0
  }

  /** What StringToInteger returns: a wrapping 64-bit value, or 0 if any byte is not a digit. */
  function Parse(s: Bytes): nat {
    DigitsFrom(0, s)
  }

  /** The decimal text of v, most significant digit first. */
  function Text(v: nat): (s: Bytes)
    ensures |s| >= 1
    ensures forall i | 0 <= i < |s| :: IsDigit(s[i])
  {
    if v < 10 then [(ZERO + v) as Byte] else Text(v / 10) + [(ZERO + v % 10) as Byte]
  }

  predicate Canonical(s: Bytes) {
    && s != []
    && (forall i | 0 <= i < |s| :: IsDigit(s[i]))
    && (|s| > 1 ==> s[0] != ZERO)
  }

  /** The value of a digit string in unbounded integers. */
  function Value(s: Bytes): nat
    requires forall i | 0 <= i < |s| :: IsDigit(s[i])
  {
    if s == [] then 0
    else
      assert IsDigit(s[|s| - 1]);
      10 * Value(s[..|s| - 1]) + (s[|s| - 1] - ZERO) as nat
  }

  lemma {:induction false} TextIsCanonical(v: nat)
    ensures Canonical(Text(v)) && Value(Text(v)) == v
    ensures v > 0 ==> Text(v)[0] != ZERO
  {
    if v < 10 {
      assert Text(v)[..0] == [];
    } else {
      TextIsCanonical(v / 10);
      assert Text(v)[..|Text(v)| - 1] == Text(v / 10);
      assert Text(v)[0] == Text(v / 10)[0];
    }
  }

  lemma {:induction false} CanonicalIsPositive(s: Bytes)
    requires Canonical(s) && s[0] != ZERO
    ensures Value(s) > 0
  {
    if |s| > 1 {
      CanonicalIsPositive(s[..|s| - 1]);
    } else {
      assert s[..0] == [];
    }
  }

  /** Canonical texts and numbers correspond one to one. */
  lemma {:induction false} TextInvertsValue(s: Bytes)
    requires Canonical(s)
    ensures Text(Value(s)) == s
  {
    var front, d := s[..|s| - 1], (s[|s| - 1] - ZERO) as nat;
    if |s| == 1 {
      assert Value(front) == 0;
    } else {
      assert front[0] == s[0];
      CanonicalIsPositive(front);
      TextInvertsValue(front);
      assert Value(s) / 10 == Value(front) && Value(s) % 10 == d;
      assert s == front + [s[|s| - 1]];
    }
  }

  lemma WrapStep(acc: nat, d: nat)
    ensures Wrap64(Wrap64(acc) * 10 + d) == Wrap64(acc * 10 + d)
  {
    var q := acc / U64;
    assert acc * 10 + d == (Wrap64(acc) * 10 + d) + U64 * (10 * q);
    assert (Wrap64(acc) * 10 + d + U64 * (10 * q)) % U64 == (Wrap64(acc) * 10 + d) % U64;
  }

  lemma {:induction false} DigitsFromAppend(acc: nat, s: Bytes, c: Byte)
    requires (forall i | 0 <= i < |s| :: IsDigit(s[i])) && IsDigit(c)
    ensures DigitsFrom(acc, s + [c]) == Wrap64(DigitsFrom(acc, s) * 10 + (c - ZERO) as nat)
    decreases |s|
  {
    if s == [] {
      assert s + [c] == [c] && [c][1..] == [];
    } else {
      assert (s + [c])[1..] == s[1..] + [c];
      DigitsFromAppend(Wrap64(acc * 10 + (s[0] - ZERO) as nat), s[1..], c);
    }
  }

  /** On digit strings of any length the parser computes the value modulo 2^64. */
  lemma {:induction false} ParseIsValueMod64(s: Bytes)
    requires forall i | 0 <= i < |s| :: IsDigit(s[i])
    ensures Parse(s) == Wrap64(Value(s))
  {
    if s != [] {
      var front, c := s[..|s| - 1], s[|s| - 1];
      ParseIsValueMod64(front);
      DigitsFromAppend(0, front, c);
      assert s == front + [c];
      WrapStep(Value(front), (c - ZERO) as nat);
    }
  }

  lemma RoundTrip(v: nat)
    requires v < U64
    ensures Parse(Text(v)) == v
  {
    TextIsCanonical(v);
    ParseIsValueMod64(Text(v));
  }

  lemma {:induction false} ParseRejects(acc: nat, s: Bytes, i: nat)
    requires i < |s| && !IsDigit(s[i])
    ensures DigitsFrom(acc, s) == 0
    decreases i
  {
    if i > 0 && IsDigit(s[0]) {
      ParseRejects(Wrap64(acc * 10 + (s[0] - ZERO) as nat), s[1..], i - 1);
    }
  }

  function Pow10(k: nat): nat {
    if k == 0 then 1 else 10 * Pow10(k - 1)
  }

  lemma {:induction false} TextLength(v: nat, k: nat)
    requires k > 0 && v < Pow10(k)
    ensures |Text(v)| <= k
    decreases k
  {
    if k == 1 {
      assert Pow10(1) == 10;
    } else if v >= 10 {
      TextLength(v / 10, k - 1);
    }
  }

  /** Twenty bytes hold every 64-bit counter. */
  lemma CounterFits(v: nat)
    requires v < U64
    ensures 1 <= |Text(v)| <= MAX_DIGITS
  {
    assert Pow10(5) == 100000 by {
      assert Pow10(3) == 1000;
    }
    Pow10Sum(5, 5);
    Pow10Sum(10, 10);
    TextLength(v, 20);
  }

  lemma {:induction false} Pow10Sum(j: nat, k: nat)
    ensures Pow10(j + k) == Pow10(j) * Pow10(k)
  {
    if k > 0 {
      Pow10Sum(j, k - 1);
      assert Pow10(j + k) == 10 * (Pow10(j) * Pow10(k - 1)) == Pow10(j) * (10 * Pow10(k - 1));
    }
  }

  /** StringToInteger: left to right, giving up with 0 at the first byte that is not a digit. */
  method StringToInteger(value: Bytes) returns (ret: nat)
    ensures ret == Parse(value)
  {
    ret := 0;
    var i := 0;
    while i < |value|
      invariant 0 <= i <= |value|
      invariant Parse(value) == DigitsFrom(ret, value[i..])
    {
      var chr := value[i];
      assert value[i..][1..] == value[i + 1..];
      if !IsDigit(chr) {
        return 0;
      }
      ret := Wrap64(ret * 10 + (chr - ZERO) as nat);
      i := i + 1;
    }
  }

  function Reversed(s: Bytes): (r: Bytes)
    ensures |r| == |s|
    ensures forall k | 0 <= k < |s| :: r[k] == s[|s| - 1 - k]
  {
    seq(|s|, k requires 0 <= k < |s| => s[|s| - 1 - k])
  }

  /** strreverse: swaps inwards from both ends of buffer[..n]. */
  method Strreverse(buffer: array<Byte>, n: nat)
    requires 0 < n <= buffer.Length
    modifies buffer
    ensures buffer[..n] == Reversed(old(buffer[..n])) && buffer[n..] == old(buffer[n..])
  {
    var begin, end := 0, n - 1;
    while end > begin
      invariant 0 <= begin <= end + 1 && end < n && begin + end == n - 1
      invariant forall k | 0 <= k < begin :: buffer[k] == old(buffer[n - 1 - k]) && buffer[n - 1 - k] == old(buffer[k])
      invariant forall k | begin <= k <= end :: buffer[k] == old(buffer[k])
      invariant buffer[n..] == old(buffer[n..])
    {
      buffer[begin], buffer[end] := buffer[end], buffer[begin];
      begin, end := begin + 1, end - 1;
    }
    forall k | 0 <= k < n ensures buffer[k] == old(buffer[n - 1 - k]) {
      if k > end {
        assert n - 1 - k < begin || n - 1 - k == k;
      }
    }
  }

  /** IntegerToString: digits are produced least significant first and then reversed in place. */
  method IntegerToString(value: nat, buffer: array<Byte>) returns (n: nat)
    requires value < U64 && buffer.Length >= MAX_DIGITS
    modifies buffer
    ensures 1 <= n <= MAX_DIGITS && buffer[..n] == Text(value) && buffer[n..] == old(buffer[n..])
  {
    CounterFits(value);
    ghost var text := Text(value);
    var v := value;
    buffer[0] := (ZERO + v % 10) as Byte;
    v, n := v / 10, 1;
    assert Reversed(buffer[..1]) == buffer[..1];
    assert v == 0 ==> text == buffer[..1];
    assert v != 0 ==> text == Text(v) + buffer[..1];
    while v != 0
      invariant 1 <= n <= |text|
      invariant text == (if v == 0 then [] else Text(v)) + Reversed(buffer[..n])
      invariant forall k | n <= k < buffer.Length :: buffer[k] == old(buffer[k])
      decreases v
    {
      ghost var done := buffer[..n];
      var digit := (ZERO + v % 10) as Byte;
      buffer[n] := digit;
      assert buffer[..n + 1] == done + [digit];
      assert Reversed(done + [digit]) == [digit] + Reversed(done);
      assert v >= 10 ==> Text(v) == Text(v / 10) + [digit];
      v, n := v / 10, n + 1;
    }
    ghost var produced := buffer[..n];
    Strreverse(buffer, n);
    assert text == Reversed(produced);
  }
}
