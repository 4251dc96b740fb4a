/** Types and machine-word constants shared by every module. */
module Base {

  const U16 := 0x1_0000
  const U32 := 0x1_0000_0000
  const U64 := 0x1_0000_0000_0000_0000

  type Byte = x: int | 0 <= x < 256
  type Bytes = seq<Byte>

  datatype Option<+T> = None | Some(value: T) {
    predicate IsFailure() {
      None?
    }

    function PropagateFailure<U>(): Option<U>
      requires None?
    {
      None
    }

    function Extract(): T
      requires Some?
    {
      value
    }
  }

  /** Rounds up to the next multiple of eight, as Heap::align(8, n) does with masks. */
  function Align8(n: nat): (r: nat)
    ensures r % 8 == 0
    ensures n <= r < n + 8
    ensures n % 8 == 0 ==> r == n
  {
    if n % 8 == 0 then n else n + (8 - n % 8)
  }

  /** A value stored in a 64-bit unsigned word. */
  function Wrap64(x: int): nat {
    x % U64
  }

  lemma WrapAdd(x: int, d: int)
    ensures Wrap64(Wrap64(x) + d) == Wrap64(x + d)
  {
  }

  lemma SliceOfSlice<T>(xs: seq<T>, a: nat, b: nat, off: nat, n: nat)
    requires a <= b <= |xs| && off + n <= b - a
    ensures xs[a..b][off..off + n] == xs[a + off..a + off + n]
  {
    var l, r := xs[a..b][off..off + n], xs[a + off..a + off + n];
    forall k | 0 <= k < n ensures l[k] == r[k] {
      assert xs[a..b][off + k] == xs[a + (off + k)];
    }
  }
}
