/** Fixed-width unsigned integers and the wrap-around of C++ unsigned arithmetic. */
module Words {
  const TWO_TO_16: int := 0x1_0000
  const TWO_TO_32: int := 0x1_0000_0000
  const TWO_TO_64: int := 0x1_0000_0000_0000_0000

  type u8 = x: int | 0 <= x < 0x100
  type u16 = x: int | 0 <= x < 0x1_0000
  type u32 = x: int | 0 <= x < 0x1_0000_0000
  type u64 = x: int | 0 <= x < 0x1_0000_0000_0000_0000

  function Min(a: nat, b: nat): nat {
    if a < b then a else b
  }

  function Wrap16(x: int): u16 { x % 0x1_0000 }

  function Wrap32(x: int): u32 { x % 0x1_0000_0000 }

  function Wrap64(x: int): u64 { x % 0x1_0000_0000_0000_0000 }

  /** A value that fits is kept, and a whole turn of a counter changes nothing. */
  lemma WrapsExactly(x: int)
    ensures 0 <= x < 0x1_0000 ==> Wrap16(x) == x
    ensures 0 <= x < 0x1_0000_0000 ==> Wrap32(x) == x
    ensures 0 <= x < 0x1_0000_0000_0000_0000 ==> Wrap64(x) == x
    ensures Wrap16(x + 0x1_0000) == Wrap16(x)
    ensures Wrap32(x + 0x1_0000_0000) == Wrap32(x)
    ensures Wrap64(x + 0x1_0000_0000_0000_0000) == Wrap64(x)
  {
  }

  /** A value is determined by its remainder once its quotient's bounds are known. */
  lemma ModIsUnique(x: int, m: int, q: int, r: int)
    requires 0 <= r < m && x == m * q + r
    ensures x % m == r
    ensures x / m == q
  {
    var q', r' := x / m, x % m;
    assert x == m * q' + r' && 0 <= r' < m;
    assert m * (q - q') == r' - r;
    if q > q' {
      MulGrows(m, q - q');
      assert false;
    } else if q < q' {
      MulGrows(m, q' - q);
      assert false;
    }
  }

  lemma MulGrows(m: int, k: int)
    requires m > 0 && k >= 1
    ensures m * k >= m
  {
    assert m * k == m + m * (k - 1);
    assert m * (k - 1) >= 0;
  }

  lemma WrapNotAbove(x: nat)
    ensures Wrap32(x) <= x
    ensures x < TWO_TO_32 ==> Wrap32(x) == x
  {
  }

  /** Wrapping after every step is the same as wrapping once at the end. */
  lemma WrapStep(before: int, delta: int, after: int)
    requires after == before + delta
    ensures Wrap32(Wrap32(before) + delta) == Wrap32(after)
  {
  }

  lemma WrapStep16(x: int, delta: int)
    ensures Wrap16(Wrap16(x) + delta) == Wrap16(x + delta)
  {
  }

  lemma WrapStep64(x: int, delta: int)
    ensures Wrap64(Wrap64(x) + delta) == Wrap64(x + delta)
  {
  }
}
