/** Growable buffers as the C code keeps them: an array whose capacity
    starts at one and doubles through realloc whenever it is full. */
module Buffers {
  function Pow2(k: nat): nat
  {
    if k == 0 then 1 else 2 * Pow2(k - 1)
  }

  ghost predicate IsPow2(n: nat)
  {
    exists k: nat :: Pow2(k) == n
  }

  /** The initial capacity is a power of two. */
  lemma Pow2One()
    ensures IsPow2(1)
  {
    assert Pow2(0) == 1;
  }

  lemma Pow2Is(k: nat)
    ensures IsPow2(Pow2(k))
  {
  }

  /** Doubling keeps a power of two. */
  lemma Pow2Double(n: nat)
    requires IsPow2(n)
    ensures IsPow2(2 * n)
  {
    var k: nat :| Pow2(k) == n;
    assert Pow2(k + 1) == 2 * n;
  }

  /** realloc to twice the size: the old elements are kept. */
  method Grow<T(0)>(a: array<T>) returns (b: array<T>)
    requires a.Length > 0
    ensures fresh(b)
    ensures b.Length == 2 * a.Length
    ensures b[..a.Length] == a[..]
    ensures IsPow2(a.Length) ==> IsPow2(b.Length)
  {
    if IsPow2(a.Length) {
      Pow2Double(a.Length);
    }
    b := new T[2 * a.Length];
    for i := 0 to a.Length
      invariant b[..i] == a[..i]
    {
      b[i] := a[i];
    }
  }
}
