/** The C library's block operations on buffers, as the code uses them. */
module Memory {

  /** memcpy from read-only bytes into `a` at `off`. */
  method MemCpy<T>(a: array<T>, off: nat, s: seq<T>)
    requires off + |s| <= a.Length
    modifies a
    ensures a[off..off + |s|] == s
    ensures a[..off] == old(a[..off]) && a[off + |s|..] == old(a[off + |s|..])
  {
    for i := 0 to |s|
      invariant a[off..off + i] == s[..i]
      invariant a[..off] == old(a[..off]) && a[off + i..] == old(a[off + i..])
    {
      a[off + i] := s[i];
    }
  }

  /** memmove of `n` elements from `src` to the front of the same buffer. */
  method MemMoveToFront<T>(a: array<T>, src: nat, n: nat)
    requires src + n <= a.Length
    modifies a
    ensures a[..] == old(a[src..src + n]) + old(a[n..])
  {
    for i := 0 to n
      invariant a[..i] == old(a[src..src + i])
      invariant a[i..] == old(a[i..])
    {
      assert a[src + i] == a[i..][src] == old(a[i..])[src];
      a[i] := a[src + i];
    }
  }

  /** realloc to a larger buffer; the new tail holds arbitrary values. */
  method Grow<T(0)>(a: array<T>, n: nat) returns (b: array<T>)
    requires a.Length <= n
    ensures fresh(b) && b.Length == n
    ensures forall k | 0 <= k < a.Length :: b[k] == a[k]
  {
    b := new T[n];
    for i := 0 to a.Length
      invariant forall k | 0 <= k < i :: b[k] == a[k]
    {
      b[i] := a[i];
    }
  }
}
