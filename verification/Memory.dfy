/** memcpy and memmove on arrays. */
module Memory {
  /** Copies `src` into `dst` from position `at`. */
  method Copy<T>(dst: array<T>, at: nat, src: seq<T>)
    requires at + |src| <= dst.Length
    modifies dst
    ensures forall i | 0 <= i < dst.Length :: dst[i] == if at <= i < at + |src| then src[i - at] else old(dst[i])
  {
    for k := 0 to |src|
      invariant forall i | 0 <= i < dst.Length :: dst[i] == if at <= i < at + k then src[i - at] else old(dst[i])
    {
      dst[at + k] := src[k];
    }
  }

  /** Moves the `n` elements that start at `from` down to the front of the array. */
  method MoveToFront<T>(a: array<T>, from: nat, n: nat)
    requires from + n <= a.Length
    modifies a
    ensures a[..n] == old(a[from..from + n])
    ensures a[n..] == old(a[n..])
  {
    for i := 0 to n
      invariant forall k | 0 <= k < i :: a[k] == old(a[from + k])
      invariant forall k | i <= k < a.Length :: a[k] == old(a[k])
    {
      a[i] := a[from + i];
    }
  }
}
