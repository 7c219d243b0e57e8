/** The memory routines of lib/string.c that the other components call. */
module Memory {
  import opened Bytes

  /** `memset` of `count` bytes at index `at`. */
  method Memset(dest: array<Byte>, at: nat, value: Byte, count: nat)
    requires at + count <= dest.Length
    modifies dest
    ensures forall k | at <= k < at + count :: dest[k] == value
    ensures forall k | 0 <= k < dest.Length && !(at <= k < at + count) :: dest[k] == old(dest[k])
  {
    var p := at;
    while p < at + count
      invariant at <= p <= at + count
      invariant forall k | at <= k < p :: dest[k] == value
      invariant forall k | 0 <= k < dest.Length && !(at <= k < p) :: dest[k] == old(dest[k])
    {
      dest[p] := value;
      p := p + 1;
    }
  }

  /** `memcpy` of `count` bytes from index `from` of a source that does not overlap. */
  method Memcpy(dest: array<Byte>, at: nat, src: seq<Byte>, from: nat, count: nat)
    requires at + count <= dest.Length && from + count <= |src|
    modifies dest
    ensures dest[..] == old(dest[..at]) + src[from..from + count] + old(dest[at + count..])
  {
    var k := 0;
    while k < count
      invariant 0 <= k <= count
      invariant forall j | at <= j < at + k :: dest[j] == src[from + (j - at)]
      invariant forall j | 0 <= j < dest.Length && !(at <= j < at + k) :: dest[j] == old(dest[j])
    {
      dest[at + k] := src[from + k];
      k := k + 1;
    }
  }
}
