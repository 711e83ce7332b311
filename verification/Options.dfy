/** Results that may be absent, and an operation on sequences that several modules use. */
module Options {
  datatype Option<+T> = None | Some(value: T)

  // The sequence with part in place of what was at position o.
  function Splice<T>(f: seq<T>, o: int, part: seq<T>): (r: seq<T>)
    requires 0 <= o && o + |part| <= |f|
    ensures |r| == |f|
    ensures forall p :: 0 <= p < |f| ==> r[p] == if o <= p < o + |part| then part[p - o] else f[p]
  {
    f[..o] + part + f[o + |part|..]
  }
}
