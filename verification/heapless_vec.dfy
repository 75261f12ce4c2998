/** A fixed-capacity byte vector, as provided by the `heapless` crate:
    it never grows beyond the capacity fixed by its type. */
module HeaplessVec {
  import opened Wrappers
  import opened Bytes

  datatype Vec = Vec(items: Bytes, capacity: nat)

  /** An empty vector of the given capacity. */
  function New(capacity: nat): (v: Vec)
    ensures v.capacity == capacity && |v.items| == 0
  {
    Vec([], capacity)
  }

  /** Appends a whole slice, or fails leaving nothing changed when the slice
      does not fit into the remaining capacity. */
  function ExtendFromSlice(v: Vec, s: Bytes): (r: Option<Vec>)
    ensures r.Some? <==> |v.items| + |s| <= v.capacity
    ensures r.Some? ==> |r.value.items| <= r.value.capacity == v.capacity
    ensures r.Some? ==> |r.value.items| == |v.items| + |s|
    ensures r.Some? ==> r.value.items[..|v.items|] == v.items && r.value.items[|v.items|..] == s
  {
    if |v.items| + |s| <= v.capacity then Some(Vec(v.items + s, v.capacity)) else None
  }
}
