/** `Aligned`: a sequence paired with the map that places its residues in the
    alignment columns. Slicing, reverse-complementing and copying pair a map with
    the same sequence object, and adding two rows over the identical sequence object
    adds their maps. */
module AlignedSeqs {
  import opened Wrappers
  import opened Spans

  /** The ungapped sequence object; being a class, two of them are the same object
      only when they are identical references, as with Python's `is`. */
  class Sequence {
    const residues: string

    constructor (residues: string)
      ensures this.residues == residues
    {
      this.residues := residues;
    }
  }

  datatype Aligned = Aligned(spanMap: SpanMap, data: Sequence)

  /** Every span has a non-negative length, and every present span covers
      positions of the sequence. */
  predicate Consistent(a: Aligned)
  {
    forall k :: 0 <= k < |a.spanMap.spans| ==>
      && a.spanMap.spans[k].length >= 0
      && (!a.spanMap.spans[k].lost ==>
            0 <= a.spanMap.spans[k].end - a.spanMap.spans[k].length && a.spanMap.spans[k].end <= |a.data.residues|)
  }

  /** `len(aligned)`: the length of the map. */
  function Len(a: Aligned): int
  {
    MapLength(a.spanMap)
  }

  /** The length counts the gap columns and the residue columns, neither negative. */
  lemma LenCountsColumns(a: Aligned)
    requires Consistent(a)
    ensures Len(a) == LostTotal(a.spanMap.spans) + PresentTotal(a.spanMap.spans)
    ensures Len(a) >= LostTotal(a.spanMap.spans) >= 0 && Len(a) >= PresentTotal(a.spanMap.spans) >= 0
  {
    TotalSplit(a.spanMap.spans);
    TotalsNonNegative(a.spanMap.spans);
  }

  /** `aligned[slice]`, `sliced` being `self.map[slice]` (the slicing of `Map` is
      not part of this model): the sliced map over the same sequence object. */
  function Slice(a: Aligned, sliced: SpanMap): (r: Aligned)
    ensures r.data == a.data && r.spanMap == sliced
    ensures Len(r) == MapLength(sliced)
  {
    Aligned(sliced, a.data)
  }

  /** `aligned.rc()`, `reversed` being `self.map.reversed()` (not part of this
      model): the reversed map over the same sequence object. */
  function Rc(a: Aligned, reversed: SpanMap): (r: Aligned)
    ensures r.data == a.data && r.spanMap == reversed
  {
    Aligned(reversed, a.data)
  }

  /** `aligned.copy()`: a shallow copy, sharing both the map and the sequence. */
  function Copy(a: Aligned): (r: Aligned)
    ensures r == a
  {
    Aligned(a.spanMap, a.data)
  }

  /** `a + b`: when both rows hold the identical sequence object the result keeps it
      and uses `a.map + b.map`; the path for different objects re-parses the gapped
      sequence and is not part of this model (None). */
  function Concat(a: Aligned, b: Aligned): (r: Option<Aligned>)
    ensures r.Some? <==> a.data == b.data
    ensures r.Some? ==> r.value.data == a.data && r.value.spanMap == MapAdd(a.spanMap, b.spanMap)
  {
    if a.data == b.data then Some(Aligned(MapAdd(a.spanMap, b.spanMap), a.data)) else None
  }

  /** Adding two rows over one sequence gives a row as long as both together, still
      consistent with that sequence. */
  lemma ConcatLength(a: Aligned, b: Aligned)
    requires a.data == b.data
    ensures Len(Concat(a, b).value) == Len(a) + Len(b)
    ensures Consistent(a) && Consistent(b) ==> Consistent(Concat(a, b).value)
  {
    MapAddLength(a.spanMap, b.spanMap);
  }

  /** However slicing, reverse-complementing, copying and same-object adding are
      chained, the sequence object never changes. */
  lemma DataKept(a: Aligned, m1: SpanMap, m2: SpanMap)
    ensures Rc(Slice(Copy(a), m1), m2).data == a.data
    ensures Concat(Slice(a, m1), Rc(a, m2)) == Some(Aligned(MapAdd(m1, m2), a.data))
  {
  }
}
