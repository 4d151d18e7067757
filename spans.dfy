/** The span lists a coordinate `Map` is made of, as far as the alignment code
    touches them: each span is present (it covers residues of the sequence, ending
    at `end`) or lost (it stands for gap columns), and has a length. */
module Spans {
  import opened Wrappers

  datatype Span = Span(lost: bool, length: int, end: int)

  /** `LostSpan(n)`: n gap columns. */
  function LostSpan(n: int): (s: Span)
    ensures s.lost && s.length == n
  {
    Span(true, n, 0)
  }

  /** A map: its spans in alignment order and the length of the parent it maps onto. */
  datatype SpanMap = SpanMap(spans: seq<Span>, parentLength: int)

  /** The summed length of all spans: the aligned length of the map. */
  function Total(s: seq<Span>): int
    decreases |s|
  {
    if |s| == 0 then 0 else Total(s[..|s| - 1]) + s[|s| - 1].length
  }

  /** The summed length of the present spans: the residues the map shows. */
  function PresentTotal(s: seq<Span>): int
    decreases |s|
  {
    if |s| == 0 then 0 else PresentTotal(s[..|s| - 1]) + (if s[|s| - 1].lost then 0 else s[|s| - 1].length)
  }

  /** The summed length of the lost spans: the gap columns of the map. */
  function LostTotal(s: seq<Span>): int
    decreases |s|
  {
    if |s| == 0 then 0 else LostTotal(s[..|s| - 1]) + (if s[|s| - 1].lost then s[|s| - 1].length else 0)
  }

  predicate NonNegative(s: seq<Span>)
  {
    forall k :: 0 <= k < |s| ==> s[k].length >= 0
  }

  /** Every column of the map is either a residue or a gap. */
  lemma {:induction false} TotalSplit(s: seq<Span>)
    ensures Total(s) == LostTotal(s) + PresentTotal(s)
    decreases |s|
  {
    if |s| > 0 {
      TotalSplit(s[..|s| - 1]);
    }
  }

  /** The three totals add up over concatenated span lists. */
  lemma {:induction false} TotalsAppend(s: seq<Span>, t: seq<Span>)
    ensures Total(s + t) == Total(s) + Total(t)
    ensures PresentTotal(s + t) == PresentTotal(s) + PresentTotal(t)
    ensures LostTotal(s + t) == LostTotal(s) + LostTotal(t)
    decreases |t|
  {
    if |t| == 0 {
      assert s + t == s;
    } else {
      var t' := t[..|t| - 1];
      assert (s + t)[..|s + t| - 1] == s + t';
      TotalsAppend(s, t');
    }
  }

  /** With no negative span, none of the totals is negative. */
  lemma {:induction false} TotalsNonNegative(s: seq<Span>)
    requires NonNegative(s)
    ensures Total(s) >= 0 && PresentTotal(s) >= 0 && LostTotal(s) >= 0
    decreases |s|
  {
    if |s| > 0 {
      TotalsNonNegative(s[..|s| - 1]);
    }
  }

  /** `len(map)`. */
  function MapLength(m: SpanMap): int
  {
    Total(m.spans)
  }

  /** `x + y` on maps: the spans of y follow those of x, and the parent lengths add. */
  function MapAdd(x: SpanMap, y: SpanMap): SpanMap
  {
    SpanMap(x.spans + y.spans, x.parentLength + y.parentLength)
  }

  /** Adding maps adds their lengths and their parent lengths, so two maps whose
      parent length is their length sum to one that keeps that property. */
  lemma MapAddLength(x: SpanMap, y: SpanMap)
    ensures MapLength(MapAdd(x, y)) == MapLength(x) + MapLength(y)
    ensures MapAdd(x, y).parentLength == x.parentLength + y.parentLength
    ensures MapLength(x) == x.parentLength && MapLength(y) == y.parentLength ==>
      MapLength(MapAdd(x, y)) == MapAdd(x, y).parentLength
  {
    TotalsAppend(x.spans, y.spans);
  }
}
