/** The span surgery of `withoutTerminalStopCodons` on an alignment: every row's
    sequence may lose its terminal stop codon, the alignment shrinks to the longest
    row that remains, and each row's map is adjusted to the new sequence and the
    new alignment length. */
module StopCodons {
  import opened Wrappers
  import opened Spans

  /** One row as the trimming sees it: its map, the length of its sequence, and the
      length of that sequence once `withoutTerminalStopCodon` has removed a terminal
      stop codon (that sequence method is not part of this model). */
  datatype Row = Row(spanMap: SpanMap, oldLen: int, newLen: int)

  /** `diff`: how many residues the row's sequence lost. */
  function Diff(r: Row): int
  {
    r.oldLen - r.newLen
  }

  /** A row of an alignment of length `selfLength`: no negative span, as long as the
      alignment (its map's parent), showing its whole sequence; trimming never
      lengthens a sequence. */
  predicate RowValid(r: Row, selfLength: int)
  {
    && NonNegative(r.spanMap.spans)
    && Total(r.spanMap.spans) == selfLength
    && r.spanMap.parentLength == selfLength
    && PresentTotal(r.spanMap.spans) == r.oldLen
    && 0 <= r.newLen <= r.oldLen
  }

  /** Python's `spans[:-1]`. */
  function Init(s: seq<Span>): seq<Span>
  {
    if |s| == 0 then [] else s[..|s| - 1]
  }

  function EndsLost(s: seq<Span>): bool
  {
    |s| > 0 && s[|s| - 1].lost
  }

  /** What one row puts into the running maximum `new_length`: its gaps before the
      last span plus its trimmed sequence, and, when it shrank and ends in a present
      span, its length less the residues removed. */
  function RowCandidate(r: Row): int
  {
    var s := r.spanMap.spans;
    var seqLength := LostTotal(Init(s)) + r.newLen;
    if Diff(r) != 0 && |s| > 0 && !s[|s| - 1].lost then Max(Total(s) - Diff(r), seqLength) else seqLength
  }

  /** The running maximum over the rows, starting from 0. */
  function MaxCandidate(rows: seq<Row>): int
    decreases |rows|
  {
    if |rows| == 0 then 0 else Max(MaxCandidate(rows[..|rows| - 1]), RowCandidate(rows[|rows| - 1]))
  }

  /** `new_length`, falling back to the alignment length when every row ended in a gap. */
  function NewLength(rows: seq<Row>, selfLength: int): int
  {
    if MaxCandidate(rows) == 0 then selfLength else MaxCandidate(rows)
  }

  /** No row offers more than the alignment length. */
  lemma CandidateBound(r: Row, selfLength: int)
    requires RowValid(r, selfLength)
    ensures RowCandidate(r) <= selfLength
  {
    var s := r.spanMap.spans;
    TotalSplit(s);
    TotalsNonNegative(s);
    if |s| > 0 {
      assert s == Init(s) + [s[|s| - 1]];
      TotalsAppend(Init(s), [s[|s| - 1]]);
      assert [s[|s| - 1]][..0] == [];
    }
  }

  /** The maximum is at least every row's offer and never negative; in an alignment
      of consistent rows it is at most the alignment length. */
  lemma {:induction false} MaxCandidateBounds(rows: seq<Row>, selfLength: int)
    ensures MaxCandidate(rows) >= 0
    ensures forall i :: 0 <= i < |rows| ==> RowCandidate(rows[i]) <= MaxCandidate(rows)
    ensures selfLength >= 0 && (forall i :: 0 <= i < |rows| ==> RowValid(rows[i], selfLength)) ==>
      MaxCandidate(rows) <= selfLength
    decreases |rows|
  {
    if |rows| > 0 {
      var p := rows[..|rows| - 1];
      MaxCandidateBounds(p, selfLength);
      assert forall i :: 0 <= i < |p| ==> p[i] == rows[i];
      if selfLength >= 0 && forall i :: 0 <= i < |rows| ==> RowValid(rows[i], selfLength) {
        CandidateBound(rows[|rows| - 1], selfLength);
      }
    }
  }

  /** `assert aln_diff >= 0`: the new alignment length never exceeds the old one,
      and every row's offer fits in it. */
  lemma AlnDiffNonNegative(rows: seq<Row>, selfLength: nat)
    requires forall i :: 0 <= i < |rows| ==> RowValid(rows[i], selfLength)
    ensures 0 <= NewLength(rows, selfLength) <= selfLength
    ensures forall i :: 0 <= i < |rows| ==> RowCandidate(rows[i]) <= NewLength(rows, selfLength)
  {
    MaxCandidateBounds(rows, selfLength);
  }

  /** The indices and the `assert`s of the second loop hold for this row. */
  predicate TrimDefined(r: Row, alnDiff: int)
  {
    var s := r.spanMap.spans;
    && (Diff(r) == 0 && alnDiff != 0 ==> EndsLost(s) && s[|s| - 1].length >= alnDiff)
    && (Diff(r) != 0 ==> |s| > 0 && (s[|s| - 1].lost ==> |s| >= 2))
  }

  /** `spans[index].End -= diff; spans[index].length -= diff`. */
  function Cut(sp: Span, diff: int): Span
  {
    sp.(end := sp.end - diff, length := sp.length - diff)
  }

  /** When a row that shrank and ends in a present span gets a trailing lost span:
      as written, only when the alignment kept its length; as evidently intended,
      whenever the alignment shrank by less than the row. */
  function AppendsLost(diff: int, alnDiff: int, asWritten: bool): bool
  {
    if asWritten then alnDiff == 0 else alnDiff < diff
  }

  /** The new map of one row, `alnDiff` being `len(self) - new_length`. */
  function TrimWith(r: Row, alnDiff: int, newLength: int, asWritten: bool): SpanMap
    requires TrimDefined(r, alnDiff)
  {
    var s := r.spanMap.spans;
    var n := |s|;
    var diff := Diff(r);
    if diff == 0 then
      if alnDiff == 0 then r.spanMap
      else
        var shrunk := s[n - 1].(length := s[n - 1].length - alnDiff);
        SpanMap(if shrunk.length == 0 then s[..n - 1] else s[..n - 1] + [shrunk], newLength)
    else if s[n - 1].lost then
      var grown := s[n - 1].(length := s[n - 1].length - alnDiff + diff);
      SpanMap(s[..n - 2] + [Cut(s[n - 2], diff), grown], newLength)
    else if AppendsLost(diff, alnDiff, asWritten) then
      SpanMap(s[..n - 1] + [Cut(s[n - 1], diff), LostSpan(diff - alnDiff)], newLength)
    else
      SpanMap(s[..n - 1] + [Cut(s[n - 1], diff)], newLength)
  }

  /** The corrected span surgery, used by `WithoutTerminalStopCodons`: the source's
      branches with the lost span appended whenever the alignment shrank by less than
      the row, and, for a row whose removed residues do not all lie in the span they
      are cut from, the residues removed across spans. */
  function Trim(r: Row, alnDiff: int, newLength: int): SpanMap
    requires TrimDefined(r, alnDiff)
  {
    if Diff(r) != 0 && !Trimmable(r) then TrimAcross(r, newLength)
    else TrimWith(r, alnDiff, newLength, false)
  }

  /** The span surgery as the source writes it. A row that shrank by `diff` and
      ends in a present span, in an alignment that shrank too, keeps only its old
      length less `diff` columns: it is short of the new alignment unless the two
      shrank alike. */
  function TrimAsWritten(r: Row, alnDiff: int, newLength: int): (m: SpanMap)
    requires TrimDefined(r, alnDiff)
    ensures m.parentLength == newLength || (Diff(r) == 0 && alnDiff == 0)
    ensures Diff(r) != 0 && !EndsLost(r.spanMap.spans) && alnDiff != 0 ==>
      Total(m.spans) == Total(r.spanMap.spans) - Diff(r)
  {
    var s := r.spanMap.spans;
    if Diff(r) != 0 && !EndsLost(s) && alnDiff != 0 then
      LastSplit(s);
      OneTotals(Init(s), Cut(s[|s| - 1], Diff(r)));
      TrimWith(r, alnDiff, newLength, true)
    else
      TrimWith(r, alnDiff, newLength, true)
  }

  /** The span the trimmed residues are taken from: the last one, or the one before
      a terminal gap. */
  function CutSpan(s: seq<Span>): Span
    requires |s| >= 2 || (|s| == 1 && !s[0].lost)
  {
    if s[|s| - 1].lost then s[|s| - 2] else s[|s| - 1]
  }

  /** The removed residues all lie in the span they are cut from. */
  predicate Trimmable(r: Row)
  {
    var s := r.spanMap.spans;
    Diff(r) != 0 ==> (|s| >= 2 || (|s| == 1 && !s[0].lost)) && !CutSpan(s).lost && CutSpan(s).length >= Diff(r)
  }

  /** The spans left once the last d residues are removed: the columns from the
      first removed residue on (gaps included) are dropped, and the span holding the
      last kept residue is cut. */
  function DropResidues(s: seq<Span>, d: int): seq<Span>
    decreases |s|
  {
    if |s| == 0 then []
    else
      var last := s[|s| - 1];
      if last.lost then DropResidues(s[..|s| - 1], d)
      else if last.length > d then s[..|s| - 1] + [Cut(last, d)]
      else DropResidues(s[..|s| - 1], d - last.length)
  }

  /** Removing d of its residues leaves a list with no negative span, showing d
      residues fewer, and with no more gap columns than precede its last span. */
  lemma {:induction false} DropResiduesFacts(s: seq<Span>, d: int)
    requires NonNegative(s) && 0 <= d <= PresentTotal(s)
    ensures NonNegative(DropResidues(s, d))
    ensures PresentTotal(DropResidues(s, d)) == PresentTotal(s) - d
    ensures LostTotal(DropResidues(s, d)) <= LostTotal(Init(s)) <= LostTotal(s)
    decreases |s|
  {
    if |s| > 0 {
      var t, last := s[..|s| - 1], s[|s| - 1];
      LastSplit(s);
      assert NonNegative(t) by {
        forall k | 0 <= k < |t| ensures t[k].length >= 0 { assert t[k] == s[k]; }
      }
      if last.lost {
        DropResiduesFacts(t, d);
      } else if last.length > d {
        OneTotals(t, Cut(last, d));
      } else {
        DropResiduesFacts(t, d - last.length);
      }
    }
  }

  /** The row's new map when residues are removed across spans: what is left of its
      spans, followed by the gap columns up to the new alignment length. */
  function TrimAcross(r: Row, newLength: int): SpanMap
  {
    var kept := DropResidues(r.spanMap.spans, Diff(r));
    var pad := newLength - Total(kept);
    SpanMap(if pad > 0 then kept + [LostSpan(pad)] else kept, newLength)
  }

  /** Removing residues across spans fits every consistent row into the new
      alignment, whatever spans the removed residues lie in. */
  lemma TrimAcrossFits(r: Row, selfLength: int, newLength: int)
    requires RowValid(r, selfLength) && RowCandidate(r) <= newLength
    ensures MapFits(TrimAcross(r, newLength), newLength, r.newLen)
  {
    var s := r.spanMap.spans;
    var kept := DropResidues(s, Diff(r));
    DropResiduesFacts(s, Diff(r));
    TotalSplit(kept);
    assert Total(kept) <= newLength;
    var pad := newLength - Total(kept);
    if pad > 0 {
      OneTotals(kept, LostSpan(pad));
    }
  }

  /** A map for the trimmed row in the new alignment: no negative span, as long as the
      new alignment and its parent, showing exactly the trimmed sequence. */
  predicate MapFits(m: SpanMap, newLength: int, newLen: int)
  {
    && NonNegative(m.spans)
    && Total(m.spans) == newLength
    && m.parentLength == newLength
    && PresentTotal(m.spans) == newLen
  }

  /** In a consistent alignment the second loop's indices are valid and its
      `assert spans[-1].lost` and `assert spans[-1].length >= 0` hold. */
  lemma TrimDefinedHolds(r: Row, selfLength: int, newLength: int)
    requires RowValid(r, selfLength) && RowCandidate(r) <= newLength <= selfLength
    ensures TrimDefined(r, selfLength - newLength)
  {
    var s := r.spanMap.spans;
    TotalSplit(s);
    if Diff(r) == 0 {
      if selfLength - newLength != 0 {
        assert |s| > 0;
        LastSplit(s);
        TotalSplit(Init(s));
        assert LostTotal(s) - LostTotal(Init(s)) >= selfLength - newLength > 0;
      }
    } else {
      assert PresentTotal(s) > 0;
      assert |s| > 0;
      LastSplit(s);
      if s[|s| - 1].lost {
        assert PresentTotal(Init(s)) > 0;
        assert |Init(s)| > 0;
      }
    }
  }

  /** The totals of a list are those of all but its last span plus the last span. */
  lemma LastSplit(s: seq<Span>)
    requires |s| > 0
    ensures s == Init(s) + [s[|s| - 1]]
    ensures Total(s) == Total(Init(s)) + s[|s| - 1].length
    ensures LostTotal(s) == LostTotal(Init(s)) + (if s[|s| - 1].lost then s[|s| - 1].length else 0)
    ensures PresentTotal(s) == PresentTotal(Init(s)) + (if s[|s| - 1].lost then 0 else s[|s| - 1].length)
  {
    var p, last := s[..|s| - 1], s[|s| - 1];
    assert s == p + [last];
    assert Init(s) == p;
    assert Total(s) == Total(p) + last.length;
    assert LostTotal(s) == LostTotal(p) + (if last.lost then last.length else 0);
    assert PresentTotal(s) == PresentTotal(p) + (if last.lost then 0 else last.length);
  }

  lemma OneTotals(s: seq<Span>, a: Span)
    ensures Total(s + [a]) == Total(s) + a.length
    ensures PresentTotal(s + [a]) == PresentTotal(s) + (if a.lost then 0 else a.length)
    ensures LostTotal(s + [a]) == LostTotal(s) + (if a.lost then a.length else 0)
  {
    assert (s + [a])[..|s|] == s;
  }

  lemma PairTotals(s: seq<Span>, a: Span, b: Span)
    ensures Total(s + [a, b]) == Total(s) + a.length + b.length
    ensures PresentTotal(s + [a, b]) == PresentTotal(s) + (if a.lost then 0 else a.length) + (if b.lost then 0 else b.length)
    ensures LostTotal(s + [a, b]) == LostTotal(s) + (if a.lost then a.length else 0) + (if b.lost then b.length else 0)
  {
    assert s + [a, b] == (s + [a]) + [b];
    OneTotals(s, a);
    OneTotals(s + [a], b);
  }

  /** Neither a row nor the alignment shrank: the old map is reused. */
  lemma TrimUnchanged(r: Row, newLength: int)
    requires Diff(r) == 0
    ensures TrimDefined(r, 0) && Trim(r, 0, newLength) == r.spanMap
  {
  }

  /** Only the alignment shrank: the row must end in a gap, which shrinks by
      `alnDiff` without going negative and is deleted when it reaches zero; the new
      map has the new alignment length as its parent length. */
  lemma TrimShrinksTerminalGap(r: Row, selfLength: int, newLength: int)
    requires RowValid(r, selfLength) && RowCandidate(r) <= newLength < selfLength && Diff(r) == 0
    ensures var s := r.spanMap.spans; var alnDiff := selfLength - newLength;
      && EndsLost(s)
      && s[|s| - 1].length - alnDiff >= 0
      && TrimDefined(r, alnDiff)
      && Trim(r, alnDiff, newLength).parentLength == newLength
      && Trim(r, alnDiff, newLength).spans ==
           if s[|s| - 1].length == alnDiff then Init(s)
           else Init(s) + [s[|s| - 1].(length := s[|s| - 1].length - alnDiff)]
  {
    TrimDefinedHolds(r, selfLength, newLength);
  }

  /** The corrected surgery leaves every consistent row fitting the new alignment. */
  lemma TrimFits(r: Row, selfLength: int, newLength: int)
    requires RowValid(r, selfLength) && RowCandidate(r) <= newLength <= selfLength
    ensures TrimDefined(r, selfLength - newLength)
    ensures MapFits(Trim(r, selfLength - newLength, newLength), newLength, r.newLen)
  {
    TrimDefinedHolds(r, selfLength, newLength);
    var s := r.spanMap.spans;
    if Diff(r) != 0 && !Trimmable(r) {
      TrimAcrossFits(r, selfLength, newLength);
    } else if Diff(r) == 0 {
      TrimFitsUnchangedRow(r, selfLength, newLength);
    } else if s[|s| - 1].lost {
      TrimFitsTerminalGap(r, selfLength, newLength);
    } else {
      TrimFitsTerminalResidue(r, selfLength, newLength);
    }
  }

  lemma TrimFitsUnchangedRow(r: Row, selfLength: int, newLength: int)
    requires RowValid(r, selfLength) && RowCandidate(r) <= newLength <= selfLength && Diff(r) == 0
    requires TrimDefined(r, selfLength - newLength)
    ensures MapFits(Trim(r, selfLength - newLength, newLength), newLength, r.newLen)
  {
    var s := r.spanMap.spans;
    var alnDiff := selfLength - newLength;
    if alnDiff != 0 {
      LastSplit(s);
      OneTotals(Init(s), s[|s| - 1].(length := s[|s| - 1].length - alnDiff));
    }
  }

  lemma TrimFitsTerminalGap(r: Row, selfLength: int, newLength: int)
    requires RowValid(r, selfLength) && RowCandidate(r) <= newLength <= selfLength && Trimmable(r)
    requires Diff(r) != 0 && EndsLost(r.spanMap.spans)
    requires TrimDefined(r, selfLength - newLength)
    ensures MapFits(Trim(r, selfLength - newLength, newLength), newLength, r.newLen)
  {
    var s := r.spanMap.spans;
    var n := |s|;
    var alnDiff := selfLength - newLength;
    var diff := Diff(r);
    assert Trim(r, alnDiff, newLength) == TrimWith(r, alnDiff, newLength, false);
    var p := s[..n - 2];
    assert s == p + [s[n - 2], s[n - 1]];
    assert Init(s) == p + [s[n - 2]];
    PairTotals(p, s[n - 2], s[n - 1]);
    OneTotals(p, s[n - 2]);
    PairTotals(p, Cut(s[n - 2], diff), s[n - 1].(length := s[n - 1].length - alnDiff + diff));
    TotalSplit(s);
    TotalSplit(p);
  }

  lemma TrimFitsTerminalResidue(r: Row, selfLength: int, newLength: int)
    requires RowValid(r, selfLength) && RowCandidate(r) <= newLength <= selfLength && Trimmable(r)
    requires Diff(r) != 0 && !EndsLost(r.spanMap.spans)
    requires TrimDefined(r, selfLength - newLength)
    ensures MapFits(Trim(r, selfLength - newLength, newLength), newLength, r.newLen)
  {
    var s := r.spanMap.spans;
    var n := |s|;
    var alnDiff := selfLength - newLength;
    var diff := Diff(r);
    var cut := Cut(s[n - 1], diff);
    assert cut.length >= 0 && !cut.lost;
    assert alnDiff <= diff;
    LastSplit(s);
    var m := TrimWith(r, alnDiff, newLength, false);
    assert Trim(r, alnDiff, newLength) == m;
    if alnDiff < diff {
      assert m.spans == Init(s) + [cut, LostSpan(diff - alnDiff)];
      PairTotals(Init(s), cut, LostSpan(diff - alnDiff));
    } else {
      assert m.spans == Init(s) + [cut];
      OneTotals(Init(s), cut);
    }
  }

  /** Where the removed residues lie in the span they are cut from, the source's
      branch differs from the corrected one only for a row that shrank more than the
      alignment did while ending in a present span. */
  lemma AsWrittenAgreesElsewhere(r: Row, alnDiff: int, newLength: int)
    requires TrimDefined(r, alnDiff) && alnDiff >= 0 && Diff(r) >= 0 && Trimmable(r)
    requires var s := r.spanMap.spans; !(Diff(r) != 0 && !s[|s| - 1].lost && 0 < alnDiff < Diff(r))
    ensures TrimAsWritten(r, alnDiff, newLength) == Trim(r, alnDiff, newLength)
  {
  }

  /** Row A of the example below: 12 residues, of which the last 3 are dropped. */
  function ExampleRowA(): Row
  {
    Row(SpanMap([Span(false, 12, 12)], 12), 12, 9)
  }

  /** Row D of the example below: `AAAAA-AAAAA-`, with no stop codon. */
  function ExampleRowD(): Row
  {
    Row(SpanMap([Span(false, 5, 5), LostSpan(1), Span(false, 5, 10), LostSpan(1)], 12), 10, 10)
  }

  lemma ExampleRowDFacts()
    ensures RowValid(ExampleRowD(), 12) && RowCandidate(ExampleRowD()) == 11
  {
    var ds := ExampleRowD().spanMap.spans;
    PairTotals([], Span(false, 5, 5), LostSpan(1));
    assert [] + [Span(false, 5, 5), LostSpan(1)] == [Span(false, 5, 5), LostSpan(1)];
    PairTotals([Span(false, 5, 5), LostSpan(1)], Span(false, 5, 10), LostSpan(1));
    OneTotals([Span(false, 5, 5), LostSpan(1)], Span(false, 5, 10));
    assert Init(ds) == [Span(false, 5, 5), LostSpan(1)] + [Span(false, 5, 10)];
  }

  lemma ExampleRowAFacts()
    ensures var a := ExampleRowA();
      && RowValid(a, 12) && Trimmable(a) && RowCandidate(a) == 9 && TrimDefined(a, 1)
      && Total(TrimAsWritten(a, 1, 11).spans) == 9
      && Total(Trim(a, 1, 11).spans) == 11
  {
    var a := ExampleRowA();
    OneTotals([], Span(false, 12, 12));
    assert [] + [Span(false, 12, 12)] == [Span(false, 12, 12)];
    assert Init(a.spanMap.spans) == [];
    assert TrimAsWritten(a, 1, 11).spans == [] + [Span(false, 9, 9)];
    OneTotals([], Span(false, 9, 9));
    assert Trim(a, 1, 11).spans == [] + [Span(false, 9, 9), LostSpan(2)];
    PairTotals([], Span(false, 9, 9), LostSpan(2));
  }

  /** An alignment of length 12 holding rows A and D. Row A shrinks by 3 and row D
      offers 11, so the alignment shrinks by 1; as written, row A's new map is 9
      columns long instead of 11, while the corrected map is 11 long. */
  lemma AsWrittenCounterexample()
    ensures var a, d := ExampleRowA(), ExampleRowD();
      && RowValid(a, 12) && RowValid(d, 12) && Trimmable(a)
      && NewLength([a, d], 12) == 11
      && TrimDefined(a, 1)
      && Total(TrimAsWritten(a, 1, 11).spans) == 9
      && Total(Trim(a, 1, 11).spans) == 11
  {
    var a, d := ExampleRowA(), ExampleRowD();
    ExampleRowAFacts();
    ExampleRowDFacts();
    assert [a, d][..1] == [a];
    assert [a][..0] == [];
    assert MaxCandidate([a]) == 9;
    assert MaxCandidate([a, d]) == Max(MaxCandidate([a]), RowCandidate(d));
  }

  /** A row `AAATA-G` whose stop codon `TAG` is split by a gap. */
  function ExampleSplitStop(): Row
  {
    Row(SpanMap([Span(false, 5, 5), LostSpan(1), Span(false, 1, 6)], 7), 6, 3)
  }

  /** An alignment of length 7 holding only the row `AAATA-G`, which loses its 3
      stop residues. The alignment shrinks to 4 and the source cuts all 3 residues
      from the last span, which holds only `G`: its length becomes -2. The corrected
      surgery gives the row `AAA-`, fitting the new alignment. */
  lemma SplitStopCounterexample()
    ensures var r := ExampleSplitStop();
      && RowValid(r, 7) && !Trimmable(r)
      && NewLength([r], 7) == 4
      && TrimDefined(r, 3)
      && TrimAsWritten(r, 3, 4).spans[2].length == -2
      && !NonNegative(TrimAsWritten(r, 3, 4).spans)
      && Trim(r, 3, 4).spans == [Span(false, 3, 3), LostSpan(1)]
      && MapFits(Trim(r, 3, 4), 4, 3)
  {
    var r := ExampleSplitStop();
    SplitStopRowFacts();
    assert [r][..0] == [];
    assert MaxCandidate([r]) == 4;
    assert TrimAsWritten(r, 3, 4).spans[2] == Span(false, -2, 3);
    SplitStopCorrected();
    TrimFits(r, 7, 4);
  }

  lemma SplitStopRowFacts()
    ensures var r := ExampleSplitStop();
      RowValid(r, 7) && !Trimmable(r) && RowCandidate(r) == 4 && TrimDefined(r, 3)
  {
    var s := ExampleSplitStop().spanMap.spans;
    PairTotals([], Span(false, 5, 5), LostSpan(1));
    assert [] + [Span(false, 5, 5), LostSpan(1)] == [Span(false, 5, 5), LostSpan(1)];
    OneTotals([Span(false, 5, 5), LostSpan(1)], Span(false, 1, 6));
    assert s == [Span(false, 5, 5), LostSpan(1)] + [Span(false, 1, 6)];
    assert Init(s) == [Span(false, 5, 5), LostSpan(1)];
  }

  lemma SplitStopCorrected()
    ensures Diff(ExampleSplitStop()) == 3
    ensures DropResidues(ExampleSplitStop().spanMap.spans, 3) == [Span(false, 3, 3)]
    ensures Total([Span(false, 3, 3)]) == 3
  {
    var s := ExampleSplitStop().spanMap.spans;
    assert s[..2] == [Span(false, 5, 5), LostSpan(1)];
    assert [Span(false, 5, 5), LostSpan(1)][..1] == [Span(false, 5, 5)];
    assert DropResidues(s, 3) == DropResidues([Span(false, 5, 5)], 2);
    assert [Span(false, 5, 5)][..0] == [];
    assert DropResidues(s, 3) == [] + [Span(false, 3, 3)];
    OneTotals([], Span(false, 3, 3));
  }

  /** The second loop on one row, updating its copied spans in place. */
  method TrimRow(r: Row, alnDiff: int, newLength: int) returns (m: SpanMap)
    requires TrimDefined(r, alnDiff)
    ensures m == Trim(r, alnDiff, newLength)
  {
    var diff := r.oldLen - r.newLen;
    if diff != 0 && !Trimmable(r) {
      return TrimAcross(r, newLength);
    }
    var spans := r.spanMap.spans;
    var n := |spans|;
    if diff == 0 {
      if alnDiff == 0 {
        return r.spanMap;
      }
      spans := spans[n - 1 := spans[n - 1].(length := spans[n - 1].length - alnDiff)];
      if spans[n - 1].length == 0 {
        spans := spans[..n - 1];
      }
      return SpanMap(spans, newLength);
    }
    var index := 2;
    if spans[n - 1].lost {
      spans := spans[n - 1 := spans[n - 1].(length := spans[n - 1].length - alnDiff + diff)];
    } else if alnDiff < diff {
      spans := spans + [LostSpan(diff - alnDiff)];
    } else {
      index := 1;
    }
    var k := |spans| - index;
    spans := spans[k := spans[k].(end := spans[k].end - diff, length := spans[k].length - diff)];
    return SpanMap(spans, newLength);
  }

  /** The first loop of `withoutTerminalStopCodons`: the running maximum of the rows'
      offers, replaced by the alignment length when it stayed 0. */
  method NewAlignmentLength(rows: seq<Row>, selfLength: nat) returns (newLength: int)
    requires forall i :: 0 <= i < |rows| ==> RowValid(rows[i], selfLength)
    ensures newLength == NewLength(rows, selfLength)
  {
    newLength := 0;
    var i := 0;
    while i < |rows|
      invariant 0 <= i <= |rows|
      invariant newLength == MaxCandidate(rows[..i])
    {
      var r := rows[i];
      var spans := r.spanMap.spans;
      var diff := r.oldLen - r.newLen;
      if diff != 0 && !spans[|spans| - 1].lost {
        newLength := Max(newLength, Total(spans) - diff);
      }
      var seqLength := LostTotal(Init(spans)) + r.newLen;
      newLength := Max(newLength, seqLength);
      assert rows[..i + 1][..i] == rows[..i];
      i := i + 1;
    }
    assert rows[..i] == rows;
    if newLength == 0 {
      newLength := selfLength;
    }
  }

  /** The second loop of `withoutTerminalStopCodons`: every row's new map. */
  method TrimRows(rows: seq<Row>, selfLength: nat, newLength: int) returns (maps: seq<SpanMap>)
    requires forall i :: 0 <= i < |rows| ==> RowValid(rows[i], selfLength)
    requires forall i :: 0 <= i < |rows| ==> RowCandidate(rows[i]) <= newLength
    requires newLength <= selfLength
    ensures |maps| == |rows|
    ensures forall i :: 0 <= i < |rows| ==>
      TrimDefined(rows[i], selfLength - newLength) && maps[i] == Trim(rows[i], selfLength - newLength, newLength)
  {
    var alnDiff := selfLength - newLength;
    maps := [];
    var i := 0;
    while i < |rows|
      invariant 0 <= i <= |rows|
      invariant |maps| == i
      invariant forall j :: 0 <= j < i ==> TrimDefined(rows[j], alnDiff) && maps[j] == Trim(rows[j], alnDiff, newLength)
    {
      TrimDefinedHolds(rows[i], selfLength, newLength);
      var m := TrimRow(rows[i], alnDiff, newLength);
      maps := maps + [m];
      i := i + 1;
    }
  }

  /** `withoutTerminalStopCodons` on an alignment of consistent rows, with the
      corrected surgery: the new length never exceeds the old one, a row that kept
      its sequence in an alignment that kept its length keeps its map, and every row
      gets a map fitting the new alignment. */
  method WithoutTerminalStopCodons(rows: seq<Row>, selfLength: nat) returns (newLength: int, maps: seq<SpanMap>)
    requires forall i :: 0 <= i < |rows| ==> RowValid(rows[i], selfLength)
    ensures newLength == NewLength(rows, selfLength) && 0 <= newLength <= selfLength
    ensures |maps| == |rows|
    ensures forall i :: 0 <= i < |rows| ==>
      TrimDefined(rows[i], selfLength - newLength) && maps[i] == Trim(rows[i], selfLength - newLength, newLength)
    ensures forall i :: 0 <= i < |rows| && Diff(rows[i]) == 0 && newLength == selfLength ==> maps[i] == rows[i].spanMap
    ensures forall i :: 0 <= i < |rows| ==> MapFits(maps[i], newLength, rows[i].newLen)
  {
    newLength := NewAlignmentLength(rows, selfLength);
    AlnDiffNonNegative(rows, selfLength);
    var alnDiff := selfLength - newLength;
    assert alnDiff >= 0;
    maps := TrimRows(rows, selfLength, newLength);
    forall j | 0 <= j < |rows| ensures MapFits(maps[j], newLength, rows[j].newLen) {
      TrimFits(rows[j], selfLength, newLength);
    }
  }
}
