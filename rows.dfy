/** Row transforms of `SequenceCollection` and `AlignmentI` over plain rows of
    characters: padding, taking columns, the dot masking of `toPretty`, the window
    bounds of `slidingWindows`, and the gap-run test of `omitGapRuns`. */
module Rows {
  import opened Wrappers

  // ---------------------------------------------------------------------------
  // padSeqs

  /** Python's `max(lengths)` on a non-empty list. */
  function Longest(s: seq<nat>): (m: nat)
    requires |s| > 0
    ensures forall i :: 0 <= i < |s| ==> s[i] <= m
    ensures exists i :: 0 <= i < |s| && s[i] == m
    decreases |s|
  {
    if |s| == 1 then s[0]
    else
      var m := Longest(s[..|s| - 1]);
      assert forall i :: 0 <= i < |s| - 1 ==> s[..|s| - 1][i] == s[i];
      if m >= s[|s| - 1] then m else s[|s| - 1]
  }

  /** Python's `'-' * n`: empty for n <= 0. */
  function Dashes(n: int): (r: string)
    ensures |r| == Max(n, 0) && forall k :: 0 <= k < |r| ==> r[k] == '-'
  {
    seq(Max(n, 0), _ => '-')
  }

  /** `padSeqs(pad_length)`: `lengths` are the lengths of the collection's rows
      (`len(s) for s in self.Seqs`), `data` the sequences that are padded (for an
      Alignment the ungapped data). The longest row sets the default target; an
      explicit target below it, or an empty collection (Python's `max([])`),
      raises ValueError. Each sequence is followed by dashes up to the target. */
  method PadSeqs(lengths: seq<nat>, data: seq<string>, padLength: Option<int>)
    returns (r: Result<seq<string>>)
    requires |lengths| == |data|
    ensures r.Failure? <==> |lengths| == 0 || (padLength.Some? && padLength.value < Longest(lengths))
    ensures r.Failure? ==> r.error == ValueError
    ensures r.Success? ==>
      var target := if padLength.Some? then padLength.value else Longest(lengths);
      && |r.value| == |data|
      && forall i :: 0 <= i < |data| ==>
           && |r.value[i]| == Max(target, |data[i]|)
           && r.value[i][..|data[i]|] == data[i]
           && (forall j :: |data[i]| <= j < |r.value[i]| ==> r.value[i][j] == '-')
           && (|data[i]| <= lengths[i] ==> |r.value[i]| == target)
  {
    if |lengths| == 0 {
      return Failure(ValueError);
    }
    var maxLen := Longest(lengths);
    var target: int;
    if padLength.Some? {
      if padLength.value < maxLen {
        return Failure(ValueError);
      }
      target := padLength.value;
    } else {
      target := maxLen;
    }
    var newSeqs: seq<string> := [];
    var i := 0;
    while i < |data|
      invariant 0 <= i <= |data|
      invariant |newSeqs| == i
      invariant forall k :: 0 <= k < i ==> newSeqs[k] == data[k] + Dashes(target - |data[k]|)
    {
      newSeqs := newSeqs + [data[i] + Dashes(target - |data[i]|)];
      i := i + 1;
    }
    forall k | 0 <= k < |data| ensures newSeqs[k][..|data[k]|] == data[k] { }
    return Success(newSeqs);
  }

  // ---------------------------------------------------------------------------
  // takePositions

  /** Python accepts an index c of a row of length n when -n <= c < n. */
  predicate InRange(c: int, n: nat)
  {
    -(n as int) <= c < n
  }

  /** The position Python's `row[c]` reads (negative indices count from the end). */
  function Wrap(c: int, n: nat): (i: nat)
    requires InRange(c, n)
    ensures i < n
  {
    if c < 0 then c + n else c
  }

  /** The positions 0..n-1 that are not in `cs`, in increasing order. */
  function KeptIndices(n: nat, cs: set<int>): (r: seq<nat>)
    ensures forall k :: 0 <= k < |r| ==> r[k] < n
  {
    if n == 0 then [] else KeptIndices(n - 1, cs) + (if n - 1 in cs then [] else [n - 1])
  }

  /** The columns of `cs` that fall on the row. */
  function ColumnsInRow(n: nat, cs: set<int>): set<int>
  {
    set c | c in cs && 0 <= c < n
  }

  /** The kept positions are increasing, miss exactly the listed columns, and
      number n minus the listed columns that fall on the row. */
  lemma {:induction false} KeptIndicesExact(n: nat, cs: set<int>)
    ensures Increasing(KeptIndices(n, cs))
    ensures forall i :: i in KeptIndices(n, cs) <==> 0 <= i < n && i !in cs
    ensures |KeptIndices(n, cs)| == n - |ColumnsInRow(n, cs)|
    decreases n
  {
    KeptIndicesOrder(n, cs);
    KeptIndicesCount(n, cs);
  }

  lemma {:induction false} KeptIndicesOrder(n: nat, cs: set<int>)
    ensures Increasing(KeptIndices(n, cs))
    ensures forall i :: i in KeptIndices(n, cs) <==> 0 <= i < n && i !in cs
    decreases n
  {
    if n > 0 {
      KeptIndicesOrder(n - 1, cs);
    }
  }

  lemma {:induction false} KeptIndicesCount(n: nat, cs: set<int>)
    ensures |KeptIndices(n, cs)| == n - |ColumnsInRow(n, cs)|
    decreases n
  {
    if n > 0 {
      KeptIndicesCount(n - 1, cs);
      if n - 1 in cs {
        assert ColumnsInRow(n, cs) == ColumnsInRow(n - 1, cs) + {n - 1};
      } else {
        assert ColumnsInRow(n, cs) == ColumnsInRow(n - 1, cs);
      }
    }
  }

  /** How `takePositions` treats one row: without negate `[row[i] for i in cols]`,
      failing (IndexError) on an index outside the row; with negate the characters
      at the positions not listed, in their original order. */
  ghost predicate TakenFrom(row: string, cols: seq<int>, negate: bool, out: Option<string>)
  {
    if negate then
      out == Some(Select(row, KeptIndices(|row|, ElementSet(cols))))
    else
      && (out.None? <==> exists k :: 0 <= k < |cols| && !InRange(cols[k], |row|))
      && (out.Some? ==>
            && |out.value| == |cols|
            && forall k :: 0 <= k < |cols| ==> InRange(cols[k], |row|) && out.value[k] == row[Wrap(cols[k], |row|)])
  }

  /** The negated selection is the row minus one character per listed column on it. */
  lemma NegatedLength(row: string, cols: seq<int>)
    ensures |Select(row, KeptIndices(|row|, ElementSet(cols)))| == |row| - |ColumnsInRow(|row|, ElementSet(cols))|
  {
    KeptIndicesExact(|row|, ElementSet(cols));
  }

  /** The row part of `takePositions`. */
  method TakeRowPositions(row: string, cols: seq<int>, negate: bool) returns (out: Option<string>)
    ensures TakenFrom(row, cols, negate, out)
  {
    var taken: string := [];
    if negate {
      var lookup := ElementSet(cols);
      var i := 0;
      while i < |row|
        invariant 0 <= i <= |row|
        invariant taken == Select(row, KeptIndices(i, lookup))
      {
        if i !in lookup {
          taken := taken + [row[i]];
        }
        i := i + 1;
      }
    } else {
      var k := 0;
      while k < |cols|
        invariant 0 <= k <= |cols|
        invariant |taken| == k
        invariant forall m :: 0 <= m < k ==> InRange(cols[m], |row|) && taken[m] == row[Wrap(cols[m], |row|)]
      {
        if !InRange(cols[k], |row|) {
          return None;
        }
        taken := taken + [row[Wrap(cols[k], |row|)]];
        k := k + 1;
      }
    }
    return Some(taken);
  }

  /** Taking non-negative in-range positions selects exactly those positions. */
  lemma TakenSelects(row: string, cols: seq<nat>, out: string)
    requires forall k :: 0 <= k < |cols| ==> cols[k] < |row|
    requires TakenFrom(row, cols, false, Some(out))
    ensures out == Select(row, cols)
  {
    forall k | 0 <= k < |cols| ensures out[k] == row[cols[k]] {
      assert Wrap(cols[k], |row|) == cols[k];
    }
  }

  /** `takePositions(cols, negate)` over the rows of an alignment, in name order;
      the first row with an index out of range raises IndexError. */
  method TakePositions(rows: seq<string>, cols: seq<int>, negate: bool) returns (out: Option<seq<string>>)
    ensures out.None? <==> !negate && exists i, k :: 0 <= i < |rows| && 0 <= k < |cols| && !InRange(cols[k], |rows[i]|)
    ensures out.Some? ==> |out.value| == |rows| && forall i :: 0 <= i < |rows| ==> TakenFrom(rows[i], cols, negate, Some(out.value[i]))
  {
    var result: seq<string> := [];
    var i := 0;
    while i < |rows|
      invariant 0 <= i <= |rows|
      invariant |result| == i
      invariant forall m :: 0 <= m < i ==> TakenFrom(rows[m], cols, negate, Some(result[m]))
    {
      var taken := TakeRowPositions(rows[i], cols, negate);
      if taken.None? {
        return None;
      }
      result := result + [taken.value];
      i := i + 1;
    }
    return Some(result);
  }

  // ---------------------------------------------------------------------------
  // toPretty (dot masking)

  /** The number of columns `zip(*rows)` yields: the shortest row's length. */
  function ZipLength(rows: seq<string>): (n: nat)
    ensures forall s :: 0 <= s < |rows| ==> n <= |rows[s]|
    ensures |rows| > 0 ==> exists s :: 0 <= s < |rows| && n == |rows[s]|
    decreases |rows|
  {
    if |rows| == 0 then 0
    else if |rows| == 1 then |rows[0]|
    else
      var m := ZipLength(rows[..|rows| - 1]);
      assert forall s :: 0 <= s < |rows| - 1 ==> rows[..|rows| - 1][s] == rows[s];
      if m <= |rows[|rows| - 1]| then m else |rows[|rows| - 1]|
  }

  /** What `toPretty` shows in row s at column q: the first row as it is, every other
      row with '.' where it agrees with the first. */
  function Shown(rows: seq<string>, s: nat, q: nat): char
    requires s < |rows| && q < ZipLength(rows)
  {
    if s == 0 || rows[s][q] != rows[0][q] then rows[s][q] else '.'
  }

  /** `out` is the masked view of `rows`: one entry per row, as long as the shortest
      row; the first row unchanged; in every other row '.' exactly where it agrees
      with the first row (or holds a '.' itself), its own character elsewhere. */
  ghost predicate MaskedView(rows: seq<string>, out: seq<string>)
  {
    && |out| == |rows|
    && (forall s :: 0 <= s < |rows| ==> |out[s]| == ZipLength(rows))
    && (|rows| > 0 ==> out[0] == rows[0][..ZipLength(rows)])
    && (forall s, q :: 1 <= s < |rows| && 0 <= q < ZipLength(rows) ==>
          && (out[s][q] == '.' <==> rows[s][q] == rows[0][q] || rows[s][q] == '.')
          && (out[s][q] != '.' ==> out[s][q] == rows[s][q]))
  }

  /** The masking loop of `toPretty`: for every column of `zip(*seqs)`, every row
      gets its shown character appended. */
  method DotMask(rows: seq<string>) returns (out: seq<string>)
    ensures MaskedView(rows, out)
  {
    var n := ZipLength(rows);
    out := seq(|rows|, _ => []);
    var p := 0;
    while p < n
      invariant 0 <= p <= n
      invariant |out| == |rows|
      invariant forall s :: 0 <= s < |rows| ==> |out[s]| == p
      invariant forall s, q :: 0 <= s < |rows| && 0 <= q < p ==> out[s][q] == Shown(rows, s, q)
    {
      var ref := rows[0][p];
      out := out[0 := out[0] + [ref]];
      var s := 1;
      while s < |rows|
        invariant 1 <= s <= |rows|
        invariant |out| == |rows|
        invariant forall t :: 0 <= t < |rows| ==> |out[t]| == if t < s then p + 1 else p
        invariant forall t, q :: 0 <= t < |rows| && 0 <= q < |out[t]| ==> out[t][q] == Shown(rows, t, q)
      {
        var val := if rows[s][p] == ref then '.' else rows[s][p];
        out := out[s := out[s] + [val]];
        s := s + 1;
      }
      p := p + 1;
    }
    if |rows| > 0 {
      assert out[0] == rows[0][..n];
    }
  }

  /** Undoing the mask: '.' stands for the first row's character. */
  function Unmasked(ref: string, shown: string): (r: string)
    requires |ref| == |shown|
    ensures |r| == |shown|
  {
    seq(|shown|, q requires 0 <= q < |shown| => if shown[q] == '.' then ref[q] else shown[q])
  }

  /** A row without '.' of its own is recovered from its masked form and the first row. */
  lemma UnmaskRoundTrip(rows: seq<string>, out: seq<string>, s: nat)
    requires MaskedView(rows, out) && 1 <= s < |rows|
    requires forall q :: 0 <= q < |rows[s]| ==> rows[s][q] != '.'
    ensures Unmasked(out[0], out[s]) == rows[s][..ZipLength(rows)]
  {
    var n := ZipLength(rows);
    forall q | 0 <= q < n ensures Unmasked(out[0], out[s])[q] == rows[s][q] {
      assert out[0][q] == rows[0][q];
    }
  }

  // ---------------------------------------------------------------------------
  // slidingWindows

  /** The (start, end) bounds of the windows `slidingWindows(window, step, start,
      end)` slices out of an alignment of length `alnLen`. The last window start
      is capped at `alnLen - window + 1`; `range` with step 0 raises ValueError,
      and a negative step yields nothing. */
  method SlidingWindows(alnLen: nat, window: int, step: int, start: Option<int>, end: Option<int>)
    returns (r: Result<seq<(int, int)>>)
    ensures var s0 := if start.Some? then start.value else 0;
      var e0 := Min(alnLen - window + 1, if end.Some? then end.value else alnLen - window + 1);
      && (r.Failure? <==> s0 < e0 && step == 0)
      && (r.Failure? ==> r.error == ValueError)
      && (r.Success? ==>
            && (forall k :: 0 <= k < |r.value| ==>
                  && r.value[k].0 == s0 + k * step
                  && s0 <= r.value[k].0 < e0
                  && r.value[k].1 == r.value[k].0 + window
                  && r.value[k].1 <= alnLen)
            && (s0 < e0 && step > 0 ==> s0 + |r.value| * step >= e0)
            && (s0 >= e0 || step < 0 ==> r.value == []))
  {
    var s0 := if start.Some? then start.value else 0;
    var e0 := if end.Some? then end.value else alnLen - window + 1;
    e0 := Min(alnLen - window + 1, e0);
    var windows: seq<(int, int)> := [];
    if s0 < e0 && alnLen - e0 >= window - 1 {
      if step == 0 {
        return Failure(ValueError);
      }
      if step > 0 {
        var pos := s0;
        while pos < e0
          invariant pos == s0 + |windows| * step
          invariant pos <= e0 + step
          invariant forall k :: 0 <= k < |windows| ==>
            && windows[k].0 == s0 + k * step
            && s0 <= windows[k].0 < e0
            && windows[k].1 == windows[k].0 + window
          decreases e0 - pos
        {
          windows := windows + [(pos, pos + window)];
          pos := pos + step;
        }
      }
    }
    return Success(windows);
  }

  /** The guard `len(self) - end >= window - 1` adds nothing: it always holds once
      the window end has been capped. */
  lemma WindowGuardRedundant(alnLen: nat, window: int, end: int)
    ensures alnLen - Min(alnLen - window + 1, end) >= window - 1
  {
  }

  // ---------------------------------------------------------------------------
  // omitGapRuns.ok_gap_run

  predicate AllGaps(s: string, gaps: set<char>)
  {
    forall k :: 0 <= k < |s| ==> s[k] in gaps
  }

  /** The row holds a stretch of consecutive gap characters longer than `allowed`. */
  ghost predicate LongGapRun(row: string, allowed: int, gaps: set<char>)
  {
    exists i, j :: 0 <= i < j <= |row| && j - i > allowed && AllGaps(row[i..j], gaps)
  }

  /** The number of gap characters immediately before position k. */
  function RunEndingAt(row: string, k: nat, gaps: set<char>): (r: nat)
    requires k <= |row|
    ensures r <= k
  {
    if k == 0 || row[k - 1] !in gaps then 0 else RunEndingAt(row, k - 1, gaps) + 1
  }

  lemma {:induction false} RunIsGaps(row: string, k: nat, gaps: set<char>)
    requires k <= |row|
    ensures AllGaps(row[k - RunEndingAt(row, k, gaps)..k], gaps)
    decreases k
  {
    if k > 0 && row[k - 1] in gaps {
      RunIsGaps(row, k - 1, gaps);
      var m := RunEndingAt(row, k - 1, gaps);
      assert row[k - 1 - m..k] == row[k - 1 - m..k - 1] + [row[k - 1]];
    }
  }

  lemma {:induction false} RunAtLeast(row: string, i: nat, j: nat, gaps: set<char>)
    requires i <= j <= |row| && AllGaps(row[i..j], gaps)
    ensures RunEndingAt(row, j, gaps) >= j - i
    decreases j
  {
    if i < j {
      assert row[j - 1] == row[i..j][j - 1 - i];
      assert row[i..j - 1] == row[i..j][..j - 1 - i];
      RunAtLeast(row, i, j - 1, gaps);
    }
  }

  /** `ok_gap_run(x)`: scan the row keeping the length of the current gap run and
      fail as soon as it exceeds `allowed`. */
  method OkGapRun(row: string, allowed: int, gaps: set<char>) returns (ok: bool)
    ensures ok <==> !LongGapRun(row, allowed, gaps)
  {
    var currRun := 0;
    var i := 0;
    while i < |row|
      invariant 0 <= i <= |row|
      invariant currRun == RunEndingAt(row, i, gaps)
      invariant forall k :: 1 <= k <= i ==> RunEndingAt(row, k, gaps) == 0 || RunEndingAt(row, k, gaps) <= allowed
    {
      if row[i] in gaps {
        currRun := currRun + 1;
        if currRun > allowed {
          RunIsGaps(row, i + 1, gaps);
          return false;
        }
      } else {
        currRun := 0;
      }
      i := i + 1;
    }
    forall a, b | 0 <= a < b <= |row| && AllGaps(row[a..b], gaps) ensures b - a <= allowed {
      RunAtLeast(row, a, b, gaps);
    }
    return true;
  }

  /** A row without gap characters, the empty row included, passes for every
      `allowed`, negative ones too. */
  lemma GapFreeRowPasses(row: string, allowed: int, gaps: set<char>)
    requires forall k :: 0 <= k < |row| ==> row[k] !in gaps
    ensures !LongGapRun(row, allowed, gaps)
  {
    forall a, b | 0 <= a < b <= |row| ensures !AllGaps(row[a..b], gaps) {
      assert row[a..b][0] == row[a];
    }
  }

  /** The names whose rows pass `ok_gap_run`, in name order. */
  ghost function Passing(names: seq<string>, rows: map<string, string>, allowed: int, gaps: set<char>): seq<string>
    requires forall x :: x in names ==> x in rows
  {
    if names == [] then []
    else
      var p := Passing(names[..|names| - 1], rows, allowed, gaps);
      var x := names[|names| - 1];
      if LongGapRun(rows[x], allowed, gaps) then p else p + [x]
  }

  /** `omitGapRuns(allowed_run)` selects, through `takeSeqsIf`, the names of the
      rows that pass `ok_gap_run`; the rows are then taken with `takeSeqs`. */
  method OmitGapRunsNames(names: seq<string>, rows: map<string, string>, allowed: int, gaps: set<char>)
    returns (kept: seq<string>)
    requires forall x :: x in names ==> x in rows
    ensures kept == Passing(names, rows, allowed, gaps)
    ensures forall x :: x in kept <==> x in names && !LongGapRun(rows[x], allowed, gaps)
  {
    kept := [];
    var i := 0;
    while i < |names|
      invariant 0 <= i <= |names|
      invariant kept == Passing(names[..i], rows, allowed, gaps)
      invariant forall x :: x in kept <==> x in names[..i] && !LongGapRun(rows[x], allowed, gaps)
    {
      assert names[..i + 1][..i] == names[..i];
      assert names[..i + 1] == names[..i] + [names[i]];
      var ok := OkGapRun(rows[names[i]], allowed, gaps);
      if ok {
        kept := kept + [names[i]];
      }
      i := i + 1;
    }
    assert names[..|names|] == names;
  }
}
