/** Column logic of `Alignment` over its gapped rows: the kept-column intervals of
    `filtered`, the gap overlay of `withGapsFrom`, the columns `getDegappedRelativeTo`
    keeps, and the columns `variablePositions` reports. */
module Columns {
  import opened Wrappers
  import opened Rows

  /** An alignment's rows by name: `names` in order, each gapped row keyed by its
      name, and `seqLen` the common length `len(aln)` reports. */
  datatype Alignment = Alignment(names: seq<string>, rows: map<string, string>, seqLen: nat)

  ghost predicate Valid(a: Alignment)
  {
    && Distinct(a.names)
    && ElementSet(a.names) == a.rows.Keys
    && (forall x :: x in a.rows ==> |a.rows[x]| == a.seqLen)
    && (|a.names| == 0 ==> a.seqLen == 0)
  }

  /** The rows of `a` in the order of its names. */
  function RowsInOrder(a: Alignment): (r: seq<string>)
    requires forall x :: x in a.names ==> x in a.rows
    ensures |r| == |a.names| && forall i :: 0 <= i < |r| ==> r[i] == a.rows[a.names[i]]
  {
    seq(|a.names|, i requires 0 <= i < |a.names| => a.rows[a.names[i]])
  }

  /** The dictionary `{names[i]: rows[i]}` an alignment is built from. */
  function RowMap(names: seq<string>, rows: seq<string>): (m: map<string, string>)
    requires |names| == |rows| && Distinct(names)
    ensures m.Keys == ElementSet(names)
    ensures forall i :: 0 <= i < |names| ==> m[names[i]] == rows[i]
  {
    var m := map x | x in ElementSet(names) :: rows[IndexOf(names, x)];
    assert forall i :: 0 <= i < |names| ==> IndexOf(names, names[i]) == i;
    m
  }

  // ---------------------------------------------------------------------------
  // filtered

  /** The value of `kept` once the columns of `keep` have been seen. */
  function Last(keep: seq<bool>): bool
  {
    |keep| > 0 && keep[|keep| - 1]
  }

  /** The columns at which the loop of `filtered` flips `kept`, in the order met. */
  function Toggles(keep: seq<bool>): (r: seq<nat>)
    ensures forall k :: 0 <= k < |r| ==> r[k] < |keep|
    decreases |keep|
  {
    if |keep| == 0 then []
    else
      var p := keep[..|keep| - 1];
      Toggles(p) + (if keep[|keep| - 1] != Last(p) then [|keep| - 1] else [])
  }

  /** The column boundaries of `gv` before scaling: the toggles, closed by the
      column count when the last column was kept. */
  function Boundaries(keep: seq<bool>): seq<nat>
  {
    Toggles(keep) + (if Last(keep) then [|keep|] else [])
  }

  function Scaled(s: seq<nat>, m: int): (r: seq<int>)
    ensures |r| == |s| && forall k :: 0 <= k < |s| ==> r[k] == s[k] * m
  {
    seq(|s|, k requires 0 <= k < |s| => s[k] * m)
  }

  lemma ScaledAppend(s: seq<nat>, p: nat, m: int)
    ensures Scaled(s + [p], m) == Scaled(s, m) + [p * m]
  {
  }

  /** `[(gv[i], gv[i + 1]) for i in range(0, len(gv), 2)]` on an even-length `gv`. */
  function Pairs(gv: seq<int>): (r: seq<(int, int)>)
    requires |gv| % 2 == 0
    ensures |r| * 2 == |gv| && forall k :: 0 <= k < |r| ==> r[k] == (gv[2 * k], gv[2 * k + 1])
  {
    seq(|gv| / 2, k requires 0 <= k < |gv| / 2 => (gv[2 * k], gv[2 * k + 1]))
  }

  /** The toggles are met in increasing column order. */
  lemma {:induction false} TogglesIncreasing(keep: seq<bool>)
    ensures Increasing(Toggles(keep))
    decreases |keep|
  {
    if |keep| > 0 {
      TogglesIncreasing(keep[..|keep| - 1]);
    }
  }

  /** An odd number of toggles leaves `kept` set, an even number leaves it clear. */
  lemma {:induction false} TogglesParity(keep: seq<bool>)
    ensures |Toggles(keep)| % 2 == (if Last(keep) then 1 else 0)
    decreases |keep|
  {
    if |keep| > 0 {
      TogglesParity(keep[..|keep| - 1]);
    }
  }

  /** The toggles met in the first j columns start the list; every later one is at
      column j or beyond. */
  lemma {:induction false} TogglesPrefix(keep: seq<bool>, j: nat)
    requires j <= |keep|
    ensures |Toggles(keep[..j])| <= |Toggles(keep)|
    ensures Toggles(keep)[..|Toggles(keep[..j])|] == Toggles(keep[..j])
    ensures forall k :: |Toggles(keep[..j])| <= k < |Toggles(keep)| ==> Toggles(keep)[k] >= j
    decreases |keep|
  {
    if j == |keep| {
      assert keep[..j] == keep;
    } else {
      var p := keep[..|keep| - 1];
      assert p[..j] == keep[..j];
      TogglesPrefix(p, j);
    }
  }

  /** `gv` always has even length. */
  lemma BoundariesEven(keep: seq<bool>)
    ensures |Boundaries(keep)| % 2 == 0
  {
    TogglesParity(keep);
  }

  lemma BoundariesIncreasing(keep: seq<bool>)
    ensures Increasing(Boundaries(keep))
    ensures forall k :: 0 <= k < |Boundaries(keep)| ==> Boundaries(keep)[k] <= |keep|
  {
    TogglesIncreasing(keep);
  }

  /** On a list of even length split at m into entries at most c and entries above
      c, c lies in one of the half-open pairs exactly when m is odd. */
  lemma PairCovers(b: seq<int>, m: nat, c: int)
    requires |b| % 2 == 0 && m <= |b|
    requires forall i :: 0 <= i < m ==> b[i] <= c
    requires forall i :: m <= i < |b| ==> b[i] > c
    ensures (exists k :: 0 <= k && 2 * k + 1 < |b| && b[2 * k] <= c < b[2 * k + 1]) <==> m % 2 == 1
  {
    if m % 2 == 1 {
      var k := (m - 1) / 2;
      assert b[2 * k] <= c < b[2 * k + 1];
    }
    forall k | 0 <= k && 2 * k + 1 < |b| && b[2 * k] <= c < b[2 * k + 1] ensures m == 2 * k + 1 { }
  }

  /** Column c is kept exactly when it falls in one of the boundary pairs. */
  lemma BoundariesCover(keep: seq<bool>, c: nat)
    requires c < |keep|
    ensures var b := Boundaries(keep);
      (exists k :: 0 <= k && 2 * k + 1 < |b| && b[2 * k] <= c < b[2 * k + 1]) <==> keep[c]
  {
    var pre := keep[..c + 1];
    TogglesPrefix(keep, c + 1);
    TogglesParity(pre);
    BoundariesEven(keep);
    assert Last(pre) == keep[c];
    PairCovers(Boundaries(keep), |Toggles(pre)|, c);
  }

  lemma MulMonotone(a: int, b: int, m: int)
    requires a <= b && m >= 0
    ensures a * m <= b * m
  {
    assert b * m - a * m == (b - a) * m;
  }

  lemma MulStrict(a: int, b: int, m: int)
    requires a < b && m >= 1
    ensures a * m < b * m
  {
    MulMonotone(a + 1, b, m);
    assert (a + 1) * m == a * m + m;
  }

  /** x lies in [a * m, b * m) exactly when its column x / m lies in [a, b). */
  lemma {:induction false} ScaledBetween(x: int, a: int, b: int, m: int)
    requires m >= 1 && x >= 0
    ensures a * m <= x < b * m <==> a <= x / m < b
  {
    var q := x / m;
    assert x == q * m + x % m && 0 <= x % m < m;
    if a <= q { MulMonotone(a, q, m); } else { MulMonotone(q + 1, a, m); }
    if q < b { MulMonotone(q + 1, b, m); } else { MulMonotone(b, q, m); }
  }

  /** The column of character x, in an alignment of n columns of m characters. */
  function Column(x: int, m: int, n: int): (c: nat)
    requires m >= 1 && 0 <= x < n * m
    ensures c < n && c == x / m
  {
    ScaledBetween(x, 0, n, m);
    x / m
  }

  /** The intervals `filtered` hands to `Map`: `keep[c]` is the predicate's verdict on
      column c (of motifs of `motifLength` characters). They are non-empty, disjoint
      and in increasing order, start and end on motif boundaries, and cover exactly
      the characters of the kept columns. */
  method Filtered(keep: seq<bool>, motifLength: int) returns (locations: seq<(int, int)>)
    requires motifLength >= 1
    ensures forall k :: 0 <= k < |locations| ==>
      && 0 <= locations[k].0 < locations[k].1 <= |keep| * motifLength
      && locations[k].0 % motifLength == 0 && locations[k].1 % motifLength == 0
    ensures forall k :: 0 <= k < |locations| - 1 ==> locations[k].1 < locations[k + 1].0
    ensures forall x :: 0 <= x < |keep| * motifLength ==>
      ((exists k :: 0 <= k < |locations| && locations[k].0 <= x < locations[k].1) <==> keep[Column(x, motifLength, |keep|)])
  {
    var gv: seq<int> := [];
    var kept := false;
    var position := 0;
    while position < |keep|
      invariant 0 <= position <= |keep|
      invariant kept == Last(keep[..position])
      invariant gv == Scaled(Toggles(keep[..position]), motifLength)
    {
      assert keep[..position + 1][..position] == keep[..position];
      assert Toggles(keep[..position + 1]) ==
        Toggles(keep[..position]) + (if keep[position] != kept then [position] else []);
      if kept != keep[position] {
        ScaledAppend(Toggles(keep[..position]), position, motifLength);
        gv := gv + [position * motifLength];
        kept := keep[position];
      }
      position := position + 1;
    }
    assert keep[..|keep|] == keep;
    if kept {
      gv := gv + [|keep| * motifLength];
    }
    assert gv == Scaled(Boundaries(keep), motifLength);
    BoundariesEven(keep);
    locations := Pairs(gv);
    assert locations == Intervals(keep, motifLength) by {
      var cp := ColumnPairs(keep);
      forall k | 0 <= k < |locations| ensures locations[k] == (cp[k].0 * motifLength, cp[k].1 * motifLength) { }
    }
    IntervalBounds(keep, motifLength);
    IntervalsDisjoint(keep, motifLength);
    IntervalsCover(keep, motifLength);
  }

  /** The boundary pairs of `keep`, in columns: `gv` read in pairs before scaling. */
  function ColumnPairs(keep: seq<bool>): (r: seq<(int, int)>)
    ensures |r| * 2 == |Boundaries(keep)|
    ensures forall k :: 0 <= k < |r| ==> r[k] == (Boundaries(keep)[2 * k], Boundaries(keep)[2 * k + 1])
  {
    BoundariesEven(keep);
    Pairs(Boundaries(keep))
  }

  /** Every column pair is a non-empty range of columns, and the pairs are apart. */
  lemma ColumnPairsOrdered(keep: seq<bool>)
    ensures var cp := ColumnPairs(keep);
      && (forall k :: 0 <= k < |cp| ==> 0 <= cp[k].0 < cp[k].1 <= |keep|)
      && (forall k :: 0 <= k < |cp| - 1 ==> cp[k].1 < cp[k + 1].0)
  {
    var b := Boundaries(keep);
    var cp := ColumnPairs(keep);
    BoundariesIncreasing(keep);
    forall k | 0 <= k < |cp| ensures 0 <= cp[k].0 < cp[k].1 <= |keep| {
      assert cp[k] == (b[2 * k], b[2 * k + 1]);
    }
    forall k | 0 <= k < |cp| - 1 ensures cp[k].1 < cp[k + 1].0 {
      assert cp[k].1 == b[2 * k + 1] && cp[k + 1].0 == b[2 * k + 2];
    }
  }

  /** Column c is kept exactly when one of the column pairs holds it. */
  lemma ColumnPairsCover(keep: seq<bool>, c: nat)
    requires c < |keep|
    ensures var cp := ColumnPairs(keep);
      (exists k :: 0 <= k < |cp| && cp[k].0 <= c < cp[k].1) <==> keep[c]
  {
    var b := Boundaries(keep);
    var cp := ColumnPairs(keep);
    BoundariesCover(keep, c);
    if keep[c] {
      var k :| 0 <= k && 2 * k + 1 < |b| && b[2 * k] <= c < b[2 * k + 1];
      assert cp[k].0 <= c < cp[k].1;
    } else {
      forall k | 0 <= k < |cp| ensures !(cp[k].0 <= c < cp[k].1) {
        assert cp[k] == (b[2 * k], b[2 * k + 1]);
      }
    }
  }

  /** Each pair of columns scaled to character positions. */
  function ScalePairs(cp: seq<(int, int)>, m: int): (r: seq<(int, int)>)
    ensures |r| == |cp| && forall k :: 0 <= k < |cp| ==> r[k] == (cp[k].0 * m, cp[k].1 * m)
  {
    seq(|cp|, k requires 0 <= k < |cp| => (cp[k].0 * m, cp[k].1 * m))
  }

  /** The intervals built from the boundaries of `keep`. */
  function Intervals(keep: seq<bool>, m: int): seq<(int, int)>
  {
    ScalePairs(ColumnPairs(keep), m)
  }

  /** A non-empty range of columns [a, b) scales to a non-empty range of characters
      starting and ending on motif boundaries. */
  lemma ScaledPairFacts(a: int, b: int, n: int, m: int)
    requires 0 <= a < b <= n && m >= 1
    ensures 0 <= a * m < b * m <= n * m
    ensures (a * m) % m == 0 && (b * m) % m == 0
  {
    MulMonotone(0, a, m);
    MulStrict(a, b, m);
    MulMonotone(b, n, m);
    MultipleMod(a, m);
    MultipleMod(b, m);
  }

  lemma IntervalBounds(keep: seq<bool>, m: int)
    requires m >= 1
    ensures var locations := Intervals(keep, m);
      forall k :: 0 <= k < |locations| ==>
        && 0 <= locations[k].0 < locations[k].1 <= |keep| * m
        && locations[k].0 % m == 0 && locations[k].1 % m == 0
  {
    var cp := ColumnPairs(keep);
    var locations := Intervals(keep, m);
    ColumnPairsOrdered(keep);
    forall k | 0 <= k < |locations|
      ensures 0 <= locations[k].0 < locations[k].1 <= |keep| * m
      ensures locations[k].0 % m == 0 && locations[k].1 % m == 0
    {
      assert locations[k] == (cp[k].0 * m, cp[k].1 * m);
      ScaledPairFacts(cp[k].0, cp[k].1, |keep|, m);
    }
  }

  lemma IntervalsDisjoint(keep: seq<bool>, m: int)
    requires m >= 1
    ensures var locations := Intervals(keep, m);
      forall k :: 0 <= k < |locations| - 1 ==> locations[k].1 < locations[k + 1].0
  {
    var cp := ColumnPairs(keep);
    var locations := Intervals(keep, m);
    ColumnPairsOrdered(keep);
    forall k | 0 <= k < |locations| - 1 ensures locations[k].1 < locations[k + 1].0 {
      assert locations[k].1 == cp[k].1 * m && locations[k + 1].0 == cp[k + 1].0 * m;
      MulStrict(cp[k].1, cp[k + 1].0, m);
    }
  }

  lemma IntervalsCover(keep: seq<bool>, m: int)
    requires m >= 1
    ensures var locations := Intervals(keep, m);
      forall x :: 0 <= x < |keep| * m ==>
        ((exists k :: 0 <= k < |locations| && locations[k].0 <= x < locations[k].1) <==> keep[Column(x, m, |keep|)])
  {
    forall x | 0 <= x < |keep| * m
      ensures var locations := Intervals(keep, m);
        (exists k :: 0 <= k < |locations| && locations[k].0 <= x < locations[k].1) <==> keep[Column(x, m, |keep|)]
    {
      IntervalCoverAt(keep, m, x);
    }
  }

  lemma IntervalCoverAt(keep: seq<bool>, m: int, x: int)
    requires m >= 1 && 0 <= x < |keep| * m
    ensures var locations := Intervals(keep, m);
      (exists k :: 0 <= k < |locations| && locations[k].0 <= x < locations[k].1) <==> keep[Column(x, m, |keep|)]
  {
    var cp := ColumnPairs(keep);
    var locations := Intervals(keep, m);
    ScaledBetween(x, 0, |keep|, m);
    ColumnPairsCover(keep, x / m);
    forall k | 0 <= k < |locations|
      ensures locations[k].0 <= x < locations[k].1 <==> cp[k].0 <= x / m < cp[k].1
    {
      assert locations[k] == (cp[k].0 * m, cp[k].1 * m);
      ScaledBetween(x, cp[k].0, cp[k].1, m);
    }
  }

  lemma MultipleMod(a: int, m: int)
    requires m >= 1
    ensures (a * m) % m == 0
  {
    var q, r := (a * m) / m, (a * m) % m;
    assert a * m == q * m + r && 0 <= r < m;
    if a > q {
      MulMonotone(q + 1, a, m);
    } else if a < q {
      MulMonotone(a + 1, q, m);
    }
  }

  // ---------------------------------------------------------------------------
  // withGapsFrom

  /** One row of `withGapsFrom`: where the template row holds its gap character
      `tgap` the row gets this alignment's gap character `gap`; elsewhere it keeps
      its own character. */
  function Overlay(row: string, trow: string, gap: char, tgap: char): string
    requires |row| == |trow|
  {
    seq(|row|, i requires 0 <= i < |row| => if trow[i] == tgap then gap else row[i])
  }

  /** The overlaid row is as long as the row; position i is a gap exactly when the
      template has a gap there or the row already had one, and every other position
      is the row's own character. */
  lemma OverlayGaps(row: string, trow: string, gap: char, tgap: char)
    requires |row| == |trow|
    ensures |Overlay(row, trow, gap, tgap)| == |row|
    ensures forall i :: 0 <= i < |row| ==>
      && (trow[i] == tgap ==> Overlay(row, trow, gap, tgap)[i] == gap)
      && (trow[i] != tgap ==> Overlay(row, trow, gap, tgap)[i] == row[i])
      && (Overlay(row, trow, gap, tgap)[i] == gap <==> trow[i] == tgap || row[i] == gap)
  {
  }

  /** Taking the gaps from the same template twice changes nothing more. */
  lemma OverlayIdempotent(row: string, trow: string, gap: char, tgap: char)
    requires |row| == |trow|
    ensures Overlay(Overlay(row, trow, gap, tgap), trow, gap, tgap) == Overlay(row, trow, gap, tgap)
  {
  }

  /** An alignment that takes its gaps from itself is unchanged. */
  lemma OverlaySelf(row: string, gap: char)
    ensures Overlay(row, row, gap, gap) == row
  {
  }

  /** The zip loop of `withGapsFrom` over one row and its template row. */
  method OverlayRow(row: string, trow: string, gap: char, tgap: char) returns (combo: string)
    requires |row| == |trow|
    ensures combo == Overlay(row, trow, gap, tgap)
  {
    combo := [];
    var i := 0;
    while i < |row|
      invariant 0 <= i <= |row|
      invariant combo == Overlay(row, trow, gap, tgap)[..i]
    {
      if trow[i] == tgap {
        combo := combo + [gap];
      } else {
        combo := combo + [row[i]];
      }
      i := i + 1;
    }
  }

  /** `withGapsFrom(template)`: ValueError when the lengths differ or a name of this
      alignment is missing from the template; otherwise the same names, each row
      overlaid with the gaps of the template row of that name. */
  method WithGapsFrom(self: Alignment, template: Alignment, gap: char, tgap: char) returns (r: Result<Alignment>)
    requires Valid(self) && Valid(template)
    ensures r.Failure? <==> self.seqLen != template.seqLen || exists x :: x in self.names && x !in template.names
    ensures r.Failure? ==> r.error == ValueError
    ensures r.Success? ==>
      && Valid(r.value) && r.value.names == self.names && r.value.seqLen == self.seqLen
      && forall x :: x in self.rows ==> x in template.rows && r.value.rows[x] == Overlay(self.rows[x], template.rows[x], gap, tgap)
  {
    if self.seqLen != template.seqLen {
      return Failure(ValueError);
    }
    var result: map<string, string> := map[];
    var i := 0;
    while i < |self.names|
      invariant 0 <= i <= |self.names|
      invariant result.Keys == ElementSet(self.names[..i])
      invariant forall x :: x in self.names[..i] ==> x in template.names
      invariant forall x :: x in result ==> x in template.rows && result[x] == Overlay(self.rows[x], template.rows[x], gap, tgap)
    {
      var name := self.names[i];
      assert self.names[..i + 1] == self.names[..i] + [name];
      if name !in template.names {
        return Failure(ValueError);
      }
      var combo := OverlayRow(self.rows[name], template.rows[name], gap, tgap);
      result := result[name := combo];
      i := i + 1;
    }
    assert self.names[..i] == self.names;
    return Success(Alignment(self.names, result, self.seqLen));
  }

  // ---------------------------------------------------------------------------
  // getDegappedRelativeTo

  /** `[i for i, col in enumerate(row) if col != gap]`. */
  function NonGapColumns(row: string, gap: char): (cols: seq<nat>)
    ensures forall k :: 0 <= k < |cols| ==> cols[k] < |row|
    decreases |row|
  {
    if |row| == 0 then []
    else NonGapColumns(row[..|row| - 1], gap) + (if row[|row| - 1] != gap then [|row| - 1] else [])
  }

  /** The row with its gap characters removed. */
  function Ungapped(row: string, gap: char): string
    decreases |row|
  {
    if |row| == 0 then []
    else Ungapped(row[..|row| - 1], gap) + (if row[|row| - 1] != gap then [row[|row| - 1]] else [])
  }

  /** The non-gap columns are listed once each, in order, and are exactly the
      positions that do not hold a gap. */
  lemma {:induction false} NonGapColumnsExact(row: string, gap: char)
    ensures Increasing(NonGapColumns(row, gap))
    ensures forall i :: i in NonGapColumns(row, gap) <==> 0 <= i < |row| && row[i] != gap
    decreases |row|
  {
    if |row| > 0 {
      NonGapColumnsExact(row[..|row| - 1], gap);
    }
  }

  /** Taking the non-gap columns of a row degaps it. */
  lemma {:induction false} SelectNonGap(row: string, gap: char)
    ensures Select(row, NonGapColumns(row, gap)) == Ungapped(row, gap)
    decreases |row|
  {
    if |row| > 0 {
      var p := row[..|row| - 1];
      SelectNonGap(p, gap);
      var cols := NonGapColumns(p, gap);
      assert Select(row, cols) == Select(p, cols);
    }
  }

  lemma {:induction false} UngappedHasNoGap(row: string, gap: char)
    ensures gap !in Ungapped(row, gap)
    decreases |row|
  {
    if |row| > 0 {
      UngappedHasNoGap(row[..|row| - 1], gap);
    }
  }

  /** `getDegappedRelativeTo(name)`: ValueError when the name is absent; otherwise
      every row keeps exactly the columns where the named row has no gap, so the
      named row comes out degapped. */
  method DegappedRelativeTo(a: Alignment, name: string, gap: char) returns (r: Result<Alignment>)
    requires Valid(a)
    ensures r.Failure? <==> name !in a.names
    ensures r.Failure? ==> r.error == ValueError
    ensures r.Success? ==>
      && Valid(r.value) && r.value.names == a.names
      && r.value.rows[name] == Ungapped(a.rows[name], gap) && gap !in r.value.rows[name]
      && forall x :: x in a.rows ==> r.value.rows[x] == Select(a.rows[x], NonGapColumns(a.rows[name], gap))
  {
    if name !in a.names {
      return Failure(ValueError);
    }
    var cols := NonGapColumns(a.rows[name], gap);
    var rows := RowsInOrder(a);
    assert forall i :: 0 <= i < |rows| ==> |rows[i]| == a.seqLen;
    assert forall k :: 0 <= k < |cols| ==> cols[k] < a.seqLen;
    var taken := TakePositions(rows, cols, false);
    assert taken.Some?;
    var out := taken.value;
    forall i | 0 <= i < |rows| ensures out[i] == Select(rows[i], cols) {
      TakenSelects(rows[i], cols, out[i]);
    }
    var m := RowMap(a.names, out);
    SelectNonGap(a.rows[name], gap);
    UngappedHasNoGap(a.rows[name], gap);
    forall x | x in a.rows ensures m[x] == Select(a.rows[x], cols) {
      var i := IndexOf(a.names, x);
      assert m[x] == out[i] && rows[i] == a.rows[x];
    }
    return Success(Alignment(a.names, m, |cols|));
  }

  // ---------------------------------------------------------------------------
  // variablePositions

  /** Column p varies when some row after the first differs from the first there;
      without `includeGap` a difference counts only when neither character is '-'. */
  ghost predicate Varies(rows: seq<string>, p: nat, includeGap: bool)
    requires |rows| > 0 && p < ZipLength(rows)
  {
    exists s :: 1 <= s < |rows| && rows[s][p] != rows[0][p] && (includeGap || (rows[s][p] != '-' && rows[0][p] != '-'))
  }

  /** `variablePositions(include_gap_motif)` on the gapped rows in name order:
      IndexError when there are no rows; otherwise the varying columns, each once,
      in increasing order. */
  method VariablePositions(rows: seq<string>, includeGap: bool) returns (r: Result<seq<nat>>)
    ensures r.Failure? <==> |rows| == 0
    ensures r.Failure? ==> r.error == IndexError
    ensures r.Success? ==>
      && Increasing(r.value)
      && forall p: nat :: p in r.value <==> p < ZipLength(rows) && Varies(rows, p, includeGap)
  {
    if |rows| == 0 {
      return Failure(IndexError);
    }
    var n := if |rows| == 1 then 0 else ZipLength(rows);
    var result: seq<nat> := [];
    var position := 0;
    while position < n
      invariant 0 <= position <= n
      invariant Increasing(result) && forall k :: 0 <= k < |result| ==> result[k] < position
      invariant forall p: nat :: p in result <==> p < position && Varies(rows, p, includeGap)
    {
      var motif1 := rows[0][position];
      var s := 1;
      var found := false;
      while s < |rows| && !found
        invariant 1 <= s <= |rows|
        invariant found ==> Varies(rows, position, includeGap)
        invariant !found ==> forall t :: 1 <= t < s ==>
          !(rows[t][position] != motif1 && (includeGap || (rows[t][position] != '-' && motif1 != '-')))
      {
        var motif := rows[s][position];
        if motif != motif1 {
          if includeGap {
            found := true;
          } else if motif != '-' && motif1 != '-' {
            found := true;
          }
        }
        s := s + 1;
      }
      if found {
        result := result + [position];
      }
      position := position + 1;
    }
    return Success(result);
  }

  /** Ignoring gap differences can only drop variable columns. */
  lemma VariesWithoutGapsIsVaries(rows: seq<string>, p: nat)
    requires |rows| > 0 && p < ZipLength(rows)
    ensures Varies(rows, p, false) ==> Varies(rows, p, true)
  {
  }
}
