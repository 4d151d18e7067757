/** Name and row bookkeeping of `SequenceCollection`: default names, duplicate
    stripping, the choice of per-sequence names and display order, selection of
    rows by name and the insertion order of `add_seqs`. */
module Names {
  import opened Wrappers

  // ---------------------------------------------------------------------------
  // Decimal rendering of integers (Python's `'%s' % i`)

  function DigitChar(d: nat): (c: char)
    requires d < 10
    ensures '0' <= c <= '9'
  {
    ((('0' as int) + d) as char)
  }

  predicate AllDigits(s: string)
  {
    forall i :: 0 <= i < |s| ==> '0' <= s[i] <= '9'
  }

  /** The decimal digits of `n`, most significant first, without leading zeros. */
  function NatToDecimal(n: nat): (s: string)
    ensures |s| >= 1 && AllDigits(s)
    decreases n
  {
    if n < 10 then [DigitChar(n)] else NatToDecimal(n / 10) + [DigitChar(n % 10)]
  }

  /** The value of a string of decimal digits (the reference reading of a numeral). */
  function DecimalValue(s: string): int
    requires AllDigits(s)
  {
    if |s| == 0 then 0
    else DecimalValue(s[..|s| - 1]) * 10 + (s[|s| - 1] as int - '0' as int)
  }

  lemma {:induction false} DecimalRoundTrip(n: nat)
    ensures DecimalValue(NatToDecimal(n)) == n
    decreases n
  {
    if n >= 10 {
      var s := NatToDecimal(n / 10);
      DecimalRoundTrip(n / 10);
      assert (s + [DigitChar(n % 10)])[..|s|] == s;
    }
  }

  /** Python's `str(i)` for an int. */
  function IntToDecimal(i: int): string
  {
    if i < 0 then "-" + NatToDecimal(-i) else NatToDecimal(i)
  }

  /** Only negative numbers are rendered with a leading minus sign. */
  lemma LeadingSign(i: int)
    ensures IntToDecimal(i)[0] == '-' <==> i < 0
  {
    if i >= 0 { assert '0' <= NatToDecimal(i)[0] <= '9'; }
  }

  /** Distinct naturals have distinct numerals. */
  lemma NatToDecimalInjective(a: nat, b: nat)
    ensures NatToDecimal(a) == NatToDecimal(b) ==> a == b
  {
    DecimalRoundTrip(a);
    DecimalRoundTrip(b);
  }

  /** Distinct integers have distinct renderings. */
  lemma IntToDecimalInjective(a: int, b: int)
    ensures IntToDecimal(a) == IntToDecimal(b) ==> a == b
  {
    if IntToDecimal(a) == IntToDecimal(b) {
      LeadingSign(a);
      LeadingSign(b);
      if a < 0 {
        assert NatToDecimal(-a) == IntToDecimal(a)[1..];
        assert NatToDecimal(-b) == IntToDecimal(b)[1..];
        NatToDecimalInjective(-a, -b);
      } else {
        NatToDecimalInjective(a, b);
      }
    }
  }

  // ---------------------------------------------------------------------------
  // assign_sequential_names

  function SequentialName(baseName: string, i: int): string
  {
    baseName + "_" + IntToDecimal(i)
  }

  /** Two sequential names with one base are equal only for equal numbers. */
  lemma SequentialNameInjective(baseName: string, i: int, j: int)
    ensures SequentialName(baseName, i) == SequentialName(baseName, j) ==> i == j
  {
    var p := |baseName| + 1;
    assert IntToDecimal(i) == SequentialName(baseName, i)[p..];
    assert IntToDecimal(j) == SequentialName(baseName, j)[p..];
    IntToDecimalInjective(i, j);
  }

  lemma SequentialNamesDistinct(r: seq<string>, baseName: string, startAt: int)
    requires forall k :: 0 <= k < |r| ==> r[k] == SequentialName(baseName, startAt + k)
    ensures Distinct(r)
  {
    forall i, j | 0 <= i < j < |r| ensures r[i] != r[j] {
      SequentialNameInjective(baseName, startAt + i, startAt + j);
    }
  }

  /** `num_seqs` names `base_name_i` for i in `range(start_at, start_at + num_seqs)`:
      one per number in the range, in order, and pairwise different. */
  function AssignSequentialNames(numSeqs: int, baseName: string, startAt: int): (r: seq<string>)
    ensures |r| == Max(numSeqs, 0)
    ensures forall k :: 0 <= k < |r| ==> r[k] == SequentialName(baseName, startAt + k)
    ensures Distinct(r)
  {
    var r := seq(Max(numSeqs, 0), k => SequentialName(baseName, startAt + k));
    SequentialNamesDistinct(r, baseName, startAt);
    r
  }

  /** `DefaultNameFunction(n)`: the class attribute is called with the
      collection as the ignored first argument, so the names are seq_0 .. seq_{n-1}. */
  function DefaultNames(numSeqs: nat): seq<string>
  {
    AssignSequentialNames(numSeqs, "seq", 0)
  }

  // ---------------------------------------------------------------------------
  // Distinctness and Python's set()

  lemma {:induction false} ElementSetCardinality<T>(s: seq<T>)
    ensures |ElementSet(s)| <= |s|
    ensures |ElementSet(s)| == |s| <==> Distinct(s)
    decreases |s|
  {
    if s != [] {
      var p, x := s[..|s| - 1], s[|s| - 1];
      assert s == p + [x];
      ElementSetCardinality(p);
      assert ElementSet(s) == ElementSet(p) + {x};
      if x in p {
        var k :| 0 <= k < |p| && p[k] == x;
        assert s[k] == s[|s| - 1];
        assert !Distinct(s);
        assert ElementSet(s) == ElementSet(p);
      } else {
        assert Distinct(s) <==> Distinct(p) by {
          if Distinct(p) {
            forall i, j | 0 <= i < j < |s| ensures s[i] != s[j] {
              if j == |s| - 1 { assert s[i] == p[i]; } else { assert s[i] == p[i] && s[j] == p[j]; }
            }
          }
          if Distinct(s) {
            forall i, j | 0 <= i < j < |p| ensures p[i] != p[j] { assert s[i] == p[i] && s[j] == p[j]; }
          }
        }
      }
    }
  }

  lemma ElementSetAppend<T>(s: seq<T>, x: T)
    ensures ElementSet(s + [x]) == ElementSet(s) + {x}
  {
  }

  lemma SelectAppend<T>(s: seq<T>, idx: seq<nat>, i: nat)
    requires forall k :: 0 <= k < |idx| ==> idx[k] < |s|
    requires i < |s|
    ensures Select(s, idx + [i]) == Select(s, idx) + [s[i]]
  {
  }

  lemma EmptyElementSet<T>(s: seq<T>)
    ensures ElementSet(s) == {} <==> s == []
  {
    if s != [] { assert s[0] in ElementSet(s); }
  }

  /** The names occurring more than once in `s`. */
  function Repeated<T(==)>(s: seq<T>): set<T>
  {
    set x | x in s && multiset(s)[x] >= 2
  }

  lemma RepeatedAppend<T>(s: seq<T>, x: T)
    ensures Repeated(s + [x]) == Repeated(s) + (if x in s then {x} else {})
  {
    assert multiset(s + [x]) == multiset(s) + multiset{x};
    forall y ensures y in Repeated(s + [x]) <==> y in Repeated(s) + (if x in s then {x} else {}) {
      assert y in s <==> multiset(s)[y] >= 1;
    }
  }

  /** Nothing is repeated exactly when the names are distinct. */
  lemma {:induction false} RepeatedEmptyIffDistinct<T>(s: seq<T>)
    ensures Repeated(s) == {} <==> Distinct(s)
    decreases |s|
  {
    if s != [] {
      var p, x := s[..|s| - 1], s[|s| - 1];
      assert s == p + [x];
      RepeatedEmptyIffDistinct(p);
      RepeatedAppend(p, x);
      if x in p {
        var k :| 0 <= k < |p| && p[k] == x;
        assert s[k] == s[|s| - 1];
      } else if Distinct(p) {
        forall i, j | 0 <= i < j < |s| ensures s[i] != s[j] {
          if j == |s| - 1 { assert s[i] == p[i]; } else { assert s[i] == p[i] && s[j] == p[j]; }
        }
      } else {
        var i, j :| 0 <= i < j < |p| && p[i] == p[j];
        assert s[i] == s[j];
      }
    }
  }

  // ---------------------------------------------------------------------------
  // _strip_duplicates

  /** The positions of the first occurrence of each name, in order. */
  function FirstIndices<T(==)>(s: seq<T>): (r: seq<nat>)
    ensures forall k :: 0 <= k < |r| ==> r[k] < |s|
    decreases |s|
  {
    if s == [] then []
    else
      var p := s[..|s| - 1];
      FirstIndices(p) + (if s[|s| - 1] in p then [] else [|s| - 1])
  }

  /** The positions kept are increasing, and are exactly the first occurrences. */
  lemma FirstIndicesExact<T>(s: seq<T>)
    ensures Increasing(FirstIndices(s))
    ensures forall i :: i in FirstIndices(s) <==> 0 <= i < |s| && s[i] !in s[..i]
  {
    FirstIndicesIncreasing(s);
    FirstIndicesMembers(s);
  }

  lemma {:induction false} FirstIndicesIncreasing<T>(s: seq<T>)
    ensures Increasing(FirstIndices(s))
    decreases |s|
  {
    if s != [] {
      FirstIndicesIncreasing(s[..|s| - 1]);
    }
  }

  lemma {:induction false} FirstIndicesMembers<T>(s: seq<T>)
    ensures forall i :: i in FirstIndices(s) <==> 0 <= i < |s| && s[i] !in s[..i]
    decreases |s|
  {
    if s != [] {
      var p := s[..|s| - 1];
      FirstIndicesMembers(p);
      var tail := if s[|s| - 1] in p then [] else [|s| - 1];
      assert FirstIndices(s) == FirstIndices(p) + tail;
      forall i ensures i in FirstIndices(s) <==> 0 <= i < |s| && s[i] !in s[..i] {
        if 0 <= i < |p| {
          assert s[..i] == p[..i] && s[i] == p[i];
          assert i !in tail;
        } else if i == |p| {
          assert s[..i] == p;
        }
      }
    }
  }

  /** The kept names are distinct and are the same set of names as the input. */
  lemma FirstOccurrencesDistinct<T>(s: seq<T>)
    ensures Distinct(Select(s, FirstIndices(s)))
    ensures ElementSet(Select(s, FirstIndices(s))) == ElementSet(s)
  {
    var idx := FirstIndices(s);
    var r := Select(s, idx);
    FirstIndicesExact(s);
    forall a, b | 0 <= a < b < |r| ensures r[a] != r[b] {
      assert idx[a] < idx[b];
      assert s[idx[a]] == s[..idx[b]][idx[a]];
    }
    forall x | x in s ensures x in r {
      var i := IndexOf(s, x);
      assert i in idx;
      var k :| 0 <= k < |idx| && idx[k] == i;
      assert r[k] == x;
    }
  }

  /** Without repeated names every position is a first occurrence. */
  lemma DistinctKeepsAll<T>(s: seq<T>)
    requires Distinct(s)
    ensures Select(s, FirstIndices(s)) == s
  {
    var idx := FirstIndices(s);
    FirstIndicesExact(s);
    forall i | 0 <= i < |s| ensures i in idx {
      assert s[i] !in s[..i] by {
        forall j | 0 <= j < i ensures s[..i][j] != s[i] { }
      }
    }
    IncreasingCover(idx, |s|);
  }

  /** An increasing sequence of positions below n that contains each of 0..n-1 is 0..n-1. */
  lemma {:induction false} IncreasingCover(idx: seq<nat>, n: nat)
    requires Increasing(idx)
    requires forall k :: 0 <= k < |idx| ==> idx[k] < n
    requires forall i :: 0 <= i < n ==> i in idx
    ensures |idx| == n && forall k :: 0 <= k < n ==> idx[k] == k
    decreases n
  {
    assert |idx| > 0 ==> idx[0] < n && idx[|idx| - 1] < n;
    if n > 0 {
      assert n - 1 in idx;
      var m :| 0 <= m < |idx| && idx[m] == n - 1;
      assert idx[m] <= idx[|idx| - 1];
      assert idx[|idx| - 1] == n - 1;
      var p := idx[..|idx| - 1];
      forall i | 0 <= i < n - 1 ensures i in p {
        assert i in idx;
        var t :| 0 <= t < |idx| && idx[t] == i;
        assert t < |idx| - 1;
        assert p[t] == i;
      }
      IncreasingCover(p, n - 1);
    }
  }

  /** What one more zipped pair adds to the names seen, the names repeated and the
      first name/sequence pairs kept. */
  lemma StripStep<N, S>(names: seq<N>, seqs: seq<S>, i: nat)
    requires i < |names| && i < |seqs|
    ensures var p, x := names[..i], names[i];
      && ElementSet(names[..i + 1]) == ElementSet(p) + {x}
      && Repeated(names[..i + 1]) == Repeated(p) + (if x in ElementSet(p) then {x} else {})
      && Select(names, FirstIndices(names[..i + 1])) ==
           Select(names, FirstIndices(p)) + (if x in ElementSet(p) then [] else [x])
      && Select(seqs, FirstIndices(names[..i + 1])) ==
           Select(seqs, FirstIndices(p)) + (if x in ElementSet(p) then [] else [seqs[i]])
  {
    var p, x := names[..i], names[i];
    assert names[..i + 1] == p + [x];
    assert names[..i + 1][..i] == p;
    RepeatedAppend(p, x);
    ElementSetAppend(p, x);
    var first := FirstIndices(p);
    assert FirstIndices(names[..i + 1]) == first + (if x in p then [] else [i]);
    if x !in p {
      SelectAppend(names, first, i);
      SelectAppend(seqs, first, i);
    }
  }

  /** `_strip_duplicates(names, seqs)`: with distinct names the inputs come back
      unchanged and nothing is reported; otherwise the zipped pairs are scanned,
      the names seen again are collected, and the first name/sequence pair of
      each name is kept, in order. */
  method StripDuplicates<N(==), S>(names: seq<N>, seqs: seq<S>)
    returns (dups: set<N>, fixedNames: seq<N>, fixedSeqs: seq<S>)
    ensures Distinct(names) ==> dups == {} && fixedNames == names && fixedSeqs == seqs
    ensures !Distinct(names) ==>
      var z := names[..Min(|names|, |seqs|)];
      && dups == Repeated(z)
      && fixedNames == Select(names, FirstIndices(z))
      && fixedSeqs == Select(seqs, FirstIndices(z))
  {
    ElementSetCardinality(names);
    if |ElementSet(names)| == |names| {
      return {}, names, seqs;
    }
    var n := Min(|names|, |seqs|);
    var unique: set<N> := {};
    dups, fixedNames, fixedSeqs := {}, [], [];
    var i := 0;
    while i < n
      invariant 0 <= i <= n
      invariant unique == ElementSet(names[..i])
      invariant dups == Repeated(names[..i])
      invariant fixedNames == Select(names, FirstIndices(names[..i]))
      invariant fixedSeqs == Select(seqs, FirstIndices(names[..i]))
    {
      var x := names[i];
      StripStep(names, seqs, i);
      if x in unique {
        dups := dups + {x};
      } else {
        unique := unique + {x};
        fixedNames := fixedNames + [x];
        fixedSeqs := fixedSeqs + [seqs[i]];
      }
      i := i + 1;
    }
  }

  // ---------------------------------------------------------------------------
  // _names_seqs_order (the name part)

  /** Names carried by the input are usable unless absent or one of them is None. */
  predicate Usable(carried: Option<seq<Option<string>>>)
  {
    carried.Some? && forall k :: 0 <= k < |carried.value| ==> carried.value[k].Some?
  }

  function Unwrapped(carried: seq<Option<string>>): (r: seq<string>)
    requires forall k :: 0 <= k < |carried| ==> carried[k].Some?
    ensures |r| == |carried| && forall k :: 0 <= k < |r| ==> carried[k] == Some(r[k])
  {
    seq(|carried|, k requires 0 <= k < |carried| => carried[k].value)
  }

  /** The per-sequence names and the display order before duplicates are handled:
      carried names label the sequences whenever they are usable, the passed-in
      `Names` give the order whenever present, default names fill in otherwise. */
  function Chosen(given: Option<seq<string>>, carried: Option<seq<Option<string>>>, numSeqs: nat)
    : (r: (seq<string>, seq<string>))
    ensures Usable(carried) ==> r.0 == Unwrapped(carried.value)
    ensures !Usable(carried) && given.Some? ==> r.0 == given.value
    ensures !Usable(carried) && given.None? ==> r.0 == DefaultNames(numSeqs) && |r.0| == numSeqs
    ensures r.1 == if given.Some? then given.value else r.0
  {
    if given.None? then
      if !Usable(carried) then (DefaultNames(numSeqs), DefaultNames(numSeqs))
      else (Unwrapped(carried.value), Unwrapped(carried.value))
    else
      if !Usable(carried) then (given.value, given.value)
      else (Unwrapped(carried.value), given.value)
  }

  /** `_names_seqs_order` after conversion: choose names, strip duplicates, and
      raise ValueError on repeated names unless they are to be removed. */
  method NamesSeqsOrder<S>(given: Option<seq<string>>, carried: Option<seq<Option<string>>>,
                           seqs: seq<S>, removeDuplicates: bool)
    returns (r: Result<(seq<string>, seq<S>, seq<string>)>)
    ensures var c := Chosen(given, carried, |seqs|);
      var rep := Repeated(c.0[..Min(|c.0|, |seqs|)]);
      && (r.Failure? <==> rep != {} && !removeDuplicates)
      && (r.Failure? ==> r.error == ValueError)
      && (r.Success? && rep == {} ==> r.value == (c.0, seqs, c.1))
      && (r.Success? && rep != {} ==>
            var (perSeq, kept, order) := r.value;
            && perSeq == Select(c.0, FirstIndices(c.0[..Min(|c.0|, |seqs|)]))
            && kept == Select(seqs, FirstIndices(c.0[..Min(|c.0|, |seqs|)]))
            && Distinct(perSeq) && |perSeq| == |kept|
            && order == (if ElementSet(c.1) == ElementSet(perSeq) && |c.1| == |perSeq| then c.1 else perSeq)
            && ElementSet(order) == ElementSet(perSeq) && |order| == |perSeq|)
  {
    var c := Chosen(given, carried, |seqs|);
    var perSeq, order := c.0, c.1;
    var z := perSeq[..Min(|perSeq|, |seqs|)];
    RepeatedEmptyIffDistinct(perSeq);
    var dups, fixedNames, fixedSeqs := StripDuplicates(perSeq, seqs);
    if dups != {} {
      if removeDuplicates {
        FirstOccurrencesDistinct(z);
        assert Select(perSeq, FirstIndices(z)) == Select(z, FirstIndices(z));
        if ElementSet(order) != ElementSet(fixedNames) || |order| != |fixedNames| {
          order := fixedNames;
        }
        return Success((fixedNames, fixedSeqs, order));
      } else {
        return Failure(ValueError);
      }
    }
    if Distinct(perSeq) {
      assert Distinct(z) by {
        forall i, j | 0 <= i < j < |z| ensures z[i] != z[j] { assert z[i] == perSeq[i] && z[j] == perSeq[j]; }
      }
      RepeatedEmptyIffDistinct(z);
    }
    return Success((perSeq, seqs, order));
  }

  // ---------------------------------------------------------------------------
  // takeSeqs

  /** What `takeSeqs` builds: no rows (it returns `{}`), or the chosen names in
      order with their rows. */
  datatype Taken<R> = NoSeqs | Taken(names: seq<string>, rows: map<string, R>)

  /** The names of `order` that are not in `excluded`, in the order of `order`. */
  function Excluding(order: seq<string>, excluded: set<string>): (r: seq<string>)
    ensures forall x :: x in r <==> x in order && x !in excluded
    ensures |r| <= |order|
  {
    if order == [] then []
    else
      var p := Excluding(order[..|order| - 1], excluded);
      assert forall x :: x in order <==> x in order[..|order| - 1] || x == order[|order| - 1];
      if order[|order| - 1] in excluded then p else p + [order[|order| - 1]]
  }

  lemma {:induction false} ExcludingDistinct(order: seq<string>, excluded: set<string>)
    requires Distinct(order)
    ensures Distinct(Excluding(order, excluded))
    decreases |order|
  {
    if order != [] {
      var q := order[..|order| - 1];
      assert Distinct(q) by {
        forall i, j | 0 <= i < j < |q| ensures q[i] != q[j] { assert q[i] == order[i] && q[j] == order[j]; }
      }
      ExcludingDistinct(q, excluded);
      var x := order[|order| - 1];
      assert x !in q by {
        forall k | 0 <= k < |q| ensures q[k] != x { assert q[k] == order[k]; }
      }
    }
  }

  lemma ExcludingStep(order: seq<string>, excluded: set<string>, i: nat)
    requires i < |order|
    ensures Excluding(order[..i + 1], excluded) ==
      Excluding(order[..i], excluded) + (if order[i] in excluded then [] else [order[i]])
  {
    assert order[..i + 1][..i] == order[..i];
  }

  /** The negate branch of `takeSeqs`: every row of the dict whose name is not
      wanted, in dict order. */
  method RowsExcept<R>(order: seq<string>, rows: map<string, R>, wanted: seq<string>)
    returns (names: seq<string>, result: map<string, R>)
    requires Distinct(order) && ElementSet(order) == rows.Keys
    ensures names == Excluding(order, ElementSet(wanted)) && Distinct(names)
    ensures result.Keys == ElementSet(names)
    ensures forall x :: x in result ==> x in rows && result[x] == rows[x]
  {
    var lookup := ElementSet(wanted);
    names, result := [], map[];
    var i := 0;
    while i < |order|
      invariant 0 <= i <= |order|
      invariant names == Excluding(order[..i], lookup)
      invariant result.Keys == ElementSet(names)
      invariant forall x :: x in result ==> x in rows && result[x] == rows[x]
    {
      ExcludingStep(order, lookup, i);
      ElementSetAppend(names, order[i]);
      if order[i] !in lookup {
        assert order[i] in ElementSet(order);
        result := result[order[i] := rows[order[i]]];
        names := names + [order[i]];
      }
      i := i + 1;
    }
    assert order[..|order|] == order;
    ExcludingDistinct(order, lookup);
  }

  /** The plain branch of `takeSeqs`: look each wanted name up in turn; a missing
      one raises KeyError. */
  method RowsOf<R>(rows: map<string, R>, wanted: seq<string>) returns (r: Option<map<string, R>>)
    ensures r.None? <==> exists k :: 0 <= k < |wanted| && wanted[k] !in rows
    ensures r.Some? ==> (r.value.Keys == ElementSet(wanted)
      && forall x :: x in r.value ==> x in rows && r.value[x] == rows[x])
  {
    var result: map<string, R> := map[];
    var i := 0;
    while i < |wanted|
      invariant 0 <= i <= |wanted|
      invariant forall k :: 0 <= k < i ==> wanted[k] in rows
      invariant result.Keys == ElementSet(wanted[..i])
      invariant forall x :: x in result ==> x in rows && result[x] == rows[x]
    {
      if wanted[i] !in rows {
        return None;
      }
      assert wanted[..i + 1] == wanted[..i] + [wanted[i]];
      result := result[wanted[i] := rows[wanted[i]]];
      i := i + 1;
    }
    assert wanted[..|wanted|] == wanted;
    return Some(result);
  }

  /** `takeSeqs(seqs, negate)` over a collection whose `named_seqs` dict was built in
      the order of `order`. Without negate the wanted names are looked up in turn
      (KeyError on a missing one) and become the new order; with negate every row
      whose name is not wanted is kept, in dict order. An empty selection yields `{}`. */
  method TakeSeqs<R>(order: seq<string>, rows: map<string, R>, wanted: seq<string>, negate: bool)
    returns (r: Result<Taken<R>>)
    requires Distinct(order) && ElementSet(order) == rows.Keys
    ensures negate ==> r.Success?
    ensures !negate ==> (r.Failure? <==> exists k :: 0 <= k < |wanted| && wanted[k] !in rows)
    ensures r.Failure? ==> r.error == KeyError
    ensures r.Success? ==>
      var names := if negate then Excluding(order, ElementSet(wanted)) else wanted;
      (r.value.NoSeqs? <==> names == [])
      && (r.value.Taken? ==>
            && r.value.names == names
            && r.value.rows.Keys == ElementSet(names)
            && forall x :: x in r.value.rows ==> x in rows && r.value.rows[x] == rows[x])
    ensures r.Success? && negate ==> Distinct(Excluding(order, ElementSet(wanted)))
  {
    var names: seq<string>;
    var result: map<string, R>;
    if negate {
      names, result := RowsExcept(order, rows, wanted);
    } else {
      var found := RowsOf(rows, wanted);
      if found.None? {
        return Failure(KeyError);
      }
      names, result := wanted, found.value;
    }
    EmptyElementSet(names);
    if result != map[] {
      return Success(Taken(names, result));
    }
    return Success(NoSeqs);
  }

  // ---------------------------------------------------------------------------
  // add_seqs (the placement of the new names)

  /** A given `before_name` or `after_name` that the alignment does not have: a
      truthy one fails the membership test, and an empty one fails `list.index`
      when it is the one used. */
  predicate MissingPlace(selfNames: seq<string>, before: Option<string>, after: Option<string>)
  {
    || (before.Some? && before.value !in selfNames)
    || (after.Some? && after.value !in selfNames && (after.value != "" || before.None?))
  }

  /** The name order of `add_seqs(other, before_name, after_name)`. The combined
      rows are first rebuilt into one alignment, which raises ValueError on a
      repeated name. The new names are then appended by default; otherwise they go
      immediately before `before_name` (which takes precedence) or immediately after
      `after_name`. Placing no new names before the first row leaves `{}` (what
      `takeSeqs` returns for nothing) to call `add_seqs` on: AttributeError. */
  function AddSeqsOrder(selfNames: seq<string>, otherNames: seq<string>,
                        before: Option<string>, after: Option<string>): (r: Result<seq<string>>)
    ensures r.Failure? <==>
      || |selfNames| == 0
      || !Distinct(selfNames + otherNames)
      || MissingPlace(selfNames, before, after)
      || (|otherNames| == 0 && before.Some? && before.value == selfNames[0])
    ensures r.Failure? ==>
              r.error == (if |selfNames| == 0 then IndexError
                          else if !Distinct(selfNames + otherNames) || MissingPlace(selfNames, before, after) then ValueError
                          else AttributeError)
    ensures r.Success? ==> multiset(r.value) == multiset(selfNames) + multiset(otherNames)
    ensures r.Success? && before.None? && after.None? ==> r.value == selfNames + otherNames
    ensures r.Success? && before.Some? ==>
      exists i :: 0 <= i < |selfNames| && selfNames[i] == before.value && before.value !in selfNames[..i]
        && r.value == selfNames[..i] + otherNames + selfNames[i..]
    ensures r.Success? && before.None? && after.Some? ==>
      exists i :: 0 <= i < |selfNames| && selfNames[i] == after.value && after.value !in selfNames[..i]
        && r.value == selfNames[..i + 1] + otherNames + selfNames[i + 1..]
  {
    if |selfNames| == 0 then Failure(IndexError)  // self.Seqs[0]
    else if !Distinct(selfNames + otherNames) then Failure(ValueError)  // self.__class__(data=combined)
    else if before.None? && after.None? then Success(selfNames + otherNames)
    else if MissingPlace(selfNames, before, after) then Failure(ValueError)  // the name test or list.index
    else if before.Some? then
      var i := IndexOf(selfNames, before.value);
      if i == 0 && |otherNames| == 0 then Failure(AttributeError)  // {}.add_seqs
      else Success(Inserted(selfNames, otherNames, i))
    else
      Success(Inserted(selfNames, otherNames, IndexOf(selfNames, after.value) + 1))
  }

  /** The new names placed at position i of the old ones. */
  function Inserted(selfNames: seq<string>, otherNames: seq<string>, i: nat): (r: seq<string>)
    requires i <= |selfNames|
    ensures r == selfNames[..i] + otherNames + selfNames[i..]
    ensures multiset(r) == multiset(selfNames) + multiset(otherNames)
  {
    assert selfNames == selfNames[..i] + selfNames[i..];
    selfNames[..i] + otherNames + selfNames[i..]
  }
}
