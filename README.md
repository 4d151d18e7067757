# cogent3 alignment columns, gaps and names

A Dafny model of the column, gap and name logic in `cogent3/core/alignment.py`.
This is the bookkeeping that `SequenceCollection`, `AlignmentI`, `Alignment` and `Aligned` do on top of the coordinate-mapping engine (`Map`, `Span`, `LostSpan`).

The model has six modules:

- `Wrappers` (`wrappers.dfy`): `Option`, `Result` and `Fault`. `Fault` names the Python exception the model raises: `ValueError`, `KeyError`, `IndexError` or `AttributeError`. The module also holds a few sequence helpers: `Distinct`, `ElementSet`, `Select`, `IndexOf` and `Increasing`.
- `Names` (`names.dfy`): sequential default names, `_strip_duplicates`, the name part of `_names_seqs_order`, `takeSeqs` and the name order of `add_seqs`.
- `Rows` (`rows.dfy`): `padSeqs`, `takePositions`, the dot masking of `toPretty`, the window bounds of `slidingWindows`, and `ok_gap_run` inside `omitGapRuns`.
- `Columns` (`columns.dfy`): the interval building of `filtered`, `withGapsFrom`, `getDegappedRelativeTo` and `variablePositions`. Each works over an alignment given as its names, its gapped rows by name, and its length.
- `Spans` (`spans.dfy`) and `AlignedSeqs` (`aligned.dfy`):
  - A map is a list of spans. Each span is lost (gap columns) or present (residues), and has a length and an end.
  - `Aligned` pairs such a map with a `Sequence` object. `Sequence` is a class, so "the same data object" means reference equality, as with Python's `is`.
- `StopCodons` (`stops.dfy`): the span surgery of `withoutTerminalStopCodons` on an alignment.

How Python behaviour is modelled:

- Python's negative indices, `zip` truncation and truthiness of `""` are written out.
- So are `'-' * n` for negative n, `max([])`, `list.index` (first occurrence) and `range` with a zero or negative step.
- Exceptions become `Failure` results.
- Callbacks and values computed by code outside this core become parameters:
  - the predicate verdicts of `filtered`;
  - the new sequence lengths after `withoutTerminalStopCodon`;
  - the sliced and reversed maps of `Aligned`.

## Model

| member | source | states |
|---|---|---|
| Names.AssignSequentialNames | cogent3/core/alignment.py:67-73 | one name `base_i` per i in start_at..start_at+num_seqs-1, in order; none when num_seqs <= 0; all names distinct |
| Names.SequentialNameInjective | cogent3/core/alignment.py:73 | two sequential names with the same base are equal only for the same number |
| Names.IntToDecimalInjective | cogent3/core/alignment.py:73 | the decimal rendering `%s` of an int is injective |
| Names.DecimalRoundTrip | cogent3/core/alignment.py:73 | reading back the decimal digits of n gives n |
| Names.StripDuplicates | cogent3/core/alignment.py:410-428 | distinct names: empty set, inputs unchanged; otherwise the duplicate set is exactly the names seen more than once among the zipped pairs, and the first name/sequence pair of each name is kept, in order |
| Names.RepeatedEmptyIffDistinct | cogent3/core/alignment.py:410-428 | no name is repeated exactly when the names are distinct |
| Names.FirstOccurrencesDistinct | cogent3/core/alignment.py:410-428 | the kept names are distinct and are the same set of names as the input |
| Names.DistinctKeepsAll | cogent3/core/alignment.py:410-428 | with distinct names the first-occurrence selection keeps everything |
| Names.ElementSetCardinality | cogent3/core/alignment.py:412 | `len(set(names)) <= len(names)`, with equality exactly when the names are distinct (the shortcut test) |
| Names.Chosen | cogent3/core/alignment.py:448-465 | names carried by the sequences label them when present and free of None; passed `Names` give the order when present; default names otherwise |
| Names.NamesSeqsOrder | cogent3/core/alignment.py:466-481 | ValueError exactly when names repeat and duplicates are not to be removed; with no repeats the chosen names and sequences are returned unchanged; with removal, the first occurrences are kept and the names are distinct; the given order is kept exactly when it has the kept names' set and length, and is replaced by the kept names otherwise |
| Names.Excluding | cogent3/core/alignment.py:619-624 | the negated name list holds exactly the names not excluded, in the original order |
| Names.ExcludingDistinct | cogent3/core/alignment.py:619-624 | excluding names from a distinct list leaves a distinct list |
| Names.RowsExcept | cogent3/core/alignment.py:619-627 | the negate loop keeps, in dict order, exactly the rows whose names are not wanted, each with its own row, and the kept names are distinct |
| Names.RowsOf | cogent3/core/alignment.py:629-632 | the plain loop fails (KeyError) exactly when some wanted name is missing; otherwise it holds exactly the wanted names, each with its own row |
| Names.TakeSeqs | cogent3/core/alignment.py:608-636 | negate never fails and keeps every unwanted row in order; without negate, KeyError exactly when a wanted name is missing; `{}` exactly when nothing is selected; otherwise the new names with their own rows |
| Names.AddSeqsOrder | cogent3/core/alignment.py:965-1027 | IndexError on an empty alignment; ValueError exactly when a new name repeats a name of the combined rows or a given before/after name is absent; AttributeError exactly when nothing is added before the first row; otherwise a permutation of old plus new names, with the new names appended, placed before the first `before_name`, or placed after the first `after_name` |
| Rows.Longest | cogent3/core/alignment.py:1491 | `max` of the lengths: at least every length and equal to one |
| Rows.Dashes | cogent3/core/alignment.py:1511 | `'-' * n` is n dashes, none for negative n |
| Rows.PadSeqs | cogent3/core/alignment.py:1483-1512 | ValueError exactly on an empty collection or `pad_length < max_len`; otherwise every row is its data followed only by dashes, up to `pad_length` (default `max_len`) |
| Rows.KeptIndicesExact | cogent3/core/alignment.py:1712-1716 | the negated positions are increasing, are exactly the positions not listed, and number len(row) minus the listed columns on the row |
| Rows.NegatedLength | cogent3/core/alignment.py:1712-1716 | a negated row is len(row) minus the distinct in-range columns long |
| Rows.TakeRowPositions | cogent3/core/alignment.py:1712-1720 | without negate `[row[i] for i in cols]`, with negative indices, IndexError exactly on an index outside the row; with negate the unlisted characters in order |
| Rows.TakenSelects | cogent3/core/alignment.py:1718-1720 | taking listed in-range non-negative positions selects exactly those characters, in the order listed |
| Rows.TakePositions | cogent3/core/alignment.py:1699-1721 | every row taken as above; IndexError exactly when some row has an out-of-range column |
| Rows.ZipLength | cogent3/core/alignment.py:1915 | the column count of `zip(*seqs)` is at most every row length and equals one |
| Rows.DotMask | cogent3/core/alignment.py:1902-1922 | every row is cut to the zip length; the first row is kept; other rows show '.' exactly where they equal the first row (or hold '.'), their own character elsewhere |
| Rows.UnmaskRoundTrip | cogent3/core/alignment.py:1917-1922 | for a row without '.', replacing each '.' by the first row's character gives the row back |
| Rows.SlidingWindows | cogent3/core/alignment.py:1885-1900 | ValueError exactly for a zero step over a non-empty range; windows start at start + k*step within [start, end), have length `window`, end within the alignment, reach the end, and are absent for a negative step or an empty range |
| Rows.WindowGuardRedundant | cogent3/core/alignment.py:1896-1897 | the guard `len(self) - end >= window - 1` always holds after the cap |
| Rows.OkGapRun | cogent3/core/alignment.py:1421-1436 | False exactly when the row has a run of consecutive gaps longer than `allowed_run` |
| Rows.GapFreeRowPasses | cogent3/core/alignment.py:1410-1419 | a row without gaps, the empty row included, passes for every `allowed_run` |
| Rows.RunEndingAt | cogent3/core/alignment.py:1427-1432 | the `curr_run` counter never exceeds the characters read |
| Rows.OmitGapRunsNames | cogent3/core/alignment.py:1438 | the kept names are exactly those whose rows pass, in name order |
| Columns.Filtered | cogent3/core/alignment.py:2623-2646 | the intervals are non-empty, strictly increasing and disjoint, on motif boundaries, within the alignment, and cover exactly the characters of the columns the predicate kept |
| Columns.BoundariesEven | cogent3/core/alignment.py:2636-2644 | `gv` always has even length |
| Columns.TogglesParity | cogent3/core/alignment.py:2637-2640 | the number of toggles is odd exactly when `kept` ends set |
| Columns.BoundariesCover | cogent3/core/alignment.py:2636-2646 | column c is kept exactly when it lies in one of the (start, end) pairs |
| Columns.ColumnPairsOrdered | cogent3/core/alignment.py:2636-2646 | before scaling, every (start, end) pair is a non-empty range of columns within the alignment, and each pair ends strictly before the next starts |
| Columns.ColumnPairsCover | cogent3/core/alignment.py:2636-2646 | column c is kept exactly when one of the (start, end) pairs holds it |
| Columns.IntervalBounds | cogent3/core/alignment.py:2640-2646 | each scaled pair is non-empty, within the alignment and a multiple of the motif length |
| Columns.IntervalsDisjoint | cogent3/core/alignment.py:2640-2646 | each pair ends strictly before the next starts |
| Columns.IntervalsCover | cogent3/core/alignment.py:2640-2646 | the pairs cover exactly the characters of the kept columns |
| Columns.OverlayGaps | cogent3/core/alignment.py:2705-2710 | the overlaid row keeps its length; a template gap gives a gap, anything else the original character; a gap appears exactly where either row had one |
| Columns.OverlayIdempotent | cogent3/core/alignment.py:2705-2710 | taking the gaps of the same template twice changes nothing more |
| Columns.OverlaySelf | cogent3/core/alignment.py:2705-2710 | taking the gaps from itself leaves a row unchanged |
| Columns.OverlayRow | cogent3/core/alignment.py:2705-2711 | the zip loop builds the overlaid row |
| Columns.WithGapsFrom | cogent3/core/alignment.py:2691-2712 | ValueError exactly when the lengths differ or a name is missing from the template; otherwise the same names and length, each row overlaid with its template row |
| Columns.NonGapColumnsExact | cogent3/core/alignment.py:2728-2729 | the non-gap columns are increasing and are exactly the positions without a gap |
| Columns.SelectNonGap | cogent3/core/alignment.py:2728-2731 | taking the non-gap columns of a row removes its gaps |
| Columns.UngappedHasNoGap | cogent3/core/alignment.py:2728-2731 | a degapped row holds no gap |
| Columns.DegappedRelativeTo | cogent3/core/alignment.py:2714-2731 | ValueError exactly when the name is absent; otherwise every row keeps exactly the columns where the named row has no gap, and the named row comes out gap-free |
| Columns.VariablePositions | cogent3/core/alignment.py:2601-2620 | IndexError on an empty alignment; otherwise the increasing list of the columns where some later row differs from the first (counting gap differences only with `include_gap_motif`) |
| Columns.VariesWithoutGapsIsVaries | cogent3/core/alignment.py:2612-2618 | a column that varies ignoring gaps also varies counting them |
| Spans.TotalSplit | cogent3/core/alignment.py:1177-1181 | a map's length is its lost length plus its present length |
| Spans.TotalsAppend | cogent3/core/alignment.py:1597-1599 | lengths add up over concatenated span lists |
| Spans.MapAddLength | cogent3/core/alignment.py:1597-1599 | `a.map + b.map` is as long as both maps together, its parent length is the sum of theirs, and a sum of maps whose parent length is their length keeps that property |
| AlignedSeqs.LenCountsColumns | cogent3/core/alignment.py:1591-1595 | `len(aligned)` is the map's gap columns plus residue columns, none negative |
| AlignedSeqs.Slice | cogent3/core/alignment.py:1605-1606 | the sliced map over the identical data object |
| AlignedSeqs.Rc | cogent3/core/alignment.py:1608-1609 | the reversed map over the identical data object |
| AlignedSeqs.Copy | cogent3/core/alignment.py:1539-1550 | a shallow copy shares map and data |
| AlignedSeqs.Concat | cogent3/core/alignment.py:1597-1603 | the cheap path is taken exactly when the data objects are identical and keeps that object with `a.map + b.map` |
| AlignedSeqs.ConcatLength | cogent3/core/alignment.py:1597-1603 | the sum is as long as both rows and stays consistent with the shared data |
| AlignedSeqs.DataKept | cogent3/core/alignment.py:1597-1609 | chains of slicing, rc, copy and same-object adding never change the data object |
| StopCodons.MaxCandidateBounds | cogent3/core/alignment.py:1161-1184 | the running `new_length` starts at 0, is at least every row's offer, and with consistent rows at most `len(self)` |
| StopCodons.CandidateBound | cogent3/core/alignment.py:1175-1184 | no consistent row offers more than `len(self)` |
| StopCodons.AlnDiffNonNegative | cogent3/core/alignment.py:1189-1195 | `assert aln_diff >= 0` always holds, and the new length is at least every row's offer |
| StopCodons.TrimDefinedHolds | cogent3/core/alignment.py:1198-1230 | for consistent rows the indices `spans[-1]`, `spans[-2]` and the asserts `spans[-1].lost` and `spans[-1].length >= 0` hold |
| StopCodons.TrimUnchanged | cogent3/core/alignment.py:1203-1205 | a row that kept its sequence in an alignment that kept its length reuses its old map |
| StopCodons.TrimShrinksTerminalGap | cogent3/core/alignment.py:1206-1213 | when only the alignment shrank, the row ends in a gap, which shrinks by `aln_diff`, stays non-negative and is deleted at zero; the parent length is the new length |
| StopCodons.TrimAsWritten | cogent3/core/alignment.py:1198-1232 | the source's surgery: the new map has the new length as parent, and a shrunk row ending in residues, in a shrunk alignment, is as long as its old map less the removed residues |
| StopCodons.TrimFits | cogent3/core/alignment.py:1218-1232 | corrected surgery: every consistent row gets non-negative spans, as long as the new alignment, showing exactly its trimmed sequence |
| StopCodons.DropResiduesFacts | cogent3/core/alignment.py:1218-1230 | removing the last d residues across spans leaves no negative span, d residues fewer, and no more gap columns than precede the last span |
| StopCodons.TrimAcrossFits | cogent3/core/alignment.py:1218-1232 | the cross-span removal fits every consistent row into the new alignment |
| StopCodons.SplitStopCounterexample | cogent3/core/alignment.py:1219-1230 | a row `AAATA-G` whose stop codon is split by a gap gets a span of length -2 from the source's surgery, and the corrected map `AAA-` |
| StopCodons.AsWrittenAgreesElsewhere | cogent3/core/alignment.py:1221-1227 | for a row whose removed residues lie in the span they are cut from, the source's branch matches the corrected one except for a row ending in residues that shrank more than the alignment |
| StopCodons.AsWrittenCounterexample | cogent3/core/alignment.py:1221-1227 | a concrete alignment where the source's map for a row is 9 columns long in an alignment of 11 |
| StopCodons.TrimRow | cogent3/core/alignment.py:1198-1232 | the in-place span updates of one row compute the corrected new map |
| StopCodons.NewAlignmentLength | cogent3/core/alignment.py:1164-1195 | the first loop computes the running maximum of the rows' offers, replaced by `len(self)` when it stays 0 |
| StopCodons.TrimRows | cogent3/core/alignment.py:1197-1232 | the second loop gives every row the corrected new map |
| StopCodons.WithoutTerminalStopCodons | cogent3/core/alignment.py:1153-1234 | with the corrected surgery (see Findings): the new length is the running maximum (or `len(self)`), never above `len(self)`; unchanged rows keep their map when the length is kept; every row fits the new alignment |

## Left out

- The `Map`, `Span` and `LostSpan` classes are not part of this model; their files are not shown. A map is only a list of spans, each with lost, length and end. Its length is taken to be the sum of the span lengths, and `map + map` to be span-list concatenation with the parent lengths summed.
  - `AlignedSeqs.Slice` and `AlignedSeqs.Rc` take the sliced or reversed map as an argument and say nothing about its contents.
  - `Map` may normalise spans on construction. `StopCodons` records the span list it is given.
  - `StopCodons.RowValid` takes a row's map to have the alignment length as its parent length.
- `AlignedSeqs.Concat`: the path for different data objects uses the gapped-sequence engine of `sequence.py`, which is not part of this model, so it yields None.
  - The same goes for `get_gapped_seq`, `__iter__`, `toRna`/`toDna`, tracks and annotation remapping.
- Gapped rows are taken as strings, computed by `get_gapped_seq`. `Columns.Alignment` keeps the rows by name.
- `Columns.Filtered` takes the predicate's per-column verdicts as a list and requires `motif_length >= 1`.
  - `getInMotifSize` (with `**kwargs`) is not part of this model.
  - The final `Map(locations, ...)` and `gappedByMap` call are left out.
- `StopCodons.WithoutTerminalStopCodons`:
  - it takes each row's new sequence length as input, since `withoutTerminalStopCodon` and genetic codes are not part of this model;
  - it models only the aligned branch (the unaligned one delegates per sequence);
  - it applies the corrected surgery `StopCodons.Trim`, not the source's branches at lines 1219-1230; the source's surgery is `StopCodons.TrimAsWritten`, and the two findings below say where they differ.
- `Rows.DotMask` models only the masking. Label widths, interleaving and line joining of `toPretty` are left out, as is its ValueError from `max` on an empty name list.
- `Rows.OkGapRun` takes the gap alphabet as a set of characters. The `Alphabet.Gaps` / `MolType.Gaps` fallback is runtime attribute lookup.
- `Rows.OmitGapRunsNames` returns the selected names. Building the new alignment is `Names.TakeSeqs`.
- `Names.NamesSeqsOrder` starts after `conversion_f`.
  - Input guessing, `_coerce_seqs` and `label_to_name` are left out.
  - Names carried by the sequences are an optional list of optional names.
- `Names.TakeSeqs` takes the order of the `named_seqs` dict to be the alignment's name order. It does not model the `MolType` keyword handling or construction of the new class.
- `Names.AddSeqsOrder` models only the resulting name order. The sequence class asserts, `takeSeqs` and the recursive `add_seqs` calls that rebuild the alignment are left out.
  - It takes every added sequence to carry a name. With a nameless one, the combined alignment built at line 994 gives every row a default name (line 453), and the model does not follow that.
- `Rows.SlidingWindows` returns each window as a (start, end) pair. A negative `start` gives pairs starting below 0; the source slices `self[pos:pos + window]`, where Python counts a negative position from the end, and the model does not resolve that slice.
- File I/O, float-based filters and statistics, random sampling, `DenseAlignment` array code and `cogent/parse/mfold.py` are outside this core.

## Findings

| source | as written | input that shows it | evidently intended | confidence | as-written member | corrected member |
|---|---|---|---|---|---|---|
| cogent3/core/alignment.py:1221-1227 | For a row that shrank by `diff` and ends in a present span, a `LostSpan` is appended only when `aln_diff == 0`. Otherwise the last span is cut by `diff`, so when `0 < aln_diff < diff` the row's map ends up `diff - aln_diff` columns shorter than the new alignment. | An alignment of length 12. Row A is 12 residues ending in a stop codon (diff 3). Row D is `AAAAA-AAAAA-` with no stop, so it offers 11. Then `new_length` is 11 and `aln_diff` is 1, and row A's new map covers 9 columns. | Append `LostSpan(diff - aln_diff)` whenever `aln_diff < diff`; this is the source's branch when `aln_diff == 0`. | not executed | StopCodons.AsWrittenCounterexample | StopCodons.TrimFits |
| cogent3/core/alignment.py:1219-1230 | The removed residues are all cut from one span: the last one, or the one before a terminal gap. When a gap splits the stop codon, that span holds fewer residues than were removed and its length goes negative; no assert guards it. | An alignment of length 7 holding only the row `AAATA-G`, which loses `TAG` (diff 3). The new length is 4, and the last span, `G`, is cut to length 1 - 3 = -2. | Remove the residues from the end across spans, dropping the columns from the first removed residue on, and pad with a gap to the new length; for `AAATA-G` this gives `AAA-`. | not executed | StopCodons.SplitStopCounterexample | StopCodons.TrimAcrossFits |
