# datacl, a column store: verified model

datacl keeps tables as columns in memory-mapped files. This project models the
parts whose correctness rests on an argument, and proves it:

- **Quantile sketch** (`Ranks`, `Collapse`, `Output`, `BufferParams`, `Sketch`,
  `SketchState`, `ApproxQuantile`): the Munro-Paterson sketch after Manku et al.
  Weighted buffers are filled, collapsed in pairs of equal weight and merged at
  the end. Main result: for slot j of n and s selected values, n times the number
  of values below the answer is less than (j+1)*s, and n times the number at or
  below it falls short of that by at most n*(b-2)*2^(b-2), which is within eps.
- **Compound expressions** (`CompoundSpec`, `CompoundLaws`, `CompoundCheck`,
  `CompoundMeaning`, `CompoundExec`, `CompoundAccepts`, `CompoundResults`): a
  list of column statements is checked into single-assignment form and then run
  block by block, all statements fused, with one-block temporaries. Main
  results: which programs are accepted, in terms of their names; the outcome is
  that of running each statement over the whole table in turn; and what that is
  in terms of cells: every column row by row, every minimum, maximum, sum and
  count entry from the cells it is taken over.
- **Metadata** (`MetaLinks`, `MetaRecords`, `MetaUpdates`, `MetaStore`,
  `MetaRuns`): tables, fields, null-flag (nn) companions, dictionary links and
  the files they own. Main result: over every run of commands, failing ones
  included, every command does what it says to the state its predecessor left,
  the cross-record invariant holds in between, and exactly those files are
  unlinked that a record owned at some moment and none owns any more.
- **Counting and estimating** (`CountHt`, `HyperLogLog`, `ParallelCount`): the
  open-addressing counter, the HyperLogLog registers with in-place folding, and
  counting with one partial histogram per thread.
- **Loader** (`Loader`, `LoaderMeaning`): the delimited-text parser whose state
  survives chunk boundaries. Main result: whatever the chunks, a text loads
  exactly if it lists cells row by row, and then column c holds the values that
  its cells say.
- **Index and arithmetic kernels** (`DirSearch`, `BitColumns`, `CrossProduct`,
  `ArgLine`).
- **Shared** (`Arithmetic` with the wrap-around of int and long long, `Sums`,
  `Masks`, and `Blocks` for loops over blocks whose first row is an int product).

Code that changes arrays or globals is a method or a class here, proved against
a function or predicate on values; the properties are lemmas about that
function. `Ranks.Scale` is a product written recursively, to keep the proofs
linear. `dafny verify dfyconfig.toml` checks everything.

## What the proofs found

- Output never selects 0x7FFFFFFF (`Output.c:96,105` compare strictly): ranks
  that fall on it leave the slot as it was (`ApproxQuantile.MaxValueUnanswered`).
- `approx_quantile.c:442-443` reads `inputPacketsUsedSiz[NUM_THREADS]`, one past
  the end, exactly when the selected rows fill whole blocks and the last row is
  selected (`overrun` of `ApproxQuantile.ApproxQuantile`), and copies from
  outside its buffers if that word is neither 0 nor k; the column of
  `ApproxQuantile.OverrunExample` has 1280001 rows.
- The worked example at `Collapse.c:105` differs from `offSet = outWeight/2` for
  odd weights; the code is followed.
- A statement that reads a name which an earlier count gave to its output is
  handed the histogram instead of a column; every read resolves to a column
  exactly when this does not happen (`CompoundMeaning.ReadsColumnsExactly`), and
  then the results agree with the table. The output of countf, in slot 3, is
  never released (`CompoundCheck.CountFLeaks`).
- Int products that wrap around: `block_size * b` is the row number only below
  2049 blocks (`CompoundExec.BlockStartExact`); the counter and HyperLogLog
  start their blocks right exactly up to 2147483647 rows
  (`Blocks.CountBlocksExact`, `Blocks.HashBlocksExact`); a cross product with
  batch sizes makes enough room exactly when no batch is above 46340 rows, or
  46341 without the diagonal (`CrossProduct.IntSizesExact`): one batch of 65537
  gets room for 131073 pairs and writes 4295098369 (`CrossProduct.WideBatch`).
  Without batch sizes the limit is 3037000499 rows
  (`CrossProduct.LongSizeExact`), and from there to 2^32 rows the guard
  `nR2 > nR1*nR1` stops batches that it should let through
  (`CrossProduct.GuardExactly`, `CrossProduct.PairsStopped`).
- `partition` computes the chunk count and its successor as ints: without a
  limit on the chunks it fails exactly from 2147483647 chunks on, below 2^62
  rows and 2^32 chunks (`ParallelCount.NoLimitExactly`,
  `ParallelCount.WrapFails`); beyond, the count may come out positive again
  (`ParallelCount.WrapsBack`).
- Sorting the link records ascending puts the unused ones last because their
  dictionary field -1 reads as 65535 (`MetaLinks.UnusedLast`), which answers the
  question left open at `dbauxil.c:893`. Deleting a field leaves one of two
  links that are neighbours in that order (`MetaLinks.SurvivorsExact`,
  `MetaLinks.NeighbourSurvives`), and deleting the field in record 0 reports -1
  although it was deleted, because unused link records carry field 0
  (`MetaLinks.DeleteLinks`, `MetaLinks.FieldZeroFails`).
- `set_meta` accepts a second dictionary for a field and a dictionary for a
  companion, and `add_fld` a file that another field owns; each breaks the
  invariant, and nothing else does (`MetaStore.LinkExactly`,
  `MetaStore.SecondDictionary`, `MetaStore.SharedBreaks`).
- `chk_fld_meta` rejects every bit field, since `get_fld_sz` does
  (`aux_meta.c:239,609`), and `add_aux_fld` checks neither the companion's size
  nor the parent's type (`MetaRecords.CheckExact`).
- The counter gives key 0 one more than its occurrences (`CountHt.ZeroTwice`),
  and reads its masks at the row's offset in the block (`CountHt.MasksExact`,
  `CountHt.MaskedOffCounted`).
- HyperLogLog stops folding at one unused register in a hundred but accepts
  fewer only: with more than 128 registers it gives up at exactly that number
  (`HyperLogLog.ApproxUnique`), as on the column of 64881 values of
  `HyperLogLog.GivesUpOnColumn`, which one more folding would have settled.
- A value in a gap of the directory hides later values
  (`DirSearch.MembershipExactly`, `DirSearch.GapLoses`).
- `dir_is_a_in_b.c:137,186` gives the result file one byte per row and then
  declares the field I4, which `add_fld` refuses (`MetaRecords.ByteFileIsNotI4`).
- `partition` with a limit on the chunks can fail
  (`ParallelCount.LimitCanFail`), though not with the limits of its one caller
  that has one (`ParallelCount.SmallLimitExactly`).

## Model

| member | source | states |
|---|---|---|
| `BufferCollapse.Merge` | q-base/src/Collapse.c:71-99 | the merged values, each repeated by its weight, are the sorted pool of both weighted buffers |
| `BufferCollapse.Drain` | q-base/src/Collapse.c:118-128 | while the running weight passes further ranks the current value fills their slots; no slot beyond k is written |
| `BufferCollapse.Collapse` | q-base/src/Collapse.c:43-145 | for any sorted buffers and positive weights whose sum fits an int, slot j of the first buffer becomes the element of rank offSet + j*outWeight of the sorted pool; weights become their sum and 0, all else unchanged; exactly when the call is refused |
| `BufferCollapse.PickRankClosed` | q-base/src/Collapse.c:115-122 | the rank of slot j in closed form: outWeight/2 + j*outWeight |
| `BufferCollapse.PicksSorted` | q-base/src/Collapse.c:118-128 | a collapsed buffer is sorted |
| `BufferCollapse.EqualCollapseCount` | q-base/src/Collapse.c:112-128 | with equal weights, the output's count at v is half the inputs' count, rounded up |
| `BufferCollapse.EqualCollapseError` | q-base/src/Collapse.c:112-128 | the weighted count of elements <= v grows by 0 or w, for every v |
| `QuantileOutput.FindMin` | q-base/src/Output.c:96-119 | the least unprocessed head below 0x7FFFFFFF over buffers of positive weight and the last packet, or none |
| `QuantileOutput.Answer` | q-base/src/Output.c:133-136 | exactly the ranks that the current element reaches are answered, with that element |
| `QuantileOutput.MergeAndAnswer` | q-base/src/Output.c:94-138 | for any non-decreasing ranks, each slot holds the element of its rank in the sorted weighted expansion, or its old value when the rank falls on 0x7FFFFFFF |
| `QuantileOutput.Output` | q-base/src/Output.c:59-143 | slot j is answered exactly if fewer than all occurrences of 0x7FFFFFFF are needed to reach the fraction (j+1)/n of siz, and then with the least element of the weighted pool at which that fraction is reached: n times the number of elements below it is less than (j+1)*siz, n times the number at or below it is not; other slots keep their values; -1 exactly for an oversized last packet |
| `QuantileOutput.RankIsCeiling` | q-base/src/Output.c:90-135 | the rank q of slot j is the ceiling of (j+1)*siz/n: n*(q-1) < (j+1)*siz <= n*q |
| `QuantileOutput.LastQuantileRank` | q-base/src/Output.c:90-135 | the last quantile's rank is the data size |
| `QuantileOutput.AnswersAscend` | q-base/src/Output.c:94-138 | of two slots the later one answered, the earlier one is answered too, with a value no greater |
| `BufferParams.DetermineBK` | q-base/src/determine_b_k.c:38-65 | the slack of b is below eps*siz (b = 1 if none is), that of b+1 is not; k*2^(b-1) covers siz, k is at least 10000 and the least such number |
| `BufferParams.CapacityCovers` | q-base/src/determine_b_k.c:52-59 | k * 2^(b-1) >= siz |
| `BufferParams.SlackClosed` | q-base/src/determine_b_k.c:47 | the slack is (b-2)*2^(b-2) |
| `BufferParams.SlackWithinError` | q-base/src/determine_b_k.c:46-50 | (b-2)*2^(b-2) < eps*siz for b >= 2, no slack for b = 1 |
| `QuantileSketch.MaxErrorClosed` | q-base/src/approx_quantile.c:475-495 | the error a buffer of weight 2^l can have is l*2^(l-1) |
| `QuantileSketch.CollapseStandsFor` | q-base/src/Collapse.c:112-134 | a collapse of two buffers of weight 2^l stands for both their sources: sorted, weighted count at every v above the true one by 0 to (l+1)*2^l |
| `QuantileSketch.CollapseTracks` | q-base/src/approx_quantile.c:475-495 | Collapse keeps: weights are powers of two, slots partition the packets consumed, every buffer stands for its source |
| `QuantileSketch.NewTracks` | q-base/src/approx_quantile.c:499-514 | New keeps the same and adds one to the total weight |
| `QuantileSketch.EqualPairExists` | q-base/src/approx_quantile.c:478-490 | with no free buffer and weight below 2^(b-1) two buffers have equal weight, so Collapse never gets index -1 |
| `QuantileSketch.ErrorsWithinSlack` | q-base/src/approx_quantile.c:471-517 | all errors together are at most (b-2)*2^(b-2) |
| `QuantileSketch.SketchAccurate` | q-base/src/approx_quantile.c:471-517 | for every v the sketch's count of elements <= v exceeds the true count by 0 to (b-2)*2^(b-2) |
| `ApproxQuantile.WeightsFit` | q-base/src/Collapse.c:112 | over at most 2147483647 whole packets no sum of weights exceeds an int |
| `SketchState.New` | q-base/src/New.c:45-61 | the packet is copied and its weight set; -1 exactly for an index out of range |
| `SketchState.FindEqualPair` | q-base/src/approx_quantile.c:478-489 | the first pair of equal positive weights in lexicographic order, or that there is none |
| `SketchState.FindFree` | q-base/src/approx_quantile.c:499-508 | the first buffer of weight 0, or that there is none |
| `SketchState.Sketch.Absorb` | q-base/src/approx_quantile.c:471-517 | a packet is absorbed, by a collapse first if no buffer is free; the invariant (with the number of empty buffers) holds and status is 0 |
| `ApproxQuantile.ChooseThreads` | q-base/src/approx_quantile.c:256-257 | the largest NUM_THREADS of 128, 64, ..., 1 that fits the memory limit |
| `ApproxQuantile.SelectedCounts` | q-base/src/approx_quantile.c:424-437 | the selected values are those of the rows whose mask is set: as many rows, and for every v as many with a value <= v |
| `Ranks.CountIs` | q-base/src/approx_quantile.c:141-200 | the count of elements <= v, in which all bounds are stated, is the number of positions that hold one |
| `ApproxQuantile.LoadAll` | q-base/src/approx_quantile.c:381-416 | a block is cut into whole packets; a shorter remainder becomes the last packet |
| `ApproxQuantile.LoadMasked` | q-base/src/approx_quantile.c:424-452 | the same over the selected rows, and exactly when the code goes on to read past inputPacketsUsedSiz |
| `ApproxQuantile.Consume` | q-base/src/approx_quantile.c:356-519 | the over-read happens exactly if the selected rows fill whole blocks and the last row is selected; unless the word read is neither 0 nor k, at the end every selected element is absorbed or in the last packet |
| `ApproxQuantile.OverrunExample` | q-base/src/approx_quantile.c:440-452 | a column of 1280001 rows, all but the first selected, on which every run reads past the array |
| `ApproxQuantile.RunAccurate` | q-base/src/approx_quantile.c:356-530 | sketch and last packet together over-count by 0 to (b-2)*2^(b-2) at every value |
| `ApproxQuantile.ApproxQuantile` | q-base/src/approx_quantile.c:205-571 | which inputs give -1 and -2, and which make the code read past its array; over at most 2147483647 whole packets, and unless that word is neither 0 nor k, for every slot j, answered unless the fraction falls on 0x7FFFFFFF: n*#(values < y[j]) < (j+1)*size <= n*(#(values <= y[j]) + (b-2)*2^(b-2)) |
| `ApproxQuantile.WithinEps` | q-base/src/approx_quantile.c:141-200 | with r = (j+1)*size, r/n exceeds the number of values <= y by at most eps times the data size (less, for b >= 2), the number of values below y is less than r/n, and for b = 1 the answer is exact |
| `ApproxQuantile.ExactWithOneBuffer` | q-base/src/determine_b_k.c:46-50 | with b = 1 the answer is the element at the ceiling of (j+1)*size/n in the sorted selected values |
| `ApproxQuantile.AllAnswered` | q-base/src/Output.c:94-138 | without 0x7FFFFFFF among the selected values no slot is left unanswered |
| `ApproxQuantile.MaxValueUnanswered` | q-base/src/Output.c:96-107 | with it, a one-buffer run leaves the last slot as it was |
| `CompoundSpec.AggregateSplit` | q-base/src/compound.c:1069-1130 | joining the aggregate of a block to the running one is aggregating the longer column |
| `CompoundSpec.MaskedSumSplit` | q-base/src/f1f2_to_s.c:76-80 | masked sums of consecutive chunks add up to that of the whole |
| `CompoundSpec.HistogramSplit` | q-base/src/compound.c:921-1068 | counting block by block into one table is counting the whole column |
| `CompoundLaws.AggregateIs` | q-base/src/compound.c:1069-1103 | of any column: min and max are the value of some non-null cell and <= or >= that of every non-null cell, the sum is the sum of the non-null cells, the count their number |
| `CompoundLaws.MaskedSumIs` | q-base/src/f1f2_to_s.c:30-92 | the sum of the cells of the first column in the rows that the second selects, and the number of those rows |
| `CompoundLaws.HistogramIs` | q-base/src/compound.c:921-1068 | entry key of a count is the number, or the sum of the weights, of the selected rows with that key |
| `CompoundLaws.StepEffect` | q-base/src/compound.c:847-920 | a statement sets its output column row by row from its inputs and leaves every other column |
| `CompoundCheck.IsCreatedPrior` | q-base/src/compound.c:107-134 | finds the last earlier write of the name in slots 0 to 2 |
| `CompoundCheck.Checker.ProcFld` | q-base/src/compound.c:176-384 | a field is accepted and its slot filled as specified, with the writer's buffer shared by later readers |
| `CompoundCheck.Checker.ChkCompExpr` | q-base/src/compound.c:387-665 | all slots of an accepted program are filled as specified; -1 exactly if some field or output table is refused |
| `CompoundAccepts.AcceptedExactly` | q-base/src/compound.c:387-665 | accepted are exactly the programs of 2 to 32 statements in which every name has 1 to 31 characters, every name read was made before (other than by a countf) or is a field of the table and no temporary, no name is made that was made before, and counts go to an existing other table |
| `CompoundCheck.CheckedRows` | q-base/src/compound.c:217-381 | in every accepted program every slot holds the buffer its name denotes at that point, all other slots are untouched |
| `CompoundCheck.WrittenOnce` | q-base/src/compound.c:217-381 | no name is written twice in slots 0 to 2 |
| `CompoundCheck.ReadAfterWrite` | q-base/src/compound.c:217-381 | a shared slot reads what an earlier statement wrote; temporaries are never read before |
| `CompoundCheck.ReleaseCompExpr` | q-base/src/compound.c:697-743 | every owned buffer of slots 0 to 2 is released exactly once, in order, and no shared one |
| `CompoundCheck.CountFLeaks` | q-base/src/compound.c:708-738 | the mapping a countf owns in slot 3 is not released |
| `CompoundMeaning.ReadsRight` | q-base/src/compound.c:217-381 | unless a histogram is read, every slot stands for the column its name denotes when the statement runs |
| `CompoundMeaning.ColumnFinal` | q-base/src/compound.c:217-381 | a created column keeps the value its one writer gave it to the end |
| `CompoundMeaning.ReadsColumnsExactly` | q-base/src/compound.c:107-134 | every read resolves to a column exactly when no statement reads a name that an earlier count wrote |
| `CompoundMeaning.HistogramReadExample` | q-base/src/compound.c:107-134 | an accepted program in which a read resolves to a histogram |
| `CompoundExec.BlocksPartition` | q-base/src/compound.c:836-845 | blocks are consecutive, cover all rows, and hold fewer than 2*COMP_EXPR_BLOCK_SIZE rows |
| `CompoundExec.BlockStartExact` | q-base/src/compound.c:836-845 | the 32-bit product is the row number for every block exactly below 2049 blocks |
| `CompoundExec.FToSBlock` | q-base/src/compound.c:1069-1088 | the loop over the cells of a block computes its aggregate |
| `CompoundExec.CombineBlocks` | q-base/src/compound.c:1089-1103 | the running aggregate joined with that of a block |
| `CompoundExec.CountBlock` | q-base/src/compound.c:999-1068 | the loop over the rows of a block adds them to the histogram |
| `CompoundExec.CoreF1F2ToS` | q-base/src/f1f2_to_s.c:30-92 | per-core partial sums give the sum and count of the whole |
| `CompoundExec.ExecColumn` | q-base/src/compound.c:847-920 | one block of a column statement extends its column, or refills its temporary, and leaves all else |
| `CompoundExec.ExecScalar` | q-base/src/compound.c:1069-1157 | one block of an aggregate extends the running scalar |
| `CompoundExec.ExecCount` | q-base/src/compound.c:999-1068 | one block of a count extends its histogram, cleared before the first block |
| `CompoundExec.ExecBlock` | q-base/src/compound.c:847-1164 | all statements on one block move every output to the end of that block |
| `CompoundExec.HistogramFinal` | q-base/src/compound.c:921-1068 | the histogram that the last writer of a name makes is the one in the final environment |
| `CompoundExec.HistogramWritten` | q-base/src/compound.c:921-1068 | every histogram in the final environment has such a last writer |
| `CompoundExec.ExecCompExpr` | q-base/src/compound.c:790-1202 | blocked, fused execution leaves the columns and scalars of the end of the whole-table run, and each histogram as it is there after its own statement, which is the end for the last writer of its name |
| `CompoundResults.RunMeans` | q-base/src/compound.c:836-920 | from the table's columns each statement makes the next ones, row by row |
| `CompoundResults.RunReports` | q-base/src/compound.c:790-1202 | what the executor leaves, in terms of the cells its inputs have at that statement: every scalar is the least, greatest or sum of them with their number, every histogram entry counts or weighs the selected rows of its key, every lasting column is the last of its name |
| `CompoundResults.RunCompound` | q-base/src/compound.c:387-1202 | any program on any table with rows is checked, given buffers, executed and released: exactly when it is rejected (as in `AcceptedExactly`) and when its run is well defined, in terms of names and row counts; a well-defined run is the whole-table run, and on columns with an entry per row its outputs are those of `RunMeans` and `RunReports`; every owned buffer of slots 0 to 2 is released |
| `MetaLinks.UnusedLast` | q-base/src/dbauxil.c:889-895 | in the ascending order unused records come last |
| `MetaLinks.ClearShifts` | q-base/src/del_fld.c:115-122 | clearing a record and sorting again moves the later ones down by one |
| `MetaLinks.SurvivorsExact` | q-base/src/del_fld.c:94-131 | the scan removes all links of a field exactly when no two of them are neighbours |
| `MetaLinks.DeleteLinks` | q-base/src/del_fld.c:94-131 | what the scan leaves, for any links; -1 exactly when field 0 is deleted and the scan meets an unused record |
| `MetaLinks.NeighbourSurvives` | q-base/src/del_fld.c:94-131 | a sorted table with two links of field 5 of which the second survives the deletion |
| `MetaLinks.FieldZeroFails` | q-base/src/del_fld.c:94-131 | a table where deleting field 0 removes its link and meets an unused record, hence -1 |
| `MetaLinks.AddLink` | q-base/src/dbauxil.c:853-899 | one more link in a sorted table, -1 exactly when it is full |
| `MetaRecords.AllNamesDiffer` | q-base/src/dump.c:212-215 | live records of a table, companions included, have different names |
| `MetaRecords.CheckExact` | q-base/src/aux_meta.c:97-253 | in every state of the invariant, when the repository's own field check passes: an exact condition |
| `MetaRecords.WidthsExact` | q-base/src/dbauxil.c:192-246 | the sizes that fit: 1, 2, 4, 8, 4, 8 bytes per row for I1, I2, I4, I8, F4, F8, the length and a NUL for strings longer than one |
| `MetaRecords.BitsFill` | q-base/src/dbauxil.c:466-483 | a bit field fills the least number of kilobytes |
| `MetaRecords.ChkFileSize` | q-base/src/dbauxil.c:192-246 | the checks on rows, type, length and size pass exactly for the sizes that fit |
| `MetaRecords.ChkName` | q-base/src/aux_meta.c:739-759 | a name passes exactly if it has 1 to 31 letters, digits and underscores |
| `MetaRecords.ByteFileIsNotI4` | q-base/src/aux_meta.c:97-253 | a file of one byte per row fits an I1 field and no I4 field |
| `MetaUpdates.DropKeeps` | q-base/src/dbauxil.c:137-148 | clearing a companion and its parent's pointer keeps the invariant, with or without its file |
| `MetaUpdates.ClearKeeps` | q-base/src/del_fld.c:73-122 | clearing a field nobody uses, with its links and file, keeps the invariant |
| `MetaUpdates.InsertKeeps` | q-base/src/add_fld.c:92-100 | writing a new primary field with an unowned file keeps the invariant |
| `MetaUpdates.AttachKeeps` | q-base/src/add_aux_fld.c:91-116 | the two-way pointers of a new companion keep the invariant |
| `MetaStore.FindFld` | q-base/src/is_fld.c:40-70 | the wrap-around lookup finds a record of that table and name if there is one |
| `MetaStore.FindTbl` | q-base/src/is_tbl.c:27-42 | the wrap-around lookup finds a table of that name if there is one |
| `MetaStore.GetEmptyFld` | q-base/src/add_fld.c:26-56 | an unused record if there is one |
| `MetaStore.Store.DelRecord` | q-base/src/del_fld.c:51-134 | refused exactly for dictionaries and companions; else field, companion, links and files go and nothing else |
| `MetaStore.Store.DelFld` | q-base/src/del_fld.c:21-134 | the same by names; a missing table or field is no error |
| `MetaStore.Store.AddFld` | q-base/src/add_fld.c:69-107 | exactly when it succeeds and what every outcome leaves, whoever owns the file handed in; the invariant survives a success exactly when no live record owns it |
| `MetaStore.SharedBreaks` | q-base/src/add_fld.c:92-100 | a record written with a file that is owned, or was until the same call dropped it, breaks the invariant |
| `MetaStore.Store.AddAuxNn` | q-base/src/add_aux_fld.c:30-122 | the old companion goes first; then when a new one is attached, and where; the invariant survives exactly when no live record owns the file |
| `MetaStore.Store.DropAux` | q-base/src/drop_aux_fld.c:22-48 | the companion, if any, and its file go |
| `MetaStore.Store.BreakNn` | q-base/src/break_nn_fld.c:27-66 | the companion's file moves to a new primary field; an old field of that name goes first; what every failure leaves |
| `MetaStore.Store.AddDict` | q-base/src/set_meta.c:178-218 | one more link exactly when both records exist, the dictionary is a string field and there is room; the invariant survives exactly when the field is a primary one without a dictionary |
| `MetaStore.LinkExactly` | q-base/src/dbauxil.c:853-899 | a further link keeps the invariant exactly when its field is a primary one that has none |
| `MetaStore.SecondDictionary` | q-base/src/set_meta.c:213-216 | a state of three fields in which a second dictionary link is accepted and breaks the invariant |
| `MetaStore.Store.DelTbl` | q-base/src/del_tbl.c:17-54 | -1 exactly for an empty name or a table with a blocked field; only fields of that table, their files and links go; on success all of them and the table |
| `MetaStore.Store.DelTblAt` | q-base/src/del_tbl.c:34-51 | -1 exactly when some primary field is blocked at its turn: it is the dictionary of a field not deleted before, or sits in record 0 with an unused link record; on success no field of the table is left |
| `MetaStore.Store.AddTbl` | q-base/src/add_tbl.c:62-89 | -1 exactly for a bad name or size, no free record, or an old table of that name with a blocked field; else the old one goes first and the new one has no fields |
| `MetaStore.KeptThen` | q-base/src/del_fld.c:66-91 | file accounting of two operations in a row, the first of which only removes |
| `MetaRuns.Execute` | q-base/src/del_fld.c:12-134 | every command is done: for each of the eight commands, its result and the tables, fields, links and files it leaves, whatever its outcome and whatever is handed in; the invariant is lost exactly by a success that hands in an owned file, gives a field a second dictionary or gives one to a companion |
| `MetaRuns.TracedMore` | q-base/src/del_fld.c:12-134 | a run and one more command done is a run |
| `MetaRuns.AccountedStep` | q-base/src/del_fld.c:66-91 | file accounting of one more command of a run |
| `MetaRuns.Run` | q-base/src/del_fld.c:12-134 | the states of a run of any commands, one per command: between neighbours the command between them is done, the invariant holds in all, and exactly the files once owned and no longer owned are gone; it ends early only at a command that breaks the invariant |
| `CountHt.Probe` | q-base/src/count_ht.c:157-189 | the wrap-around probing stops at the key or a free slot behind taken slots of other keys |
| `CountHt.StopFree` | q-base/src/count_ht.c:158-189 | a free slot means the key is nowhere in the table |
| `CountHt.SpaceFound` | q-base/src/count_ht.c:191-214 | below the half-full limit the no-space exit is never taken |
| `CountHt.BumpCounts` | q-base/src/count_ht.c:194-211 | every key keeps the number of its occurrences, key 0 one more |
| `CountHt.Insert` | q-base/src/count_ht.c:153-211 | one more key keeps: one slot per key, reachable from its home, its count the number of its occurrences (one more for 0), n_ht distinct keys, max_count the greatest count |
| `CountHt.OccursIs` | q-base/src/count_ht.c:194-211 | the occurrences of a value are the number of selected rows that hold it |
| `CountHt.ListedIsCounted` | q-base/src/count_ht.c:222-275 | the list taken from the table has every selected value once with the number of its rows, one more for 0, and nothing else |
| `CountHt.CountHt` | q-base/src/count_ht.c:99-275 | up to 2147483647 rows: the selected rows, bit by bit; -1 exactly if their distinct values exceed half the table; else as many entries as distinct values, each value once, with exactly the number of selected rows that hold it, and one more for 0; 64-bit counts exactly if one of them needs it |
| `Blocks.CountBlocksExact` | q-base/src/count_ht.c:106-119 | with the int products, the blocks start right and cover the column exactly up to 2147483647 rows |
| `CountHt.MasksExact` | q-base/src/count_ht.c:117-132 | the counted rows are the masked rows, whatever the column, exactly when the masks repeat with the block size |
| `CountHt.ZeroTwice` | q-base/src/count_ht.c:194-206 | the column [0] is counted as one value that occurs twice |
| `CountHt.MaskedOffCounted` | q-base/src/count_ht.c:117-132 | one row more than a block, the last masked off: it is counted all the same |
| `HyperLogLog.RhoLowestOne` | q-base/src/determine_rho_loc.c:22-47 | 2^n divides the hash exactly for n < rho |
| `HyperLogLog.DetermineRhoLoc` | q-base/src/determine_rho_loc.c:36-67 | refuses exactly multiples of 2^44; else 2^n divides the hash exactly for n < rho, and the bin is the one that splits it |
| `HyperLogLog.LocSplits` | q-base/src/determine_rho_loc.c:36-67 | the bin of a hash h: h = (q*m + loc)*2^44 + low with loc < m and low < 2^44 |
| `HyperLogLog.SplitUnique` | q-base/src/determine_rho_loc.c:36-67 | no other bin splits the hash that way |
| `HyperLogLog.BinClosed` | q-base/src/approx_unique.c:306-317 | after t foldings a value is in bin loc / 2^t |
| `HyperLogLog.ZeroUnused` | q-base/src/approx_unique.c:301-304 | a register is zero exactly when no value falls into its bin |
| `HyperLogLog.RegisterMeaning` | q-base/src/approx_unique.c:208-330 | register j after t foldings: an upper bound, attained if not zero, of the position of the lowest one bit of the hashes of the selected values whose split bin is j * 2^t to (j+1) * 2^t - 1 |
| `HyperLogLog.RegistersUnique` | q-base/src/approx_unique.c:208-287 | the registers are determined by the set of selected values: not by order, repetition or blocks |
| `HyperLogLog.FillBlock` | q-base/src/approx_unique.c:216-285 | a block raises the registers to those of all values so far; false exactly if a hash was refused |
| `HyperLogLog.FoldInPlace` | q-base/src/approx_unique.c:308-317 | in place, register j becomes the greater of 2j and 2j+1 |
| `HyperLogLog.FoldKeeps` | q-base/src/approx_unique.c:306-317 | folded registers are the greatest rho per folded bin |
| `HyperLogLog.Fold` | q-base/src/approx_unique.c:301-324 | folds exactly as long as more than m/100 registers are unused and m > 128; m stays >= 128 |
| `HyperLogLog.ApproxUnique` | q-base/src/approx_unique.c:146-352 | up to 2147483647 rows: -1, -3, 1 and -2 exactly when; every register is that of `RegisterMeaning` after the folding rule; -2 with more than 128 registers exactly at one in a hundred unused |
| `Blocks.HashBlocksExact` | q-base/src/approx_unique.c:174-214 | with the int products, the blocks start right and cover the column exactly up to 2147483647 rows |
| `HyperLogLog.SameSetSameOutcome` | q-base/src/approx_unique.c:208-330 | two runs over the same set of selected values end with the same foldings and registers, hence the same verdict |
| `HyperLogLog.GivesUpOnColumn` | q-base/src/approx_unique.c:301-330 | a column of 64881 values and a hash on which every run stops unfolded at 655 unused registers and is refused, although one folding would leave none |
| `ParallelCount.Partition` | q-base/src/dbauxil.c:249-285 | with int chunk counts and long long products: 0 exactly if the arguments are positive, the chunk count is positive, the remainder is less than a block, and the last check fits its types; then the chunks fit into the range, and below 2^31 least blocks they are as many as fit: no more than the limit, blocks of at least the least size if there are two, and one chunk more would break that |
| `ParallelCount.FitsExactly` | q-base/src/dbauxil.c:263-272 | below 2^31 least blocks the chunk count is the greatest that keeps to the limit and to the least block size |
| `ParallelCount.LastCheck` | q-base/src/dbauxil.c:280 | block_size * (num_chunks+1) < num_to_divide, with its int sum and long long product, fails exactly where that is too large or there are 2147483647 chunks, but for two row counts near 2^63 |
| `ParallelCount.NoLimitExactly` | q-base/src/dbauxil.c:263-280 | below 2^32 chunks, without a limit on them: success exactly up to 2147483647 chunks for which the last check passes; below 2^62 rows that is exactly below 2147483647 chunks |
| `ParallelCount.WrapFails` | q-base/src/dbauxil.c:258-280 | partition(2147483647, 1, -1) fails in the last check, one row more makes the chunk count negative |
| `ParallelCount.WrapsBack` | q-base/src/dbauxil.c:258-280 | 2^32 rows come out as one chunk, 6442449944 rows fail on the remainder |
| `ParallelCount.LimitCanFail` | q-base/src/dbauxil.c:263-275 | with a limit there can be an error: 10 rows in at most 4 chunks |
| `ParallelCount.SmallLimitExactly` | q-base/src/vec_f_to_s.c:47 | while the limit is at most the least block the remainder is no error: below 2^32 chunks success is exactly that count and last check fit their types |
| `ParallelCount.ChunksCover` | q-base/src/count.c:126-129 | every row is in a chunk |
| `ParallelCount.ChunksDisjoint` | q-base/src/count.c:126-129 | and in no other |
| `ParallelCount.ThreadsForCount` | q-base/src/dbauxil.c:1096-1120 | the least number of threads for which another would not pay; one, or at most as many as cores |
| `ParallelCount.CountRows` | qtils/src/AUX/count_nn_I4.c:25-42 | the kernel, from zero, gives the histogram of a range of rows |
| `ParallelCount.HistIs` | qtils/src/AUX/count_nn_I4.c:25-42 | an entry of the histogram of a range is the number of its selected rows with that value |
| `ParallelCount.ZeroChunks` | q-base/src/count.c:122-141 | the chunks of partition set the whole output to zero |
| `ParallelCount.Reduce` | q-base/src/count.c:269-274 | the partial histograms add up to that of all rows |
| `ParallelCount.Count` | q-base/src/count.c:84-275 | refused exactly for tables of 2147483647 rows or more and an empty destination; else entry j is the number of selected rows with value j, whatever the number of threads, and the entries sum to the number of selected rows |
| `Loader.Loader.Callback` | q-base/src/hdfs_get.c:31-176 | a chunk has the effect of its bytes one by one |
| `Loader.RunConcat` | q-base/src/hdfs_get.c:50-165 | two chunks in a row are one |
| `Loader.Loader.Feed` | q-base/src/hdfs_get.c:31-176 | any division into chunks leaves the state of the whole text |
| `LoaderMeaning.LoadEmitted` | q-base/src/hdfs_get.c:50-165 | round trip: from a listing of cells, entry i of number column c is the conversion of the text of cell i*n+c, flagged, or 0 and not flagged if that text is empty; of a text column it is that text as a line; the text is the cell up to its first NUL; a null marker exactly for columns with an empty text |
| `LoaderMeaning.Load` | q-base/src/hdfs_get.c:31-176 | the loader fed any chunks: no error exactly if their text is a listing, and then the columns, flags and null markers of its cells |
| `LoaderMeaning.ColumnAt` | q-base/src/hdfs_get.c:157-163 | row i of column c is cell i*n+c |
| `LoaderMeaning.ColAtClosed` | q-base/src/hdfs_get.c:157-163 | the current column after k cells is k modulo the number of columns |
| `LoaderMeaning.LoadedEmits` | q-base/src/hdfs_get.c:50-165 | a text that loads without error is a row-by-row listing of cells, each empty, convertible or text, and shorter than the buffer |
| `LoaderMeaning.LoadsExactly` | q-base/src/hdfs_get.c:50-165 | no error exactly on such listings |
| `LoaderMeaning.ColumnsLevel` | q-base/src/hdfs_get.c:157-163 | after every byte all columns have rows + 1 or rows cells, by the current column, and as many flags |
| `DirSearch.BinSearch` | qtils/src/AUX/bin_search_I8.c:30-98 | finds the key in a sorted range exactly if it is there; an empty range is an error |
| `DirSearch.FindRange` | q-base/src/dir_is_a_in_b.c:158-169 | the first entry from the start on that holds the value, and where the start moves |
| `DirSearch.InEntry` | q-base/src/dir_is_a_in_b.c:162-182 | a value of the entry's bounds is found in its index range exactly if it occurs in f2 at all; -1 exactly for an empty range |
| `DirSearch.DirIsAInB` | q-base/src/dir_is_a_in_b.c:142-185 | row i is TRUE exactly if f1[i] occurs in f2 and the row is not lost behind a gap; -1 exactly at the first row that meets an entry with an empty index range |
| `DirSearch.MembershipExactly` | q-base/src/dir_is_a_in_b.c:142-185 | membership for every row exactly when no value in a gap precedes a value of f2 below the last entry |
| `DirSearch.GaplessMembership` | q-base/src/dir_is_a_in_b.c:142-185 | with a gapless directory no row is lost |
| `DirSearch.GapLoses` | q-base/src/dir_is_a_in_b.c:158-169 | a directory, with a gap, that loses a value |
| `BitColumns.Pack` | q-base/src/conv_I1_to_B.c:19-58 | the packed bytes of a 0/1 vector, nothing beyond them; the final checks never fail |
| `BitColumns.PackedIs` | q-base/src/conv_I1_to_B.c:27-45 | a full byte is v0 + 2*v1 + 4*v2 + ... + 128*v7 |
| `BitColumns.Unpack` | q-base/src/conv_B_to_I1.c:15-50 | row i becomes bit i: byte i/8 divided by 2^(i%8), modulo 2 |
| `BitColumns.BitIs` | q-base/src/conv_B_to_I1.c:21-47 | bit i is byte i/8 divided by 2^(i%8), modulo 2 |
| `BitColumns.UnpackPacked` | q-base/src/conv_B_to_I1.c:21-47 | packing then unpacking any 0/1 vector gives it back, whatever the padding |
| `BitColumns.SumB` | q-base/src/f_to_s_sum_B.c:70-166 | from a word boundary, the old result plus the number of ones in the range, by words, bytes and a masked byte; none of the checks fails |
| `BitColumns.SumIsNumber` | q-base/src/f_to_s_sum_B.c:70-166 | the sum of a range of bits is the number of its ones |
| `BitColumns.SumOfPacked` | q-base/src/f_to_s_sum_B.c:70-166 | on a packed vector that is the sum of its entries |
| `ArgLine.WriteLine` | q-base/src/dbauxil.c:1078-1082 | the line is the arguments joined by the delimiter |
| `ArgLine.ReadNthVal` | q-base/src/auxil.c:150-189 | the text behind n delimiters; -1 exactly for bad arguments or too small a buffer |
| `ArgLine.NthLaw` | q-base/src/auxil.c:158-185 | the first field runs to the first delimiter or end; value n is value n-1 of what stands behind that delimiter, and empty if there is an end instead |
| `ArgLine.RoundTripExactly` | q-base/src/auxil.c:158-185 | every argument is read back exactly when none contains, where it stands, a delimiter or an end |
| `ArgLine.RoundTrip` | q-base/src/auxil.c:158-185 | arguments free of '@', newline and NUL always come back, and nothing beyond the last |
| `CrossProduct.BatchMember` | q-base/src/crossprod.c:187-202 | a batch emits the wanted pairs |
| `CrossProduct.AllMember` | q-base/src/crossprod.c:183-205 | the emitted pairs are those some batch wants |
| `CrossProduct.AllOrder` | q-base/src/crossprod.c:183-205 | they are in lexicographic order, so each once |
| `CrossProduct.PairsAreWanted` | q-base/src/crossprod.c:183-205 | the emitted pairs are exactly those of two rows of one batch (not descending, or ascending, for the triangles), rows numbered through the batches, in lexicographic order |
| `CrossProduct.AllSize` | q-base/src/crossprod.c:143-158 | their number is the closed form, over unbounded integers |
| `CrossProduct.IntSizesExact` | q-base/src/crossprod.c:140-148 | computed in ints it never exceeds that number, and equals it exactly when no batch is above 46340 rows (46341 without the diagonal) |
| `CrossProduct.WideBatch` | q-base/src/crossprod.c:140-148 | one batch of 65537 rows passes the checks, gets room for 131073 pairs and emits 4295098369 |
| `CrossProduct.WithinSquare` | q-base/src/crossprod.c:150-151 | there are at most nR1*nR1 pairs, over unbounded integers |
| `CrossProduct.GuardExactly` | q-base/src/crossprod.c:150-151 | the guard with its long long product never triggers up to 3037000499 rows; from there to 2^32 it stops all batches within the limit |
| `CrossProduct.PairsStopped` | q-base/src/crossprod.c:150-151 | 3037000500 rows in batches of two are stopped |
| `CrossProduct.LongSizeExact` | q-base/src/crossprod.c:153-159 | without batches the computed size is the number of pairs exactly up to 3037000499 rows (3037000500 without the diagonal), and less beyond |
| `CrossProduct.SquareVanishes` | q-base/src/crossprod.c:155 | all pairs of 2^32 rows without batches: the computed size is zero |
| `CrossProduct.CrossProd` | q-base/src/crossprod.c:136-224 | up to 2147483647 batches: -1 exactly for fewer than two rows, wrong batch sizes, the guard, or a computed size that is not positive; else, if the rows fit an int and no batch is above the limit, the arrays hold the values of exactly the wanted pairs in lexicographic order, no write is out of bounds, and nR2 == chk_nR2 |

## Left out

- Quantiles: eps and ceil are exact reals, not doubles; the accuracy argument of the paper beyond the rank bound; memory limits of malloc; `ext_approx_quantile`.
- ApproxQuantile.ApproxQuantile: promises nothing of the answers of a run whose over-read word is neither 0 nor k, or of one over more than 2147483647 whole packets, since weights are ints; whether such a run does overflow is not decided.
- BufferCollapse.Collapse: a call whose weights add up to more than an int is undefined and only named as such.
- Compound expressions: the `vec_*` kernels are arbitrary pointwise functions and aggregates are integers; bit-offset columns and `op_f1opf2f3` are not modelled.
- Compound expressions: `compound.c:937` passes f1_X where its siblings pass f2_X; the intended key column is modelled. Keys outside the destination table are skipped.
- CompoundCheck.Checker.ProcFld: field types, null companions and the creation of the output file are not modelled, since values are plain integers.
- CompoundCheck.Checker.ChkCompExpr: takes a list of statements; the reading and splitting of the expression file, and the type checks, are not modelled.
- CompoundResults.RunCompound: promises nothing about the outcome of a run that is not `defined`; two of the three conditions for that are exact (`ReadsColumnsExactly`, `BlockStartExact`), the third is that a count whose output has a temporary's name counts into a table of at most 2*COMP_EXPR_BLOCK_SIZE rows, the size of that temporary. What the outputs are in terms of cells is promised for tables whose columns have an entry for every row.
- CompoundExec.ExecCompExpr: runs only programs that meet those conditions. A histogram that a later statement counts again under the same name is the one of its own statement, since each countf has its own mapping.
- Metadata: external fields, len and off companions, sort order and statistics of fields, table types other than regular, `is_temp`, and strings parsed for row counts.
- MetaRuns.Run: ends at a command that breaks the invariant (a success with an owned file, a second dictionary for a field, or one for a companion); what further commands do then is not modelled. Creating files between commands is not modelled either: a run draws on the files present at its start.
- Counter: columns of more than 2147483647 rows, which the source warns of; output of I1 and I2 columns, whose pointers are not repointed (`count_ht.c:229-230`); `prime_geq`.
- HyperLogLog: the floating-point estimate; the hash is an arbitrary function; columns of more than 2147483647 rows.
- Parallel counting: threads run one after the other, each on its own partial array; values outside the destination table are excluded; `safe_mode`.
- CrossProduct.CrossProd: what is overwritten when the arrays are too short; more than 2147483647 batches, which the int loop counter cannot number.
- DirSearch.DirIsAInB: the argument checks and the field that is added at the end; the caller's part is a directory whose bounds are in order and whose index ranges hold every value of f2.
- Bit columns: `mask_byte_L` and ranges that do not start at a word boundary; the or of disjoint bits is written as a sum.
- Loader: the conversions stoI1 to stoF8 are arbitrary functions; the bits written for a number that does not convert are unspecified; error messages; everything of curl.
- The remaining verbs, the servers and clients, import, dump and describe: they add easy members or I/O.
