# Sheepdog, modelled and proved in Dafny

Sheepdog is a distributed block store: virtual disks (vdis) are cut into
objects, objects are kept as copies or as erasure-coded strips on the nodes of a
cluster, and the nodes agree on where everything is, recover what they are
missing and collect what nobody refers to any more. This project models the
algorithms and protocols behind those promises and proves what they keep.

`dafny verify dfyconfig.toml` checks everything.

## What is modelled

| files | part of the system | main results |
|---|---|---|
| `GaloisField`, `GaloisTables` | GF(2^8) and its log, exp, inverse and product tables (lib/fec.c) | the tables built by the loops are the field, whose laws are proved from the generator polynomial |
| `LinearAlgebra`, `GaussJordan`, `Polynomial`, `Vandermonde` | matrix inversion in place and in closed form (lib/fec.c) | `InvertMat`, `VdmInverseExact` |
| `EncodeMatrix`, `ErasureCode` | the systematic code, encode and decode (lib/fec.c, include/fec.h) | `AnyRowsNonsingular`, `EcDecode`, `StripLimit` |
| `Striping` | erasure-coded objects as flat bytes (sheep/gateway.c) | `Write`, `Read`, `WriteExact` |
| `BTree`, `BTreeNew`, `BTreeRange`, `SdInode` | the two-level B-tree of an inode and its write-back cache (lib/sd_inode.c) | `RunRefines`, `RootNeverFull`, `SplitAsWrittenExact`, `SplitLosesVids`, `SetVidRange` |
| `GenerationalRefcount` | reference counts that tolerate reordering (sheep/ops.c, sheep/gateway.c, sheep/vdi.c, sheep/store/common.c) | `RunKeeps`, `NoDangling`, `NoLeak`, `DirectRemovalIsLast`, `RewriteExact` |
| `Recovery`, `RecoveryGate`, `RecoveryNode` | recovery and the requests that wait for it (sheep/recovery.c, sheep/request.c) | `RunKeeps`, `RunAdmits`, `ObjectServed`, `FinishOnlyWhenDone`, `NextCensus`, `PendingDrains`, `RunAdvances`, `CancelExact`, `CancelStrands` |
| `Placement`, `VnodeRing` | copies on the hash ring (include/sheep.h, sheep/group.c) | `OidToVnodes`, `OidToCopies`, `MinimalMovement` |
| `TreeLayout`, `RedBlackTree` | the red-black tree under the ring and many other tables (lib/rbtree.c, include/rbtree.h) | `Insert`, `Erase`, `Walk`, `Shallow` |
| `Journal` | journal entries, the scan after a crash, replay (sheep/journal.c) | `DoRecover`, `CheckRecoverJournalFile`, `ReplayAgain`, `ReplayFails`, `LandsWhereReserved` |
| `Backup`, `MajorityVote` | incremental backup and restore, choosing the right copy (dog/vdi.c) | `RoundTrip`, `TruncatedRestore`, `VoteMajorityObject` |
| `ListSort` | the in-place merge sort of linked lists (lib/util.c) | `ListSort` |

`Options` and `Sequences` hold shared helpers.

Code that works by changing things in place is written as methods over arrays
and fields and proved against specification functions; the protocols are state
machines over their atomic steps, with safety proved over every run.

## Where the code departs from its intent

The code is modelled as it stands. Where a line does not do what its
surroundings promise, the exact condition under which it does is proved.

- lib/fec.c:414-419 never multiplies in the constant term, although the comment
  above describes the full product. `Vandermonde.VdmInverseExact`: harmless if
  and only if there are at most two points or one of the first two is zero. The
  only caller starts with the point zero.
- lib/sd_inode.c:584-585 takes the key of a new left half from the slot behind
  its last entry, which is zeroed memory, so the key is 0
  (include/sheepdog_proto.h:367 says it is the maximum index).
  `BTree.SplitAsWrittenExact`, with `BTree.SetRefines` for the intended key and
  `BTree.SplitLosesVids` for a run that loses vids.
- lib/sd_inode.c:428-429, called at line 575 with the old leaf as the right half,
  copies that half onto its own buffer. A full leaf has 524287 entries, of which
  262144 move down by 262143, so source and target share one entry, which
  mempcpy() does not allow. The model takes the copy to be right.
- lib/sd_inode.c:403-404 drops an entry silently when the root is full.
  `BTree.FullRootExact` says when that loses nothing; `BTree.RootNeverFull` that
  no run gets there, because 32-bit indices fill at most 16385 of its 262143
  entries, so the two lines are unreachable.
- lib/sd_inode.c:685-687 writes a vid past a node that is cached whole.
  `SdInode.Inode.SetVidRange`: a range update is lost for exactly those indices
  that have an entry in a leaf into which an earlier index of the range was newly
  put. `SdInode.Inode.RangeLosesUpdate` is the smallest case.
- The comment at lib/sd_inode.c:77 gives 349524 entries for the root; with
  16-byte entries it is 262143, and the model uses the latter.
- sheep/gateway.c:99 reads no old data for a stripe-aligned write shorter than a
  stripe. `Striping.WriteExact`, `Striping.ShortWriteLosesData`.
- sheep/gateway.c:841-844 zeroes grefs of slots whose vid does not change.
  `GenerationalRefcount.RewriteExact`, `GenerationalRefcount.RewriteLosesObject`.
- sheep/ops.c:896-900 discards an object while the decrement for its reference,
  sent by the write before it, is still under way. `GenerationalRefcount.DiscardExact`:
  no inode is left without its object if and only if no other inode refers to it.
  `GenerationalRefcount.DiscardThenWriteLosesObject`: written anew before the
  decrement arrives, the object is removed by it.
- sheep/recovery.c:731-732 searches one slot beyond the list.
  `Recovery.ExtraSlotExact`: it matters if and only if that slot holds an object
  which is neither listed nor stored, and then a request for it waits for a direct
  recovery. `Recovery.ExtraSlotReached`: a run gets there. The other proofs hold
  for any value in the slot.
- sheep/recovery.c:1053-1056 finishes a cancelled recovery without looking for a
  pending one. `Recovery.CancelStrands`: the pending one then never starts.
  `Recovery.StaleSupersedes`: the next recovery that is started gives way to it,
  though it is newer. `Recovery.CancelExact`: neither happens if and only if none
  was pending. `Recovery.CancelReached`: a run of two starts gets there.
- sheep/journal.c:110-116 orders the two files by whole seconds.
  `Journal.MtimeExact`: every pair of logs is replayed in the order in which it was
  written if and only if file 1 is not the newer one in the same second.
- sheep/journal.c:407 looks up the file after the lock is released.
  `Journal.LandsWhereReserved`: the write is right if and only if no switch came
  in between; which file it reaches depends on whether the number of switches is
  even, and whether it destroys an entry there on how far that file is filled.
  `Journal.LateWriteDestroys` is a case in which it does.
- dog/vdi.c:2554-2572 leaves the new vdi behind, partly restored, when the stream
  breaks off, although a failed object restore at lines 2574-2582 deletes it.
  `Backup.DoRestore`, `Backup.TruncatedRestore`.
- sheep/journal.c:167-171 makes replay fail for a write without create to an
  object already removed. `Journal.ReplayFails`, `Journal.RemovedThenFails`.

## Model

| member | source | states |
|---|---|---|
| `GaloisField.MulAdd` | lib/fec.c:128-138 | multiplication distributes over XOR on both sides, for all 256 x 256 x 256 triples |
| `GaloisField.MulAssoc` | lib/fec.c:128-138 | multiplication is associative for every triple of bytes |
| `GaloisField.MulComm` | lib/fec.c:128-138 | multiplication commutes for every pair of bytes |
| `GaloisField.MulUnit` | lib/fec.c:128-138 | 1 is the unit of multiplication |
| `GaloisField.MulNonZero` | lib/fec.c:136-137 | a product is zero exactly when a factor is |
| `GaloisField.MulInv` | lib/fec.c:192-200 | every non-zero byte times its inverse is 1, and the inverse is not zero |
| `GaloisField.AlphaOrder` | lib/fec.c:144-190 | no power of alpha below the 255th is 1, so Pp is primitive |
| `GaloisField.AlphaInjective` | lib/fec.c:157-185 | the first 255 powers of alpha differ, so no gf_log entry is written twice |
| `GaloisField.AlphaOnto` | lib/fec.c:157-185 | every non-zero byte is a power of alpha, so every gf_log entry but 0 is written |
| `GaloisField.AlphaMod` | lib/fec.c:86-97 | exponents may be reduced modulo 255 |
| `GaloisField.MulLog` | lib/fec.c:128-134 | the product of non-zero bytes is alpha to the sum of their logarithms |
| `GaloisField.LogUnique` | lib/fec.c:118-123 | logarithm and power are inverse to one another below 255 |
| `GaloisTables.Modnn` | lib/fec.c:90-97 | the shift-and-add loop ends, for every non-negative int, with the remainder modulo 255 |
| `GaloisTables.PolynomialSumIsAlpha8` | lib/fec.c:70-166 | the bits of Pp summed by the first loop are alpha^8 |
| `GaloisTables.NextPowerByShift` | lib/fec.c:178-185 | both branches of the second loop multiply the last power by alpha |
| `GaloisTables.Tables.FirstPowers` | lib/fec.c:149-171 | after the first loop gf_exp and gf_log agree on the first eight powers and gf_exp[8] is the sum named by Pp |
| `GaloisTables.Tables.LaterPowers` | lib/fec.c:178-185 | after the second loop gf_exp and gf_log agree on all 255 powers |
| `GaloisTables.Tables.ExtendPowers` | lib/fec.c:188-190 | gf_exp[k] is alpha^k for all 510 indices |
| `GaloisTables.Tables.FillInverses` | lib/fec.c:192-200 | inverse[] holds the field inverse of every byte |
| `GaloisTables.Tables.GenerateGf` | lib/fec.c:144-201 | all three tables are right for every index, whatever they held before |
| `GaloisTables.Tables.InitMulTable` | lib/fec.c:128-138 | the 64K table holds the field product of every pair, the rows and columns of zero included |
| `GaloisTables.Tables.InitFec` | lib/fec.c:439-443 | whatever the tables held, they end filled, and what all later code looks up is their contents |
| `GaloisTables.GfMul` | lib/fec.c:109-111 | one lookup in the filled table is the field product |
| `GaloisTables.GfInverse` | lib/fec.c:341-341 | one lookup in the filled table is the field inverse |
| `GaloisTables.GfExp` | lib/fec.c:486-486 | one lookup in the filled table is the power of alpha, for all 510 exponents |
| `LinearAlgebra.VecMatDot` | lib/fec.c:255-271 | a row times a matrix times a vector may be bracketed either way |
| `LinearAlgebra.DotSplit` | lib/fec.c:205-214 | one term may be taken out of an inner product, which is what clearing the pivot entry relies on |
| `GaussJordan.ExchangeStep` | lib/fec.c:333-362 | a pivot step trades one unknown for one right-hand side and keeps exactly the solutions of the system |
| `GaussJordan.TracksSwap` | lib/fec.c:328-330 | swapping two rows not yet pivoted keeps the link to the original matrix, with the labels swapped |
| `GaussJordan.TracksPivot` | lib/fec.c:333-362 | a pivot step keeps the link between the matrix in place and the original one |
| `GaussJordan.PivotExists` | lib/fec.c:296-335 | in a non-singular matrix every column not yet used has a non-zero entry in a row not yet used |
| `GaussJordan.PivotAvailable` | lib/fec.c:296-335 | before all d columns are done a pivot can always be found, so the assert on line 335 cannot fire |
| `GaussJordan.IdentityPivot` | lib/fec.c:350-362 | skipping elimination for a unit pivot row changes nothing |
| `GaussJordan.UnitPivot` | lib/fec.c:336-345 | skipping the scaling of a pivot 1 changes nothing |
| `GaussJordan.FindPivot` | lib/fec.c:302-321 | the search returns a non-zero entry in an unused row and an unused column |
| `GaussJordan.Pivot` | lib/fec.c:333-363 | scaling and elimination, with the memcmp shortcut, perform exactly one exchange step in place |
| `GaussJordan.Eliminate` | lib/fec.c:291-364 | after all columns the matrix in place inverts the original up to the recorded row swaps |
| `GaussJordan.InvertsSwap` | lib/fec.c:365-369 | swapping two columns swaps two labels of the inverse |
| `GaussJordan.Unscramble` | lib/fec.c:365-369 | undoing the swaps last first removes the relabelling |
| `GaussJordan.InvertMat` | lib/fec.c:279-374 | every non-singular matrix of any size is replaced in place by its two-sided inverse |
| `Polynomial.Division` | lib/fec.c:425-429 | a polynomial is (X - p) times its synthetic quotient plus its value at p |
| `Polynomial.TooManyRoots` | lib/fec.c:387-437 | a polynomial with as many distinct roots as coefficients is zero |
| `Vandermonde.VdmNonsingular` | lib/fec.c:376-381 | a Vandermonde matrix over distinct points, zero allowed, is non-singular |
| `Vandermonde.EvalTimesLinear` | lib/fec.c:407-412 | multiplying the coefficients by (X - p) multiplies the values by (x - p) |
| `Vandermonde.ProductRoots` | lib/fec.c:407-412 | every point is a root of the product polynomial |
| `Vandermonde.Stage` | lib/fec.c:414-419 | one turn of the loop multiplies by (X - p_i) and loses the new constant term |
| `Vandermonde.BuildCoefficients` | lib/fec.c:403-419 | c holds the polynomial that results from losing the constant term at each stage |
| `Vandermonde.CoefficientsExact` | lib/fec.c:407-419 | when one of the first two points is zero nothing is lost and c is the product polynomial |
| `Vandermonde.FirstPointMissed` | lib/fec.c:414-419 | when neither of the first two points is zero the first point is no root of c |
| `Vandermonde.Divide` | lib/fec.c:423-429 | b is the synthetic quotient of c by (X - xx), and t its value at xx |
| `Vandermonde.RightInverse` | lib/fec.c:421-432 | with nothing lost the columns are the Lagrange basis: matrix times result is the identity |
| `Vandermonde.RightInverseSuffices` | lib/fec.c:376-381 | for a non-singular matrix a right inverse is the two-sided inverse |
| `Vandermonde.InverseNonsingular` | lib/fec.c:376-381 | a matrix with an inverse is non-singular |
| `Vandermonde.SkippedTermsMatter` | lib/fec.c:414-419 | with three or more distinct points, the first two not zero, the result is not the inverse |
| `Vandermonde.VdmInverseExact` | lib/fec.c:387-437 | for distinct points the closed form yields the inverse if and only if there are at most two points or one of the first two is zero |
| `Vandermonde.FillInverse` | lib/fec.c:421-432 | column by column the top block becomes the scaled basis polynomials, and the rows below stay |
| `Vandermonde.InvertVdm` | lib/fec.c:387-437 | in place, the top block becomes the closed form, the size-one case included |
| `EncodeMatrix.TopIsProduct` | lib/fec.c:488-498 | the identity written on top is what the multiplication skipped there would have given |
| `EncodeMatrix.RowEvaluates` | lib/fec.c:477-494 | strip k is the value at point k of the polynomial that interpolates the data at the first d points |
| `EncodeMatrix.AnyRowsNonsingular` | lib/fec.c:464-509 | any d different rows among the first 256 of the encoding matrix form a non-singular matrix |
| `EncodeMatrix.Invisible` | lib/fec.c:484-486 | beyond 256 strips a point repeats, and some non-zero data is invisible to d different strips |
| `EncodeMatrix.StripLimit` | lib/fec.c:464-509 | with two or more data strips, any d of dp strips determine the data if and only if dp is at most 256 |
| `EncodeMatrix.FillPowers` | lib/fec.c:477-486 | column 0 is 1, column 1 is 0, 1 and from there on the entry above times the generator, and every further column is the one before times column 1 |
| `EncodeMatrix.PowerTableAt` | lib/fec.c:477-486 | there is only one such table: row k holds the powers of point k, the point zero first |
| `EncodeMatrix.RowOfTable` | lib/fec.c:488-498 | row k of the encoding matrix takes the first d rows of that table to its row k |
| `EncodeMatrix.ProductRows` | lib/fec.c:493-494 | the rows below the top hold the product with the inverted top block |
| `EncodeMatrix.IdentityTop` | lib/fec.c:495-498 | the top block becomes the identity and the rows below stay |
| `EncodeMatrix.FecNew` | lib/fec.c:464-509 | for sizes whose exponents fit an int, every row of the matrix built through the tables is the encoding row of its strip, and with at most 256 data strips it takes the first d rows of the table of powers to its row of that table |
| `ErasureCode.Systematic` | lib/fec.c:495-498 | the first d coded strips are the data strips themselves |
| `ErasureCode.CodedByTable` | lib/fec.c:477-498 | if the data bytes are the first d rows of the table of powers times y, the byte of every strip is its row of the table times y |
| `ErasureCode.AddMul` | lib/fec.c:205-253 | adds c times the source to one stretch of one buffer and touches nothing else |
| `ErasureCode.FecEncode` | lib/fec.c:519-541 | block by block, every requested parity strip is the coded strip of its number |
| `ErasureCode.DecodeMatrix` | lib/fec.c:543-564 | for any strips in place the matrix built is inverted to the inverse of their rows |
| `ErasureCode.Recovers` | lib/fec.c:566-593 | that inverse applied to the received bytes gives back the data byte |
| `ErasureCode.FecDecode` | lib/fec.c:566-593 | the missing data strips are rebuilt, in order, into consecutive buffers |
| `ErasureCode.DecodePrepare` | lib/fec.c:602-627 | present data strips stay in place and gaps take parity strips in order; with d strips present the assert on line 620 cannot fire |
| `ErasureCode.GapsAreMissing` | lib/fec.c:683-687 | the gaps counted while filling are the data strips absent before that row |
| `ErasureCode.RecoverData` | lib/fec.c:679-688 | from any d consistent strips all data strips are recovered |
| `ErasureCode.EcEncode` | include/fec.h:173-192 | all parity strips of a stripe are the coded strips |
| `ErasureCode.EcDecode` | lib/fec.c:646-699 | any d distinct strips of a stripe rebuild any strip of it exactly, data or parity |
| `ErasureCode.CodedCut` | lib/fec.c:708-716 | a stretch of a coded strip is the code of that stretch: stripes are independent |
| `ErasureCode.FecDecodeBuffer` | lib/fec.c:701-717 | stripe by stripe, the buffer ends as the whole requested replica |
| `GenerationalRefcount.ZeroBelow` | sheep/ops.c:1131-1187 | from an all-zero ledger and the ledger law, no reference of any generation is outstanding, generation by generation |
| `GenerationalRefcount.ZeroExactlyWhenNothing` | sheep/ops.c:1184-1187 | the ledger is all zero if and only if no inode refers to the object and no decrement for it is under way |
| `GenerationalRefcount.ChargeLaw` | sheep/ops.c:1184-1185 | charging the ledger for one delivered message accounts for what is then outstanding, in 32-bit arithmetic |
| `GenerationalRefcount.ChargeKeeps` | sheep/ops.c:1140-1235 | charging any message next to the ledger keeps every ledger right and removes the data object exactly with its last reference |
| `GenerationalRefcount.DirectAgrees` | sheep/store/common.c:555-556 | a decrement of gref (0, 0) that is the only reference to an object without a ledger leaves nothing outstanding, and removing the object at once is what charging the ledger would have done |
| `GenerationalRefcount.LawIsNotEnough` | sheep/store/common.c:555-556 | the ledger law alone does not justify the removal at once: a state that satisfies it in which an object goes from under its inode |
| `GenerationalRefcount.DeliverKeeps` | sheep/store/common.c:545-574 | delivering any message next, removal at once or decrement, agrees with charging the ledger, keeps every ledger right and keeps references never copied the only ones to their objects |
| `GenerationalRefcount.CopyBalance` | sheep/vdi.c:1098-1107 | raising the base's count and starting the copy one generation later changes no balance |
| `GenerationalRefcount.CopyKeeps` | sheep/vdi.c:1172-1187 | a snapshot, clone or rebase keeps the invariant |
| `GenerationalRefcount.CopyAlone` | sheep/vdi.c:1172-1187 | what is copied has no reference left with gref (0, 0), neither in the base nor in the copy nor elsewhere; counts do not wrap round to it |
| `GenerationalRefcount.WriteSlotKeeps` | sheep/gateway.c:685-700 | writing a fresh vid, or the same vid with gref (0, 0), keeps the invariant |
| `GenerationalRefcount.WriteSlotSole` | sheep/gateway.c:685-700 | a clean write keeps every reference with gref (0, 0), in an inode or under way, the only one to its object |
| `GenerationalRefcount.RewriteExact` | sheep/gateway.c:841-844 | rewriting a slot with the vid it holds keeps the ledger law if and only if its gref was (0, 0), since the zeroing is unconditional |
| `GenerationalRefcount.WriteKeeps` | sheep/gateway.c:782-895 | a write over any range of slots keeps the invariant, and references never copied the only ones to their objects, when every slot is written cleanly |
| `GenerationalRefcount.CreateKeeps` | sheep/vdi.c:1073-1110 | a new inode without data keeps the invariant |
| `GenerationalRefcount.NextKeeps` | sheep/ops.c:1140-1235 | every step of the protocol, the removal at once included, keeps the invariant |
| `GenerationalRefcount.RunKeeps` | sheep/ops.c:1140-1235 | in every run, with decrements delivered in any order, by removal at once or through the ledger, every ledger entry is the outstanding references of its generation minus the copies made of the one before, a data object exists exactly while something is outstanding, and a reference with gref (0, 0) is the only one to an object without a ledger |
| `GenerationalRefcount.DirectRemovalIsLast` | sheep/store/common.c:555-556 | in every run the removal that does not look at the ledger finds the object there, no ledger and nothing else outstanding |
| `GenerationalRefcount.NoDangling` | sheep/ops.c:1187-1217 | in every run a data object that an inode refers to exists |
| `GenerationalRefcount.NoLeak` | sheep/ops.c:1187-1217 | in every run, once no message is under way, every data object left is referred to |
| `GenerationalRefcount.RewriteLosesObject` | sheep/gateway.c:841-844 | outside clean writes a clone's object is removed at once under it: rewrite the same vid, which zeroes the gref, then a new one |
| `GenerationalRefcount.DiscardExact` | sheep/ops.c:880-908 | a discard leaves every inode with its objects if and only if no other inode refers to the object removed |
| `GenerationalRefcount.DiscardEffect` | sheep/ops.c:880-908 | whatever vid the slot held its decrement goes out with the old gref, the slot is empty, the own object is gone, and nothing else changes |
| `GenerationalRefcount.DiscardOwn` | sheep/ops.c:880-908 | discarding an own object never copied is harmless and only anticipates its decrement |
| `GenerationalRefcount.DiscardThenWriteLosesObject` | sheep/ops.c:896-900 | an object discarded and written anew is removed by the decrement that was still under way |
| `GenerationalRefcount.IsZeroLedger` | sheep/ops.c:1131-1138 | true if and only if every entry is zero |
| `GenerationalRefcount.Peer.DecrefObject` | sheep/ops.c:1140-1235 | a missing ledger reads as one reference, an all-zero one is removed with its data object, any other is stored |
| `GenerationalRefcount.Peer.DecObjectRefcnt` | sheep/store/common.c:545-574 | for any decrement under way in a state of a run, the peer ends as the protocol says, and the object is there if and only if something is still outstanding |
| `GenerationalRefcount.UpdateObjRefcnt` | sheep/gateway.c:685-700 | asks for exactly one decrement per slot whose non-zero vid changes, with that slot's old gref, on which it depends whether the object is removed at once or the ledger charged |
| `GenerationalRefcount.WriteSlots` | sheep/gateway.c:827-844 | writing slot by slot is replacing the range of vids and zeroing the range of grefs |
| `GenerationalRefcount.WriteMsgs` | sheep/gateway.c:685-700 | the messages of a range write are those of its slots in order |
| `GenerationalRefcount.WriteObj` | sheep/gateway.c:782-895 | the arrays and the messages sent are those of the protocol's write step |
| `GenerationalRefcount.CopyGrefs` | sheep/vdi.c:1098-1107 | the base's and the copy's gref arrays are those of the protocol's copy step |
| `Recovery.SubmitExcused` | sheep/request.c:175-206 | a request that goes to sleep has something outstanding that will wake it |
| `Recovery.RouseExcused` | sheep/request.c:209-273 | waking while resubmitted requests go back to sleep leaves nobody asleep in vain |
| `Recovery.WakeExcused` | sheep/request.c:245-260 | a wakeup need only pick those for which nothing is outstanding any more |
| `Recovery.FinishedWindow` | sheep/recovery.c:985-993 | exchanging the finished object with the first of the window takes exactly it out and keeps the list a permutation |
| `Recovery.RunNextKeeps` | sheep/recovery.c:785-817 | taking over, or waiting to, keeps the invariant |
| `Recovery.RecoverNextKeeps` | sheep/recovery.c:860-879 | queueing, suspending or handing over keeps the invariant |
| `Recovery.ObjDoneKeeps` | sheep/recovery.c:976-1026 | the completion of any object in flight keeps the invariant |
| `Recovery.ListDoneKeeps` | sheep/recovery.c:1028-1084 | the completion of the list keeps the invariant for every list |
| `Recovery.DirectDoneKeeps` | sheep/recovery.c:647-657 | the completion of a direct recovery keeps the invariant |
| `Recovery.StartKeeps` | sheep/recovery.c:1327-1380 | starting a recovery, first or superseding, keeps the invariant |
| `Recovery.NextKeeps` | sheep/recovery.c:682-1084 | every step of the main thread keeps the invariant |
| `Recovery.RunKeeps` | sheep/recovery.c:682-1084 | in every run done <= next <= count, oids is a permutation of the prepared list, oids[done..next) is the bag of objects in flight, and every sleeper has something outstanding |
| `Recovery.LookupSucceeds` | sheep/recovery.c:986-991 | the search for the finished object always finds it, so there is always a slot to write to |
| `Recovery.FinishOnlyWhenDone` | sheep/recovery.c:1008-1024 | recovery ends only with its last object or an empty list, and never while another recovery is pending |
| `Recovery.SleeperHasWork` | sheep/recovery.c:696-747 | a request that waits for an object has that very object in flight or under direct recovery, or a recovery is pending, which will wake it, and a worker is running whose completion leads there |
| `Recovery.ExtraSlotExact` | sheep/recovery.c:731-732 | the lookup differs from one that stays within the list if and only if recovery of objects is on, none is pending, and the slot behind the list holds an object neither listed nor stored; one direct recovery is then queued and the request waits for it |
| `Recovery.ExtraSlotReached` | sheep/recovery.c:731-732 | from every initial state a run reaches such a state |
| `Recovery.NextAdvances` | sheep/recovery.c:785-817 | from states with epochs in order, no step lets a recovery give way to an older one, and the order stays |
| `Recovery.RunAdvances` | sheep/recovery.c:682-1084 | in every run the epochs of the current and the pending recovery and of the node are in order, and no recovery gives way to an older one |
| `Recovery.CancelIdle` | sheep/recovery.c:1053-1056 | a cancelled recovery leaves the node with nothing listed and nothing in flight, and with the pending recovery as it was |
| `Recovery.CancelExact` | sheep/recovery.c:1053-1056 | after a cancel no later recovery gives way to an older one, whatever its epoch and list, if and only if no recovery was pending |
| `Recovery.CancelStrands` | sheep/recovery.c:1053-1056 | in every run from a cancelled recovery without a new start the pending recovery stays pending: no list is made and no object goes in flight |
| `Recovery.StartIdleIsStart` | sheep/recovery.c:1327-1380 | starting after a cancel is the ordinary start when no recovery was pending |
| `Recovery.StaleSupersedes` | sheep/recovery.c:1327-1380 | the next recovery started runs, and when its list is ready the stranded one takes over, however old |
| `Recovery.CancelReached` | sheep/recovery.c:1053-1056 | from every initial state a run of two starts reaches the state in which a cancel strands a recovery |
| `Recovery.WakeCensus` | sheep/request.c:209-273 | waking keeps every request exactly once |
| `Recovery.NextCensus` | sheep/request.c:209-273 | no step loses or duplicates a request |
| `Recovery.PendingDrains` | sheep/recovery.c:785-817 | while a recovery is pending nothing new goes in flight, each completion shrinks the window by one, and the take-over comes with the window empty |
| `RecoveryGate.RunsExactly` | sheep/recovery.c:682-748 | an exempt request runs; any other runs if and only if nothing is recovered, its object is stored, or none is pending and its object is done or neither listed nor in the slot behind the list; a direct recovery is queued if and only if none is pending and its object is not stored and the list is not made yet, or it is listed from next on or in that slot, or in the window of a suspended recovery |
| `RecoveryGate.NotBeforeItsTime` | sheep/recovery.c:703-735 | while the list is made no request may run for an object that is not stored, and after that none for one that is listed and neither stored nor done |
| `RecoveryGate.SubmitByEpoch` | sheep/request.c:153-206 | a gateway request takes the epoch of the node; a peer request of an older epoch is answered OLD_NODE_VER with the epoch and nothing else is answered, one of a newer epoch sleeps with NEW_NODE_VER, and what runs has the epoch of the node |
| `RecoveryGate.RetryNotAnswered` | sheep/request.c:95-138 | a gateway request that has to be tried again is not answered: it sleeps if its peer has a newer epoch, and otherwise runs or sleeps as a new one would |
| `RecoveryGate.NextOrderly` | sheep/request.c:153-273 | every step answers the request whose worker is done and beside that sets only requests to run that may run in the state it leaves, and answers only peers of an older epoch |
| `RecoveryGate.RunAdmits` | sheep/request.c:153-206 | in every run a request that a step sets to run has the epoch of the node, and unless it is exempt its object is stored, done or was not asked for |
| `RecoveryGate.RunRefuses` | sheep/request.c:153-163 | in every run all that is answered beside work that is done are peers of an older epoch, with the epoch of the node |
| `RecoveryGate.RunRoles` | sheep/request.c:216-236 | in every run only gateways wait with OLD_NODE_VER and only peers with NEW_NODE_VER, so the asserts on lines 223 and 233 cannot fire |
| `RecoveryGate.WakeOrder` | sheep/request.c:209-273 | those who do not sleep for what a wakeup is for sleep on, unchanged and in order, ahead of those who go back to sleep |
| `RecoveryGate.FinishServes` | sheep/recovery.c:843-858 | once recovery is over nobody sleeps on any object, but for peers of a newer epoch |
| `RecoveryGate.ObjectServed` | sheep/recovery.c:976-1026 | the completion of an object, unless another recovery is pending, leaves nobody asleep on it, but for peers of a newer epoch |
| `RecoveryGate.DirectServed` | sheep/recovery.c:647-657 | so does the completion of a direct recovery that has brought the object, and it leaves one direct recovery less |
| `RecoveryGate.ListStarts` | sheep/recovery.c:1028-1084 | with the list at hand as many objects go in flight as there are threads, or all |
| `RecoveryGate.ObjectRefills` | sheep/recovery.c:1008-1026 | each completion is followed by the next object until there is none |
| `RecoveryGate.StartAsks` | sheep/recovery.c:1327-1380 | a start leaves the node at the new epoch with a recovery for it under way or pending, and does not disturb one whose list is being made |
| `RecoveryNode.Lfind` | sheep/recovery.c:708-732 | the linear search finds the first slot in its range that holds the object, if there is one |
| `RecoveryNode.TakeFromWindow` | sheep/recovery.c:985-993 | the in-place exchange is the window step of the state machine |
| `RecoveryNode.Node.constructor` | sheep/recovery.c:1327-1380 | a node starts in an initial state that satisfies the invariant |
| `RecoveryNode.Node.OidInRecovery` | sheep/recovery.c:682-748 | waits if and only if the object may not be used yet, told from store, list and slots alone, and queues a direct recovery if and only if nobody is at work on it, the one slot too many included |
| `RecoveryNode.Node.QueueRequest` | sheep/request.c:153-206 | runs the request under the epoch of the node if and only if its epoch and its object allow it, answers exactly the peers of an older epoch, and puts any other to sleep, each exactly once, with something outstanding that will wake it; no other request and no recovery is disturbed |
| `RecoveryNode.Node.Wakeup` | sheep/request.c:209-273 | the splice-and-requeue loop leaves the queue of the state machine, in order |
| `RecoveryNode.Node.RunNextRw` | sheep/recovery.c:785-817 | true if and only if a recovery is pending; it takes over if and only if the window is empty, no request is lost, and the invariant holds again |
| `RecoveryNode.Node.FinishRecovery` | sheep/recovery.c:843-858 | nothing is being recovered, no request is lost, nobody waits for an object in vain, and the invariant holds if nothing was outstanding |
| `RecoveryNode.Node.RecoverNextObject` | sheep/recovery.c:860-879 | while objects are left the invariant holds again, with the next object in flight, recovery suspended or a pending one in its place, and no request is lost |
| `RecoveryNode.Node.ResumeSuspendedRecovery` | sheep/recovery.c:881-889 | keeps the invariant and every request, and afterwards a recovery of objects has something in flight unless recovery is disabled |
| `RecoveryNode.Node.RecoverObjectMain` | sheep/recovery.c:976-1026 | keeps the invariant and performs the completion step for any object in flight |
| `RecoveryNode.Node.FinishObjectList` | sheep/recovery.c:1028-1084 | keeps the invariant and performs the list step for any list |
| `RecoveryNode.Node.DirectRecoverObjectMain` | sheep/recovery.c:647-657 | keeps the invariant and performs the direct-completion step |
| `RecoveryNode.Node.StartRecoveryAt` | sheep/recovery.c:1327-1380 | keeps the invariant and performs the start step |
| `BTree.PosUnique` | include/util.h:172-194 | in increasing keys the position between the smaller and the others is unique, so the search result is determined |
| `BTree.InsertedValue` | lib/sd_inode.c:374-384 | an entry put in a sorted leaf answers for its own index and changes no other answer |
| `BTree.SplitValue` | lib/sd_inode.c:419-437 | the two halves of a sorted leaf answer, each on its side, as the whole did |
| `BTree.TransferKeeps` | lib/sd_inode.c:439-474 | turning a full leaf into a root with two leaves keeps the tree valid and every answer |
| `BTree.UpdateKeeps` | lib/sd_inode.c:674-688 | overwriting the vid of an index present is a map update and keeps the tree valid |
| `BTree.InsertKeeps` | lib/sd_inode.c:610-625 | a new index in a leaf with room is a map update and keeps the tree valid |
| `BTree.AppendKeeps` | lib/sd_inode.c:626-635 | a new index past the last key goes to the last leaf, whose key rises with it |
| `BTree.NewLeafKeeps` | lib/sd_inode.c:636-653 | when the last leaf is full a new leaf is opened at the end of the root |
| `BTree.SplitKeeps` | lib/sd_inode.c:566-588 | splitting with the last entry as the key keeps root keys increasing and equal to their leaf's maximum, and every answer |
| `BTree.OnceWithRoom` | lib/sd_inode.c:661-704 | with room one turn of the loop performs the update |
| `BTree.SetRefines` | lib/sd_inode.c:661-704 | with the intended split key every set below root capacity is a map update, whatever it rearranges |
| `BTree.SetAsWritten` | lib/sd_inode.c:661-704 | the code as written does the same for every set that splits no leaf |
| `BTree.WrittenGet` | lib/sd_inode.c:575-587 | what every index answers after a split as written: the left half hangs under key 0 |
| `BTree.SplitAsWrittenExact` | lib/sd_inode.c:575-587 | a set that splits a leaf as written reads back as a map update if and only if the left half holds no vid that is lost |
| `BTree.FullRootExact` | lib/sd_inode.c:398-417 | were the root full, the left half would be dropped, and the set would read back as a map update if and only if that half held no vid |
| `BTree.RootNeverFull` | lib/sd_inode.c:398-417 | in a valid tree whose leaves but the last are half full the root has at most 16385 of 262143 entries, so nothing is dropped |
| `BTree.SetPacked` | lib/sd_inode.c:661-704 | every set of a 32-bit index, as written every set that splits no leaf, is a map update that keeps the tree valid and its leaves but the last half full |
| `BTree.SplitLosesVids` | lib/sd_inode.c:575-587 | a run as written from the empty inode: 786430 even indices, then an odd one in the full last leaf, after which earlier vids read back wrong |
| `BTree.RunRefines` | lib/sd_inode.c:661-704 | in every run of sets of 32-bit indices from the empty inode get returns the vid set last for an index, and nothing where none was, and the root has room |
| `SdInode.Nbsearch` | include/util.h:172-194 | the binary search ends at the first key not below the one sought |
| `SdInode.OverlayReplace` | lib/sd_inode.c:302-313 | updating a cached node changes what the cache shows for it and nothing else |
| `SdInode.OverlayHides` | lib/sd_inode.c:684-688 | a write to the store under a cached node changes nothing that is read |
| `SdInode.Inode.IcacheFind` | lib/sd_inode.c:292-300 | finds the slot of a cached node, if there is one |
| `SdInode.Inode.IcacheRelease` | lib/sd_inode.c:253-267 | writing out and emptying the cache changes nothing that is read |
| `SdInode.Inode.IcacheInsert` | lib/sd_inode.c:269-290 | caching a node, with a write-out of everything when the cache is full, is a write of that node |
| `SdInode.Inode.ReadNode` | lib/sd_inode.c:315-328 | a read returns the cached node, else the stored one |
| `SdInode.Inode.WriteNode` | lib/sd_inode.c:302-313 | a write of a whole node, new or old, shows for that node and nothing else |
| `SdInode.Inode.WriteVid` | lib/sd_inode.c:684-688 | a write of one vid shows if the node is not cached and is lost to readers if it is |
| `SdInode.Inode.TransferToIdxRoot` | lib/sd_inode.c:439-474 | in place, the inode and the nodes become the transferred tree |
| `SdInode.Inode.SplitIndexNode` | lib/sd_inode.c:566-588 | in place, the inode and the nodes become the tree split as written |
| `SdInode.Inode.TurnInRange` | lib/sd_inode.c:610-625 | one turn for an index within the root's keys performs the tree's turn, or misses it when the entry is cached |
| `SdInode.Inode.TurnBeyond` | lib/sd_inode.c:626-654 | one turn for an index beyond the last key performs the tree's turn |
| `SdInode.SecondTurn` | lib/sd_inode.c:661-704 | after a transfer or a split the next turn always succeeds, so the loop turns at most twice |
| `SdInode.Inode.SetVidForBtree` | lib/sd_inode.c:661-704 | the loop ends with the tree that one set gives, also where splits have left wrong keys, or with the tree unchanged when the partial write is hidden by the cache; in a valid tree a set of a new index that splits nothing caches the leaf it goes to and no other node, and a set of a present one caches nothing |
| `SdInode.Inode.GetVid` | lib/sd_inode.c:539-560 | get returns the vid the tree holds and 0 for an index it does not hold |
| `SdInode.SetSame` | lib/sd_inode.c:674-688 | setting the vid an index already has changes nothing |
| `BTreeRange.SetShape` | lib/sd_inode.c:661-704 | which leaf an index goes to does not depend on the vids: a set does the same to the shapes of two trees of one shape |
| `BTreeRange.MatchesNext` | lib/sd_inode.c:661-704 | the leaf an index of a range goes to is told from the keys at the start: a set below an index present moves no root key, a transfer included |
| `BTreeRange.CoveredNext` | lib/sd_inode.c:684-688 | a new index shadows exactly the later entries of the leaf it goes to, and a present one shadows nothing more |
| `BTreeRange.ShadowedTwoLevels` | lib/sd_inode.c:684-737 | with two levels an index is shadowed if and only if it has an entry and a new index of the range before it belongs to the same leaf |
| `BTreeRange.OneLeafLosesNothing` | lib/sd_inode.c:706-737 | a range that a single leaf takes loses nothing |
| `BTreeRange.UniformLosesNothing` | lib/sd_inode.c:706-737 | a range of indices all new, all present, or a single one loses nothing |
| `SdInode.FollowingStep` | lib/sd_inode.c:661-737 | one more index keeps the tree behind the cache in step with direct sets: same shape, all answers known, equal if nothing is lost, and the entries to come that are cached are the shadowed ones |
| `BTreeNew.SplitLoose` | lib/sd_inode.c:566-588 | a split as written, with or without room in the root, keeps the keys in order, with only 0 repeated, and every leaf sorted and not empty |
| `BTreeNew.AgainTurn` | lib/sd_inode.c:661-704 | in a tree with such keys, too, a second turn for a new index finds room |
| `BTreeNew.NewSet` | lib/sd_inode.c:661-704 | a new index is put into any such tree, splits included, and the indices still to come stay new |
| `SdInode.UsableReady` | lib/sd_inode.c:661-704 | the binary searches for a new index other than 0 work in such a tree, before and after a split |
| `SdInode.GrowingStep` | lib/sd_inode.c:706-737 | with the range so far in place, a set of the next new index through the cache is a direct set |
| `SdInode.SingleIndex` | lib/sd_inode.c:706-737 | the set of a single index is always a direct set |
| `SdInode.Inode.SetVidRange` | lib/sd_inode.c:706-737 | for any range that splits no leaf, new and present indices mixed, every index of it ends with the vid but the shadowed ones, which keep what they had, everything else stays, and the result is the tree of direct sets if and only if every shadowed index had the vid already; for a range of new indices it is that tree whatever is split |
| `SdInode.Inode.RangeLosesUpdate` | lib/sd_inode.c:684-737 | a new index followed by one already in the same leaf: the second update is lost |
| `Placement.FirstsDistinct` | include/sheep.h:75-86 | the chosen vnodes are in pairwise different zones |
| `Placement.FirstsCover` | include/sheep.h:82-84 | every vnode passed over is in a zone already chosen |
| `Placement.FirstsAreFirst` | include/sheep.h:75-86 | every chosen vnode is the first of its zone clockwise from the object |
| `Placement.FirstsPrefix` | include/sheep.h:67-87 | the vnodes chosen on a shorter walk begin those chosen on a longer one |
| `Placement.ChosenCount` | include/sheep.h:67-87 | as many vnodes can be chosen as there are zones on the ring |
| `Placement.ChosenPlaced` | include/sheep.h:67-87 | told without the ring: every chosen vnode is the first of its zone clockwise from the hash, and what is met before it is in the zone of an earlier one |
| `Placement.SkipClockwise` | include/sheep.h:67-87 | leaving a node off the ring leaves it out of every walk and changes nothing else |
| `Placement.MinimalMovement` | include/sheep.h:67-87 | dropping a node that holds no copy moves nothing; dropping one that does keeps the other copies in order and adds one vnode; read backwards, the same for adding a node |
| `Placement.GetZonesNrFrom` | sheep/group.c:37-64 | the number of zones that store data, up to the copy limit |
| `TreeLayout.FocusRoot` | lib/rbtree.c:25-45 | a tree lies in memory from its root exactly when it does around any place in it |
| `TreeLayout.TurnLeftAt` | lib/rbtree.c:25-45 | the writes of a left rotation leave the rotated tree in memory, parent links included |
| `TreeLayout.TurnRightAt` | lib/rbtree.c:47-67 | the writes of a right rotation leave the rotated tree in memory, parent links included |
| `TreeLayout.LeftRotationOrder` | lib/rbtree.c:25-45 | a left rotation keeps the nodes in order |
| `TreeLayout.SameOrder` | lib/rbtree.c:69-188 | rearranging a subtree without changing its order keeps the order of the whole tree |
| `TreeLayout.SplicedAt` | lib/rbtree.c:236-247 | hanging a node's only child in its place leaves the tree without the node |
| `TreeLayout.MovedAt` | lib/rbtree.c:199-233 | the writes that move the successor, both when it is the right child and when it is deeper, leave the tree with the successor in the node's place |
| `TreeLayout.NoRepeats` | lib/rbtree.c:254-309 | no node occurs twice in the order of a tree laid out in memory |
| `RedBlackTree.ColoredExactly` | lib/rbtree.c:69-188 | the inductive colour invariant holds if and only if no red node has a red child and every path from the root meets the same number of black nodes |
| `RedBlackTree.Shallow` | lib/rbtree.c:69-188 | 2 to the height is at most the square of n + 1: the height is at most 2 log2(n + 1) |
| `RedBlackTree.PlugColored` | lib/rbtree.c:69-188 | a coloured subtree in a matching place makes a coloured tree with a black root |
| `RedBlackTree.SplitColored` | lib/rbtree.c:69-188 | conversely every place in a coloured tree matches its subtree |
| `RedBlackTree.GrandparentThere` | lib/rbtree.c:73-76 | a red parent has a black parent, so the grandparent read is never null |
| `RedBlackTree.SiblingThere` | lib/rbtree.c:130-132 | a subtree one black node short has a sibling, so the sibling read is never null |
| `RedBlackTree.RbTree.RotateLeft` | lib/rbtree.c:25-45 | in place, the subtree becomes its left rotation and the rest of the tree is untouched |
| `RedBlackTree.RbTree.RotateRight` | lib/rbtree.c:47-67 | in place, the subtree becomes its right rotation and the rest of the tree is untouched |
| `RedBlackTree.RbTree.InsertUnderLeft` | lib/rbtree.c:76-96 | one turn moves the red node up and keeps colours and order, the parent being a left child |
| `RedBlackTree.RbTree.InsertUnderRight` | lib/rbtree.c:97-118 | one turn moves the red node up and keeps colours and order, the parent being a right child |
| `RedBlackTree.RbTree.InsertColor` | lib/rbtree.c:69-122 | the loop ends, the tree is coloured with a black root, and the order is the same |
| `RedBlackTree.RbTree.EraseUnderLeft` | lib/rbtree.c:130-156 | one turn either mends the tree or moves the shortage up, the short subtree being a left child |
| `RedBlackTree.RbTree.EraseUnderRight` | lib/rbtree.c:157-184 | one turn either mends the tree or moves the shortage up, the short subtree being a right child |
| `RedBlackTree.RbTree.EraseColor` | lib/rbtree.c:124-188 | the loop ends, the tree is coloured with a black root, and the order is the same |
| `RedBlackTree.RbTree.MoveSuccessor` | lib/rbtree.c:199-233 | a node with two children gives way to its successor, and the place where black may be missing is returned |
| `RedBlackTree.RbTree.Erase` | lib/rbtree.c:190-252 | for every tree and every node in it the order loses exactly that node, links and colours stay right, and sortedness is kept |
| `RedBlackTree.RbTree.Search` | include/rbtree.h:78-101 | finds the node with the key if and only if there is one |
| `RedBlackTree.RbTree.Insert` | include/rbtree.h:103-134 | inserts if and only if the key is absent; then the order gains exactly the new node and stays sorted, and otherwise nothing changes and the node present is returned |
| `RedBlackTree.RbTree.Nsearch` | include/rbtree.h:136-165 | the first node from the key on, or the first of all past the last key, or null for an empty tree |
| `RedBlackTree.RbTree.First` | lib/rbtree.c:254-265 | the first node in order, or null |
| `RedBlackTree.RbTree.Next` | lib/rbtree.c:279-309 | the node that follows in order, or null at the end and for a cleared node |
| `RedBlackTree.RbTree.Walk` | include/rbtree.h:167-171 | first and next enumerate every node once, in order |
| `RedBlackTree.RbTree.constructor` | include/rbtree.h:36-40 | an initialised root is an empty tree |
| `VnodeRing.CeilingIsFirst` | include/sheep.h:57-65 | the node found by the tree search is the vnode at which the walk round the ring starts |
| `VnodeRing.OidToFirstVnode` | include/sheep.h:57-65 | the search of the tree ends at the first vnode at or after the hash, wrapping past the last |
| `VnodeRing.NextVnode` | include/sheep.h:77-79 | the next node, or the first after the last, is one step round the ring |
| `VnodeRing.OidToVnodes` | include/sheep.h:67-87 | over the tree, panics if and only if more copies are wanted than there are zones on the ring; otherwise returns the first vnode of each new zone in clockwise order |
| `VnodeRing.NodeToVnodes` | include/sheep.h:253-268 | the vnodes of a node, each at the hash of the one before and the first at the hash of the node's hash, go into the tree beside those there, or two vnodes have the same hash |
| `VnodeRing.NodesToVnodes` | include/sheep.h:270-277 | panics if and only if two vnodes have the same hash; otherwise the tree holds all vnodes of all nodes in hash order, as many as the nodes ask for, and the keys of a node are the repeated hashes of its own hash |
| `VnodeRing.ChainedAt` | include/sheep.h:256-266 | in the tree the key of the first vnode of a node is the hash of the node's hash, and the key of every other one the hash of the key before it |
| `VnodeRing.RingBuilt` | include/sheep.h:253-277 | what is built is a ring, and the zones on it are exactly those of the nodes that store data |
| `VnodeRing.OidToCopies` | sheep/vdi.c:315-318 | when no two vnodes have the same hash and some node stores data, asking for the smaller of copies and zone count never panics and yields that many vnodes of the nodes, in different zones, each the first of its zone clockwise from the hash of the object, with nothing met before it but vnodes of earlier zones |
| `Striping.JoinSlice` | sheep/gateway.c:185-200 | a run of stripes is a slice of the object's bytes |
| `Striping.JoinCuts` | sheep/gateway.c:195-197 | cutting a stripe into strips and joining them gives it back |
| `Striping.EncodeStripe` | sheep/gateway.c:185-200 | the strips made for one stripe, parity included, are a codeword of its data |
| `Striping.ReplicaHolds` | sheep/gateway.c:185-200 | for every stripe the replica of data strip k holds piece k of its bytes |
| `Striping.BufferWrites` | sheep/gateway.c:66-114 | writing the prepared stripes back changes the range written and the spill after an aligned short write, nothing else |
| `Striping.BufferCreates` | sheep/gateway.c:81-84 | on creation the prepared stripes give zeros around the data |
| `Striping.WriteExact` | sheep/gateway.c:99-110 | a write is an update of the flat bytes if and only if it is not stripe-aligned and shorter than a stripe, or the rest of that stripe is zero already |
| `Striping.ShortWriteLosesData` | sheep/gateway.c:99-110 | a new object, a full stripe and then a shorter piece at its beginning: the rest of the stripe reads as zeros, which is right if and only if it was zero |
| `Striping.ErasureObject.constructor` | sheep/gateway.c:120-206 | a new object reads as zeros and every stripe is a codeword |
| `Striping.ErasureObject.Read` | sheep/gateway.c:224-267 | any range reads as the flat contents |
| `Striping.ErasureObject.InitErasureBuffer` | sheep/gateway.c:66-114 | the buffer is the touched stripes with old data read around the new exactly where the code reads it |
| `Striping.ErasureObject.WriteStripes` | sheep/gateway.c:185-200 | the stripes written are replaced, all others keep their bytes, and every stripe is a codeword |
| `Striping.ErasureObject.Write` | sheep/gateway.c:120-206 | the flat contents change by the data and the spill, and every stripe stays a codeword |
| `Striping.ErasureObject.CreateAndWrite` | sheep/gateway.c:120-206 | the first write leaves the data in zeros, and every stripe is a codeword |
| `Journal.LeRoundTrip` | sheep/journal.c:390-399 | a field that fits its width reads back as written |
| `Journal.BuildEntry` | sheep/journal.c:390-399 | the buffer is a whole number of sectors from which the entry reads back, its descriptor in front, zeros behind the data and the marker at the end, whatever its data |
| `Journal.RawParse` | sheep/journal.c:125-191 | a whole entry parses back to what was logged, whatever its data |
| `Journal.HoldsPartly` | sheep/journal.c:230-232 | an entry of which some but not all sectors reached the disk shows its descriptor and no end marker |
| `Journal.SeesNothing` | sheep/journal.c:223-229 | the scan never stands inside data: where nothing was written it sees no descriptor |
| `Journal.SeesEntry` | sheep/journal.c:223-238 | where an entry was started the scan stands at its beginning, takes it for complete exactly when it is, and steps over all of it |
| `Journal.JournalEntryFullWrite` | sheep/journal.c:125-134 | at any place where an entry was started, true if and only if all of its sectors were written |
| `Journal.DoRecover` | sheep/journal.c:193-243 | for any entries at reserved places, each persisted up to any sector, the scan replays exactly the complete ones in order |
| `Journal.Absorb` | sheep/journal.c:136-191 | one store entry more absorbed beforehand does not change the result of the whole replay |
| `Journal.ReplayIdempotent` | sheep/journal.c:136-191 | replaying a log of stores over a store that absorbed any prefix of it gives the same store |
| `Journal.ReplayAgain` | sheep/journal.c:136-191 | replaying any log, removals included, over a store that absorbed any prefix of it fails if and only if an entry is bad for that store, and otherwise gives the same store |
| `Journal.CheckRecoverJournalFile` | sheep/journal.c:251-276 | with the store holding the effects of any prefix of both logs, recovery of the older file and then the newer gives the effects of all complete entries of both, or fails if and only if one of them is bad for the store as found |
| `Journal.MtimeExact` | sheep/journal.c:110-116 | all logs are replayed in the order in which they were written if and only if file 1 is not the newer one in the same second |
| `Journal.PresentIs` | sheep/journal.c:148-170 | which objects exist after a replay, told from the log |
| `Journal.ReplayFails` | sheep/journal.c:155-171 | a replay fails if and only if some entry has a foreign flag or writes without create to an object absent at that point |
| `Journal.RemovedThenFails` | sheep/journal.c:167-171 | a write followed by the removal of the object replays once and fails the second time |
| `Journal.ReservationsDisjoint` | sheep/journal.c:383-388 | reservations in one file between switches never overlap |
| `Journal.SwitchesExactly` | sheep/journal.c:383-388 | a reservation stays in the file if and only if it leaves room behind it, and then follows the one before; otherwise it is the first in the other file |
| `Journal.PlacesAreStarts` | sheep/journal.c:383-388 | in a file taken from its beginning the places reserved are those at which the scan finds entries |
| `Journal.FdParity` | sheep/journal.c:383-407 | after n reservations the file of an earlier one is open if and only if an even number of switches came after it |
| `Journal.Tiled` | sheep/journal.c:383-388 | from a switch on the live reservations leave no byte below the position uncovered |
| `Journal.LandsWhereReserved` | sheep/journal.c:407-407 | for any reservations in between the write reaches the file it was reserved in if and only if the number of switches since is even; with no switch it overlaps no live entry, and with any it overlaps one if and only if the file there is filled beyond its offset |
| `Journal.LateWriteDestroys` | sheep/journal.c:407-407 | three reservations with two switches: the late write is back in its own file and over an entry reserved there since |
| `MajorityVote.MarginStep` | dog/vdi.c:2114-2168 | the candidate's lead bounds every other hash's surplus, one more copy at a time |
| `MajorityVote.MajorityMeans` | dog/vdi.c:2157-2159 | having the majority means that more of the copies found have the hash than have another |
| `MajorityVote.VoteMajorityObject` | dog/vdi.c:2114-2168 | succeeds if and only if some hash is held by more than half of the live copies, and then names a copy with that hash |
| `Backup.CompactObjBackup` | dog/vdi.c:2332-2353 | the range kept is the smallest that covers all differing sectors |
| `Backup.CompactUnique` | dog/vdi.c:2332-2353 | that range is determined by the two objects |
| `Backup.CompactRestores` | dog/vdi.c:2332-2353 | writing the range over the old object gives the new one |
| `Backup.GetObjBackup` | dog/vdi.c:2355-2391 | an empty record means the objects read the same; any other record turns the old into the new |
| `Backup.VdiBackup` | dog/vdi.c:2393-2479 | the stream is a header, one record per object that differs in ascending order, and the end marker |
| `Backup.DoRestore` | dog/vdi.c:2518-2583 | for any stream: a wrong header restores nothing; otherwise exactly the records before the first end marker or gap are restored, in order, and it succeeds if and only if an end marker follows them |
| `Backup.LeadingOfBackup` | dog/vdi.c:2553-2572 | of a backup stream cut off anywhere exactly the records before the cut are read |
| `Backup.RestoredAt` | dog/vdi.c:2494-2516 | an object named by one record reads as the parent's object with the record written over it |
| `Backup.RoundTrip` | dog/vdi.c:2393-2583 | restoring the backup onto the older snapshot makes every object below the count read as in the newer one and leaves the rest |
| `Backup.TruncatedRestore` | dog/vdi.c:2553-2572 | restoring a backup cut off after m records gives the newer snapshot below the first missing record and the older one from there on |
| `ListSort.MergeLoop` | lib/util.c:455-465 | the loop relinks the two chains into one ordered chain and a rest, ties taken from the first |
| `ListSort.Merge` | lib/util.c:448-468 | the result is an ordered, stable chain of exactly the nodes of both, and links elsewhere stay |
| `ListSort.RestoreBackLinks` | lib/util.c:501-515 | the back links of the rest are restored and the ring is closed |
| `ListSort.MergeAndRestoreBackLinks` | lib/util.c:477-516 | the result is a ring in both directions, ordered and stable, of exactly the nodes of both |
| `ListSort.Carry` | lib/util.c:556-570 | the binary counter absorbs one more chain, the slot chosen is empty, and the sentinel stays null at any length |
| `ListSort.FillSlots` | lib/util.c:546-571 | at the end all nodes are in ordered slots and the top slot is not empty |
| `ListSort.EmptySlots` | lib/util.c:573-575 | the slots below the top are merged into one ordered chain |
| `ListSort.ListSort` | lib/util.c:532-578 | for every list and every total preorder the list becomes a sorted, stable permutation of itself with correct links both ways |
| `ListSort.SortedAndStable` | lib/util.c:518-531 | what the order proved means: sorted, and equivalent nodes in the order they had |

## Left out

- Sockets, event loop, connection pools, RDMA and the logger: input and output plumbing.
- Command parsing, printing, the FUSE file system, scripts and tracing: user interface.
- The ISA-L branches of encoding and decoding and SHA-1 itself: foreign code, and digests are opaque values here.
- Cluster drivers and on-disk store drivers: the model assumes an abstract object store, and epochs that only rise.
- The kernel block device (sbd): depends on kernel interfaces.
- Floating-point weighting of vnodes: vnode counts are inputs.
- The object list cache, checkpointing and repair of single objects: they work on the on-disk store, which is abstract here.
- Recovery throttling timers, completion notification, memory ownership: the steps modelled are those with throttling off; the number of recovery threads is positive; epochs are compared without wrap-around.
- Recovery.RunKeeps: a new request carries no result, as it is allocated zeroed; the disk-full cancel is not a step of these runs; `Recovery.CancelStrands` follows the runs after one.
- ErasureCode.EcDecode: at most 255 data strips, because the loops of the source count in an unsigned char, fewer than 16 parity strips, because of its fixed buffers, and at most 256 strips, which `EncodeMatrix.StripLimit` shows to be exact.
- Striping.ErasureObject.Write: the strip size divides the stripe, as for the 2, 4, 8 or 16 data strips that dog/vdi.c accepts; replicas are sequences of strips, and requests between gateway and replicas do not fail.
- GenerationalRefcount.RunKeeps: the writes of one request are atomic, new vids are fresh, chains of copies stay below the 2^20 entries of a ledger, fewer than 2^32 references and messages are outstanding, and a ledger has one replica. Discards are not steps of these runs: after one, an object is gone while its decrement is under way.
- Deletion of hypervolumes: for them the source does not support generational reference counting (sheep/vdi.c:1797-1803).
- GenerationalRefcount.NoLeak: memory failures between a write and its decrements are not modelled.
- BTree.RunRefines: indices have 32 bits, oid counters do not wrap, and the runs of the code as written are those that split no leaf; `BTree.SplitAsWrittenExact` covers the sets that do.
- SdInode.Inode.SetVidRange: starts with an empty cache, as every range update does, and leaves out ranges of new and present indices in which a set splits a leaf, after which entries that are present can no longer be found.
- SdInode.Inode.GetVid: reads bypass the cache in the source, which is empty outside a range update.
- Journal.CheckRecoverJournalFile: both files are there, and a later one is not modified before an earlier; the commit thread is not modelled, and sectors of an entry reach the disk in order.
- VnodeRing.NodesToVnodes: the hash functions are parameters, node hashes are inputs, and vnodes are numbered in the order in which they are made instead of being allocated.
- GaloisTables.GfMul: the tables, static arrays in the source, are passed as a value once they are filled.
- EncodeMatrix.FecNew: (dp - 2) * (d - 1) is below 2^31, because lib/fec.c:486 passes the exponent as an int.
- RedBlackTree.RbTree.Insert: the comparison function is given by an integer key per node, and memory is one sequence of cells addressed by node.
- RedBlackTree.RbTree.Search: shares one walk down with insertion, where the source has two identical loops.
- rb_last, rb_prev, rb_replace_node, rb_copy, rb_destroy: mirror images and compositions of what is modelled.
- Backup.DoRestore: records are sectors, not bytes, and lie within an object, for whose size the source reads into a fixed buffer; requests do not fail; a stream without a full header counts as one with a wrong header.
- ListSort.ListSort: nodes are indices into arrays of links; the comparison has no side effects.
