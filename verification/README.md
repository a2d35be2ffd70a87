# Proofs about InnoDB's optimizer and its neighbours

A Dafny model of the self-contained algorithms in this code base, with proofs of what they promise.
`dafny verify dfyconfig.toml` checks everything.

**The select optimizer** (`pars0opt.cc`). A select with a conjunctive WHERE clause becomes, table by table, an index, a
search tuple with a mode, end conditions that stop the scan, and other conditions; conjuncts that the cursor position
implies are dropped. `Planner.SelNode` is the optimizer as it changes the select node in place. `Executor` says what
`row_sel` does with a plan (row0sel.cc, lines 475-534, 676-746 and 942-1598); the table below cites the plan fields it
relies on. The main theorem is that running the plan gives the filtered cross product, stated once in the order of the
scanned indexes (`PlanMeaning.PlanPreservesMeaning`) and once without any plan: exactly the answers of the query, each
once (`QueryAnswer`), iff no table is accessed by a unique search in descending order. `ResultOrder` and `OrderByCheck`
prove that the ORDER BY check accepts what gives the order and, with one exception, refuses only what does not;
`PlanComplete` that nothing usable is missed; `ColumnLists` the column classification. Files: Query, Lookup, AccessPath,
PlanFacts, PlanComplete, ColumnLists, Planner, LexOrder, Executor, PlanMeaning, QueryAnswer, UniqueSearch, ResultOrder,
OrderByCheck.

**AES** (`common/revolver/aes.c`). GF(2^8) and FIPS-197 are defined on their own; the generated tables, the unrolled
rounds and the two key schedules are proved equal to them, and decryption undoes encryption for every key and block.
Known answers of the standard pin the definitions. Files: GaloisField, Fips197, Aes, AesCipher, AesKeySchedule,
AesVectors.

**Random numbers, folding, primes** (`ut0rnd.cc`). The generator enumerates all words of the machine, from any seed.
Files: Words, Random, Folding, Primes, RandomValues.

**The scanner skeleton** (`lexyy.c`, `pars0pars.cc`). Buffer moves, growth, the hold character and back-up are invisible:
the tokens are those of one unbounded buffer. Files: Automaton, Scanner.

**Checksums and digests** (`ul0crc32.cc`, `common/revolver/md5c.c`). Slicing by eight is CRC-32C, and incremental MD5 is
MD5 as long as its bit count is exact. Files: MachineWords, Crc32, CrcVectors, Md5, Md5Vectors.

**Background drops and the index check** (`row0mysql.cc`), **sessions** (`usr0sess.cc`). State machines over critical
sections, with invariants over every interleaving. Files: IndexCheck, DropQueue, DropUses, Session, SessionRuns.

**Integer codecs, base64, debug heap** (`mach0data.cc`, `common/revolver/base64.cpp`, `mem0dbg.cc`). Round trips, order,
cut streams; layout, validation and accounting of all live heaps. Files: Codec, Base64, Base64Values,
DebugHeap, HeapRegistry, LiveHeaps.

## Where the code falls short of what it says

- `row_sel` asserts that a unique search is made upwards, but the optimizer also plans unique searches for a descending
  order (row0sel.cc, lines 891-897 and 1191-1203). The count of matched fields it reads is then that of the next record
  (btr0sea.cc, lines 344-359). `Executor` does what `row_sel` does when it is compiled without assertions: such a search
  finds nothing, and with it the whole query. `PlanMeaning.PlanPreservesMeaning` and `UniqueSearch.AssertedIff` give the
  exact condition; `PlanMeaning.PlanDecides` shows that the plan itself is right in both directions.
- The ORDER BY check refuses a column that is itself matched exactly while several rows may match, although the rows
  then always come in the requested order. `OrderByCheck.CheckDecides` says exactly what the check accepts, and
  `OrderByCheck.MatchedColumnRefused` gives a query.
- `ut_rnd_interval` says that it can generate the upper bound. It does so only when both bounds are equal
  (`RandomGenerator.Generator.Interval`).
- `ut_fold_binary` rounds the length with a 32-bit mask, so it folds all bytes iff the length is below 2^32
  (`Folding.FoldsAllBytesIff`).
- `MD5Update` tests for overflow against the number of bytes where the number of bits is meant. `Md5.CarryRightIff` and
  `Md5.CountExactIff` say exactly when the count stays right, and `Md5.CarryLost` shows a carry that is lost.
- A session that answers a message with a pending error does not count the message, so a client that numbers its
  messages one after the other has its next message declared lost although none was (`Session.ConsecutiveMessageLostIff`,
  `Session.ConsecutiveClientLoses`).
- The background drop queue keeps names. A table that is renamed after its drop was put off is never dropped
  (`DropQueue.RenamedDropIsLost`), and an entry that outlives its table hits a new table of the same name
  (`DropQueue.StaleEntryDropsNewTable`). `DropQueue.RunRemembersIff` and `DropQueue.JustifiedMeans` say exactly when.
- mem0mem.cc creates, fills and frees heaps (lines 58-189) without calling the debug functions; the model calls them
  where their comments say.

## Model

| member | source | states |
|---|---|---|
| Query.CondIsAllLeaves | pars0opt.cc:221-286 | a search condition of ANDed comparisons holds iff every comparison in it holds |
| Lookup.SwapKeepsMeaning | pars0opt.cc:34-55 | inverting the operator and swapping the arguments keeps the meaning of a comparison, and doing it twice changes nothing |
| Lookup.DeterminedMonotone | pars0opt.cc:63-115 | what can be calculated before a table can be calculated before every later one |
| Lookup.ResolvedIsDetermined | pars0opt.cc:63-115 | an expression over columns of the FROM list can be calculated once all tables have been accessed |
| Lookup.DeterminedValue | pars0opt.cc:63-115 | an expression found determined has the same value whatever rows the later tables supply |
| Lookup.OwnColumnUndetermined | pars0opt.cc:63-115 | a column is determined after the access to its own table and not before |
| Lookup.ComparisonMeaning | pars0opt.cc:122-212 | the expression and operator a look-up returns say exactly what the comparison says about the column, and the expression is known before the table |
| Lookup.LookedUpIsClaimed | pars0opt.cc:122-212 | a comparison that gives a value for a column becomes determined with exactly that column's table |
| Lookup.LookFinds | pars0opt.cc:221-286 | the search through the condition finds something iff some conjunct offers it for the scan direction, and returns what one of them offers |
| AccessPath.ExactRunIsMaximal | pars0opt.cc:325-361 | the exactly matched fields are the longest gapless run of index fields with an equality |
| AccessPath.GoodnessDecodes | pars0opt.cc:325-391 | unpacking the packed score gives back the number of matched fields, and a score of 1024 or more means that every unique field is matched |
| AccessPath.GoodnessRanks | pars0opt.cc:325-376 | the packed scores are in the order of preference: all unique fields matched, a clustered index among those first; then more exactly matched fields; then a range on the next field; then a clustered index |
| AccessPath.ChosenOverOthers | pars0opt.cc:540-565 | if all unique fields of some index are matched, so are those of the chosen one, which is clustered if that one is; of its kind none has more exact fields, nor a range field or clustering where it has none |
| AccessPath.RecordedExps | pars0opt.cc:325-361 | expressions recorded field by field, one for each exact field and one for the range field, are the search tuple |
| AccessPath.LastOpUsable | pars0opt.cc:398-428 | the operator that positions the cursor suits the scan direction; it is an equality iff there is no range field |
| AccessPath.TupleLength | pars0opt.cc:563-588 | the search tuple has one entry for each exactly matched field and one for the range field if there is one |
| AccessPath.LeaderIsBest | pars0opt.cc:540-565 | the index that leads when all have been scored is preferred to all before it, none is preferred to it, and its recorded expressions are the ones to search with |
| AccessPath.BestIsIndex | pars0opt.cc:540-565 | the chosen index is an index of the table |
| AccessPath.OfClassMembers | pars0opt.cc:724-763 | a conjunct is in a list of its class iff it is in the condition and falls in that class, and none is listed twice |
| AccessPath.WithCondsConcat | pars0opt.cc:724-763 | sorting the conjuncts of one half of an AND and then of the other is sorting those of both |
| AccessPath.PlanSwapped | pars0opt.cc:771-833 | a plan made after earlier tables had arguments swapped is the plan of the condition as written |
| PlanFacts.ExactSource | pars0opt.cc:297-378 | every exactly matched field got its value from an equality in the condition, and that conjunct becomes an end condition |
| PlanFacts.RangeSource | pars0opt.cc:297-378 | the last tuple entry of a range search comes from a conjunct that the table claims |
| PlanFacts.EndCondMeaning | pars0opt.cc:629-718 | an end condition equates a matched field with its tuple value or limits the next field from the side the scan runs towards |
| PlanFacts.ScrollCondMeaning | pars0opt.cc:629-718 | a conjunct dropped as scroll condition is the very limit the cursor was positioned with |
| PlanFacts.EnoughEndConds | pars0opt.cc:813-833 | there are at least as many end conditions as exactly matched fields, which the source asserts |
| PlanFacts.NormalizedEndCond | pars0opt.cc:771-805 | after normalization an end condition has a column of the table on the left and an expression known before the table on the right |
| PlanFacts.EndCondClaimed | pars0opt.cc:629-718 | end conditions of a table are claimed by it and by no earlier table |
| PlanComplete.DeterminedIff | pars0opt.cc:63-115 | an expression is found determined before a table exactly when its value is fixed by the rows of the earlier tables, whatever its functions compute |
| PlanComplete.OfferedIff | pars0opt.cc:122-212 | a comparison offers something for a column exactly when it is of the right kind, the column is one side, and the value of the other side is fixed before the table |
| PlanComplete.LookTakesFirst | pars0opt.cc:221-286 | the search through the condition takes the first usable offer, from left to right |
| PlanComplete.RangeMissesNothing | pars0opt.cc:345-358 | there is no range field only if no conjunct offers a usable limit on the field after the exact ones |
| PlanComplete.FarLimitEndsScan | pars0opt.cc:693-713 | every limit on the field after the exact ones, on the side the scan runs towards, is an end condition |
| PlanComplete.PositionIsNotTested | pars0opt.cc:682-692 | the conjunct the cursor is positioned with is not tested again |
| Planner.SelNode.constructor | pars0opt.cc:1119-1143 | the select node before planning: no plans, no copy flags, no indirections |
| Planner.SelNode.CalcIndexGoodness | pars0opt.cc:297-378 | the score is the documented one, which ranks indexes by preference, the plan array holds the search expressions, and the operator is that of the last one |
| Planner.SelNode.ChooseIndex | pars0opt.cc:540-565 | the loop over the indexes ends with the first of the most preferred ones and its search expressions |
| Planner.SelNode.SearchPlanForTable | pars0opt.cc:514-622 | the plan entry gets the access path of the first most preferred index; all other entries and fields stay |
| Planner.SelNode.FindTestConds | pars0opt.cc:724-763 | end conditions and other conditions are appended in order, by class; nothing else changes |
| Planner.SelNode.NormalizeCmpConds | pars0opt.cc:771-805 | the listed comparisons, and no others, get the column of the table on the left |
| Planner.SelNode.DetermineAndNormalizeTestConds | pars0opt.cc:813-833 | the plan entry becomes the plan of the table, its end conditions are normalized and at least as many as the matched fields |
| Planner.SelNode.FindAllCols | pars0opt.cc:844-944 | visiting an expression is visiting its column nodes from left to right |
| Planner.SelNode.FindAllColsInCond | pars0opt.cc:844-944 | visiting a condition is visiting its column nodes from left to right |
| Planner.SelNode.FindCopyCols | pars0opt.cc:953-992 | exactly the column nodes of conjuncts that are undetermined after the table are visited with copying |
| Planner.SelNode.FindSelectListCols | pars0opt.cc:1018-1027 | all column nodes of the select list are visited with copying |
| Planner.SelNode.ClassifyCols | pars0opt.cc:1001-1036 | the column list of the table is classified as the query needs, and symbol fields of other tables' nodes stay |
| Planner.SelNode.PlanTable | pars0opt.cc:1145-1159 | planning one more table keeps the plans and normalized end conditions of the earlier ones |
| Planner.SelNode.PlanTables | pars0opt.cc:1145-1159 | the loop in FROM order leaves a plan for every table |
| Planner.SelNode.ClassifyAllCols | pars0opt.cc:1161-1176 | the second loop classifies the columns of every table without changing paths or conditions |
| Planner.SelNode.SearchPlan | pars0opt.cc:1119-1186 | every table is planned and classified, the direction is that of ORDER BY, and the result says whether the ORDER BY check accepts, of which OrderByCheck.CheckDecides says what that means |
| Planner.SortedConds | pars0opt.cc:813-833 | the conjuncts sorted into empty lists make the access path a plan with enough distinct end conditions |
| Planner.PlannedStep | pars0opt.cc:1145-1159 | the loop invariant of planning: one more table with its conditions normalized |
| Planner.ClassifiedStep | pars0opt.cc:1161-1176 | the loop invariant of classification: earlier tables stay classified |
| ColumnLists.VisitKeepsClassified | pars0opt.cc:888-944 | one visit of a column node keeps: one list entry per column, every visited occurrence listed or pointing to its entry, copy flag exactly for wanted columns, clustered fetch iff a listed column is missing from a secondary index |
| ColumnLists.ThreePassesClassify | pars0opt.cc:1001-1036 | the passes over select list, undetermined conjuncts and whole condition classify every column node of the table |
| ColumnLists.PassesTouch | pars0opt.cc:1001-1036 | classifying a table changes no symbol field of a node of another table |
| ColumnLists.CopiedSwapped | pars0opt.cc:771-805 | swapped arguments leave the set of column nodes and of columns to copy as it was |
| PlanMeaning.ClaimedOnce | pars0opt.cc:629-663 | every conjunct is claimed by exactly one table of the join |
| PlanMeaning.EndCondTest | row0sel.h:185-193 | testing a normalized end condition, its right side evaluated when the cursor was opened, decides the conjunct as written |
| PlanMeaning.EndCondsMeaning | pars0opt.cc:663-713 | all end conditions hold iff the exactly matched fields have the tuple's values and no far limit is crossed |
| PlanMeaning.ClaimsMeaning | pars0opt.cc:629-718 | a row satisfies the conjuncts its table claims iff it passes the end conditions, the other conditions and the limit of the cursor position |
| PlanMeaning.PassedFails | pars0opt.cc:398-428 | no row behind the cursor position satisfies the claimed conjuncts |
| PlanMeaning.EarlyStop | pars0opt.cc:663-713 | once an end condition fails at a row, it fails at every later row of the scan: rows before one that passes all end conditions pass them too |
| PlanMeaning.PositionImpliesLimit | pars0opt.cc:682-692 | dropping scroll conditions changes nothing: a row ahead of the cursor with the exact fields satisfies the limit |
| PlanMeaning.TestedIsEnough | pars0opt.cc:629-718 | for a row ahead of the cursor, the claimed conjuncts hold iff the tested ones do |
| PlanMeaning.RangeScan | row0sel.h:185-196 | a scan that stops at the first failing end condition yields exactly the qualifying rows ahead of the cursor |
| PlanMeaning.UniqueScan | pars0opt.cc:590-596 | a unique search upwards that looks at one row only yields exactly the qualifying rows; one downwards yields nothing, because the match count it reads belongs to the record above the cursor |
| PlanMeaning.AtMostOneMatch | row0sel.h:185-193 | when every unique field is matched, no row after a matching one qualifies |
| PlanMeaning.OpenLosesNothing | pars0opt.cc:563-588 | opening the cursor skips only rows that do not qualify |
| PlanMeaning.ScanIsFilter | row0sel.h:185-196 | positioning, scanning and stopping early in one table is filtering all its rows by the claimed conjuncts, unless it is a unique search downwards, which yields nothing |
| PlanMeaning.FailedConjunct | pars0opt.cc:629-663 | once a determined conjunct fails, no combination of later rows is in the meaning of the query |
| PlanMeaning.JoinIsReference | pars0opt.cc:1145-1159 | from any outer row, nested index scans without a unique search downwards produce the filtered cross product of the remaining tables, in order |
| PlanMeaning.JoinIsEmpty | pars0opt.cc:1145-1159 | a unique search downwards at any depth of the nested loops leaves nothing of the result |
| PlanMeaning.PlanPreservesMeaning | pars0opt.cc:1119-1186 | main theorem: for every join, AND-condition and database, running the plan gives the filtered cross product, in the order of the scanned indexes, iff no table is accessed by a unique search downwards or there is nothing to find; otherwise it gives nothing |
| PlanMeaning.PlanDecides | pars0opt.cc:512-622 | whatever runs the plan: a row combination satisfies the whole condition iff at every table its row lies in the index range given by tuple, mode and direction and passes end and other conditions; dropped scroll conditions change nothing |
| PlanMeaning.ReferenceMembers | pars0opt.cc:724-763 | a row combination is in the filtered cross product iff it takes one row from each table and the whole condition holds |
| QueryAnswer.ResultIsAnswers | pars0opt.cc:1119-1186 | without mention of how it is found: a row combination is in the result iff it is one row of each table and satisfies the condition, whichever indexes the optimizer chose, and no table is accessed by a unique search downwards |
| QueryAnswer.ResultIsDistinct | pars0opt.cc:1119-1186 | no row combination is produced twice |
| UniqueSearch.AssertedIff | pars0opt.cc:586-596 | row_sel asserts that unique searches are made with mode GE; the plans of the optimizer keep to this iff the order is ascending or no table is searched for a unique row |
| UniqueSearch.DescendingQueryLosesItsRow | pars0opt.cc:586-596 | a query with a unique key and ORDER BY DESC, a plan the optimizer makes for it, and a row that is its answer but not in the result |
| ResultOrder.SingleRow | pars0opt.cc:462-506 | a table whose unique fields are all matched exactly yields at most one row |
| ResultOrder.NextFieldOrdered | pars0opt.cc:462-506 | of two rows with equal exact fields, the one met first comes first in the next field |
| ResultOrder.TableOrder | pars0opt.cc:462-506 | what the check asks of a table makes its rows at most one, or ordered by the column |
| ResultOrder.OrderByIsHonoured | pars0opt.cc:462-506 | if the check accepts, the whole result comes in the order of the ORDER BY column in the requested direction |
| ResultOrder.TupleIsEvaluated | pars0opt.cc:663-678 | every exactly matched tuple entry is the right side of an end condition, so evaluating those fills the tuple |
| OrderByCheck.OneMatchIff | pars0opt.cc:490-496 | whatever the matched values, an index can hold two rows with them unless all its unique fields are matched |
| OrderByCheck.OutOfOrder | pars0opt.cc:497-504 | two rows with any given matched values, in index order, that a cursor meets out of the order of a column that is neither matched nor next |
| OrderByCheck.MatchesInOrderIff | pars0opt.cc:497-504 | matching rows are always met in the order of a column iff there is at most one, the column is the next field, or it is itself matched |
| OrderByCheck.AcceptsIffGuaranteed | pars0opt.cc:462-506 | the check accepts iff the indexes guarantee one row for every earlier table and ordered rows of the right last table, except that it refuses a matched column while several rows may match |
| OrderByCheck.CheckDecides | pars0opt.cc:462-506 | the same of every plan the optimizer makes |
| OrderByCheck.NextFieldAccepted | pars0opt.cc:500-503 | a last table scanned in an index whose field after the matched ones is the ORDER BY column is accepted |
| OrderByCheck.MatchedColumnRefused | pars0opt.cc:497-504 | a query whose plan the check refuses although its rows always come in the requested order |
| GaloisField.PowSurjective | common/revolver/aes.c:80-84 | every nonzero byte is a power of the generator {03}, so the logarithm table has no holes |
| GaloisField.PowOrder | common/revolver/aes.c:80-84 | no power of {03} between the 0th and the 255th is one |
| GaloisField.InverseOfPow | common/revolver/aes.c:98-100 | the only inverse of the i-th power is the (255 - i)-th, which is what the S-box loop looks up |
| GaloisField.InverseInvolution | common/revolver/aes.c:98-110 | the inverse of the inverse is the byte itself, zero included |
| GaloisField.MulAssociates | common/revolver/aes.c:131-134 | multiplication of section 4.2 of FIPS-197 is associative |
| GaloisField.MulLinear | common/revolver/aes.c:131-134 | multiplication distributes over exclusive or |
| Fips197.SBoxInverse | common/revolver/aes.c:93-110 | the S-boxes of sections 5.1.1 and 5.3.2 of FIPS-197 undo each other |
| Fips197.InvMixUndoesMix | common/revolver/aes.c:112-141 | the column mixing of section 5.3.3 of FIPS-197 undoes that of section 5.1.3 |
| Fips197.RoundsUndone | common/revolver/aes.c:685-771 | after r rounds the equivalent inverse cipher has undone the last r rounds of the cipher |
| Fips197.DecryptionUndoesEncryption | common/revolver/aes.c:595-771 | for every key of 128, 192 or 256 bits and every block, the equivalent inverse cipher undoes the cipher |
| Fips197.EqInvStateIsInvState | common/revolver/aes.c:551-588 | round by round, the equivalent inverse cipher of section 5.3.5 of FIPS-197 with its own schedule is the inverse cipher of section 5.3 |
| Fips197.EqInvCipherIsInvCipher | common/revolver/aes.c:685-771 | both forms of the inverse cipher give the same result |
| SBoxTable.Entry | common/revolver/aes.c:148-182 | a byte with a given inverse has the affine image of this inverse in the S-box |
| SBoxTable.Row0 | common/revolver/aes.c:150-151 | row 0 of figure 7 of FIPS-197 |
| SBoxTable.Row1 | common/revolver/aes.c:152-153 | row 1 of figure 7 of FIPS-197 |
| SBoxTable.Row2 | common/revolver/aes.c:154-155 | row 2 of figure 7 of FIPS-197 |
| SBoxTable.Row3 | common/revolver/aes.c:156-157 | row 3 of figure 7 of FIPS-197 |
| SBoxTable.Row4 | common/revolver/aes.c:158-159 | row 4 of figure 7 of FIPS-197 |
| SBoxTable.Row5 | common/revolver/aes.c:160-161 | row 5 of figure 7 of FIPS-197 |
| SBoxTable.Row6 | common/revolver/aes.c:162-163 | row 6 of figure 7 of FIPS-197 |
| SBoxTable.Row7 | common/revolver/aes.c:164-165 | row 7 of figure 7 of FIPS-197 |
| SBoxTable.Row8 | common/revolver/aes.c:166-167 | row 8 of figure 7 of FIPS-197 |
| SBoxTable.Row9 | common/revolver/aes.c:168-169 | row 9 of figure 7 of FIPS-197 |
| SBoxTable.RowA | common/revolver/aes.c:170-171 | row a of figure 7 of FIPS-197 |
| SBoxTable.RowB | common/revolver/aes.c:172-173 | row b of figure 7 of FIPS-197 |
| SBoxTable.RowC | common/revolver/aes.c:174-175 | row c of figure 7 of FIPS-197 |
| SBoxTable.RowD | common/revolver/aes.c:176-177 | row d of figure 7 of FIPS-197 |
| SBoxTable.RowE | common/revolver/aes.c:178-179 | row e of figure 7 of FIPS-197 |
| SBoxTable.RowF | common/revolver/aes.c:180-181 | row f of figure 7 of FIPS-197 |
| AesVectors.RconIsPower | common/revolver/aes.c:86-91 | the round constants are the powers of {02} in the field, from its one on |
| AesVectors.RconValues | common/revolver/aes.c:398-403 | the ten round constants |
| AesVectors.RoundCounts | common/revolver/aes.c:454-458 | 10, 12 and 14 rounds, figure 4 of FIPS-197 |
| AesVectors.ExpandedA1First | common/revolver/aes.c:475-489 | words 4 to 23 of the expanded 128-bit key of appendix A.1 of FIPS-197 |
| AesVectors.ExpandedA1Rest | common/revolver/aes.c:475-489 | its words 24 to 43 |
| AesVectors.ExpandedA2First | common/revolver/aes.c:491-507 | words 6 to 28 of the expanded 192-bit key of appendix A.2 |
| AesVectors.ExpandedA2Rest | common/revolver/aes.c:491-507 | its words 29 to 51 |
| AesVectors.ExpandedA3First | common/revolver/aes.c:509-536 | words 8 to 33 of the expanded 256-bit key of appendix A.3 |
| AesVectors.ExpandedA3Rest | common/revolver/aes.c:509-536 | its words 34 to 59 |
| AesVectors.CipherExample | common/revolver/aes.c:595-679 | the cipher example of appendix C.1 of FIPS-197 |
| AesTables.GenPowLog | common/revolver/aes.c:78-84 | the first loop leaves the powers of {03} and their logarithms |
| AesTables.LogOf | common/revolver/aes.c:78-84 | every nonzero byte has its logarithm, between 1 and 255, in the table |
| AesTables.MULIsMul | common/revolver/aes.c:69 | multiplying through the logarithm table is multiplication in GF(2^8) |
| AesTables.AffineByShifts | common/revolver/aes.c:102-106 | four rotate-and-add steps and the constant are the affine map of section 5.1.1 of FIPS-197 |
| AesTables.GenSBoxes | common/revolver/aes.c:93-110 | the loop fills the forward and the reverse S-box of FIPS-197 completely |
| AesTables.StoreForward | common/revolver/aes.c:116-127 | one pass stores the mixed and rotated S-box column in FT0 to FT3 and nothing else |
| AesTables.StoreReverse | common/revolver/aes.c:129-140 | one pass stores the inversely mixed and rotated column in RT0 to RT3 and nothing else |
| AesTables.AesGlobals.constructor | common/revolver/aes.c:39-61 | both initialization flags are set before first use |
| AesTables.AesGlobals.GenRcon | common/revolver/aes.c:86-91 | the round constants are in the top byte; AesVectors.RconIsPower says which they are |
| AesTables.AesGlobals.GenRoundTables | common/revolver/aes.c:112-141 | the last loop completes all eight round tables |
| AesTables.AesGlobals.GenTables | common/revolver/aes.c:71-142 | after table generation every S-box, round table and round constant has its value |
| AesCipher.ForwardEntries | common/revolver/aes.c:606-629 | four FT look-ups and the key word are SubBytes, MixColumns and AddRoundKey on a column |
| AesCipher.ReverseEntries | common/revolver/aes.c:696-719 | four RT look-ups and the key word are the inverse steps on a column |
| AesCipher.KeyEntries | common/revolver/aes.c:562-580 | four KT look-ups are InvMixColumns on a key word |
| AesCipher.ForwardRound | common/revolver/aes.c:606-629 | a table round is a round of section 5.1 of FIPS-197, ShiftRows included |
| AesCipher.ReverseRound | common/revolver/aes.c:696-719 | a reverse table round is a round of section 5.3.5 of FIPS-197 |
| AesCipher.LastLine | common/revolver/aes.c:655-675 | a line of the last round is SubBytes (or its inverse) and AddRoundKey without mixing |
| AesCipher.ReadBlock | common/revolver/aes.c:601-604 | the input bytes, big-endian, with the first round key added |
| AesCipher.PutBlock | common/revolver/aes.c:677-680 | the output bytes are the state in the order of section 3.4 of FIPS-197 |
| AesCipher.EncryptLast | common/revolver/aes.c:653-675 | after the last round the words are the cipher's result |
| AesCipher.DecryptLast | common/revolver/aes.c:743-765 | after the last round the words are the equivalent inverse cipher's result |
| AesCipher.Encrypt | common/revolver/aes.c:595-681 | aes_encrypt writes the FIPS-197 cipher of the input, also in place |
| AesCipher.Decrypt | common/revolver/aes.c:685-771 | aes_decrypt writes the equivalent inverse cipher of the input, also in place |
| AesKeySchedule.NextKeyWord | common/revolver/aes.c:473-534 | where section 5.2 of FIPS-197 takes a rotated, a substituted or a plain word, as the unrolled groups do |
| AesKeySchedule.LoadKey | common/revolver/aes.c:466-469 | the key bytes become the first words of the schedule |
| AesKeySchedule.RconLine | common/revolver/aes.c:479-483 | the first word of a group: rotation, S-box, round constant |
| AesKeySchedule.PlainLine | common/revolver/aes.c:485-487 | the other words of a group: sum of two earlier ones |
| AesKeySchedule.SubLine | common/revolver/aes.c:523-527 | the fifth word of a 256-bit group: S-box without rotation |
| AesKeySchedule.Expand128 | common/revolver/aes.c:475-489 | 44 words of the schedule |
| AesKeySchedule.Expand192 | common/revolver/aes.c:491-507 | 54 words, enough for the 52 that are used |
| AesKeySchedule.Expand256 | common/revolver/aes.c:509-533 | 64 words, which just fit the array |
| AesKeySchedule.ExpandKey | common/revolver/aes.c:464-534 | for each key length the key and all round keys are in place |
| AesKeySchedule.GenKeyTables | common/revolver/aes.c:538-549 | the key tables hold the inversely mixed columns of every byte |
| AesKeySchedule.InvKeyRound | common/revolver/aes.c:560-580 | one pass stores the inversely mixed round key and keeps the ones before it |
| AesKeySchedule.Invert | common/revolver/aes.c:551-588 | the decryption schedule holds the round keys of section 5.3.5 of FIPS-197, in reverse order |
| AesKeySchedule.BuildSchedules | common/revolver/aes.c:464-590 | the context holds both schedules of the key |
| AesKeySchedule.SetKey | common/revolver/aes.c:442-591 | 0 and both schedules for 128, 192 and 256 bits, 1 and an untouched context for other lengths; tables are generated once and stay valid |
| AesKeySchedule.RoundTrip | common/revolver/aes.c:442-771 | set a key, encrypt, decrypt: every block comes back, for every key of every length |
| RandomGenerator.NextInjective | ut0rnd.cc:32-51 | the mixing function gives different words for different words |
| RandomValues.NextOfStart | ut0rnd.cc:32-51 | what the mixing function makes of the start counter on 32-bit words |
| RandomGenerator.GeometricValuation | ut0rnd.cc:55-65 | 1 + a + ... + a^(n-1) is divisible by 2^k iff n is, for a multiplier of 1 modulo 4 |
| RandomGenerator.ReturnsIff | ut0rnd.cc:55-65 | from any seed the counter comes back after n calls iff n is a multiple of 2^w |
| RandomGenerator.SameCounterIff | ut0rnd.cc:55-65 | two calls leave the same counter iff their distance is a multiple of 2^w |
| RandomGenerator.PeriodIsExact | ut0rnd.h:55-61 | two calls return the same word iff their distance is a multiple of 2^w |
| RandomGenerator.EnumeratesAllWords | ut0rnd.h:55-61 | among any 2^w calls in a row, from any seed, every word is returned exactly once |
| RandomGenerator.Generator.constructor | ut0rnd.cc:196-197 | the counter starts with the seed of the source |
| RandomGenerator.Generator.SetSeed | ut0rnd.cc:23-30 | the counter becomes the seed |
| RandomGenerator.Generator.GenUlint | ut0rnd.cc:53-65 | the result is the next one of the run from any seed the counter may have come from |
| RandomGenerator.Generator.Interval | ut0rnd.cc:67-86 | within the bounds; the upper one comes out iff the bounds are equal, and then no number is drawn |
| Folding.FoldBinary | ut0rnd.cc:146-187 | unrolled loop and fall-through switch give the byte-by-byte fold of the first len modulo 2^32 bytes |
| Folding.FoldsAllBytesIff | ut0rnd.cc:154 | all bytes of every string of a length are folded iff the length is below 2^32 |
| Folding.FoldPairInjective | ut0rnd.cc:135-144 | different first arguments are folded with the same second one into different values |
| RandomValues.FoldOfPair | ut0rnd.cc:135-144 | a known fold of two numbers on 32-bit words |
| Folding.LastByteCounts | ut0rnd.cc:135-144 | strings that differ in the last byte are folded into different values |
| Primes.NextPrimeExists | ut0rnd.cc:221-232 | above every number there is a prime, so the search ends |
| Primes.TrialDivisionIsEnough | ut0rnd.cc:222-228 | without a divisor up to the square root a number is prime |
| Primes.IsPrime | ut0rnd.cc:222-228 | the inner loop ends without a divisor iff the number is prime |
| Primes.FindPrime | ut0rnd.cc:199-235 | the least prime from the scaled number on; it is at least the argument plus 100 |
| Primes.StartIsFar | ut0rnd.cc:204-220 | in exact arithmetic, the number the search starts from is at least one part in 32 away from every power of two |
| Primes.StartValues | ut0rnd.cc:204-220 | known starts, one for each combination of scalings |
| Primes.PrimeIsFar | ut0rnd.h:110-116 | so is the prime that is found, unless no prime lies between the start and the neighbourhood of the power of two above it |
| Automaton.MunchIsLongest | lexyy.c:831-849 | the match on an input in one piece is the longest prefix the automaton accepts |
| Automaton.MunchDecided | lexyy.c:831-860 | a prefix on which the automaton stops, or that is the whole input, decides the match |
| Automaton.ThroughNext | lexyy.c:831-849 | one transition keeps what is remembered of the last accepting position |
| Automaton.ThroughDecides | lexyy.c:851-858 | backing up to the last accepting position gives the longest match |
| Automaton.TokensCover | lexyy.c:820-860 | the texts of the tokens, in order, are the input: no character is lost or read twice |
| Automaton.FirstToken | lexyy.c:820-860 | the first match is the first token and the rest of the tokens are those of the rest of the input |
| Scanner.LexInput.constructor | pars0pars.cc:1882-1926 | nothing of the SQL string has been read |
| Scanner.LexInput.GetLexChars | pars0pars.cc:1882-1926 | the next characters of the string, at most as many as fit (at most five when echoed), and none iff the string has ended |
| Scanner.Scanner.constructor | lexyy.c:2159-2260 | an empty new buffer: everything is still to be read |
| Scanner.Scanner.Match | lexyy.c:831-849 | transitions until the automaton stops; passing the end of the text means the end-of-buffer state |
| Scanner.Scanner.GetPreviousState | lexyy.c:1915-1944 | running over the kept text again gives the state and the remembered position as before |
| Scanner.Scanner.MoveDown | lexyy.c:1819-1823 | the kept text moves to the start of the buffer unchanged |
| Scanner.Scanner.Grow | lexyy.c:1833-1876 | doubling makes room for more text and keeps what is there |
| Scanner.Scanner.Read | lexyy.c:1825-1886 | the next part of the input comes behind the kept text, and nothing else changes |
| Scanner.Scanner.Restart | lexyy.c:2100-2112 | an empty buffer that counts as new |
| Scanner.Scanner.GetNextBuffer | lexyy.c:1787-1910 | kept text and unread input are what they were, two end-of-buffer characters follow, and the three outcomes are told apart |
| Scanner.Scanner.DoBeforeAction | lexyy.c:280-285 | the matched text is delimited; putting the hold character back restores the buffer |
| Scanner.Scanner.EndOfBuffer | lexyy.c:1649-1769 | the end-of-buffer action goes on exactly where matching stopped, or reports the end of an input without rest |
| Scanner.Scanner.FindAction | lexyy.c:851-860 | the rule and cursor of the longest match, or the end-of-buffer action |
| Scanner.Scanner.MatchToken | lexyy.c:820-860 | one match is the longest match on all unmatched input, wherever buffer boundaries fall, and what remains is the rest |
| Scanner.Scanner.Yylex | lexyy.c:794-867 | successive calls hand over the tokens of one unbounded buffer, one by one, then 0 |
| Scanner.Scanner.Decided | lexyy.c:851-860 | what is in the buffer is enough to know the longest match on the whole input |
| Crc32c.ByteIsZero | ul0crc32.cc:111-117 | a message byte is a zero byte on the register with the byte added |
| Crc32c.ByteByTable | ul0crc32.cc:219-221 | a byte step through table 0 is eight bit steps |
| Crc32c.NextEntry | ul0crc32.cc:119-125 | table k + 1 advances the entries of table k by one zero byte |
| Crc32c.PeelByte | ul0crc32.cc:223-233 | what has been accumulated and what is left of the old register do not mix |
| Crc32c.RegisterPeeled | ul0crc32.cc:223-233 | a message may be shifted into an empty register if the old register is added to its bytes |
| Crc32c.EightLookups | ul0crc32.cc:225-232 | eight look-ups in tables 7 to 0 shift eight bytes into an empty register |
| Crc32c.QuadwordIsEightBytes | ul0crc32.cc:223-233 | one quadword step is eight byte steps |
| Crc32c.Slice8.constructor | ul0crc32.cc:89-92 | the table is not initialized |
| Crc32c.Slice8.InitFirst | ul0crc32.cc:111-117 | table 0 holds every byte advanced by one zero byte |
| Crc32c.Slice8.InitOthers | ul0crc32.cc:119-125 | table k holds every byte advanced by k + 1 zero bytes |
| Crc32c.Slice8.TableInit | ul0crc32.cc:100-128 | all eight tables are complete and the flag is set |
| Crc32c.Slice8.Byte | ul0crc32.cc:219-221 | the byte step on the 64-bit accumulator is the bitwise step, and the upper half stays zero |
| Crc32c.Slice8.Quadword | ul0crc32.cc:223-233 | the quadword step on the 64-bit accumulator is eight bitwise steps, and the upper half is zero again |
| Crc32c.Slice8.Compute | ul0crc32.cc:238-269 | CRC-32C of section 12.1 of RFC 3720 for every byte string at every alignment |
| CrcVectors.PolyIsReversed | ul0crc32.cc:105-106 | bit i of the polynomial is bit 31 - i of 0x1EDC6F41 |
| CrcVectors.CheckValue | ul0crc32.cc:238-269 | the CRC-32C of the bytes of "123456789" is 0xE3069283 |
| Md5.FastIsAux | common/revolver/md5c.c:144-150 | the optimized core functions are those of section 3.4 of RFC 1321 |
| Md5.NextStep | common/revolver/md5c.c:152-154 | the step macro is one of the 64 operations of RFC 1321 with the registers rotated |
| Md5.RoundOne | common/revolver/md5c.c:179-194 | operations 1 to 16 with their words, constants and shifts |
| Md5.RoundTwo | common/revolver/md5c.c:196-211 | operations 17 to 32 |
| Md5.RoundThree | common/revolver/md5c.c:213-228 | operations 33 to 48 |
| Md5.RoundFour | common/revolver/md5c.c:230-245 | operations 49 to 64 |
| Md5.Context.constructor | common/revolver/md5c.c:59-67 | state of four words and buffer of 64 bytes |
| Md5.Context.Init | common/revolver/md5c.c:58-67 | the context holds the empty message |
| Md5.Context.Transform | common/revolver/md5c.c:161-251 | the registers become those after one more block of RFC 1321 |
| Md5.Context.UpdateCount | common/revolver/md5c.c:82-88 | the two count words with the overflow test as written |
| Md5.Context.Update | common/revolver/md5c.c:73-112 | registers and buffered tail depend only on the concatenated input |
| Md5.Context.UpdateCounted | common/revolver/md5c.c:73-112 | below 2^29 bytes in all, the bit count stays exact |
| Md5.Context.Final | common/revolver/md5c.c:118-141 | the digest with padding and the count the context holds; the context is wiped |
| Md5.Context.FinalCounted | common/revolver/md5c.c:118-141 | with a true count the digest is that of RFC 1321 |
| Md5.Context.Wipe | common/revolver/md5c.c:140 | no register, count or buffered byte remains |
| Md5.CarryRightIff | common/revolver/md5c.c:84 | for every length below 2^32 the overflow test is right iff the low word plus seven times the length overflows as often as eight times the length; below 2^29 bytes, iff it does not overflow |
| Md5.CarryLost | common/revolver/md5c.c:84 | a second piece of 2^29 - 1 bytes loses a carry |
| Md5.CountExactIff | common/revolver/md5c.c:82-88 | the two words go on holding the length in bits iff the overflow test is right |
| Md5.Calc | common/revolver/md5c.c:23-30 | one call gives the digest of RFC 1321 for every length below 2^32 for which the overflow test is right, and so for all below 2^29 |
| Md5.DigestPieces | common/revolver/md5c.c:73-141 | any split of a message below 2^29 bytes into updates gives the digest of the whole |
| Md5Vectors.DigestOfAbc | common/revolver/md5c.c:55-71 | MD5 ("abc") is the digest of section A.5 of RFC 1321 |
| IndexCheck.CmpTransitive | row0mysql.cc:2368-2374 | comparison of entries is transitive, and outer entries agree on no more fields than neighbours |
| IndexCheck.CmpMeaning | row0mysql.cc:2368-2374 | an entry compares as smaller iff at the first field in which they differ it has NULL against a value or the smaller value |
| IndexCheck.LocalIsGlobal | row0mysql.cc:2368-2418 | all neighbours are in order and distinct iff all pairs of entries are |
| IndexCheck.RowScanAndCheckIndex | row0mysql.cc:2310-2427 | TRUE iff the scan ascends and, in a unique index, no two entries anywhere agree on NULL-free ordering fields; the row count is exact |
| DropQueue.StepKeepsWellFormed | row0mysql.cc:1556-1718 | every step of every thread keeps: entries have addresses of their own, the master thread works on the first entry, no identity is given twice |
| DropQueue.StepKeepsInvariantIff | row0mysql.cc:1556-1718 | every step keeps accepted drops remembered, unless it renames a table whose drop was accepted to a name that is not queued, and then it does not |
| DropQueue.MasterDropRemembers | row0mysql.cc:1644-1664 | a drop that the master thread puts off again is queued apart from the entry it removes next |
| DropQueue.NoTableInUseDisappears | row0mysql.cc:1887-2006 | a table with open handles or running checks is still there after every step |
| DropUses.CountersAreDifferences | row0mysql.cc:1926-1956 | in every run a table has as many open handles as it was opened more often than closed and as many running checks as were begun and not ended, and a table that is gone has none of either |
| DropUses.MasterPass | row0mysql.cc:1596-1665 | one undisturbed pass of the master thread drops the first queued table and removes its entry if the table is unused or gone, and leaves everything as it is otherwise |
| DropQueue.RunRemembersIff | row0mysql.cc:1556-1718 | in every run, accepted drops, known by the identity of the table, are remembered all along iff no step renames such a table away from its entry |
| DropQueue.AcceptedDropIsRemembered | row0mysql.cc:1556-1718 | in every run without such a rename, a table whose drop was accepted, known by its identity, is gone or queued under its name |
| DropQueue.RenamedDropIsLost | row0mysql.cc:2101-2200 | a run in which a table is renamed after its drop was put off: it stays, and nothing is queued any more |
| DropQueue.JustifiedIff | row0mysql.cc:1616-1646 | queued names stand for accepted drops of the present tables exactly until a table nobody asked to drop is created or renamed to a queued name |
| DropQueue.MasterDropsOnlyAccepted | row0mysql.cc:1644-1646 | while queued names are justified, the master thread drops only tables whose drop was accepted |
| DropQueue.RunStaysJustified | row0mysql.cc:1597-1665 | a run in which no table takes a queued name keeps queued names justified |
| DropQueue.UnjustifiedDropsUnaccepted | row0mysql.cc:1597-1665 | from every state with a queued name that does not, some run in which no queued name is taken makes the master thread drop a table nobody asked to drop |
| DropQueue.JustifiedMeans | row0mysql.cc:1597-1665 | queued names are justified iff no run without taken names drops a table nobody asked to drop |
| DropQueue.StaleEntryDropsNewTable | row0mysql.cc:1597-1665 | a run in which an entry that outlived its table makes the master thread drop a new table nobody asked to drop |
| DropQueue.Server.constructor | row0mysql.cc:1610-1614 | no tables, an empty list, an idle master thread |
| DropQueue.Server.AddTableToBackgroundDropList | row0mysql.cc:1691-1718 | one new entry with the name at the end of the list |
| DropQueue.Server.DropTable | row0mysql.cc:1726-2006 | not found, put off with a new entry, or dropped; a successful call leaves the table gone or queued |
| DropQueue.Server.MasterSection | row0mysql.cc:1597-1665 | each critical section of the background drop is one step of the machine and keeps the invariant |
| DropQueue.Server.Remove | row0mysql.cc:1648-1662 | exactly the entry at the address goes |
| Session.StepKeepsBalance | usr0sess.cc:408-462 | messages sent, plus one if the client waits, never exceed one plus the messages received |
| Session.StepTells | usr0sess.cc:520-618 | errors stored are exactly those told, in order, and in the error state one more, the pending one |
| Session.RunKeeps | usr0sess.cc:408-618 | both facts are kept by every run |
| Session.EveryRun | usr0sess.cc:282-330 | both facts hold in every run of an opened session |
| Session.PendingErrorComesFirst | usr0sess.cc:520-618 | the first undelivered error stays until it is told, and it is the next thing the client is told |
| Session.AnsweredMessageNotCounted | usr0sess.cc:996-1027 | a message answered with a pending error does not advance the message count, so the next one passes the number check iff it repeats the number |
| Session.InStepIff | usr0sess.cc:996-1027 | in every run of a client that numbers its messages one after the other, the count agrees with the client iff the last message was counted |
| Session.ConsecutiveMessageLostIff | usr0sess.cc:1016-1027 | such a client has a message declared lost iff it meets no pending error and the message before it was not counted |
| Session.ConsecutiveClientLoses | usr0sess.cc:1016-1027 | a run from an opened session in which the second message is declared lost |
| SessionRuns.ProperStep | usr0sess.cc:981-1088 | a proper step of a session without error meets none, and session, client and server agree about who waits, the numbers and the statements |
| SessionRuns.ImproperStep | usr0sess.cc:981-1088 | any other step raises an error |
| SessionRuns.NoErrorIffProper | usr0sess.cc:836-1088 | a run of an opened session meets no error iff the client sends sound, consecutive messages only after replies and executes only ready statements, the server replies only to a waiting client, no send fails and nothing is raised; each message then gets one reply |
| SessionRuns.NextMessage | usr0sess.cc:996-1046 | which error the next message raises: corrupted, lost, break, extraneous while the client waits, statement not found or not ready; none iff it is proper |
| SessionRuns.FaultTextFits | usr0sess.cc:520-565 | of an error text as much is told as fits into the buffer and the endpoint behind the fixed part, and all of it if it fits |
| SessionRuns.StepNumbers | usr0sess.cc:386-565 | a step sends at most one message, and an error, or a message that is numbered when it is sent, carries the count of messages |
| SessionRuns.MessagesCounted | usr0sess.cc:386-565 | in every run the messages counted are those that were initialised and the errors that were told |
| Session.SessionObject.constructor | usr0sess.cc:282-330 | an active session whose client waits for the connection message |
| Session.SessionObject.RaiseLow | usr0sess.cc:575-618 | the first error is stored with its text, later ones are only counted |
| Session.SessionObject.SendLow | usr0sess.cc:408-462 | a reply goes out only to a waiting client, and a failed send raises an error |
| Session.SessionObject.SendPending | usr0sess.cc:520-565 | the pending error goes out cut to size and the session is active again |
| Session.SessionObject.ReceiveCommand | usr0sess.cc:836-941 | an unknown or busy statement raises its error, otherwise the graph is started |
| Session.SessionObject.ReceiveMessage | usr0sess.cc:981-1088 | a pending error is sent first, then consistency, sequence number and waiting client are checked; balance and told errors are kept |
| Codec.BERound | mach0data.cc:35-145 | big-endian bytes read back give the number that was written |
| Codec.BEOrder | mach0data.cc:35-145 | byte order of big-endian numbers is numeric order |
| Codec.CompressedReads | mach0data.cc:209-285 | a compressed number is read and parsed back wherever it stands, at the predicted size |
| Codec.CompressedCut | mach0data.cc:721-779 | a compressed number that is cut short parses to NULL, without a read at or past the end |
| Codec.CompressedOrder | mach0data.cc:209-234 | byte order of compressed numbers is numeric order, and none is a prefix of another |
| Codec.DulintParses | mach0data.cc:785-820 | a compressed 64-bit number parses back at the predicted size |
| Codec.DulintCut | mach0data.cc:785-820 | a compressed 64-bit number that is cut short parses to NULL |
| Codec.DulintOrder | mach0data.cc:402-416 | byte order of compressed 64-bit numbers is numeric order |
| Codec.MuchCompressedReads | mach0data.cc:458-524 | the much compressed form has the predicted size and is read back |
| Codec.MuchCompressedOrder | mach0data.cc:458-478 | the much compressed form also keeps the order |
| Codec.MuchCompressedBytes | mach0data.cc:458-478 | a number above 32 bits starts with the byte 0xFF |
| Codec.StreamParses | mach0data.cc:721-779 | a stream of numbers cut anywhere parses to exactly those that are there completely |
| Codec.DulintStreamParses | mach0data.cc:785-820 | the same for a stream of 64-bit numbers |
| Codec.LERoundIff | mach0data.cc:628-687 | little-endian bytes give the number back iff it fits into them |
| Codec.LittleEndianBytes | mach0data.cc:628-656 | the least significant byte comes first |
| Codec.WriteTo1 | mach0data.cc:6-15 | one byte is written, the others stay |
| Codec.WriteTo2 | mach0data.cc:35-45 | two bytes, most significant first; the others stay |
| Codec.WriteTo3 | mach0data.cc:68-79 | three bytes; the others stay |
| Codec.WriteTo4 | mach0data.cc:103-126 | four bytes of the number modulo 2^32; the others stay |
| Codec.WriteCompressed | mach0data.cc:209-234 | the compressed form is written, its size returned, the other bytes stay |
| Codec.DulintWriteCompressed | mach0data.cc:402-416 | compressed high half and four low bytes; the other bytes stay |
| Codec.WriteToNLittleEndian | mach0data.cc:661-687 | the low bytes of the number, least significant first; the other bytes stay |
| Codec.ReadFromNLittleEndian | mach0data.cc:628-655 | the value of the bytes, least significant first |
| Base64.EncodedLength | common/revolver/base64.cpp:103-141 | four characters for every three bytes, rounded up, as in section 4 of RFC 4648 |
| Base64Values.DigitIsInAlphabet | common/revolver/base64.cpp:26-29 | the digits are the characters of the alphabet, in order |
| Base64Values.FoobaEncoded | common/revolver/base64.cpp:103-141 | an example of section 10 of RFC 4648 |
| Base64.EncodeGroup | common/revolver/base64.cpp:111-138 | one pass appends the four digits of the next three bytes, with fill characters for missing ones |
| Base64.Encode | common/revolver/base64.cpp:103-141 | the encoding of RFC 4648 |
| Base64.EncodeFromArray | common/revolver/base64.cpp:65-101 | the same encoding, from an array |
| Base64.DecodeGroup | common/revolver/base64.cpp:152-191 | one pass on the encoding of bytes appends the next three of them, or what is left, and stops at a fill character |
| Base64.Decode | common/revolver/base64.cpp:143-194 | the encoding of any byte string is decoded to this string |
| Base64.RoundTrip | common/revolver/base64.cpp:103-194 | what encode writes, decode reads back, for every byte string |
| DebugFields.InitBuf | mem0dbg.cc:218-233 | exactly the user bytes become 0xBA or 0xBE |
| DebugFields.EraseBuf | mem0dbg.cc:240-254 | exactly the given bytes become 0xDE or 0xAD |
| DebugFields.FieldInit | mem0dbg.cc:144-185 | a field with its length and agreeing check words stands at the position; no other byte changes |
| DebugFields.UserWritesAreInvisible | mem0dbg.cc:71-108 | whatever users write inside their fields, all fields and all checks stay |
| DebugFields.FieldAppended | mem0dbg.h:13-32 | a field behind the others makes the block longer by its space and the sum by its size |
| DebugFields.Allocate | mem0dbg.cc:144-185 | a block of sound fields stays one when a field is made at its free position |
| DebugFields.WalkOfFields | mem0dbg.cc:452-492 | on a block of fields the walk fails iff some check words disagree, and otherwise totals the requested sizes |
| DebugFields.SoundIff | mem0dbg.cc:452-492 | whatever the block holds, it passes with a total iff it is filled exactly with fields whose checks agree and that is the sum of their sizes |
| DebugFields.WalkToField | mem0dbg.cc:445-481 | a walk that stops at the position behind some of the fields reports the sum of their sizes |
| DebugFields.ValidateBlock | mem0dbg.cc:445-492 | the loop over a block decides this, with or without a position to stop at |
| HeapRegistry.NodesCount | mem0dbg.cc:756-808 | the hash cells together hold as many nodes as the list of all heaps, the count that validation compares |
| HeapRegistry.Registry.constructor | mem0dbg.cc:113-138 | no heaps, and all counters are zero |
| HeapRegistry.Registry.Insert | mem0dbg.cc:261-292 | the new heap is in its cell and in the list; cells and list hold the same heaps, current memory is the sum over live heaps, current <= max <= total |
| HeapRegistry.Registry.CountInit | mem0dbg.cc:167-179 | n more user bytes for a heap keep the counters right |
| HeapRegistry.Registry.CountErase | mem0dbg.cc:191-211 | n fewer user bytes for a heap keep the counters right |
| HeapRegistry.Registry.Remove | mem0dbg.cc:313-359 | the heap leaves its cell and the list, the given size of its fields leaves the current memory, and everything stays consistent |
| HeapRegistry.Registry.CheckCounters | mem0dbg.cc:794-808 | the checks of the counters never fail |
| LiveHeaps.ValidateHeap | mem0dbg.cc:371-512 | magic number, block types, all blocks of the list and the position to stop at: the error and the three sizes are those of the walk over the blocks |
| LiveHeaps.FilledHeapValidates | mem0dbg.cc:371-512 | a heap whose blocks are filled with sound fields validates, and the sum of the requested sizes over all its blocks is reported |
| LiveHeaps.Refilled | mem0dbg.cc:144-211 | refilling one block within its own memory leaves all other blocks of all heaps as they are |
| LiveHeaps.ByteWritten | mem0dbg.cc:71-108 | a byte written into a field leaves its block filled with the same sound fields |
| LiveHeaps.DebugMemory.constructor | mem0dbg.cc:113-138 | no heaps |
| LiveHeaps.DebugMemory.EveryHeapValidates | mem0dbg.cc:371-512 | in every reachable state every heap validates, what is reported is the sum over its fields, and current memory is the sum over all fields of all heaps |
| LiveHeaps.DebugMemory.Create | mem0dbg.cc:261-292 | a heap with one empty block joins memory, register and counters |
| LiveHeaps.DebugMemory.MakeField | mem0dbg.cc:144-185 | a field at the free position of the last block; its size joins the counters, everything else stays sound |
| LiveHeaps.DebugMemory.Write | mem0dbg.cc:71-108 | what users write inside their fields changes this byte only, and everything stays sound |
| LiveHeaps.DebugMemory.ReturnField | mem0dbg.cc:191-211 | the last field is erased and given back; its size leaves the counters |
| LiveHeaps.DebugMemory.HashRemove | mem0dbg.cc:304-362 | a live heap is never found broken: it leaves memory, lists and counters with the size its own validation reports; only an unknown heap stops the server |
| LiveHeaps.DebugMemory.ValidateNoAssert | mem0dbg.cc:749-821 | whatever the blocks hold, an error is reported iff some live heap does not validate; in every reachable state there is none |

## Left out

Optimizer:

- Column values are integers; functions and operators inside expressions are a parameter, applied to their arguments.
- A parse node's address is a number of its own, and a comparison is a cell of an array that normalization overwrites.
- Conditions are AND-trees of =, <, >, <= and >=; OR, NOT, <>, NULL and mixed-cluster tables are outside, and a table is
  listed once in FROM. The parser's resolution passes are a precondition: every column belongs to a table of the query.
- A clustered index has a system column right after its unique fields (dict0dict.cc:832-846).
- `opt_clust_access`, the field numbers of plan columns, `opt_print_query_plan`, locks, versions and prefetching.
- The executor is a function from a plan and the rows to the result, where `row_sel` keeps its place in node fields; a
  row is the whole row, whichever index it is read from.

AES:

- The branch with precomputed tables. A bad key length is the return value 1; with assertions compiled in, the source
  stops before.

Random numbers, folding, primes:

- Machine words have any width from 32 bits up. `ut_rnd_gen_ibool`, `ut_fold_ull` and `ut_fold_string` are not modelled.
- Primes.FindPrime: numbers are unbounded and the arithmetic on doubles is a parameter in which a factor of at least one
  does not make a number smaller; for the distance from powers of two the arithmetic is exact.

Scanner:

- The tables are an abstract automaton that accepts every character by default and leads to the end-of-buffer state on
  NUL. The input has no NUL; the branch for NUL inside the text, `yyunput`, `input`, overflow of the buffer size and the
  printing of what is read are not modelled.

Checksums and digests:

- The SSE4.2 form and its detection. The load of eight bytes is little-endian.
- Md5.Calc: lengths of 2^32 and more are outside, where the count takes only the low bits of the length.

Background drops, index check, sessions:

- IndexCheck.RowScanAndCheckIndex: the records the scan meets are a parameter; messages are not modelled.
- A critical section is one step. New-raw mode, SQL errors during a drop, logging and the returned counts are left out.
- Multipart messages (disabled in the source), parse failures, wrap-around of the error count, the reference count, the
  removal of sessions from the hash table and the network itself. The error text is optional.

Codecs, base64, debug heap:

- The forms of 6, 7 and 8 bytes, floats and doubles.
- Base64.Decode: characters are signed, as on the usual platforms. Malformed text may make the code read behind the
  terminating NUL; the model then gives no result.
- DebugFields.FieldInit: requested sizes are below 2^32; the stored length has 32 bits.
- A read behind the memory at hand, which a damaged length can cause, is a verdict of its own. Printing, the buffer pool
  and file names in the register are not modelled; blocks of a heap do not overlap.
