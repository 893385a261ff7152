# Models of the event tables generator and library

The repository turns vendor event descriptions into C tables (`jevents.py`, `metric.py`) and reads them at run
time (`src/pmu-events.c`, `include/pmu-events/`). This project models the parts in which a mistake would be
silent, and proves what they promise:

- **Metric expressions** (`MetricExpr`, `MetricSimplify`, `MetricPrint`, `MetricGrammar`, `MetricRewrite`): the trees of `metric.py`,
  their simplification, the printer that leaves out brackets, and the rewriting of metrics in terms of each other
  while the definitions change. Rewriting terminates, keeps the reference graph acyclic, keeps the fully inlined
  tree of every metric, and leaves nothing to fold.
- **The big string** (`CText`, `BigCString`, `PackedStrings`, `Records`): records share one string, a record that is
  the end of another one is stored only inside it, and the generated decoder reads every field back.
- **Event encoding** (`Numbers`, `CommaLists`, `Ranges`, `Assignments`, `Words`, `ConfigBits`, `EventAttr`): from the
  text `event=0x3c,umask=1` to bits of three 64-bit words, and back.
- **Lookup** (`EventTables`, `EventLookup`, `MapLookup`, `MetricGroups`, `GroupLookup`): one table for each pmu, lookup by name, a
  search behind two caches that own heap strings, and a binary search over a generated order.
- **CPU lists** (`CpuMap`): ranges collected in a growing array, sorted, and compacted in place.

`Order` and `Options` hold string order, sorting and options. A loop of the source is a method whose contract equates
its result with a specification function (or states the result outright); the lemmas are about those functions.
`strtoull` is modelled by its contract in section 7.22.1.4 of ISO/IEC 9899:2011, shifts by section 6.5.7.

Some things that the code and its documentation suggest do not hold. The model follows the code. For each, one
lemma gives an input on which it fails, and another the condition under which it holds, which is exact (for decimal
fields one lemma covers all values in both directions):

| expected | fails for | holds exactly when |
|---|---|---|
| `Equals` means the same tree (metric.py:288-294) | `EqualsIgnoresMissingArgument` | the reverse `Equals` is true as well (`EqualsBothWaysIsIdentity`) |
| a substitution keeps the inlined tree (metric.py:297-298) | `ReplacingWithoutFixedArity` | every replaced subtree is the target itself (`SubstituteKeepsExpansion`) |
| a simplified tree is left alone by a second pass (metric.py:167) | `SimplifyIsNotIdempotent` | no rule applies anywhere in it (`SimplifyFixpoints`) |
| the offset of a string, corrected for texts that `c_len` miscounts, reads that string (jevents.py:197) | `UnalignedStrings` | the cut into its host is not inside an escape (`ReadsBackShifted`) |
| `c_len` is the length in C (jevents.py:101) | `CLenMiscounts` | no escaped backslash is followed by `000` (`CLenIsDecodedLength`) |
| the assertion finds every duplicate event (jevents.py:529) | `RepetitionMissed` | replacing ',' by '_' keeps the pmu names distinct (`AssertionIsReliableExactly`) |
| every metric group is found (jevents.py:925) | `GroupMissed`, `BadSpec` before `Bad` | no name extends another with a character below the backslash (`GeneratedTableIsSearchable`) |
| decimal fields keep their value (jevents.py:317) | any of two or more digits below the 64-bit limit | one digit, or the limit (`DecimalFieldReadsBack`) |

The correction is two characters for every miscount up to the end of the host that is not one of the string itself.
Without any, the offset itself is right exactly when the cut is (`ReadsBackExactly`); `MiscountedStore` shows one that
is wrong although all cuts are right.

Mixed arity, on which the first two depend, arises only when a node is constructed directly: the functions that build
calls (metric.py:384-419) use each name with one number of arguments (`BuiltHasFixedArity`). For the trees they build,
simplification keeps the value and rewriting keeps the inlined trees without further conditions on the expressions
(`BuiltTreeKeepsValue`, `RewritingBuiltMetrics`). For other trees `SimplifyWithoutFixedArity` shows a lost value.
`SimplifyKeepsValue` gives a sufficient condition that is not a necessary one, see `LostBranchCanBeHarmless`.

## Model

| member | source | states |
|---|---|---|
| MetricExpr.EqualsBothWaysIsIdentity | metric.py:192-196 | two trees are the same tree exactly when each `Equals` the other |
| MetricExpr.EqualsIgnoresMissingArgument | metric.py:288-294 | `f(a)` equals `f(a, b)`, and `f(a, b)` does not equal `f(a)` |
| MetricExpr.EqualsOfParts | metric.py:288-294 | trees look equal exactly when their operators and functions are the same and their parts look equal, but for a missing second argument |
| MetricExpr.EqualsIsIdentity | metric.py:288-294 | when every function name has one arity, one direction of `Equals` is already identity of trees |
| MetricExpr.NameKeptExactlyWhenEscaped | metric.py:306-316 | constructing an event keeps its name exactly when no ',' or '=' in it follows a character other than a backslash; one at the very start is kept |
| MetricExpr.LowerIgnoresCase | metric.py:591-594 | two names have the same lower-case form exactly when they differ in the case of letters at most |
| MetricExpr.SeparatorIsEscaped | metric.py:306-308 | the first separator behind something other than a backslash is escaped, and the rest of the name is treated alike |
| MetricExpr.EventIsEscaped | metric.py:306-316 | a ',' or '=' between other characters gets one backslash in front |
| MetricExpr.BuiltHasFixedArity | metric.py:384-419 | the functions that build calls use every name with one number of arguments |
| MetricExpr.SubstituteShrinks | metric.py:198-205 | a substitution makes the tree strictly smaller when the target occurs in it and returns the same tree otherwise |
| MetricExpr.SubstituteLeavesNone | metric.py:296-303 | one substitution replaces every occurrence, unless the target itself refers to the new name |
| MetricExpr.SubstituteKeepsArity | metric.py:296-303 | substitution keeps the one-arity-per-name property, so it stays available during rewriting |
| MetricSimplify.SimplifyKeepsValue | metric.py:161-190 | whenever `Simplify` returns, the result has the input's value in every environment in which the input has one, provided that selects collapse only over identical branches |
| MetricSimplify.FixedArityCollapsesSame | metric.py:235-236 | which they always do when every function name has one arity |
| MetricSimplify.BuiltTreeKeepsValue | metric.py:161-190 | so for all trees built by the functions of metric.py the value is kept whenever `Simplify` returns |
| MetricSimplify.SimplifyWithoutFixedArity | metric.py:235-236 | a select over calls of mixed arity whose value is 0 before and 1 after simplification |
| MetricSimplify.LostBranchCanBeHarmless | metric.py:235-236 | a select that collapses over different branches and keeps its value all the same |
| MetricSimplify.SimplifyKeepsArity | metric.py:276-286 | simplification keeps the one-arity-per-name property |
| MetricSimplify.SimplifyReduces | metric.py:180-188 | after one pass no rule on right operands, conditions or constant pairs applies anywhere, and the tree is the same or smaller |
| MetricSimplify.OperatorOutcome | metric.py:161-190 | which exception an operator raises and when, and that it keeps its simplified operands where neither is a constant |
| MetricSimplify.CallOutcome | metric.py:276-286 | a call of two constants raises, but for `d_ratio` with a zero divisor; every other call keeps its simplified arguments |
| MetricSimplify.ZeroTimesEvent | metric.py:171-185 | zero times an event is kept exactly when its name has `slots` in it, in any case of letters; an event times zero vanishes always |
| MetricSimplify.SimplifyFixpoints | metric.py:164-190 | `Simplify` returns its input exactly when no rule at all applies in any subtree |
| MetricSimplify.SimplifyIsNotIdempotent | metric.py:167 | a tree on which the second pass still does work, since the left rules test the operand before it is simplified |
| MetricPrint.ParseExpr | metric.py:121-155 | the text of any tree, followed by anything that cannot continue it, is parsed as that tree by the left-associative grammar of the precedence table |
| MetricPrint.PrintParse | metric.py:153-155 | parsing the printed tokens gives the tree back, up to '/' being printed as '@' |
| MetricPrint.PrintIsUnambiguous | metric.py:266-269 | different trees never print alike, up to '/' and '@' |
| MetricPrint.AtSignsParts | metric.py:318-320 | every '/' of an event is printed as '@' and nothing else changes |
| MetricPrint.RoundTripIsIdentity | metric.py:318-320 | print then parse is the identity exactly on trees without '/' in event names |
| MetricPrint.PrintIsShortest | metric.py:121-155 | of all token sequences that the grammar reads as the tree, none is shorter than the printed one |
| MetricPrint.BracketsAreNeeded | metric.py:144-151 | leaving out any bracket of the text, at any depth, gives a text that means another tree or none |
| MetricGrammar.ParserIsGrammar | metric.py:93-109 | the parser reads exactly the texts of a grammar with one nonterminal for `\|`, `^`, `&`, `< >`, `+ -` and `* / %` each, all associating to the left |
| MetricGrammar.PrintedTextMeansOneTree | metric.py:121-155 | by the grammar the printed text stands for that one tree and for no other |
| MetricRewrite.RewriteMetricsInTermsOfOthers | metric.py:573-603 | the nested loops terminate on every metric list, duplicates included, and compute the specification of the run |
| MetricRewrite.FoldsWithinPmu | metric.py:589-594 | a metric is folded into another one exactly when their pmus are the same up to case and their names are not |
| MetricRewrite.DefinitionInResult | metric.py:595-602 | results are stored under the pmu, or `cpu` if there is none, and the name as spelled |
| MetricRewrite.UnsettledPassShrinks | metric.py:587-602 | a pass that does not end the unbounded loop strictly shrinks the tree |
| MetricRewrite.PassCountBounded | metric.py:587 | a metric takes no more passes than its tree has nodes |
| MetricRewrite.NewReferenceKeepsAcyclic | metric.py:597 | the reference that replaces a subtree closes no cycle, since the outer metric already had all references of the inner one |
| MetricRewrite.AcyclicIsNoCycle | metric.py:573-581 | the acyclicity used here (every set of metrics has one that refers to none of the set) holds exactly when no walk of references returns to its start |
| MetricRewrite.SubstituteKeepsExpansion | metric.py:246-252 | replacing by a reference that expands to the target keeps the inlined tree if and only if every replaced subtree is the target itself |
| MetricRewrite.ExpandSeparates | metric.py:288-294 | trees that look equal but differ inline to different trees |
| MetricRewrite.FixedArityReplacesItself | metric.py:198-199 | with one arity for each function name every replaced subtree is the target itself |
| MetricRewrite.InliningExists | metric.py:573-581 | acyclic definitions can be fully inlined |
| MetricRewrite.InliningUnique | metric.py:573-581 | and in exactly one way |
| MetricRewrite.FullyInlined | metric.py:573-581 | the inlining solves the equations of all definitions at once |
| MetricRewrite.FullyInlinedHasNoReference | metric.py:573-581 | no fully inlined tree refers to a metric |
| MetricRewrite.RewritingKeepsInlinedTrees | metric.py:582-603 | the rewritten set is acyclic and inlines to the very trees of the original set, also when metrics have identical expressions |
| MetricRewrite.RewritingBuiltMetrics | metric.py:582-603 | in particular for all expressions built by the functions of metric.py |
| MetricRewrite.ReplacingWithoutFixedArity | metric.py:597 | a call of one argument is replaced by a metric that is the call of two |
| MetricRewrite.SettlesAtFixpoint | metric.py:598-601 | the loop for a metric stops only at a tree that another pass leaves as it is |
| MetricRewrite.RewritingFoldsAll | metric.py:582-603 | with unique names, in the result no metric contains the final tree of an earlier one of its pmu or the original tree of a later one, and none became longer |
| MetricRewrite.ReferencesStayInPmu | metric.py:591-597 | every reference that a metric gets in the run is to a metric of its own pmu with another name |
| MetricRewrite.LoneMetricIsKept | metric.py:591-592 | a metric that is alone in its pmu is not rewritten, whatever other pmus have |
| CText.CLenIsDecodedLength | jevents.py:85-101 | `c_len` is the decoded length minus two for every escaped backslash followed by `000` |
| CText.CLenMiscounts | jevents.py:101 | a text of four characters in C for which `c_len` is 2 |
| CText.TokensMean | jevents.py:88-95 | what each escape and each other character stands for in C |
| CText.CLenOfLoneBackslashes | jevents.py:85-101 | for any text without escaped backslashes and textual NULs, well-formed or not, `c_len` counts the characters other than backslashes |
| CText.MiscountsJoin | jevents.py:101 | joining texts adds a miscount exactly when the cut was in the three zeros that follow an escaped backslash or directly in front of them |
| CText.CLenSplits | jevents.py:101 | `c_len` is additive over a cut between escapes exactly when it is not such a cut |
| CText.DecodeSplits | jevents.py:197 | a cut between escapes cuts the decoded text into the decoded parts |
| CText.DecodeJoins | jevents.py:425-439 | texts put one after the other decode to the decoded texts one after the other |
| CText.CutEscapeDiffers | jevents.py:155-160 | a text that starts inside an escape of another never reads like the end of it, for all well-formed texts |
| BigCString.BigCString.constructor | jevents.py:123-127 | a new store is empty |
| BigCString.BigCString.Add | jevents.py:129-136 | the first addition of a string fixes its place and its metric flag, later ones change nothing |
| BigCString.BigCString.Compute | jevents.py:138-197 | exactly the strings that are no proper suffix of another are stored, strings of events before strings of metrics and each in order of insertion, and every string gets an offset at the end of its host, which is stored in full |
| BigCString.StoreAll | jevents.py:646-653 | that holds after every sequence of additions, with places and flags as the additions give them |
| BigCString.FirstAdditionDecides | jevents.py:129-136 | the first addition of a string decides its metric flag, and places follow the order of first additions |
| BigCString.BestPosition | jevents.py:152-158 | stopping the scan at the first non-match loses nothing: all strings with the prefix lie between the start and the result |
| Order.StrLessExactly | jevents.py:144 | the order of the reversed strings is by the first difference, with a prefix first |
| BigCString.FoldStrings | jevents.py:144-160 | a string is folded exactly when it is a proper suffix of another, and into one that is not folded itself |
| BigCString.HostIsMaximal | jevents.py:155-160 | a string that stores another is itself stored in no third one |
| BigCString.EmitUnfolded | jevents.py:173-191 | the unfolded strings, each once, in key order, at the sum of the lengths before them |
| BigCString.OffsetsOfFolded | jevents.py:193-197 | the host of a folded string always has its offset already, and the string ends where the host ends |
| BigCString.Pack | jevents.py:138-197 | the whole computation on a set of strings, for any flags and order of additions |
| PackedStrings.BigTextLength | jevents.py:173-191 | the computed total is short of the length in C by two for every miscount |
| PackedStrings.ReadsBackShifted | jevents.py:194-197 | for all well-formed texts: at the offset plus two for every miscount up to there the big string reads the string, if and only if the cut into its host is not inside an escape |
| PackedStrings.ReadsBackExactly | jevents.py:194-197 | without a miscount up to there, the big string reads the string at its offset if and only if the cut into its host is not inside an escape |
| PackedStrings.AllReadBackExactlyWhenAligned | jevents.py:138-197 | all offsets, corrected for miscounts, are right exactly when no string is cut out of an escape of its host |
| PackedStrings.OffsetsAreExact | jevents.py:138-197 | if `c_len` measures all texts correctly, the offsets themselves are right exactly then |
| PackedStrings.UnalignedStrings | jevents.py:155-160 | two terminated texts, `nb` and one with a line feed and `b`, for which the offset of the first does not read it |
| PackedStrings.MiscountedStore | jevents.py:101 | a store without such a cut whose miscounted first text makes a later offset wrong |
| PackedStrings.PackingIsShortest | jevents.py:144-191 | no other sequence of literals from whose ends all strings can be read is shorter in C |
| PackedStrings.ComputedLengthIsShortest | jevents.py:173-191 | nor in computed lengths, if no text is miscounted |
| PackedStrings.LengthIgnoresOrder | jevents.py:177-191 | the total length depends neither on the order of additions nor on the metric flags, whatever the texts are |
| Records.Decompress | jevents.py:822-856 | the pointer walk of the generated decoder returns the fields that stand at the offset |
| Records.KindsOfAttributes | jevents.py:43-64 | of the named attributes, in their order, exactly the listed four are written as a digit |
| Records.FieldReadsBack | jevents.py:433-438 | a stored field is read as the attribute (absent or empty as NULL, absent enumeration as 0) and the pointer stops at the next one |
| Records.RecordReadsBack | jevents.py:425-439 | a record is read back in full wherever its bytes stand, also at the end of another one |
| Records.PackThenDecode | jevents.py:425-439 | decoding at the computed offset of a record returns the record, folded or not, in any layout; only the record's own cut and the miscounts up to it matter |
| Records.DoubledExpressionDecodes | jevents.py:429-434 | doubling backslashes makes the C compiler read the expression as it was |
| Records.StoredMetricDecodes | jevents.py:840-856 | a stored metric decodes to its attributes, and its expression is the very text of the tree |
| EventTables.PrintPendingEvents | jevents.py:499-541 | the grouping loop over the sorted events prints the specified tables, or stops at the assertion |
| EventTables.KeyIsTupleOrder | jevents.py:502-509 | events are sorted by pmu, name, presence of a description, topic and metric name, in this order |
| EventTables.UnderscoredParts | jevents.py:533 | every ',' of a pmu name becomes '_' in C, and nothing else changes |
| EventTables.UnnamedPmuIsNotChecked | jevents.py:528 | without a pmu name the assertion is not made |
| EventTables.EmitTables | jevents.py:527-541 | the tables hold exactly the sorted events, each table one pmu with strictly ascending names; the assertion fails exactly on an adjacent repetition |
| EventTables.EveryRepetitionIsCaught | jevents.py:528-529 | when replacing ',' keeps pmu names distinct, printing fails exactly when some name occurs twice in a pmu |
| EventTables.RepetitionMissed | jevents.py:508 | for any two pmus that are spelled alike after the replacement, a repeated event that the assertion does not see |
| EventTables.AssertionIsReliableExactly | jevents.py:499-541 | for a set of pmus, printing fails on all lists with a repetition and on no other exactly when the replacement keeps the pmu names distinct |
| EventTables.TableNamesAreDistinct | jevents.py:533-535 | the arrays have different C names exactly when replacing ',' keeps pmu names distinct |
| EventTables.OneTablePerPmu | jevents.py:530-538 | the arrays come in ascending order of their C names, so each pmu has one |
| EventTables.EveryEventHasItsTable | jevents.py:527-541 | every event is an entry of exactly one array, the only one of its pmu |
| EventLookup.GetEventByName | src/pmu-events.c:753-767 | the loop returns the first entry whose decoded name matches, or the error |
| EventLookup.FindsLeastEntry | src/pmu-events.c:753-767 | the error is returned exactly when no entry decodes to the name; otherwise the first one that does, also with repeated names |
| EventLookup.FindsEntry | src/pmu-events.c:756-766 | with distinct names the lookup of an entry's name returns that entry |
| EventLookup.StoredEventDecodes | jevents.py:822-838 | the entry of an event that is stored readably decodes to the event's attributes, with its name first |
| EventLookup.GeneratedEventIsFound | src/pmu-events.c:753-767 | from generator to caller: looking up a pending event by name in the printed array of its pmu returns the attributes it was generated from, whatever is stored for other pmus |
| EventLookup.AbsentEventIsNotFound | src/pmu-events.c:766 | a name that no pending event of the pmu has is not found in the printed array of the pmu |
| MapLookup.FirstMatchIsLeast | jevents.py:891-902 | the scan finds the least matching row before the end of the table, and only that |
| MapLookup.UncachedExactly | jevents.py:878-902 | a cpu without a cpuid has no row, and one with a cpuid has the least matching row in front of the end |
| MapLookup.MapCache.Search | jevents.py:891-902 | the loop over the rows is the first-match scan |
| MapLookup.MapCache.GetCpuid | jevents.py:878 | every cpuid string that is handed out is new and recorded |
| MapLookup.MapCache.SearchOnce | jevents.py:887-907 | the second cache answers like the scan and frees either the new string or the one it replaces |
| MapLookup.MapCache.SearchFor | jevents.py:878-907 | a call that misses the first cache takes one string, or none if the cpu has no cpuid, and keeps exactly the cached one live |
| MapLookup.MapCache.MapForCpu | jevents.py:860-913 | every call answers like a scan without caches, takes a string exactly when it misses the first cache and there is a cpuid, and afterwards of all strings ever handed out exactly the cached one is live |
| MapLookup.HeapString.Free | jevents.py:889 | a string that is freed was live: nothing is freed twice |
| MapLookup.CallSequence | jevents.py:860-913 | both hold over every sequence of calls on any cpus, and a string is cached exactly when some cpu had a cpuid |
| MetricGroups.SearchIsLookup | jevents.py:933-951 | on an ascending table the search returns the description of the group with that name, and nothing exactly when there is none |
| MetricGroups.AllFoundExactlyWhenAscending | jevents.py:933-951 | among distinct names the search finds every group of a table if and only if the table is ascending |
| MetricGroups.TextOrder | jevents.py:639-642 | the generator's order of names with a textual terminator differs from `strcmp` exactly on names that extend each other with a character below the backslash |
| MetricGroups.GeneratedOrderIsAscending | jevents.py:925 | the generated table is ascending exactly when there is no such pair of names |
| MetricGroups.GeneratedTableIsSearchable | jevents.py:921-951 | every group of the generated table is found if and only if there is no such pair of names |
| MetricGroups.GroupMissed | jevents.py:925-929 | with `Bad` and `BadSpec` the search does not find `Bad` |
| GroupLookup.DescribeMetricgroup | jevents.py:933-951 | the loop over rows of offsets is the binary search on the groups that the rows stand for |
| GroupLookup.StoredTextIsRead | jevents.py:636-642 | a stored name or description is the C string at its offset |
| GroupLookup.GeneratedGroupsAreDescribed | jevents.py:921-951 | from generator to caller: on the rows and the big string as written, every group is described by its text if and only if there is no such pair of names |
| Numbers.LlxReadsBack | jevents.py:207-209 | what `llx` prints is read back in base 16, and values beyond 64 bits as the largest one |
| Numbers.DigitsAreSpelled | jevents.py:209 | the sixteen digits, of which both cases are read and lower case is printed |
| Numbers.LlxText | jevents.py:207-209 | `llx` is one digit below ten, and otherwise lower-case hexadecimal without leading zeros behind `0x` |
| Numbers.DecimalReadsBack | src/pmu-events.c:164 | a decimal number is read back in base 10, up to the first other character, and as the largest value beyond 64 bits |
| Numbers.DecimalReadsBackInBaseZero | include/pmu-events/aarch64/util.h:269 | also in base 0, where a leading zero would mean octal |
| Numbers.NumberIsRead | src/pmu-events.c:164-187 | any digits, with the prefixes that the base allows, have their value up to the first other character, and the largest one beyond 64 bits |
| Numbers.WhiteSpaceIsSkipped | src/pmu-events.c:176 | white space in front of a number is skipped and counted |
| Numbers.SignIsRead | src/pmu-events.c:176 | a plus sign changes nothing, a minus sign negates modulo 2^64 what is in range |
| Numbers.NoNumber | src/pmu-events.c:176 | nor does any other character that is neither white space nor a digit |
| Numbers.SignWithoutNumber | src/pmu-events.c:176 | a sign without digits converts nothing |
| Numbers.DecimalInBaseSixteen | src/pmu-events.c:359 | a decimal number read in base 16 keeps its value exactly when it has one digit or both readings are at the limit |
| CommaLists.FindComma | src/pmu-events.c:278 | the search in the buffer finds the next comma of the unread text |
| CommaLists.TakePart | src/pmu-events.c:278-291 | overwriting the comma makes the part in front of it a C string of its own and leaves the unread text intact |
| CommaLists.ParseListInPlace | src/pmu-events.c:257-296 | the loop over the overwritten copy parses exactly the parts between commas of the original text, in order, and fails when one fails |
| CommaLists.SplitExists | src/pmu-events.c:265-292 | every text has such parts |
| CommaLists.ParseListExactly | src/pmu-events.c:265-292 | a list fails exactly when one of the parts between its commas does, an empty one included; otherwise it has one value for each part, in order |
| CommaLists.ParseJoined | src/pmu-events.c:394-434 | parsing a joined list gives the values of its parts |
| Ranges.ParseRangeList | src/pmu-events.c:150-296 | the result, with every error case, is that of splitting at commas and parsing each range |
| Ranges.RangeExactly | src/pmu-events.c:150-197 | a term is accepted as a range exactly when its number, or both numbers around its first '-', are used up to their ends |
| Ranges.RefusedRanges | src/pmu-events.c:150-197 | nothing, a missing second number and characters behind either number are refused |
| Ranges.RangePartsReadBack | src/pmu-events.c:249-296 | a written list of ranges is parsed to the same ranges with bounds cut to 64 bits, with or without spaces behind the commas |
| Ranges.PrintRangeList | examples/main.c:67-84 | the loop of the example prints single numbers for equal bounds and ', ' between items |
| Ranges.RangeListRoundTrip | examples/main.c:67-84 | printing a range list and parsing it gives the same list if and only if it is not empty and all bounds have 64 bits |
| Assignments.ParseAssignmentList | src/pmu-events.c:330-434 | the result, with every error case, is that of splitting at commas and parsing each assignment |
| Assignments.KeyAndTextParse | src/pmu-events.c:330-371 | an empty value is refused, `None` is zero, and any other value is read in base 16 and has to be used up |
| Assignments.RefusedAssignments | src/pmu-events.c:332-363 | terms without '=', without a key or with characters behind the number are refused |
| Assignments.PrintEvent | jevents.py:368-397 | the event string is its code followed by the fields, each behind a comma |
| Assignments.PrintedFieldsParse | jevents.py:368-397 | printed fields are parsed to their keys in order, to their values, and to zero where the generator had none |
| Assignments.AssignmentListRoundTrip | jevents.py:368-393 | a printed list with separator-free keys is parsed to the same keys and values in order if and only if it is not empty and all values have 64 bits |
| Assignments.DecimalFieldReadsBack | jevents.py:313-319 | a field printed in decimal keeps its value exactly when it has one digit or is at the 64-bit limit |
| Words.ShrIsDivision | src/pmu-events.c:475 | the right shift of the bit model is division by a power of two |
| Words.ShlIsMultiplication | src/pmu-events.c:470 | the left shift is multiplication modulo 2^64 |
| Words.NumberOfBits | src/pmu-events.c:460 | the lowest n bits of a number hold it modulo 2^n |
| Words.BitsOfNumber | src/pmu-events.c:460 | a word is determined by its number |
| ConfigBits.OneRange | src/pmu-events.c:465-474 | the masks and shifts of one step replace exactly the bits of the range by the lowest bits of the value |
| ConfigBits.ApplyRangeListToVal | src/pmu-events.c:460-479 | the loop gives each range the next bits of the value, whatever the undefined shift after a 64-bit range leaves |
| ConfigBits.PositionsAreDistinct | src/pmu-events.c:449-459 | disjoint ranges list no bit position twice |
| ConfigBits.ScatterPlacesBits | src/pmu-events.c:449-459 | for disjoint ranges bit k of the value stands at the k-th listed position, and beyond bit 63 of the value stands zero |
| ConfigBits.ScatterHolds | src/pmu-events.c:460-479 | for ranges that may overlap, every listed bit holds the bit of the value at the last place that lists it |
| ConfigBits.ScatterElsewhere | src/pmu-events.c:473-474 | every bit outside the ranges is unchanged, also for overlapping ranges |
| ConfigBits.ScatterReadsBack | src/pmu-events.c:460-479 | gathering the positions returns the value modulo 2 to their number |
| ConfigBits.ScatterIsIdempotent | src/pmu-events.c:460-479 | applying the same value twice is applying it once, also for overlapping ranges |
| EventAttr.ParseConfigDef | src/pmu-events.c:218-247 | the method on a copied buffer agrees with the specification of the parser on every text |
| EventAttr.PrefixSelectsWord | src/pmu-events.c:218-247 | `config:`, `config1:` and `config2:` select their words, with the ranges of what follows, for every text |
| EventAttr.OtherPrefixIsRefused | src/pmu-events.c:236-239 | every text that begins with none of the three prefixes is refused |
| EventAttr.ConfigDefRoundTrip | src/pmu-events.c:199-247 | a definition written as word and ranges is parsed to them if and only if there is a range and all bounds have 64 bits |
| EventAttr.PerfEventAttr.ApplyConfigDef | src/pmu-events.c:496-510 | the named word takes the bits of the value and the other two words stay as they are |
| EventAttr.GenAttrForEvent | src/pmu-events.c:692-744 | the type is set; success and the three words afterwards, with what is left behind by a failure half way |
| EventAttr.EncodeSucceeds | src/pmu-events.c:707-741 | encoding succeeds exactly when every key but `period` has a format that parses |
| EventAttr.EncodeElsewhere | src/pmu-events.c:692-744 | a bit in no format of an executed assignment is unchanged in all three words, also when formats overlap or encoding fails half way |
| EventAttr.EncodeHolds | src/pmu-events.c:692-744 | every other bit holds the bit of the last executed assignment whose format lists it, for overlapping formats and failing runs too: with the row before, the complete result |
| EventAttr.EncodeWrites | src/pmu-events.c:692-744 | a bit in an assignment's format holds its bit of the value if no later assignment writes there |
| EventAttr.LastValueReadsBack | src/pmu-events.c:692-744 | a key whose bits no later assignment writes is read back, whatever earlier ones wrote and also when encoding fails afterwards |
| EventAttr.EncodedValueReadsBack | src/pmu-events.c:692-744 | each key but `period` is read back as its value modulo 2 to the width of its format |
| EventAttr.EncodingIgnoresOrder | src/pmu-events.c:707-741 | reordering the assignments changes neither success nor the words |
| EventAttr.PrintedEventReadsBack | jevents.py:368-397 | from generator to attribute: a printed event string is encoded so that each of its values is read back, and zero for a field without one |
| EventAttr.WrittenEventReadsBack | src/pmu-events.c:481-495 | the same for written format files, under conditions on the ranges of the used keys only: in bounds and disjoint |
| CpuMap.FirstRange | include/pmu-events/aarch64/util.h:268-288 | an accepted range is ordered and below INT16_MAX, and parsing it makes progress |
| CpuMap.CpuBuffer.Push | include/pmu-events/aarch64/util.h:297-312 | the array grows when it is full, so the write is in bounds and appends one CPU |
| CpuMap.CpuBuffer.AddRange | include/pmu-events/aarch64/util.h:290-313 | all CPUs of the range are appended exactly when none was there before |
| CpuMap.RemoveDups | include/pmu-events/aarch64/util.h:355-364 | compaction in place leaves a strictly increasing array with exactly the members of the original array, so no cell was read after a different value was written to it |
| CpuMap.TrimNew | include/pmu-events/aarch64/util.h:345-368 | the new map is strictly increasing with exactly the collected CPUs, and no larger than its allocation |
| CpuMap.PerfCpuMapNew | include/pmu-events/aarch64/util.h:246-336 | null exactly for a refused list; otherwise a strictly increasing map of exactly the listed CPUs, or of the single CPU -1 for the empty list |
| CpuMap.RangeIsRead | include/pmu-events/aarch64/util.h:268-288 | a written range, with numbers of any size, is read as itself when it is ordered and below the limit, and refused otherwise |
| CpuMap.RefusedCpus | include/pmu-events/aarch64/util.h:270-280 | any character but a separator behind a number, and any but a comma or line feed behind a pair, is refused |
| CpuMap.MissingEnd | include/pmu-events/aarch64/util.h:273-283 | a pair without its second number ends at zero, and is refused unless it starts there |
| CpuMap.OtherBases | include/pmu-events/aarch64/util.h:269 | numbers may also be hexadecimal, or octal with a leading zero |
| CpuMap.UnionMembers | include/pmu-events/aarch64/util.h:290-313 | the collected CPUs are the members of the ranges |
| CpuMap.WrittenListIsBuilt | include/pmu-events/aarch64/util.h:246-336 | a written list, with numbers of any size and ended by anything that begins no further range, is refused exactly when a range is reversed, a number reaches 32767 or a CPU is repeated; otherwise the result is the union of its ranges |

## Left out

- MetricRewrite.RewritingKeepsInlinedTrees: needs names that are unique ignoring case and that the event constructor keeps, and one arity for each function name. For the run these are sufficient conditions, and the last one always holds for expressions built by the functions of metric.py; for one substitution `MetricRewrite.SubstituteKeepsExpansion` gives the exact one.
- MetricRewrite.RewritingFoldsAll: for a metric listed later only its original tree is excluded, because the source makes one sweep over the metrics and does not return to earlier ones.
- MetricSimplify.SimplifyKeepsValue: one direction only, since a wrongly collapsed branch can still be without effect (`LostBranchCanBeHarmless`); trees built by the functions of metric.py always meet the condition. Values are exact numbers, and bitwise operators and `%` are defined on integers only.
- MetricExpr.NameKeptExactlyWhenEscaped: about the name only; the legacy name of an event is used by nothing modelled here.
- EventAttr.EncodedValueReadsBack: the formats of the used keys have to be in bounds and disjoint, since the parser checks neither `start <= end` nor overlap; `EventAttr.EncodeHolds` says what overlapping formats leave.
- EventAttr.GenAttrForEvent: format files are a map from key to text and the type file is a number; reading sysfs is not part of this model. Formats of used keys with a shift that C leaves undefined are excluded.
- ConfigBits.ApplyRangeListToVal: words are sequences of 64 bits and the configuration word is passed by value and returned instead of being updated through a pointer; the shifts are tied to arithmetic by `Words.ShrIsDivision` and `Words.ShlIsMultiplication`.
- EventTables.EmitTables: all events are of a pmu with a name, as the generator gives them; the assertion is switched off for an empty pmu name.
- EventTables.PrintPendingEvents: the tables are a value instead of C text in a file, and the list of table names with the closing text is left out.
- Records.PackThenDecode: all stored texts are made of the escapes that the generator writes; other octal, hexadecimal or unicode escapes are left out, as `c_len` does not measure them.
- CpuMap.PerfCpuMapNew: the null list and the list of online CPUs read from sysfs are left out; the limit on numbers makes the 16-bit conversion exact.
- CpuMap.TrimNew: `qsort` is a method that is only known to sort and permute.
- MetricPrint.PrintParse: the printed text is a list of tokens; splitting characters into tokens and the decimal text of constants are left out.
- Assignments.PrintEvent: fields are numbers or absent; which of them the JSON has, and the fields that are printed in decimal, are left out here (see `Assignments.DecimalFieldReadsBack`).
- `str.lower()` on letters other than A to Z.
- The comments that `compute` writes beside the literals, and the sorted order of those comments' names.
- `ParsePerfJson` (metric.py:531-570): regular expressions and Python's own parser and evaluator.
- The application of the rewritten metrics to events (jevents.py:464-470), which looks names up among pairs.
- `print_pending_metrics`, which sorts by the presence of a description before the pmu.
- Floating point, the rounding and the decimal format of constants.
- Matching of cpuids by regular expressions, and the cpuid instruction: `MapLookup` works for any fixed relation.
- Failing allocations, the JSON field tables of `JsonEvent`, the files under `arch/`, and the example's loop over perf counters.
