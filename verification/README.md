# lean4dojo extraction core, modelled in Dafny

The repository turns the output of the Lean elaborator into one record per
theorem. Each record holds the theorem's name, its proof text and the
tactic steps of that proof, each step with the goals before and after it.
This project models the deterministic core of that pipeline as pure Dafny
functions, with a few methods where the source loops. It proves what the
code promises and, where the code does something surprising, proves that
as well.

The modules follow the source files.

- `Positions` (`positions.dfy`) models `FilePos` and `FileRange` in
  `jixiaw/output/proof.py`, and their duplicates `FilePos` and `Range` in
  `jixia_test.py`. It covers offset-to-position resolution, the sentinels
  for missing range ends, the lexicographic orders and `inRange`.
- `InfoTree`, `Tactics` and `Terms` model the info-tree walks:
  - `createTactic`;
  - `collect_sub_tactics`;
  - `collect_all_tactics`;
  - `find_root_tactrics`;
  - `collect_all_terms`;
  - `find_term`;
  - the name-lookup cascade of `extract_theorem`.

  `jixia_test.py` repeats this code at lines 92-163 with two differences.
  Its `collect_all_tactics` wraps the tactic object itself and sorts by
  `x.tactic.range`. On a bare `by` root it therefore fails later, not at
  once: "## Left out" says what that means for the model.
- `TheoremText` models the text handling of `proof.py`: `getToken`, the
  `" := "` signature/proof split, and how the operator is cut off the
  statement. From `jixia_test.py` it models the `startBy` rule, the
  `state_after` text and the steps written per theorem, including the
  synthetic fallback step.
- `AstRange`, `AstName`, `CleanProof` and `AstScan` model the text-scan
  extractor `jixiaw/jixia_ast_extract.py`:
  - `get_full_range`;
  - `find_name_refined`;
  - `clean_proof`;
  - the `scan` walk with its namespace stack, name qualification and
    set of seen ranges.

  `Json` gives the parsed JSON values that these functions walk.
- `OffsetGrouping` models the two offset-based builders,
  `jixiaw/chatgpt_extract.py` and `jixiaw/chatgpt_extract2.py`:
  - the pre-order walk;
  - the tactic and theorem extraction;
  - the line index;
  - the "greatest key not above the position" lookup;
  - the closed-interval grouping;
  - both `build_dataset` functions.
- `Comparison` models `jixiaw/comparison.py`. It covers loading the two
  JSONL files into maps, the four-way partition of their keys, and the
  sorted output.
- `Basics`, `Text` and `Sorting` hold the shared pieces:
  - `Option`;
  - `Outcome`, which is a value or a Python exception;
  - order-preserving subsequences and list comprehensions;
  - dictionary building where the last assignment wins;
  - Python string methods;
  - the `sorted` builtin as an insertion sort.

An unguarded Python exception is modelled as `Outcome.Crash`. These are all
the places where the model returns one:

- `Tactics.ScanRoots`, and so `Tactics.CollectAllTactics`: a root tactic
  whose text is exactly `by` is rejected by `createTactic`, and reading
  `tactic.fileRange` then raises (`jixiaw/output/proof.py:283-287`).
- `TheoremText.GetToken`: an index below minus twice the number of tokens
  raises `IndexError` (`jixiaw/output/proof.py:301-307`).
- `TheoremText.StartsByTactic`: the `startBy` rule raises on a proof that
  is exactly `by` (`jixia_test.py:222-232`).
- `AstName.Candidate`: an `atom` or `ident` that is not an object has no
  `get` (`jixiaw/jixia_ast_extract.py:54-55`).
- `AstName.OwnName`: a truthy name that is not a string has no
  `startswith` (`jixiaw/jixia_ast_extract.py:56`).
- `AstName.ArgsToVisit`: an `args` value that is a number, a boolean or
  null cannot be iterated (`jixiaw/jixia_ast_extract.py:59`).
- `Json.PyInt`, and so `AstRange.OriginalPositions`: `int()` of a value
  that is not a number raises (`jixiaw/jixia_ast_extract.py:21-22`).

The callers pass these on unchanged: `AstName.Collect`,
`AstName.FindName`, `AstRange.GetFullRange`, `AstScan.Declare`,
`AstScan.Visit`, `AstScan.ScanValue` and `AstScan.ScanModule`.

Some behaviours of the code are easy to miss. The model keeps each of them
and proves it:

- The "previous range" cursor of `collect_sub_tactics` is passed down into
  the children but never returned to the parent loop. A tactic repeated in
  a cousin subtree is therefore kept (`Tactics.CousinDuplicateKept`), while
  a repeated sibling is dropped (`Tactics.SiblingDuplicateDropped`).
- Root tactics get no containment check. `createTactic` is called without a
  previous range at `jixiaw/output/proof.py:283`.
- `collect_all_tactics` returns from the first tactic node of a sibling
  list. The list it returns on that path is not sorted
  (`Tactics.EarlyReturnUnsorted`). The `sorted` call runs only when a loop
  reaches its end.
- An offset past the last line start is not clamped. Its column keeps
  growing along the last line.
- After `clean_proof`, the text can still start with `:` or `=`, because a
  comment removed later can expose them (`CleanProof.LeadingCommentExposesAssign`).
  A comment can also survive, because removing one comment can bring two
  halves of another together (`CleanProof.BlockPassCanLeaveComment`,
  `CleanProof.BlockPassCanLeaveLineComment`).
- The pattern `\b(by|:=|where)\b` never matches a spaced ` := `. `:` is not
  a word character, so there is no word boundary on either side of it
  (`AstScan.SpacedAssignNeverMatches`). Proofs are found through `by`,
  `where` or a `:=` glued to word characters.
- A name written `_root_.x` inside a namespace stays in that namespace. The
  second replacement removes only the `_root_.` text
  (`AstScan.RootPrefixStaysInNamespace`).

## Model

| member | source | states |
|---|---|---|
| Positions.PosLeTotalOrder | jixiaw/output/proof.py:11-14 | Positions compare by line, then by column. This order is total, antisymmetric and transitive. |
| Positions.RangeLeTotalPreorder | jixiaw/output/proof.py:16-19 | Ranges compare by start, then by stop: the key `collect_all_tactics` sorts by. This order is total and transitive. |
| Positions.RangeLeAntisymmetric | jixiaw/output/proof.py:16-19 | Two different ranges are never each at most the other. |
| Positions.InRangePreorder | jixia_test.py:48-49 | Containment is reflexive and transitive: if a contains b and b contains c, then a contains c. |
| Positions.CreateFilePos | jixiaw/output/proof.py:32-42 | The loop stops at the first line start past the offset. The line is the number of line starts before it. The column is the offset minus the last such start, plus 1. Before the first start, or with an empty table, the result is line 1, column offset+1. |
| Positions.GreatestStartNotPast | jixia_test.py:36-46 | With a sorted table and an offset at or past the first start: the line found is that of the greatest line start not past the offset, it lies within the table, and the column is at least 1. |
| Positions.CreateFilePosMonotone | jixiaw/output/proof.py:32-42 | With a sorted table, a later offset never gets an earlier position. |
| Positions.CreateFilePosExample | jixiaw/output/proof.py:32-42 | With line starts [0, 10, 25]: offset 12 is (2, 3) and offset 30 is (3, 6). With no table, offset 7 is (1, 8). |
| Positions.FromStringRange | jixiaw/output/proof.py:21-30 | A present end is resolved by `createFilePos`. A missing start becomes (1, 1); a missing stop becomes (number of lines + 1, 1). A missing range gives both sentinels. |
| Positions.WholeFileContains | jixia_test.py:25-34 | The range built from a missing range contains every range built from non-negative offsets. |
| Sorting.Sort | jixiaw/output/proof.py:292 | Sorting is a permutation of its input. |
| Sorting.SortSorted | jixiaw/output/proof.py:292 | Under a total preorder, the sorted list is ordered. |
| Sorting.InsertSorted | jixiaw/output/proof.py:292 | Inserting one element into an ordered list keeps it ordered. |
| Sorting.SortKeepsSorted | jixiaw/output/proof.py:292 | Sorting an ordered list returns it unchanged. |
| Sorting.SubseqSorted | jixiaw/output/proof.py:294-299 | Any order-preserving subsequence of an ordered list is ordered, so filtering sorted root tactics keeps them sorted. |
| InfoTree.FlattenAppend | jixiaw/output/proof.py:120-133 | The pre-order of two sibling lists is the pre-order of the first followed by that of the second. |
| InfoTree.ChildrenFlattened | jixiaw/output/proof.py:130-131 | Every node reached in a node's children is reached in the walk that contains the node. |
| Tactics.CreateTactic | jixiaw/output/proof.py:101-117 | No tactic exactly when (a) multi-step text is skipped and the text holds a line break or `;`, (b) the previous range contains the new range, or (c) the text is `by`. Otherwise the tactic keeps the text, the resolved range and both goal lists, in order. |
| Tactics.CollectSubTactics | jixiaw/output/proof.py:120-133 | Every accepted sub-tactic is one step: no line break, no `;`, not `by`. The first accepted one is outside the cursor passed in. The result is an order-preserving subsequence of the tactic nodes in pre-order, so a node comes before its children. A first node that is a single step outside the cursor gives the first result. |
| Tactics.CollectSubTacticsComplete | jixiaw/output/proof.py:120-133 | If every tactic node is a single step, and no tactic lies inside the cursor or inside an earlier tactic, nothing is dropped. The result is then every tactic node's tactic, in pre-order. |
| Tactics.SiblingDuplicateDropped | jixiaw/output/proof.py:125-128 | The cursor moves to each accepted range, so a following sibling with the same range is dropped. |
| Tactics.CousinDuplicateKept | jixiaw/output/proof.py:130-131 | The cursor is not returned from the children. The same tactic, once under a wrapper node and once as the wrapper's next sibling, is emitted twice. |
| Tactics.CollectAllTactics | jixiaw/output/proof.py:276-292 | There is no crash when no tactic node anywhere in the forest has the bare text `by`. Every root comes from a tactic node of the forest. When no top-level node carries a tactic, the loop finishes and the result is sorted by range. When the first node carries a tactic, the call crashes exactly when its text is `by`. Otherwise the result is that one root, with the sub-tactics found below it. |
| Tactics.ScanRoots | jixiaw/output/proof.py:281-291 | The loop takes the early exit only if some node in the list carries a tactic. Every root it returns was already collected or comes from a tactic node. What was collected before stays at the front. A first node with a tactic ends the loop with its root appended, or crashes exactly when its text is `by`. |
| Tactics.ScanReachesTactic | jixiaw/output/proof.py:281-289 | When the loop succeeds: if the nodes before node i carry no tactic and node i does, the loop's result holds node i's root. |
| Tactics.ScanReachesChildren | jixiaw/output/proof.py:281-291 | When the loop succeeds: if nodes 0..i carry no tactic, the search below node i succeeds and every root it finds is in the loop's result. |
| Tactics.FirstTacticIsRoot | jixiaw/output/proof.py:276-292 | The first top-level tactic node becomes a root of the result. |
| Tactics.RootsFromChildren | jixiaw/output/proof.py:276-292 | Every root found below a top-level node that comes before any top-level tactic node is a root of the result. |
| Tactics.EarlyReturnStopsSiblingScan | jixiaw/output/proof.py:282-289 | Once node i carries a tactic, the siblings after it are never examined: the result equals that for the list cut after i. |
| Tactics.EarlyReturnUnsorted | jixiaw/output/proof.py:289 | If a later-starting tactic sits under a wrapper before an earlier-starting sibling, the early return gives two roots out of range order. |
| Tactics.FindRootTactics | jixiaw/output/proof.py:294-299 | Exactly the root tactics whose range lies in the given range, as an order-preserving subsequence. Each such root is kept as often as it occurs in the input; every other root is dropped. |
| Terms.CollectAllTerms | jixiaw/output/proof.py:172-181 | An order-preserving subsequence of the kept identifier terms in pre-order. A kept first node gives the first term. `Terms.KeptHidesChildren` and `Terms.CollectAllTermsComplete` state what is kept and that nothing else is lost. |
| Terms.KeptHidesChildren | jixiaw/output/proof.py:174-178 | A kept node contributes its own term and nothing from below it, for any children and any later siblings. |
| Terms.SkippedDescends | jixiaw/output/proof.py:179-180 | A node that is not kept contributes exactly the terms collected below it. |
| Terms.CollectAllTermsComplete | jixiaw/output/proof.py:172-181 | When no kept node has a kept node below it, every kept node's term is collected, in pre-order. |
| Terms.KeptNodeHidesChildren | jixia_test.py:125-134 | The children of a kept node are not searched: one term is collected where the pre-order holds two. |
| Terms.FindTerm | jixia_test.py:136-140 | Either no term is in range with that identifier and the result is none, or the result is the first such term in list order. |
| Terms.FirstHit | jixiaw/output/proof.py:424-445 | A hit is a term in range whose identifier is one of the candidate names. There is no hit exactly when no candidate name finds a term. |
| Terms.FirstHitAppend | jixiaw/output/proof.py:424-445 | Searching a + b gives a's hit if a has one, otherwise b's. |
| Terms.SuffixStep | jixiaw/output/proof.py:427-433 | One loop round tries the joined name, then its `@` form unless it already starts with `@`, then drops the first name component. |
| Terms.TailStep | jixiaw/output/proof.py:434-445 | After the suffixes, the cascade tries `_root_.` + the name, then its `@` form, then `«last»`, then `@«last»`. |
| Terms.FindTheoremTerm | jixiaw/output/proof.py:424-446 | The loop and the fallbacks find the same term as the first hit over the whole candidate list. |
| Text.Strip | jixiaw/output/proof.py:302 | `strip()` returns a slice of its input with only whitespace around it. The slice neither starts nor ends with whitespace. |
| Text.RStrip | jixiaw/output/proof.py:408 | `rstrip()` returns a prefix. Everything dropped is whitespace, and the result does not end with whitespace. |
| Text.LStrip | jixiaw/output/proof.py:414 | `lstrip()` returns a suffix that does not start with whitespace. |
| Text.LStripDropsSpace | jixiaw/output/proof.py:414 | Everything `lstrip()` drops is whitespace. |
| Text.StripKeepsTrimmed | jixiaw/output/proof.py:302 | Text that neither starts nor ends with whitespace is unchanged by `strip()`. |
| Text.IndexOf | jixiaw/output/proof.py:318 | The first occurrence at or after the start index, or none when there is none after it. |
| Text.ContainsIffFound | jixiaw/output/proof.py:318 | `sub in s` holds exactly when the search finds a position. |
| Text.Split | jixiaw/jixia_ast_extract.py:38 | At least one part, no part holds the separator, and joining the parts with the separator gives back the text. |
| Text.SplitJoin | jixiaw/jixia_ast_extract.py:38-44 | Splitting a join of separator-free parts gives the parts back. |
| Text.JoinAvoids | jixiaw/jixia_ast_extract.py:140 | A character in neither the parts nor the separator is not in their join. |
| Text.ReplaceAbsent | jixiaw/jixia_ast_extract.py:140 | `replace` with a pattern that never occurs leaves the text unchanged. |
| Text.PySlice | jixiaw/jixia_ast_extract.py:144 | An in-bounds slice is the ordinary subsequence. Any slice is no longer than its input. |
| Text.Drop | jixiaw/output/proof.py:408 | `s[n:]` is the suffix after n, or empty when n is past the end. |
| Text.Lower | jixiaw/jixia_ast_extract.py:111 | Same length, and no ASCII upper-case letter remains. Each upper-case letter becomes the lower-case letter at the same place in the alphabet. Every other character is kept. |
| Text.Tokens | jixiaw/output/proof.py:302 | `split()` yields non-empty tokens without whitespace. |
| Text.TokensOfJoin | jixiaw/output/proof.py:302 | `split()` undoes joining tokens with a single whitespace character. |
| TheoremText.Normalize | jixiaw/output/proof.py:316 | Same length. Each tab, line feed and carriage return becomes a space, so none remains. Every other character is kept in place. |
| TheoremText.GetToken | jixiaw/output/proof.py:301-307 | A non-negative index never raises. A token returned is non-empty and free of whitespace. |
| TheoremText.GetTokenOfJoin | jixiaw/output/proof.py:301-307 | On tokens joined by spaces, index i gives token i and index -1 gives the last token. |
| TheoremText.TokensOfJoinedLine | jixiaw/output/proof.py:302 | Stripping, normalising and splitting a space-joined line gives its tokens back. |
| TheoremText.SplitOffsets | jixiaw/output/proof.py:316-323 | No ranges exactly when the normalised text holds no `" := "`. Otherwise m is the first match offset; the signature is [start, start+m) and the proof starts at start+m+1 and ends at the theorem's stop. |
| TheoremText.SplitSeesThroughLineBreaks | jixiaw/output/proof.py:316-318 | A line break before `:=` still splits, because the text is normalised first. |
| TheoremText.SignatureProofRanges | jixiaw/output/proof.py:312-326 | No result exactly when the split finds nothing. Otherwise both offset ranges are resolved through `fromStringRange`. |
| TheoremText.SignatureBeforeProof | jixiaw/output/proof.py:321-325 | With a sorted line table, the signature range is well formed and ends no later than the proof range starts. |
| TheoremText.ProofTextAsWrittenLosesLetter | jixiaw/output/proof.py:408-414 | With one space after an operator of length at least 2, the code as written drops the first len(operator)-1 characters of the proof. The result differs from the corrected text. |
| TheoremText.ProofTextAfterOperator | jixiaw/output/proof.py:408-414 | The corrected proof text is exactly the body after the operator and any whitespace. |
| TheoremText.ProofTextAsWrittenWithWideGap | jixiaw/output/proof.py:408-414 | If at least as much whitespace as the operator is long follows it, the code as written gives the right text. |
| TheoremText.StartsByTactic | jixia_test.py:222-232 | It raises exactly on the proof `by`. It is true exactly when the proof is missing, or starts with `by` followed by a space, tab, carriage return or line feed. |
| TheoremText.ByBlockStartsBy | jixia_test.py:229-232 | `by` followed by a space, tab or line break counts as starting with `by`. |
| TheoremText.StateAfter | jixia_test.py:242-245 | No goals gives `no goals`. A single goal gives that goal's text. |
| TheoremText.StateAfterSplits | jixia_test.py:245 | Goals without line breaks are recovered by splitting the text on `\n`. |
| TheoremText.RootSteps | jixia_test.py:238-257 | One step per sub-tactic, in order. Each step has its tactic's text, a before-state, and its tactic's start and stop. A tactic that leaves no goal gives `no goals`. |
| TheoremText.RootStepGoals | jixia_test.py:240-245 | When no goal holds a line break, splitting a step's before- and after-text at line breaks gives back its tactic's goal lists (when non-empty). |
| TheoremText.TheoremSteps | jixia_test.py:234-285 | There is always at least one step. With the `by` flag set, there are no reference steps and a missing proof is taken from the first root tactic. If the last root tactic has sub-tactics, the steps are exactly that root's steps, because each root overwrites the list. Without the flag, the proof is kept and each root gives one reference step list, in order. Whenever the last root's steps are not taken, there is exactly one synthetic step: the proof text, the prior goal state, `no goals` and the proof range. |
| CleanProof.DropJunk | jixiaw/jixia_ast_extract.py:33 | The longest prefix of spaces, tabs, line breaks, `:` and `=` is removed, and nothing else. |
| CleanProof.StripLineComments | jixiaw/jixia_ast_extract.py:34 | No `--` remains. The result is a subsequence of the input. |
| CleanProof.StripLineCommentsKeeps | jixiaw/jixia_ast_extract.py:34 | Text without `--` is unchanged. |
| CleanProof.StripBlockComments | jixiaw/jixia_ast_extract.py:35 | The result is a subsequence of the input. |
| CleanProof.StripBlockCommentsKeeps | jixiaw/jixia_ast_extract.py:35 | Text without `/-` is unchanged. |
| CleanProof.LeadingBlockRemoved | jixiaw/jixia_ast_extract.py:35 | A leading `/- c -/` is removed up to its first closer. |
| CleanProof.BlockPassCanLeaveComment | jixiaw/jixia_ast_extract.py:35 | Removing one block comment can join a `/` and a `-` into a new opener, so a block comment remains afterwards. |
| CleanProof.BlockPassCanLeaveLineComment | jixiaw/jixia_ast_extract.py:34-35 | The block pass runs after the line pass and can create a `--`. |
| CleanProof.StopKeywordsStartWithInitials | jixiaw/jixia_ast_extract.py:37 | Every stop keyword starts with one of a fixed set of characters. |
| CleanProof.NotStopLine | jixiaw/jixia_ast_extract.py:41 | A line whose stripped text starts with any other character is not a stop line. |
| CleanProof.FirstStop | jixiaw/jixia_ast_extract.py:40-42 | The index of the first stop line, every line before it being a non-stop line, or the number of lines. |
| CleanProof.Clean | jixiaw/jixia_ast_extract.py:30-44 | A missing or empty text gives "". Otherwise the result neither starts nor ends with whitespace. |
| CleanProof.CleanKeepsCleanText | jixiaw/jixia_ast_extract.py:30-44 | Text with no leading junk, no outer whitespace, no comments and no stop line comes out unchanged. |
| CleanProof.CutAtStopKeepsLine | jixiaw/jixia_ast_extract.py:37-44 | A single trimmed line that is not a stop line is kept. |
| CleanProof.UncommentLeadingComment | jixiaw/jixia_ast_extract.py:34-35 | A leading block comment before comment-free text is removed. |
| CleanProof.LeadingCommentExposesAssign | jixiaw/jixia_ast_extract.py:33-35 | The leading `:`/`=` strip runs before comments are removed, so a comment before `:=` leaves a result that starts with `:`. |
| AstRange.OwnPositions | jixiaw/jixia_ast_extract.py:14-16 | At most one offset per key. |
| AstRange.OwnPositionsSpec | jixiaw/jixia_ast_extract.py:14-16 | The offsets are exactly the numbers under the keys. |
| AstRange.OwnPositionsInOrder | jixiaw/jixia_ast_extract.py:14-16 | When every key holds a number, there is one offset per key, and offset k is the number under key k. |
| AstRange.OriginalPositions | jixiaw/jixia_ast_extract.py:17-22 | Nothing when `info.original` is missing, not an object, or has no `pos`. Otherwise it raises unless `pos`, and `endPos` when present, are numbers. The first offset is `int(pos)`, and the second, present exactly when `endPos` is, is `int(endPos)`. |
| AstRange.MinMax | jixiaw/jixia_ast_extract.py:28 | None exactly for no offsets. Otherwise both ends are collected offsets and bound every collected offset. |
| AstRange.GetFullRange | jixiaw/jixia_ast_extract.py:10-28 | It raises exactly when collection raises. It is None exactly when nothing was collected. Otherwise lo ≤ hi: both are collected offsets, and every collected offset lies between them. |
| AstRange.RangeCoversOwnPos | jixiaw/jixia_ast_extract.py:14-16 | An object's range covers its own `pos`. |
| AstRange.ListRangeCoversItems | jixiaw/jixia_ast_extract.py:25-26 | A list's offsets include those of each of its items. |
| AstRange.NonNumericOriginalRaises | jixiaw/jixia_ast_extract.py:21 | A non-numeric `info.original.pos` makes the range computation raise. |
| Json.PyInt | jixiaw/jixia_ast_extract.py:21 | `int()` succeeds exactly on integers and booleans, and keeps integers. |
| AstName.Candidate | jixiaw/jixia_ast_extract.py:53-55 | A string candidate, whether from `rawVal`, `atom.val` or `ident.rawVal`, is found inside the object. |
| AstName.OwnName | jixiaw/jixia_ast_extract.py:56-58 | An accepted name is non-empty, not a keyword, does not start with `@`, and is inside the object. |
| AstName.ArgsToVisit | jixiaw/jixia_ast_extract.py:59 | A non-empty visit list is the object's `args` list. |
| AstName.Collect | jixiaw/jixia_ast_extract.py:51-62 | A name found is acceptable and occurs in the tree. A non-object finds nothing. Which name is found, and when nothing is, is fixed by `AstName.CollectIsFirst`. |
| AstName.FindName | jixiaw/jixia_ast_extract.py:46-65 | `Unknown`, or an acceptable value that occurs in the tree. A non-object gives `Unknown`. `AstName.FindNameIsFirst` proves that the value is the first acceptable one in visit order, and `Unknown` only when there is none. |
| AstName.FirstOwn | jixiaw/jixia_ast_extract.py:52-58 | Reference search over a list of objects: none exactly when no object's own test finds a name, otherwise the name found by the first object whose test finds one. |
| AstName.CollectIsFirst | jixiaw/jixia_ast_extract.py:51-62 | The recursive search gives what a linear scan over the visit order gives. That order is the object, then everything under its `args` items, then everything under its other object-valued fields except `info`. If no visited object raises, neither does the search. |
| AstName.CollectListIsFirst | jixiaw/jixia_ast_extract.py:59 | The same for the `args` loop. |
| AstName.CollectFieldsIsFirst | jixiaw/jixia_ast_extract.py:60-62 | The same for the loop over the other fields. |
| AstName.FindNameIsFirst | jixiaw/jixia_ast_extract.py:46-65 | `find_name_refined` returns the name found by the first visited object whose own value is acceptable. It returns `Unknown` when no visited object has one, and it raises only if a visited object raises. |
| AstName.OwnRawValWins | jixiaw/jixia_ast_extract.py:53-58 | An object's own acceptable `rawVal` wins over anything below it. |
| AstName.KeywordPassedOver | jixiaw/jixia_ast_extract.py:56-59 | A keyword is skipped and the search goes on into `args`. |
| AstName.ScalarAtomRaises | jixiaw/jixia_ast_extract.py:54 | An `atom` that is not an object raises when there is no `rawVal`. |
| AstScan.KindText | jixiaw/jixia_ast_extract.py:110-111 | A node without `kind` has the empty kind text. A string kind gives its lower-cased text. A kind that is neither a string nor an object gives "". |
| AstScan.NsStep | jixiaw/jixia_ast_extract.py:113-123 | The stack grows by at most one, shrinks by at most one, and keeps all but its top. It never holds `Unknown`. Other kinds leave it alone. |
| AstScan.EnterThenEnd | jixiaw/jixia_ast_extract.py:113-123 | Entering a namespace and then ending it gives the stack back. |
| AstScan.EndOnEmptyStack | jixiaw/jixia_ast_extract.py:121-123 | An `end` with nothing open leaves the stack empty: no underflow. |
| AstScan.PlainNamesJoin | jixiaw/jixia_ast_extract.py:136-140 | Without underscores, the qualified name is the stack and the name joined by dots. |
| AstScan.RootComponentDropped | jixiaw/jixia_ast_extract.py:138-140 | A `_root_` stack entry is dropped from the qualified name. |
| AstScan.RootPrefixStaysInNamespace | jixiaw/jixia_ast_extract.py:140 | A `_root_.`-prefixed name inside a namespace keeps the namespace. Only the prefix text goes. |
| AstScan.ProofStart | jixiaw/jixia_ast_extract.py:145 | The first index where `by`, `:=` or `where` stands between word boundaries, or none. |
| AstScan.SpacedAssignNeverMatches | jixiaw/jixia_ast_extract.py:145 | A spaced ` := ` never matches. |
| AstScan.SpacedByMatches | jixiaw/jixia_ast_extract.py:145 | A spaced ` by ` matches, so the match starts at or before it. |
| AstScan.Emit | jixiaw/jixia_ast_extract.py:132-154 | The range is recorded and earlier records stay. One record is appended exactly when the cleaned proof of the range's text is non-empty. That record is the qualified name with that proof. |
| AstScan.Declare | jixiaw/jixia_ast_extract.py:126-132 | A range that raises raises; no range, a seen range, `Unknown`, or a name equal to the innermost namespace changes nothing. An unseen range with a found name that differs from the innermost namespace is emitted under that name. A name search that raises on an unseen range raises. |
| AstScan.Visit | jixiaw/jixia_ast_extract.py:106-132 | A node only extends the state. A non-declaration kind adds no range and no record. Outside `namespace` and `command.end`, a declaration kind is the declaration step and any other kind changes nothing. |
| AstScan.ScanValue | jixiaw/jixia_ast_extract.py:100-159 | The walk only extends the state. Ranges and records are only added, and each record consumes a new range. |
| AstScan.ScanModule | jixiaw/jixia_ast_extract.py:94-161 | Per module: no more records than distinct ranges, every proof non-empty, no `Unknown` on the stack. `AstScan.ScanOneDeclaration` gives the exact output for one declaration. |
| AstScan.DeclNodeRange | jixiaw/jixia_ast_extract.py:10-28 | A node whose only offsets are its `pos` a and `endPos` b, with a ≤ b, has the range (a, b). |
| AstScan.ScanOneDeclaration | jixiaw/jixia_ast_extract.py:100-159 | A module that is one declaration node with an accepted name and range (a, b) ends with just (a, b) seen. When the range's text holds a proof, the one record is that node's name with that proof; otherwise there is none. |
| AstScan.TopLevelName | jixiaw/jixia_ast_extract.py:136-140 | Outside any namespace, a name without `_` is recorded as it is. |
| Basics.FilterMembers | jixiaw/jixia_ast_extract.py:138 | A list comprehension keeps exactly the elements that pass. |
| Basics.FilterCounts | jixiaw/jixia_ast_extract.py:138 | Each passing element is kept as often as it occurs; every other element is dropped. |
| Basics.FilterSnoc | jixiaw/chatgpt_extract2.py:130-145 | Filtering one more element appends it if it passes: the loop builds the comprehension. |
| Basics.FilterMapAppend | jixiaw/chatgpt_extract.py:31-49 | Filtering a concatenation filters each part in turn: the loop neither reorders nor merges entries. |
| Basics.FilterMapAll | jixiaw/chatgpt_extract.py:31-49 | When every element gives an entry, nothing is dropped: entry i is that of element i. |
| Basics.LastWinsSpec | jixiaw/chatgpt_extract.py:87-93 | The keys are exactly those present. Each key maps to the value of the last element carrying it. |
| OffsetGrouping.WalkTree | jixiaw/chatgpt_extract.py:17-20 | The walk yields the node first. |
| OffsetGrouping.WalkNested | jixiaw/chatgpt_extract.py:17-20 | The walk of any node reached is a contiguous block of the enclosing walk: pre-order. |
| OffsetGrouping.ForestSplit | jixiaw/chatgpt_extract2.py:31-32 | Walking a forest is walking the roots before i, then root i, then the rest, left to right. |
| OffsetGrouping.SortByStart | jixiaw/chatgpt_extract.py:51 | A permutation ordered by range start. |
| OffsetGrouping.TacticOf | jixiaw/chatgpt_extract.py:34-48 | A node gives an entry exactly when its info has `tactic`. The entry keeps the text, both goal lists and the references. It keeps the node's range, and a missing range becomes [0, 0]. |
| OffsetGrouping.ExtractAllTactics | jixiaw/chatgpt_extract.py:27-53 | Exactly the entries of tactic-bearing nodes, ordered by start, no more than the nodes walked. It is a permutation of the entries in walk order, so each is kept as often as it occurs. |
| OffsetGrouping.TheoremOf | jixiaw/chatgpt_extract.py:66-75 | An entry is kept exactly with a truthy name and, for the first builder, a truthy type. A missing range becomes [0, 10**12]. |
| OffsetGrouping.ExtractTheorems | jixiaw/chatgpt_extract.py:60-80 | Exactly the kept entries, ordered by start. It is a permutation of the kept entries in declaration order. |
| OffsetGrouping.TheoremsOfSecondBuilder | jixiaw/chatgpt_extract2.py:58-75 | The second builder keeps all the first keeps, plus the named entries without a type. |
| OffsetGrouping.BuildLineIndex | jixiaw/chatgpt_extract.py:87-93 | The keys are the present starts. Each maps to the state of the last entry with that start. |
| OffsetGrouping.GreatestKeyLe | jixiaw/chatgpt_extract.py:102-109 | None exactly when every key is past pos. Otherwise the greatest key not past pos. |
| OffsetGrouping.FindPrettyState | jixiaw/chatgpt_extract.py:96-114 | The state at the greatest key not past pos, or null. An exact key gives its own state. |
| OffsetGrouping.FindLineAndState | jixiaw/chatgpt_extract2.py:98-112 | The greatest key not past pos with its state, or (None, None) when every key is past pos. |
| OffsetGrouping.TacticsWithin | jixiaw/chatgpt_extract.py:130-133 | Exactly the tactics with start ≤ range[0] ≤ end, in input order. |
| OffsetGrouping.GroupTacticsByTheorem | jixiaw/chatgpt_extract.py:121-141 | One group per theorem, in theorem order. Each group holds exactly its tactics, in input order. |
| OffsetGrouping.GroupsStayOrdered | jixiaw/chatgpt_extract.py:130-133 | Groups taken from tactics sorted by start are sorted by start. |
| OffsetGrouping.AttachPrettyStates | jixiaw/chatgpt_extract.py:148-155 | Each tactic gets the pretty state at its start offset. Nothing else changes. |
| OffsetGrouping.BuildDataset | jixiaw/chatgpt_extract.py:162-171 | One group per kept theorem, in order. Each carries that theorem's name and `theorem_type`, and holds its tactics with their pretty states, sorted by start. |
| OffsetGrouping.ProofSteps | jixiaw/chatgpt_extract2.py:128-145 | One step per tactic in range, in order. A present line is the greatest key not past the tactic's start, so it is at most that start. |
| OffsetGrouping.BuildDataset2 | jixiaw/chatgpt_extract2.py:119-153 | One entry per theorem, in order, holding exactly the steps of its tactics. |
| Comparison.KeyOf | jixiaw/comparison.py:8-11 | A line contributes a key exactly when it is not blank. |
| Comparison.LoadData | jixiaw/comparison.py:4-13 | The keys are those of the non-blank lines. Each maps to the proof of the last line with that key. |
| Comparison.MissingProofIsEmpty | jixiaw/comparison.py:12 | A record without `tactic_proof` is loaded as "". |
| Comparison.KeyLeOrder | jixiaw/comparison.py:40 | The (module, full_name) tuple order is a total, antisymmetric preorder. |
| Comparison.SetToSeq | jixiaw/comparison.py:31 | Iterating a set visits each member exactly once. |
| Comparison.SplitCommon | jixiaw/comparison.py:28-35 | `same` holds exactly the common keys with equal values, `diff` exactly those with unequal values, each key once. |
| Comparison.WriteOutput | jixiaw/comparison.py:38-47 | One record per key, sorted by key, a permutation of the keys. Each value is taken from the given map. |
| Comparison.WrittenOnce | jixiaw/comparison.py:40-47 | Distinct keys give records with distinct keys. |
| Comparison.Written | jixiaw/comparison.py:38-47 | The written keys are exactly the given keys, with values from the given map. |
| Comparison.CompareJsonl | jixiaw/comparison.py:15-53 | only_in_1 = keys1 − keys2, only_in_2 = keys2 − keys1, same and different split the common keys by equal value. Every key of either file is in exactly one output. Each output is sorted and takes its values from the map it is written from. |

## Left out

- Reading files and deriving paths are I/O and are not modelled. This covers `getLeanSourceFile`, `getLeanSourceCode`, `extractLine`, `find_correct_lean_source` and the file loading in `process_ast`. Source text is a `string` parameter, and the text `getLeanSourceCode` would return is given directly (`TheoremText.SplitOffsets` takes it as `text`).
- JSON emission, directory walking and the `__main__` blocks are serialisation plumbing. `TheoremText.TheoremSteps` builds the values that `process_module` writes. `Comparison.CompareJsonl` returns the four lists instead of writing four files.
- `project.has_info` and `load_info` are foreign calls. Declarations, info trees and the line table are plain Dafny values: `InfoTree.InfoNode`, `seq<int>` line starts, and `OffsetGrouping.ElabNode` and `DeclEntry` for the already-parsed JSON.
- `jixiaw/output/load_data.py` is not part of this model. It is command-line and subprocess glue.
- The debug and exploratory helpers are not modelled: `print_inforTree`, `collect_all_macros`, `find_macros`, `print_macro`, `print_term`, `find_all_terms`, `print_terms` and `simplify_tree`.
- The regular expressions are modelled as explicit scans over characters:
  - `\b` follows ASCII word characters;
  - `lower()` lowers only ASCII letters;
  - source bytes are modelled as characters, so the UTF-8 decoding with `errors='ignore'` is not modelled.
- `sys.setrecursionlimit` has no counterpart. The trees are finite datatypes, so every walk terminates structurally.
- `extract_theorem` as a whole is not modelled as one function. Its parts are:
  - the operator token (`TheoremText.GetToken`);
  - the fallback split (`TheoremText.SignatureProofRanges`);
  - the operator cut (`TheoremText.ProofTextAsWritten`, `TheoremText.ProofText`);
  - the root-tactic lookup (`Tactics.FindRootTactics`);
  - the name cascade (`Terms.FindTheoremTerm`).

  Popping the first root tactic and assembling the record are left out, because they only move these values into a record.
- InfoTree.Ref: `pp` is always a string, so a `ref.pp` of None is not modelled. With None, `createTactic` called with `skipMultiples=True` raises `TypeError` at `jixiaw/output/proof.py:103`, so `collect_sub_tactics` raises. The root call at `jixiaw/output/proof.py:284` does not raise: `None == "by"` is false, and the root tactic's `pp` is stored as None (`jixiaw/output/proof.py:287`).
- Tactics.CollectSubTactics: states the cursor test only for the first accepted tactic, not for each acceptance against the cursor in effect at that point. The cursor a tactic is tested against is set by the last acceptance among its earlier siblings at the same level, or else is the cursor passed in; acceptances inside an earlier sibling's subtree do not move it, because the recursive call does not return its cursor. The list alone does not reveal which cursor was in effect. `Tactics.SiblingDuplicateDropped` and `Tactics.CousinDuplicateKept` pin down the two cases.
- Tactics.CollectAllTactics: states sortedness only when no top-level node carries a tactic. Deeper early returns are merged and then sorted. A top-level early return gives the roots collected under the earlier tactic-less siblings followed by the new root, unsorted; `Tactics.EarlyReturnUnsorted` exhibits such a result.
- Tactics.CollectAllTactics: follows `jixiaw/output/proof.py`, where a bare `by` root raises at once when `tactic.fileRange` is read. The copy in `jixia_test.py:149-156` does not read it. It stores a root with no tactic, and fails only later: in the `sort` key, or when `find_root_tactrics` reads the root's range. That deferred failure is not modelled.
- AstScan.ScanValue: states the invariants the walk keeps, not its full output. `AstScan.ScanOneDeclaration` fixes the exact output for a module with one declaration; deeper trees are not characterised.
- AstScan.ScanModule: the same as `AstScan.ScanValue`.
- OffsetGrouping.ElabNode: an `info.tactic` that is present but null, or not an object, is not representable. Python raises `AttributeError` there, at `chatgpt_extract.py:45`.
- Json.Get: a repeated key reads the first field. `json.load` keeps the last. Objects with repeated keys are not modelled.
- Comparison.SplitCommon: compares proofs with equality of the `Json` datatype, not Python's `==`. The two differ for `1 == True` and for dictionaries with the same fields in a different order. For string `tactic_proof` values, which `jixia_ast_extract.py:152` writes, the two agree.
- Comparison.CompareJsonl: the same as `Comparison.SplitCommon`.
- Sorting.Sort: stability is not proved. Python's `sorted` is stable, and the insertion sort keeps equal elements in input order, but no lemma states it.
- AstScan.KindText: a `kind` that is neither a string nor an object with a string `name` gives "". Python would instead lower its `str()` form, which is not modelled.
- Json.PyInt: raises on every string. Python's `int()` accepts numeric strings. Floats are not modelled, because the JSON values here carry only integers.
- OffsetGrouping.AttachPrettyStates: returns new groups instead of mutating the dictionaries in place. The result is the same.
- OffsetGrouping.ExtractAllTactics: ranges are modelled as (start, stop) pairs. A malformed range value, one that is not a two-element list, is not modelled.
- Comparison.LoadData: keys are pairs of strings. A record whose `module` or `full_name` is missing is not modelled; Python would key it with `None`.

## Findings

| source | as written | input that shows it | evidently intended | confidence | as-written member | corrected member |
|---|---|---|---|---|---|---|
| jixiaw/output/proof.py:408-414 | The operator's length is cut off the statement twice: once at line 408, and again at line 414 on the text already cut. | statement `:= by simp` with operator `:=` gives proof `y simp` | the proof after the operator and its whitespace: `by simp` | high; not executed | TheoremText.ProofTextAsWrittenLosesLetter | TheoremText.ProofTextAfterOperator |
