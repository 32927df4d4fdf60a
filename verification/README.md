# Split diff view, file helpers and settings store, in Dafny

This project models three parts of a desktop git client's front end and proves properties of them.

- **Split diff** (`src/lib/splitDiff.ts`): this turns each hunk of a unified diff into side-by-side rows.
  - Runs of deleted (`-`) and added (`+`) lines are buffered.
  - At each context line, and at the end of the hunk, the buffers are flushed. Deletions go down the left column and additions down the right, paired index by index. A shorter buffer leaves empty cells.
  - A context line becomes a row that shows the same line on both sides.
  - When a row has both sides, an intraline highlight marks the differing middle of the two texts. This is what `computeInlineSegments` computes: a common prefix, a common suffix and a highlighted middle.
- **File helpers** (`src/lib/utils.ts`):
  - the last path component and the file extension;
  - the badge letter and the colour class of a file status;
  - the branch colour slot (0 to 9) and its CSS colour string.
- **Settings store** (`src/stores/settingsStore.ts`): an object that holds the recent-repository list (at most 10 entries, most recent first), editor and diff preferences, and panel sizes. It has one setter per preference, plus add, remove and clear actions for the recent list.

## Files

- `diff_types.dfy`: the diff line and hunk records, and the classification of a line's origin tag. The module `MinMax` there holds `Max`, the `Math.max` bound of the flush loop, and `Min`, which states the suffix loop's two bounds at once.
- `inline_segments.dfy`:
  - `ComputeInlineSegments` is a method with the source's two scanning loops.
  - It is proved equal to the specification function `Highlight`.
  - Round-trip and shape lemmas are proved about `Highlight`.
- `split_diff.dfy`:
  - `PairLines` is a method with the source's loop over the lines. `Flush` has the loop of the flush closure.
  - Both are proved against the specification functions `Pairing` and `FlushRows`.
  - The conservation and well-formedness lemmas about those functions are proved here.
  - `SplitDiffHunks` is a function.
- `utils.dfy`: the path, status and colour helpers, written as functions.
  - JavaScript's `String.prototype.split` is modelled by `Split`, which has a join round trip.
  - JavaScript's truncating `%` is modelled by `JsRem`.
- `settings_store.dfy`:
  - The store is the class `SettingsStore.SettingsStore`. Each action is a method that replaces one field. Its `ensures` states the whole new state through `Snapshot()`.
  - The recent-list rules are the functions `WithRecent` and `Without`, with their properties as lemmas.

## Model

| member | source | states |
|---|---|---|
| InlineSegments.CommonPrefixLen | src/lib/splitDiff.ts:39-47 | The common prefix length fits in both texts. |
| InlineSegments.CommonPrefixLenSpec | src/lib/splitDiff.ts:39-47 | The prefix scan's result is a common prefix of both texts. It is maximal: the next characters differ, or one text has ended. |
| InlineSegments.PrefixLenUnique | src/lib/splitDiff.ts:39-47 | Any length with those two properties is the prefix length. So the loop's exit condition determines its result. |
| InlineSegments.CommonSuffixLen | src/lib/splitDiff.ts:49-58 | The common suffix length never exceeds its bound, which is what is left of the shorter text after the prefix. |
| InlineSegments.CommonSuffixLenSpec | src/lib/splitDiff.ts:49-58 | The suffix scan's result is a common suffix that does not reach into the prefix. It is maximal within that bound. |
| InlineSegments.SuffixLenUnique | src/lib/splitDiff.ts:49-58 | Any length with those properties is the suffix length. |
| InlineSegments.ScanMatchesHighlight | src/lib/splitDiff.ts:39-58 | Any prefix and suffix that meet the two loops' exit conditions give the same segments as `Highlight`. |
| InlineSegments.ComputeInlineSegments | src/lib/splitDiff.ts:35-90 | The two loops and the segment pushes compute `Highlight(oldText, newText)`. Each side's segments concatenate back to that side's text. |
| InlineSegments.PartitionCounts | src/lib/splitDiff.ts:60-87 | A text cut into prefix, middle and suffix has no empty segment, and at most one segment is highlighted. |
| InlineSegments.PartitionPlainTexts | src/lib/splitDiff.ts:60-87 | The plain segments of a cut text are the prefix and then the suffix, each only when it is non-empty. |
| InlineSegments.Highlight | src/lib/splitDiff.ts:35-90 | Nothing is lost: concatenating the old side's segments gives the old text, and concatenating the new side's segments gives the new text. |
| InlineSegments.HighlightCuts | src/lib/splitDiff.ts:39-89 | Both sides are cut at the same prefix and suffix lengths. The text before the first cut, and the text after the second, is the same on both sides. |
| InlineSegments.PartitionsShape | src/lib/splitDiff.ts:60-87 | Two texts cut at a shared prefix and suffix have no empty segment, at most one highlighted segment each, and the same plain texts in the same order. |
| InlineSegments.HighlightShape | src/lib/splitDiff.ts:60-89 | Neither side has an empty segment, and each side highlights at most one. Both sides have the same unhighlighted texts in the same order. |
| InlineSegments.HighlightEqual | src/lib/splitDiff.ts:35-90 | Identical texts give one plain segment per side. Two empty texts give no segments. |
| InlineSegments.HighlightDisjoint | src/lib/splitDiff.ts:35-90 | Texts whose first characters differ and whose last characters differ are each highlighted whole. |
| InlineSegments.HighlightAppended | src/lib/splitDiff.ts:35-90 | When text is appended, the old side stays plain. The new side is plain up to the old text, and the appended tail is highlighted. |
| InlineSegments.CommonPrefixLenSymmetric | src/lib/splitDiff.ts:39-47 | The prefix scan gives the same length with the two texts swapped. |
| InlineSegments.CommonSuffixLenSymmetric | src/lib/splitDiff.ts:49-58 | The bounded suffix scan gives the same length with the two texts swapped. |
| InlineSegments.HighlightSwap | src/lib/splitDiff.ts:35-90 | Both sides are treated alike: swapping the old and new texts swaps the two segment lists. |
| InlineSegments.HighlightTruncated | src/lib/splitDiff.ts:35-90 | When the new text is a proper prefix of the old one, the new side stays plain. The old side is plain up to the new text, and the deleted tail is highlighted. |
| InlineSegments.HighlightExampleBarBaz | src/lib/splitDiff.ts:35-90 | "bar" against "baz" gives a plain "ba" on both sides, then a highlighted "r" and "z". |
| SplitDiff.HighlightSound | src/lib/splitDiff.ts:104-111 | The highlighter that rows use spells out each side's text, with no empty segment. |
| DiffTypes.Classify | src/lib/splitDiff.ts:120-127 | A line is a deletion exactly when its origin is '-', and an addition exactly when it is '+'. Every other origin is context and keeps its tag. |
| SplitDiff.FlushFrom | src/lib/splitDiff.ts:98-114 | Flushing from index i on emits one row for each index from i up to the longer buffer's length, and none when i is past it. |
| SplitDiff.FlushRows | src/lib/splitDiff.ts:97-114 | A flush emits as many rows as the longer buffer has lines. |
| SplitDiff.FlushRowsAt | src/lib/splitDiff.ts:97-114 | A flush emits max(deletions, additions) rows. Row i pairs deletion i with addition i, and a side past the end of its buffer is empty. |
| SplitDiff.FlushRowsLeft | src/lib/splitDiff.ts:97-114 | Reading the flushed rows' left cells top to bottom gives the deletion buffer in order. |
| SplitDiff.FlushRowsRight | src/lib/splitDiff.ts:97-114 | Reading the flushed rows' right cells top to bottom gives the addition buffer in order. |
| SplitDiff.FlushRowsNoMirror | src/lib/splitDiff.ts:97-114 | A flush emits no context rows. |
| SplitDiff.FlushRowsWellFormed | src/lib/splitDiff.ts:97-114 | Every flushed row has a side. Its left side is a deletion and its right side an addition. It carries segments exactly when both sides are present, and those segments spell the two contents. |
| SplitDiff.Flush | src/lib/splitDiff.ts:97-117 | The flush loop appends exactly `FlushRows(delBuffer, addBuffer)` to the rows built so far. |
| SplitDiff.ScanLeft | src/lib/splitDiff.ts:119-130 | The left cells of the paired rows are the pending deletions followed by the deletions among the remaining lines. |
| SplitDiff.ScanRight | src/lib/splitDiff.ts:119-130 | The right cells of the paired rows are the pending additions followed by the additions among the remaining lines. |
| SplitDiff.ScanMirror | src/lib/splitDiff.ts:119-130 | The context rows show exactly the context lines, in order. |
| SplitDiff.ScanWellFormed | src/lib/splitDiff.ts:119-130 | Every row the scan produces is well formed. A context row shows one context line on both sides, without segments. |
| SplitDiff.Scan | src/lib/splitDiff.ts:119-130 | The scan emits at most one row per line, buffered lines included. |
| SplitDiff.Pairing | src/lib/splitDiff.ts:92-132 | A hunk gives at most one row per line. |
| SplitDiff.ScanNoContext | src/lib/splitDiff.ts:119-130 | Over a stretch without context lines, the scan only buffers. It ends in one flush of the buffers extended by the stretch's deletions and additions. |
| SplitDiff.ScanAtContext | src/lib/splitDiff.ts:119-130 | At the first context line, the scan flushes the buffers extended by the run before it. Then it emits that line's row, and then it scans the rest with empty buffers. |
| SplitDiff.PairingAtContext | src/lib/splitDiff.ts:92-132 | The rows of a hunk are, in order: the flush of the run before the first context line, which pairs its i-th deletion with its i-th addition; that context line's row; and the rows of the rest of the hunk. |
| SplitDiff.PairingNoContext | src/lib/splitDiff.ts:92-132 | A hunk without context lines is a single flush. Its i-th deletion is paired with its i-th addition. |
| SplitDiff.PairingConserves | src/lib/splitDiff.ts:92-132 | Each kind of line is kept in order: the left cells are the hunk's deletions, the right cells its additions, and the context rows its context lines. How the kinds interleave, and which lines share a row, is stated by `PairingAtContext` and `PairingNoContext`. |
| SplitDiff.PairingWellFormed | src/lib/splitDiff.ts:92-132 | Every row is well formed, and there are no more rows than lines. |
| SplitDiff.PairLines | src/lib/splitDiff.ts:92-132 | The loop over the lines, with its flushes, computes `Pairing(lines)`. Its rows conserve the deletions, the additions and the context lines, and every row is well formed. |
| SplitDiff.SplitHunkOf | src/lib/splitDiff.ts:25-32 | A split hunk's left cells are the hunk's deletions, its right cells the additions and its context rows the context lines, and every row is well formed. |
| SplitDiff.SplitDiffHunks | src/lib/splitDiff.ts:24-33 | There is one split hunk per hunk, in order. Each keeps the header and the four position fields, and its rows are the hunk's lines paired. |
| SplitDiff.SplitDiffHunksConserve | src/lib/splitDiff.ts:24-33 | Within every split hunk, the hunk's deletions, additions and context lines all appear in order, and every row is well formed. |
| Utils.Split | src/lib/utils.ts:41-49 | Splitting gives at least one piece, and no piece contains the separator. |
| Utils.SplitJoin | src/lib/utils.ts:41-49 | Joining the pieces with the separator gives back the text. |
| Utils.JoinSplit | src/lib/utils.ts:41-49 | Splitting pieces that were joined gives back the pieces, when no piece contains the separator. |
| Utils.SplitSingle | src/lib/utils.ts:41-44 | There is more than one piece exactly when the separator occurs. With no separator, the single piece is the whole text. |
| Utils.GetFileName | src/lib/utils.ts:46-49 | The file name contains no '/'. |
| Utils.GetFileNameSpec | src/lib/utils.ts:46-49 | A path without '/' is its own file name. Otherwise the path ends with '/' and the file name, which makes the file name the longest '/'-free tail. |
| Utils.GetFileNameExamples | src/lib/utils.ts:46-49 | "b/a.ts" gives "a.ts". "b/" gives "". |
| Utils.GetFileExtension | src/lib/utils.ts:41-44 | The extension contains no '.'. |
| Utils.GetFileExtensionSpec | src/lib/utils.ts:41-44 | A path without '.' has the extension "". Otherwise the path ends with '.' and the extension, which makes the extension the longest '.'-free tail. |
| Utils.GetFileExtensionExamples | src/lib/utils.ts:41-44 | "a.ts" gives "ts", "LICENSE" gives "" and ".md" gives "md". |
| Utils.GetStatusIcon | src/lib/utils.ts:67-83 | The badge is one of M, A, D, R, C and ?. It is A exactly for "new" and "added", C exactly for "conflicted", and ? exactly for statuses outside the listed six. |
| Utils.GetStatusColor | src/lib/utils.ts:51-65 | The class is text-git-added exactly for "new" and "added". It is text-git-untracked exactly for statuses outside the listed five. |
| Utils.ColorFollowsIcon | src/lib/utils.ts:51-83 | Statuses with the same badge have the same colour. The converse fails: "conflicted" is coloured like an unknown status. |
| Utils.JsRem | src/lib/utils.ts:87-92 | JavaScript's remainder is strictly between -b and b, and it has the sign of the dividend. |
| Utils.JsRemSpec | src/lib/utils.ts:87-92 | At modulus 10, the remainder is congruent to the dividend. It is the only value with that congruence, range and sign. |
| Utils.GetBranchColorIndex | src/lib/utils.ts:85-92 | The colour slot is in [0, 10), negative indices included. |
| Utils.BranchColorIndexIsMod | src/lib/utils.ts:85-92 | The slot equals the Euclidean remainder mod 10, so it is congruent to the branch index. |
| Utils.BranchColorIndexNormal | src/lib/utils.ts:85-92 | An index already in [0, 10) is its own slot, and normalising twice is the same as normalising once. |
| Utils.BranchColorIndexSame | src/lib/utils.ts:85-92 | Two indices share a slot exactly when they are congruent mod 10. |
| Utils.GetBranchColorHsl | src/lib/utils.ts:94-97 | The string is 20 characters long, and its one digit reads back as the colour slot. |
| Utils.BranchColorHslSpec | src/lib/utils.ts:94-97 | The string is "hsl(var(--branch-" followed by one digit and then "))". The digit reads back as the slot, so two indices share a string exactly when they share a slot. |
| SettingsStore.Without | src/stores/settingsStore.ts:52-55 | The filtered list lacks the path and is no longer than before. Every other entry keeps its number of occurrences: the multiset of the result is the input's with the path's count set to zero. |
| SettingsStore.WithoutAbsent | src/stores/settingsStore.ts:52-55 | Removing a path that is not in the list changes nothing. |
| SettingsStore.WithoutIsSubsequence | src/stores/settingsStore.ts:52-55 | Removing a path keeps the other entries in their order. |
| SettingsStore.WithoutNoDuplicates | src/stores/settingsStore.ts:52-55 | Removing a path from a list without duplicates leaves one without duplicates. |
| SettingsStore.WithRecent | src/stores/settingsStore.ts:46-50 | After an add, the list holds 1 to 10 entries and the added path is first. |
| SettingsStore.WithRecentSpec | src/stores/settingsStore.ts:46-50 | The added path occurs exactly once. The rest is the previous list without the path, in order, cut so the list holds at most 10 entries. |
| SettingsStore.WithRecentNoDuplicates | src/stores/settingsStore.ts:46-50 | Adding keeps a list without duplicates free of duplicates. |
| SettingsStore.WithRecentIdempotent | src/stores/settingsStore.ts:46-50 | Adding the same path twice in a row is the same as adding it once. |
| SettingsStore.RemoveAfterAdd | src/stores/settingsStore.ts:46-55 | Removing a path right after adding it leaves the other entries as before, cut to 9 if the add's cut dropped one. |
| SettingsStore.SettingsStore.constructor | src/stores/settingsStore.ts:36-44 | A new store holds the defaults: no recent repositories, font size 13, tab size 4, 3 context lines, whitespace hidden, unified view, sidebar 280 and details panel 300. |
| SettingsStore.SettingsStore.AddRecentRepo | src/stores/settingsStore.ts:46-50 | Only the recent list changes, and it becomes `WithRecent(old list, path)`. The path is then first and nowhere else. A short, duplicate-free list stays so. |
| SettingsStore.SettingsStore.RemoveRecentRepo | src/stores/settingsStore.ts:52-55 | Only the recent list changes, and it becomes `Without(old list, path)`: the path is gone and the rest keep their order. |
| SettingsStore.SettingsStore.ClearRecentRepos | src/stores/settingsStore.ts:57 | Only the recent list changes, and it becomes empty. |
| SettingsStore.SettingsStore.SetFontSize | src/stores/settingsStore.ts:59 | Only the font size changes. |
| SettingsStore.SettingsStore.SetTabSize | src/stores/settingsStore.ts:60 | Only the tab size changes. |
| SettingsStore.SettingsStore.SetDiffContextLines | src/stores/settingsStore.ts:61 | Only the number of diff context lines changes. |
| SettingsStore.SettingsStore.SetShowWhitespace | src/stores/settingsStore.ts:62 | Only the whitespace flag changes. |
| SettingsStore.SettingsStore.SetDiffViewMode | src/stores/settingsStore.ts:63 | Only the diff view mode changes. |
| SettingsStore.SettingsStore.SetSidebarWidth | src/stores/settingsStore.ts:64 | Only the sidebar width changes. |
| SettingsStore.SettingsStore.SetDetailsPanelHeight | src/stores/settingsStore.ts:65 | Only the details panel height changes. |

Segments go with rows in a specific way. A row flushed from the buffers carries segments exactly when both of its sides are present. A context row shows the same line on both sides and never carries segments. `WellFormedRow` states both cases.

## Left out

- Settings persistence: the store writes to browser storage under the name "git-client-settings" (src/stores/settingsStore.ts:67-69). That is I/O, and it is not modelled; a fresh store starts from the defaults.
- The store library's `get`/`set` plumbing and UI re-rendering are not modelled. Each action is a method that replaces its field directly.
- SettingsStore.SettingsStore.SetFontSize: sizes and widths are JavaScript numbers. The model uses integers, so fractional values are not covered.
- GetBranchColorIndex: only integer indices are modelled. JavaScript's `%` on fractional, infinite or NaN values is not.
- Text is a Dafny string, a sequence of Unicode scalar values. JavaScript strings are sequences of UTF-16 code units. The proofs only compare characters for equality, which is also all the source does with code units, so they carry over. But a Dafny string cannot hold a lone surrogate. So the model cannot show the case where the prefix or suffix scan stops inside a surrogate pair and an intraline highlight splits the pair.
- `DiffLine.origin` is a string in src/lib/types.ts, but the model uses a single character. The backend that fills it emits one character. Any tag other than "-" and "+", including a longer string, is treated as context. The model cannot represent the longer strings.
- In the source, the flush closure reads and clears the enclosing `delBuffer` and `addBuffer`. In the model, `Flush` takes the buffers as arguments and `PairLines` empties them afterwards, so the closure's shared state is not modelled.
- `Split` handles only one-character separators, which is all that src/lib/utils.ts uses.
- `formatRelativeTime`, `formatDate` and `cn` in src/lib/utils.ts (clock-dependent formatting and class-name merging) are not part of this model. Neither are the rest of the front end and the backend.
