# Verification of rgit's staging core

rgit stages and commits single symbols: it resolves an anchor such as `auth.go:Login` to a byte
extent, builds a blob from HEAD's bytes plus the chosen extents, writes that blob into an index,
and commits. This project models the parts where a mistake would lose or misplace bytes, and
proves what each of them promises.

| part | files |
|---|---|
| blob synthesis: coalescing, tie merging, the descending splice pass | `Bytes`, `Sorting`, `Splice`, `SpliceLaws`, `Coalesce`, `ApplyEdits`, `BlobLaws` |
| exactly where synthesis panics, loses or doubles content, and files that reach it | `SpliceLimits`, `BlobLimits`, `Reached` |
| placement: classification, insertion points, order in the blob, new files, the blob against the worktree | `Placement`, `Tables`, `WorktreeOrder`, `Neighbours`, `NewRuns`, `StagedWorktree`, `NewFile`, `NewFileLimits`, `Planning` |
| staging and rollback | `Staging` |
| the `--only` protocol and its copy-back | `OnlyProtocol`, `IndexSync` |
| extents, anchor names, attribution | `Extents`, `Names`, `Decimal`, `Slugs`, `EditDistance`, `Attribution`, `Regions` |
| concurrent diff building, the context stream | `FanOut`, `ContextStream` |

The central notion is `Bytes.Spaced(out, parts)`: `out` is the given parts in order, each complete
except for newlines at its two ends, with nothing but newlines in between. Synthesis trims and
writes newlines at its seams, so this is the strongest statement that holds for every batch; where
the source promises exact bytes, exact bytes are proved. `None` as a blob stands for the panic Go
raises on a slice bound. The language server, the parser, git and the line diff are outside:
extents come from an abstract well-formed tree or an abstract anchor table, git's effect on refs
and index files is a state transition, and the line diff returns arbitrary counts.

## What the proofs found

Each of these is stated by a lemma or a method's contract: the exact condition, a concrete input, or both.

- **A new top-level symbol can land inside the declaration above it.** Insertion goes to the end of the
  nearest earlier entry HEAD has, and that entry may be a member listed after its container, such as a
  struct field: a function added after a struct is spliced in behind the struct's last field
  (`Tables.TopLevelLandsInside`, `Tables.LandsInsideIff`). `Tables.PlacedIff` says exactly when a new
  symbol's place is sound, and under that guard a whole batch keeps worktree order
  (`WorktreeOrder.BatchInWorktreeOrder`).
- **A new `@imports`, `@header` or `@toplevel` can land behind its successor.** A pseudo-anchor is not
  in the declaration table; the forward walk starts one past the declaration it precedes and skips
  it (`Tables.PseudoAnchorPlacedIff`; `Tables.ImportsLandBehind` is a file of one function given imports).
- **A one-line container gets a new member in front of itself**, not inside: its first member
  (`Placement.BodyEndInsideIff`), and any member ahead of a shared one that stands on the line the
  container opens on (`Tables.InsidePlacedIff`).
- **An edited or renamed section can take the new section after it along.** An insertion trims the blank lines
  below it down to its own separator; a range below that owns more of them than that then reaches into
  the inserted text. Two Markdown sections two blank lines apart meet it: editing the first and adding one after
  it, or giving the first a new name, stages a blob without the new section (`Reached.NewSectionIsLost`,
  `Reached.RenamedSectionIsLost`). `SpliceLimits.RangeBelowInsertIff` is the exact condition for the pair.
- **Deleting the last section while editing the one before it can panic.** Deleting at end of file
  trims newlines below its own start; a lower edit whose extent ends in those newlines is then out
  of bounds. `Reached.EditAboveDeletedEndPanics` is a file with two sections that meets it.
- For both, the exact condition on any batch is one a caller can check beforehand on HEAD's bytes, the edits' offsets
  and their gaps: each range ends within HEAD's bytes as the edits above it leave them (`SpliceLimits.KeepsAllIff`
  for replacements, deletions and insertions in any mix, `SpliceLimits.PanicsIff` for ranges alone;
  `BlobLimits.SynthesisLosesNothingIff` and `BlobLimits.BatchPanicsIff` with coalescing and merging;
  `WorktreeOrder.BatchLosesNothingIff` for named anchors).
- **A part can be staged twice.** Widening goes up one container, and an insertion is dropped only for one with the very
  same extent, so naming the outermost and the innermost of three new Markdown sections or JSON keys stages the middle
  one twice (`Reached.MiddleSectionTwice`), and naming the innermost alone stages a member of a container HEAD
  lacks (`Reached.MiddleSectionAlone`), which `classify.go:228-234` says cannot be added. The same happens to an
  HTML element inside another, where anchors do not name the enclosing element (`Reached.InnerElementTwice`).
  Naming new symbols stages nothing twice exactly when what any two are widened to is one part or lies apart
  (`Reached.NamedOnceIff`); for a file HEAD lacks see `NewFileLimits.NewFileReproducedIff`.
- **A JSON key that begins with a parenthesised part, such as `(a)b`, cannot be resolved.** It is emitted as it stands and
  rewritten on lookup, so listing a file's regions fails, although `attribute.go:56-63` and
  `resolver.go:166-167` say that an emitted name is always accepted back
  (`Names.ParenthesisedKeyIsLost`; `Names.EmittedResolvesToItselfIff` for every emitted name).
- **Emitted names collide exactly when a lone name already reads like an ordinal of a repeated one**
  (`Names.EmittedUniqueIff`), and a bare name two symbols share still resolves when it is one
  symbol's whole emitted name (`Names.SharedBareNameStillResolves`).
- **A listing's row and the commit disagree where symbols stand more than one blank line apart.** `attribute.go:224-236` says
  that synthesis moves exactly one blank line; it writes the worktree's own gaps when they are wider
  (`synth.go:332-341`). `NewRuns.RowAgreesIff` is the exact condition, `NewRuns.WideGapsDisagree` by how much.
- **A comma in a doc comment cuts a Go or TypeScript symbol's region short**, ahead of the declaration
  itself, so its changes are nobody's (`Regions.CommaInDocCommentCuts`). Lines of two names that share
  one extent belong to neither (`Attribution.OwnedIffNotShared`).
- **An indented symbol's blank lines above it are not reproduced beyond the minimum.** The gap is read
  just before the extent, where indentation stands, so it is recorded as empty, although
  `synth.go:322-331` speaks of the blank-line run the anchor already has (`Neighbours.SeenGaps`,
  `Neighbours.StagedBetweenExactIff`).
- **`--only` can undo another writer's commit on an unborn branch, and `--amend --only` is not
  checked either.** `docs/USAGE.md:399` says a writer moving HEAD mid-commit gives exit 128; the code
  skips the check in both cases (`OnlyProtocol.UnbornBaseIff`, `OnlyProtocol.AmendReplacesBaseIff`,
  with the runs `OnlyProtocol.UnbornBranchUndoesOutsider` and `OnlyProtocol.AmendUndoesOutsider`).
- **A commit that fails reading its message from stdin leaves its staging behind**: that return
  comes after staging and before the rollback path (`Staging.Disk.RunCommit`). Under `--only` a failure
  reported after git's success means the commit has landed, and if it came from the copy-back the shared
  index may have changed (`Staging.Disk.FinishOnly`). And the byte copy that stands in for a failed rename
  is the one way staging can leave a damaged index (`Staging.Disk.Swap`).

Three boundaries are stated beside these, without a file that is shown to be one of a supported language. For two
distinct ranges, coalescing keeps every addressed byte exactly when they nest or are disjoint (`Coalesce.PairCoversIff`).
The range edits of one tree do nest or are disjoint, except where an indented declaration is deleted from the very start
of a larger one that is replaced: the deletion takes the indentation and reaches out in front of it
(`Extents.TreeEditsNestIff`). And two insertions inside one newline run tear each other exactly when the lower one is
placed past the separator the upper one writes in front of itself (`SpliceLimits.InsertsInsideRunIff`;
`Reached.InsertionsInRunTear` has anchor tables whose edits do).

## Model

| member | source | states |
|---|---|---|
| Bytes.SpacedIffWoven | internal/synth/synth.go:92-108 | `Spaced` has an independent reading: a blob holds the parts exactly when it is their newline-trimmed cores, in order, woven with runs of newlines |
| Bytes.SpacedErase | internal/synth/synth.go:92-108 | a blob that holds the parts equals their concatenation once newlines are erased on both sides: nothing lost, nothing duplicated, nothing reordered |
| Sorting.StableSortCorrect | internal/synth/synth.go:94 | the sort used by every pass orders by key, permutes, and keeps the order of equal keys |
| Sorting.StableSortIsBuckets | internal/synth/synth.go:94 | a stable sort is the concatenation of its key classes in ascending order |
| Splice.WiderGap | internal/synth/synth.go:332-341 | the separator is the worktree's own gap when wider than the minimum (one newline between members, two otherwise), else the minimum, and is made of newlines when the gap is |
| Splice.PassInvariant | internal/synth/synth.go:86-108 | after every step of the splice pass the buffer still holds HEAD's own bytes up to a computed reach, and above it exactly the pieces and HEAD segments of the edits applied so far; no step is out of bounds |
| Splice.PassRefinesSubstitution | internal/synth/synth.go:85-108 | the in-place descending pass refines simultaneous substitution at HEAD's original offsets |
| Splice.InsertSplice | internal/synth/synth.go:299-320 | an insertion keeps what precedes it up to trailing newlines, writes the chosen gap, its text, and everything after it |
| SpliceLaws.AnchoredIsClear | internal/synth/synth.go:273-320 | edits that end at, or follow, a byte other than a newline never reach into bytes a higher edit has trimmed |
| SpliceLaws.ReplaceOnlyExact | internal/synth/synth.go:260-266 | a pass of replacements alone is byte-exact substitution, whatever its newlines |
| SpliceLaws.BatchKeepsEOF | internal/synth/synth.go:273-320 | over a whole pass of any kinds of edit the buffer ends in a newline exactly when HEAD does and no deletion emptied it on the way |
| SpliceLaws.InsertBetweenExact | internal/synth/synth.go:299-320 | inserting a symbol between two neighbours gives exactly the worktree bytes if and only if its two gaps are at least the minimum |
| SpliceLaws.InsertAtEndExact | internal/synth/synth.go:299-320 | inserting a symbol behind the last one gives its separator and its text, and ends the file in one newline if it ended in any, else in none |
| SpliceLaws.ExciseBetweenExact | internal/synth/synth.go:273-291 | excising that symbol again gives HEAD back if and only if its leading gap equals HEAD's gap |
| SpliceLimits.FitsStands | internal/synth/synth.go:260-320 | while every edit ends within HEAD's bytes as the edits above leave them, the pass is in bounds, HEAD's own bytes stand exactly up to a floor computed from the inputs, and what lies above is the rest of the substitution, newlines aside |
| SpliceLimits.KeepsAllIff | internal/synth/synth.go:85-108 | a pass of replacements, deletions and insertions in any mix is in bounds and gives the substitution, newlines aside, if and only if every range ends at or below that floor |
| SpliceLimits.RangeBelowInsertIff | internal/synth/synth.go:260-320 | a symbol replaced or deleted below an insertion in the newline run it ends in: the same holds if and only if the symbol ends within the separator the insertion writes |
| SpliceLimits.PanicsIff | internal/synth/synth.go:260-291 | a batch of replacements and deletions, of any length, runs out of bounds if and only if some range ends above the floor, a condition on HEAD and the edits alone |
| BlobLimits.BatchPanicsIff | internal/synth/synth.go:85-108 | the same for the whole pipeline, coalescing and sorting included, on any batch of ranges, overlapping or not |
| BlobLimits.SynthesisLosesNothingIff | internal/synth/synth.go:85-108 | a batch of any kinds of edit, through coalescing, merging and splicing, loses nothing and stays in bounds if and only if every kept range ends at or below the floor |
| Reached.NewSectionIsLost | internal/synth/classify.go:58-95 | two sections two blank lines apart, the first edited and a new one added after it: both anchors classify, and the blob lacks the new section |
| Reached.RenamedSectionIsLost | internal/synth/classify.go:72-118 | the first of those sections under a new name: with both names named the blob has neither |
| Reached.EditAboveDeletedEndPanics | internal/synth/classify.go:58-118 | two sections of a five-byte file, the first edited and the second removed: both anchors classify, and applying their edits is out of bounds |
| SpliceLimits.InsertsInsideRunIff | internal/synth/synth.go:299-320 | two insertions inside one newline run give the substitution, newlines aside, if and only if the lower one is placed within the separator the upper one writes |
| Reached.InsertionsInRunTear | internal/synth/classify.go:72-95 | a file and two new anchors whose classified edits fail that: the blob is not the substitution |
| Coalesce.NothingTwiceIff | internal/synth/synth.go:127-201 | of a batch of insertions nothing kept stages a worktree byte twice if and only if any two have one extent or are apart |
| Reached.NamedOnceIff | internal/synth/classify.go:72-95 | naming new symbols stages no byte twice if and only if what any two are widened to is one extent or lies apart |
| Reached.MiddleSectionTwice | internal/synth/classify.go:228-309 | three nested new sections, the outermost and the innermost named: the blob holds the middle one twice |
| Reached.MiddleSectionAlone | internal/synth/classify.go:228-309 | naming the innermost of them stages the middle one, whose container HEAD lacks |
| Reached.InnerElementTwice | internal/synth/synth.go:180-201 | a new element and one inside it, both named, in a language without container anchors: the blob holds the inner one twice |
| Coalesce.SwallowedBy | internal/synth/synth.go:180-201 | the loop answers yes exactly when a kept edit overlaps a range's HEAD bytes or carries an insertion's worktree extent |
| Coalesce.CoalesceOverlaps | internal/synth/synth.go:127-138 | the loop computes the widest-first greedy selection the lemmas below are about |
| Coalesce.CoalescedAccounts | internal/synth/synth.go:110-138 | what is kept was given and is pairwise disjoint; whatever is dropped is swallowed by something kept and no narrower |
| Coalesce.DroppedInsertionIsCarried | internal/synth/synth.go:150-201 | a dropped insertion's worktree extent lies inside a kept replacement's or equals a kept insertion's |
| Coalesce.DroppedRangeIsContained | internal/synth/synth.go:118-126 | the container wins: for nested-or-disjoint inputs a dropped range lies within a kept one |
| Coalesce.CoalescedCovers | internal/synth/synth.go:118-138 | for nested-or-disjoint inputs the kept ranges address exactly the HEAD bytes the input did |
| Coalesce.PairCoversIff | internal/synth/synth.go:118-138 | for two distinct ranges the kept ones address the bytes the input did if and only if the two nest or are disjoint |
| ApplyEdits.MergeTexts | internal/synth/synth.go:208-252 | the inner loop joins one group's texts with each later symbol's own separator |
| ApplyEdits.GroupInsertions | internal/synth/synth.go:208-252 | the first loop passes ranges through, groups insertions by offset, and remembers offsets in order of first mention |
| ApplyEdits.MergeInsertTies | internal/synth/synth.go:208-252 | the method computes one insertion per offset, its group sorted by worktree order |
| ApplyEdits.ApplyEdits | internal/synth/synth.go:92-108 | coalesce, merge, sort descending, splice: the loop computes the blob the laws below are about, `None` where Go panics |
| ApplyEdits.FoldIsPass | internal/synth/synth.go:94-106 | folding the edits from the highest offset down is the ascending recursive pass |
| ApplyEdits.AppliedIsPass | internal/synth/synth.go:92-108 | the real pipeline equals the ascending pass over the merged layout: offsets ascending, the insertion at an offset ahead of the range that starts there |
| BlobLaws.MergeGroupSpaced | internal/synth/synth.go:225-252 | a merged insertion holds every text of its group, in worktree order, newlines at the seams aside |
| BlobLaws.LayoutAscends | internal/synth/synth.go:85-108 | the merged layout of disjoint, unstraddled edits is ascending, each edit ending before the next begins |
| BlobLaws.LayoutRefines | internal/synth/synth.go:208-252 | a blob holding the merged edits holds the original ones: merging loses no insertion |
| BlobLaws.SynthesisRefinesSubstitution | internal/synth/synth.go:85-108 | applying any sound batch is in bounds at every step, and the blob is the untouched HEAD segments, replacement texts and insertion texts in ascending offset order, ties in worktree order |
| BlobLaws.SynthesisLosesNothing | internal/synth/synth.go:85-108 | the same as an equation after erasing newlines |
| BlobLaws.AnchoredIsSound | internal/synth/synth.go:85-108 | a check a caller can make on HEAD's bytes at the edits' ends that makes a batch sound |
| BlobLaws.ReplacementsAreExact | internal/synth/synth.go:92-108 | a batch of replacements, overlapping or not, is byte-exact substitution of the kept ones |
| BlobLaws.IdentitySplice | internal/synth/roundtrip_test.go:11-59 | replacing any set of extents, nested or crossing, with their own bytes gives the file back |
| BlobLaws.SynthesisKeepsEOF | internal/synth/synth.go:92-108 | a whole batch through the real pipeline keeps whether the file ends in a newline, unless a deletion empties the buffer of a file that did |
| Placement.LineStartOf | internal/synth/classify.go:361-367 | the loop finds the line's start: no newline between it and the offset, a newline or the file's start before it |
| Placement.LeadingGap | internal/synth/classify.go:205-216 | the gap is the maximal run of newlines just before the extent |
| Placement.TrailingGap | internal/synth/classify.go:218-226 | the gap is the maximal run of newlines just after the extent |
| Placement.ContainerBodyEnd | internal/synth/classify.go:334-357 | the two loops compute the body end the next lemma is about |
| Placement.BodyEndInsideIff | internal/synth/classify.go:334-367 | with a closing `}`, `)` or `]` and only white space behind it, the position is the start of the delimiter's own line, inside the container, if and only if the delimiter is not on the container's first line; else it is the container's start |
| Placement.OpenBodyEnd | internal/synth/classify.go:334-357 | without a closing delimiter the position is the container's end |
| Placement.FirstAfter | internal/synth/classify.go:379-393 | an anchor without a table entry is placed before the first declaration starting after it |
| Placement.NextInHead | internal/synth/classify.go:420-444 | the forward walk stops at the first declaration HEAD has |
| Placement.PrevInHead | internal/synth/classify.go:403-438 | the backward walk stops at the last declaration HEAD has |
| Placement.FilePlan.constructor | internal/synth/stage.go:90-118 | a plan starts with no edits, no queued cross-checks, no notices |
| Placement.FilePlan.DeferCrossCheck | internal/synth/classify.go:133-147 | every resolution but a pseudo-anchor's is queued, after those already queued |
| Placement.EscalationMeans | internal/synth/classify.go:228-309 | what is staged for a new member always holds the member; it is more than the member exactly when the container holding it is missing in HEAD, and then is that container; it counts as a member exactly when HEAD has the container; it fails exactly when the container's name is asked about and resolves to no one declaration |
| Placement.WideningStopsIff | internal/synth/classify.go:228-309 | what is staged stands alone if and only if nothing holds it in turn and its container's name does not stop it; it is a member of a container HEAD lacks if and only if it was widened and would be widened again |
| Placement.FilePlan.Locate | internal/synth/classify.go:376-393 | the anchor's place in the declaration table, by name and else by offset |
| Placement.FilePlan.PointInside | internal/synth/classify.go:406-434 | inside a container HEAD has: ahead of the next member HEAD has, else at the body's end |
| Placement.FilePlan.InsertionPoint | internal/synth/classify.go:369-445 | the two walks compute the position the ordering laws are about, and the worktree offset as tie-break |
| Placement.FilePlan.Classify | internal/synth/classify.go:14-131 | replace, insert, delete, ambiguity, resolver failure or unresolvable, with the cross-checks and notices each queues |
| Placement.FailsIff | internal/synth/classify.go:31-131 | when an anchor cannot be staged and with which error, in order of precedence, and which kind of edit it is otherwise |
| Placement.QueuedIsStaged | internal/synth/classify.go:120-147 | what is queued for the language server is exactly what is staged from the worktree, pseudo-anchors aside; a notice is given exactly for a symbol staged as the container that holds it |
| Reached.UnchangedIff | internal/synth/classify.go:58-70 | a target is reported as unchanged if and only if staging it alone leaves the file as HEAD has it |
| Placement.PlannedInBounds | internal/synth/classify.go:31-131 | whatever the two anchor tables hold, a planned edit addresses HEAD in bounds and its gaps are newlines |
| Placement.DeleteTakesIndent | internal/synth/classify.go:97-118 | a deletion takes the symbol's own indentation and no other byte before it; the cut begins a line if and only if only blanks stand before the symbol on its line |
| Tables.PlacedIff | internal/synth/classify.go:369-445 | a new region lands after every shared declaration before it, before every one after it, and within every shared one around it, if and only if its guard holds: next to a sibling, what the sibling closes and the region is not in ends there too; ahead of a member, that member is not on its container's opening line |
| Tables.LandsInsideIff | internal/synth/classify.go:403-438 | placed behind a sibling, a region is strictly inside an extent that is nested with or apart from the sibling's if and only if that extent holds the sibling and reaches past it |
| Tables.TopLevelLandsInside | internal/synth/classify.go:403-438 | a struct with a field and a new function after it: the function's edit starts strictly inside the struct |
| Tables.InsidePlacedIff | internal/synth/classify.go:406-434 | in a container HEAD has, when a place is inside it and when strictly, with a shared member following and without |
| Tables.PseudoAnchorPlacedIff | internal/synth/classify.go:376-445 | a new region without a table entry is in place if and only if its guard holds and the declaration right after it is absent from HEAD, or some earlier one is present there, or the next shared one starts with it |
| Tables.ImportsLandBehind | internal/synth/classify.go:420-444 | a one-function file given imports: their edit starts at the end of the file |
| WorktreeOrder.OwnEdit | internal/synth/classify.go:31-131 | what classification yields for a declared symbol: its HEAD extent replaced by its worktree text, or an insertion at its place with its worktree extent |
| WorktreeOrder.WidenedIsContainer | internal/synth/classify.go:228-309 | naming a widened member stages its container's extent, as naming the container does when that is not widened itself; when it is, its own name stages more, and neither edit makes the other redundant |
| WorktreeOrder.NewAmongShared | internal/synth/classify.go:369-445 | a new symbol in place lands at or after the end of every shared symbol before it, at or before the start of every one after it, and strictly inside only those it lies in in the worktree |
| WorktreeOrder.NewAmongNew | internal/synth/synth.go:208-252 | two new symbols land in worktree order, equal offsets settled by worktree offset |
| WorktreeOrder.OpsLaidInOrder | internal/synth/classify.go:376-445 | the edits of any two declarations that stand side by side, new or shared, members or not, are laid out in worktree order |
| WorktreeOrder.LayoutInOrder | internal/synth/synth.go:208-252 | the blob's layout never puts an edit before one it follows, and holds exactly the kept edits |
| WorktreeOrder.BatchInWorktreeOrder | internal/synth/synth.go:85-108 | any anchors of a file with nested declarations, pseudo-anchors among them, to replace, insert and delete, named in any order, are applied in bounds; each is in the blob around the untouched HEAD segments or carried by one that is; and declarations side by side appear in worktree order |
| WorktreeOrder.BatchLosesNothingIff | internal/synth/synth.go:85-108 | the same batches over extents that may end in newlines, as Markdown sections do: laid out in worktree order, and synthesized without panic or loss if and only if every kept range ends at or below the floor |
| WorktreeOrder.SideBySideSurvive | internal/synth/synth.go:127-138 | no symbol named is swallowed by one that stands beside it |
| Neighbours.SeenGaps | internal/synth/classify.go:182-226 | the gap recorded in front of an indented symbol is empty whatever blank lines it has; in column zero, and behind the symbol, it is the whole run |
| Neighbours.StagedBetweenExactIff | internal/synth/classify.go:72-95 | staging a new symbol between two shared neighbours gives the worktree bytes if and only if the gap behind is at least the minimum and the one in front is at least (column zero) or exactly (indented) the minimum |
| Neighbours.UnstagedBetweenExactIff | internal/synth/classify.go:97-118 | deleting it again, indentation included, gives the earlier bytes back if and only if its leading gap is the gap its neighbours had |
| NewRuns.RunBetweenExactIff | internal/synth/synth.go:203-252 | staging several new symbols side by side between two that HEAD has, named in any order, gives the worktree bytes if and only if every gap, in front, between and behind, is at least the minimum |
| NewRuns.RowAgreesIff | internal/diff/attribute.go:224-276 | the lines a blob gains with a new symbol are its row's if and only if the two gaps written add up to the gap that was there, one line end and the blank line the row takes |
| NewRuns.WideGapsDisagree | internal/diff/attribute.go:224-236 | with gaps of three newlines or more all round, the blob gains the surplus on top of the row |
| StagedWorktree.NamedSymbolsOnly | internal/synth/classify.go:58-70 | naming any shared symbols, nested or not, in any order, stages HEAD with exactly the outermost named symbols' bytes taken from the worktree |
| StagedWorktree.OutermostIsKept | internal/synth/synth.go:118-138 | coalescing keeps the edit of every outermost named symbol; `StagedWorktree.KeptIsOutermost` says that it keeps no other |
| StagedWorktree.StagedIsWorktree | cmd/rgit/stage_roundtrip_test.go:12-31 | change some symbols and nothing else, name at least those in any order, and the blob is the worktree file byte for byte; where the named symbols stand at matching offsets, it is so only then |
| NewFile.ExtendThroughOwnedSeparator | internal/resolve/pseudo.go:111-140 | the extent grows through the blank space after it up to the limit, only where the language owns its separator |
| NewFile.AddPreamble | internal/synth/stage.go:390-445 | `@header` and `@imports` are appended to the plan of a file HEAD lacks unless named or unresolvable; the plan of a tracked file, or of one without current bytes, is left as it was |
| NewFile.PreambleIs | internal/synth/stage.go:390-445 | one insertion at the top for each of `@header` and `@imports` that the new file has and nobody named, ranked by the region's own place; none for a tracked file |
| NewFile.PreambleTakesSeparator | internal/synth/stage.go:397-440 | where the language owns the separator the region's text reaches to the next region, else it is the region's own |
| Planning.ReferencesIdentifier | internal/synth/classify.go:526-541 | the loop finds a name if and only if it occurs as a whole word |
| Planning.RefersParts | internal/synth/classify.go:526-541 | that is: with no letter, digit or such on either side of it (`Planning.RefersAt` for the converse) |
| Planning.PulledUnlessCarried | internal/synth/classify.go:446-481 | of the new top-level declarations a text refers to, those it carries itself are not pulled in, and all others are |
| Planning.WantedSiblings | internal/synth/classify.go:446-510 | what is pulled in is exactly the unnamed new top-level declarations that some edit's own worktree text refers to, each once |
| Planning.SiblingStandsAlone | internal/synth/classify.go:446-520 | what is pulled in always classifies, as an insertion of its own extent |
| Planning.PlanFile | internal/synth/stage.go:276-360 | a file's edits are those of its named anchors, of the siblings they refer to, and of the preamble; it fails if and only if a named anchor cannot be staged |
| Planning.StageFile | internal/synth/stage.go:276-360 | the blob of a tracked file is the one that the named anchors' own edits and their siblings' give, nothing added; that of a new file has the preamble and the worktree's last newline besides |
| NewFile.MemberPlanned | internal/synth/classify.go:228-309 | in a file HEAD lacks a name that stages an outermost declaration's extent stages that declaration's very edit |
| NewFile.ChainRebuilt | internal/synth/synth.go:110-252 | staging every part of a blank-line-separated file, in any order and as often as may be, rebuilds it byte for byte |
| NewFile.NewFileReproduced | internal/synth/stage.go:382-445 | naming every outermost declaration of a file HEAD lacks, whatever else it declares and however deep, each itself or through a member, in any order and any number of times, stages the worktree file byte for byte, through preamble, coalescing, tie merging, splicing and end-of-file inheritance (stage.go:833-849) |
| NewFileLimits.NewFileReproducedIff | internal/synth/stage.go:382-445 | when every part is named, or every name stages a part, the worktree file comes out if and only if both hold: a name that stages an inner piece puts it in a second time, a part nothing names is missing |
| Staging.PlannedNamesOnly | internal/synth/stage.go:612-642 | a plan makes of each path the last thing it says about it, removals included, and leaves every other path's entry as it was |
| Staging.PlannedChangesNothingIff | internal/synth/stage.go:612-642 | staging leaves all entries alone if and only if the plan only repeats what is there |
| Staging.Disk.NewTempStaging | internal/synth/stage.go:654-726 | on success the temporary file is a copy of the index, or missing when the index is; no other file is touched on any path |
| Staging.Disk.StageInto | internal/synth/stage.go:612-642 | only the target index file changes, and on success it holds the planned entries over what it held |
| Staging.Disk.Swap | internal/synth/stage.go:728-748 | a missing temporary file is no change; else the index becomes the staged one; it is damaged if and only if the rename failed and the copy after it failed too |
| Staging.Disk.Apply | internal/synth/stage.go:567-610 | for every choice of failing steps but that one, an error leaves the caller's index, or its absence, exactly as found; success leaves the planned index; with no fault it succeeds |
| Staging.Disk.TakeSnapshot | internal/synth/stage.go:782-812 | the snapshot is the index file's content, or the fact that there is none |
| Staging.Disk.Restore | internal/synth/stage.go:814-831 | a successful restore makes the index the snapshot, removing the file when there was none; without a snapshot nothing changes |
| Staging.Disk.FinishOnly | internal/gitx/gitx.go:1062-1103 | after git's success under `--only`: refused when the check applies and HEAD moved; else the shared index becomes the copy-back; it is untouched on every failure but one of the copy-back's own write; other files never change |
| Staging.Disk.RunCommit | internal/app/commit.go:184-218 | a commit lands the tree of the index it ran on: the plan staged over the index, or over the private one under `--only`, and what hooks staged on top; without a fault it succeeds; a refused commit whose rollback succeeds, as it does when nothing else fails, leaves the index as found; under `--only` the index is untouched unless the copy-back's own write failed; a failure reading the message leaves the staged index in place |
| Staging.CommitHoldsTargets | internal/app/commit.go:184-218 | that tree has each target as planned, removals included, unless a hook changed it, and every other path as the index had it |
| Staging.SyncedAgrees | internal/gitx/gitx.go:1083-1103 | over index files, the copy-back agrees with the private index on every path the commit changed and leaves every other path alone |
| OnlyProtocol.RunKeepsInv | internal/gitx/gitx.go:898-1081 | every interleaving of rgit processes and outside writers keeps the protocol's invariant |
| OnlyProtocol.CommitIsBasePlusTargets | internal/gitx/gitx.go:1062-1081 | a reported non-amend success built on a commit has that commit as parent, and its tree is the parent's with exactly what was last staged at each path of its private index laid over it |
| OnlyProtocol.UnbornBaseIff | internal/gitx/gitx.go:1062-1081 | a reported success has its recorded base as parent if and only if the base existed or HEAD was still unborn when git started |
| OnlyProtocol.AmendReplacesBaseIff | internal/gitx/gitx.go:1062-1081 | a reported amend replaces the commit it was built on if and only if HEAD had not moved when git started |
| OnlyProtocol.UnbornBranchUndoesOutsider | internal/gitx/gitx.go:1062-1081 | a run in which a reported success undoes an outside writer's file |
| OnlyProtocol.AmendUndoesOutsider | internal/gitx/gitx.go:1062-1081 | a run in which a reported amend drops an outside writer's commit and file |
| OnlyProtocol.LockAloneSuffices | internal/gitx/gitx.go:940-967 | with no outside writer HEAD is the recorded base whenever git starts, the parent is always the base, and the check refuses nothing |
| IndexSync.Index.CachedEntries | internal/gitx/gitx.go:1119-1149 | the loop collects exactly the paths whose entry differs from the tree, removals as mode 000000 |
| IndexSync.Index.WriteEntries | internal/gitx/gitx.go:1105-1117 | after the records are applied each named path reads as its record says, and no other path changed |
| IndexSync.Index.SyncCommittedEntries | internal/gitx/gitx.go:1083-1103 | the shared index becomes the copy-back the next lemmas are about |
| IndexSync.DropAgreeing | internal/gitx/gitx.go:1083-1103 | the deletion loop keeps exactly the records the shared index does not have already |
| IndexSync.CopyBackAgrees | internal/gitx/gitx.go:1083-1103 | the shared index agrees with the private one on every path the commit changed, removals included, and is unchanged on every other path |
| IndexSync.CopyBackIsOverlay | internal/gitx/gitx.go:1083-1103 | although only disagreeing entries are written, the result is the full overlay of the commit's changes on the shared index |
| IndexSync.CopyBackSettles | internal/gitx/gitx.go:1083-1103 | copying back twice is copying back once |
| IndexSync.CleanIndexFollowsCommit | internal/gitx/gitx.go:1083-1103 | with no other staged work the shared index ends up as the commit's tree |
| Extents.TrimLineEnd | internal/resolve/extent.go:15-55 | a comment node's trailing newlines are not part of it when measuring the gap |
| Extents.DocStartIff | internal/resolve/extent.go:15-55 | the extent starts with the first of the siblings before the declaration that belong to it in an unbroken row: attributes, and comments binding to what follows with at most one newline between their own text and the next start |
| Extents.BlankLineParts | internal/resolve/extent.go:46-49 | a comment with a blank line below it stays out, whatever stands above it |
| Extents.ExtentsNest | internal/resolve/extent.go:15-122 | on any well-formed tree the doc-comment-extended extents of two declarations are nested or disjoint |
| Extents.TreeEditsNestIff | internal/synth/classify.go:97-118 | the range edits of one tree's declarations, deletions widened to their line start among them, are nested or disjoint as coalescing expects if and only if no indented declaration is deleted from the very start of a larger one that is replaced |
| Extents.HeaderExtent | internal/resolve/pseudo.go:34-52 | the loop spans the leading run of header nodes that start before the limit |
| Extents.ImportsExtent | internal/resolve/pseudo.go:54-95 | the loop spans the first import, told by node kind or by a matcher on the node, to the last one parted from it by imports and comments only |
| Extents.LastImportReaches | internal/resolve/pseudo.go:54-95 | past the last import of the run no import follows without something else in between |
| Extents.ToplevelExtent | internal/resolve/pseudo.go:147-198 | the loop spans the declarations' top-level nodes, from the doc comments of the first to the end of the last; Markdown's is dispatched to the lede |
| Extents.TopStartCutsNothing | internal/resolve/pseudo.go:174-198 | no top-level node reaches across the place where `@toplevel` starts |
| Extents.TopStartIs | internal/resolve/pseudo.go:174-198 | `@toplevel` starts with the doc comments of the top-level node that holds the first declaration, or with the declaration's own, whichever is first |
| Extents.LedeIs | internal/resolve/lang_markdown.go:187-230 | Markdown's `@toplevel` is exactly the bytes ahead of the first heading that no frontmatter takes |
| Extents.TopEndIs | internal/resolve/pseudo.go:174-198 | it ends with the top-level node that holds the last declaration's end |
| Extents.HeaderStopsShort | internal/resolve/resolver.go:272-299 | `@header` never reaches past the start of `@imports` or of `@toplevel` |
| Extents.HeaderReaches | internal/resolve/resolver.go:272-299 | and it takes every leading header node that starts before both |
| Attribution.HolesIn | internal/diff/attribute.go:106-137 | the holes are exactly the extents of the other regions inside this one |
| Attribution.ExclusiveText | internal/diff/attribute.go:106-137 | the sweep returns exactly the bytes of the region not covered by a region inside it, in order |
| Attribution.OneOwner | internal/diff/attribute.go:86-137 | over a nested family no byte is attributed twice |
| Attribution.OwnedIffNotShared | internal/diff/attribute.go:86-137 | a covered byte is attributed if and only if its innermost extent belongs to one name |
| Attribution.TextsPartition | internal/diff/attribute.go:86-137 | with distinct extents the exclusive texts' sizes sum to the number of covered bytes: with `OneOwner`, a partition |
| Attribution.CountSeparatorLines | internal/diff/attribute.go:255-276 | a one-sided region takes at most one blank line, looked for after it and before it only at end of file |
| Attribution.SeparatorLines | internal/diff/attribute.go:224-276 | never more than one line |
| Attribution.FindRegion | internal/diff/attribute.go:278-285 | the index holds the last region of a name |
| Attribution.Nested | internal/diff/attribute.go:208-222 | yes exactly when another name's region contains this one |
| Attribution.CountLinesIs | internal/diff/attribute.go:445-458 | lines are counted as `numstat` does: one for each newline, one for a last line without |
| Attribution.SeparatorIs | internal/diff/attribute.go:224-276 | a region no other holds takes one blank line: one right behind it when text follows, else one right before it |
| Attribution.IndexedIsLast | internal/diff/attribute.go:278-285 | of several regions of one name the last one counts |
| Attribution.RowMeans | internal/diff/attribute.go:323-367 | a name gets a row exactly when bytes of its own changed, and the row speaks for those alone: the differ's answer when both sides have the name, else exactly their lines and the blank line the region takes; a deletion exactly when the new side lacks it |
| Attribution.CollectRows | internal/diff/attribute.go:317-375 | each name is handled once, and the running totals are the rows' sums |
| Attribution.AttributeSymbols | internal/diff/attribute.go:305-395 | rows in file order, then one remainder row when git counted more; and the notices the next lemmas are about |
| Attribution.RowsSumToTotal | internal/diff/attribute.go:375-394 | on each side the rows sum to the larger of git's total and the attributed total, and to git's total if and only if symbols were not attributed more |
| Attribution.ReportInOrder | internal/diff/attribute.go:375-394 | the listing has every row, in file order, rows at one place as found, and git's remainder last |
| Attribution.NoticesMean | internal/diff/attribute.go:323-367 | there is a notice exactly for each listed name that is new, has text of its own and would bring a new container, and only one |
| Attribution.NoticeIsEscalation | internal/diff/attribute.go:397-427 | the listing names a container if and only if staging would widen the symbol, and to that container |
| Attribution.NoticeBorneOutIff | internal/diff/attribute.go:397-427 | a notice is borne out, the container staged for the symbol, if and only if the old side does not resolve the symbol's name at all |
| Regions.ImportsApart | internal/resolve/pseudo.go:54-95 | no declaration reaches across the imports |
| Regions.HeaderApart | internal/resolve/resolver.go:272-299 | `@header` ends by the start of the first declaration |
| Regions.TreeRegionsAreFamily | internal/diff/attribute.go:64-84 | the regions of one well-formed tree, its declarations with `@header` and `@imports`, are the nested family the attribution laws are about |
| Regions.TopLevelComma | internal/diff/attribute.go:176-206 | the scan finds the first comma outside every bracket pair and every quoted span, escapes honoured, or none |
| Regions.NarrowMultiDeclarator | internal/diff/attribute.go:159-174 | the region keeps its start and ends at its first top-level comma, or keeps all of itself when there is none |
| Regions.CommaIsOutermost | internal/diff/attribute.go:176-206 | over text whose brackets and quotes balance, the commas the scan looks for are exactly those outside all of them, whatever is escaped or quoted inside |
| Regions.CommaInDocCommentCuts | internal/diff/attribute.go:159-206 | a comma in a doc comment ahead of a declaration is the top-level comma the region is cut at |
| Names.CountNames | internal/resolve/index.go:216-221 | the first loop counts each container-qualified name |
| Names.AssignQualifiedNames | internal/resolve/index.go:212-233 | every symbol gets its own name when alone, else the name with its running ordinal |
| Names.OrdinalsInOrder | internal/resolve/index.go:212-233 | ordinals of one name ascend in source order, from 1 to their number |
| Names.OrdinalAttained | internal/resolve/index.go:212-233 | every ordinal from 1 to the number of symbols is some symbol's |
| Names.EmittedUniqueIff | internal/resolve/index.go:212-233 | emitted names are unique if and only if no lone name equals an ordinal of a repeated one |
| Names.OrdinalAnchorParses | internal/resolve/crosscheck.go:403-427 | an emitted ordinal parses back to its name and its place in source order |
| Names.BuildBare | internal/resolve/index.go:197-208 | each key lists exactly the symbols carrying it bare or container-qualified, in source order |
| Names.BuildIndex | internal/resolve/index.go:176-210 | both maps hold what the resolution laws need: the last symbol of each emitted name, all carriers of each name |
| Names.RetriedOnce | internal/resolve/index.go:284-299 | a raw-heading retry is tried on a slug, and a slug is never retried: resolution ends |
| Names.ResolvesToIff | internal/resolve/index.go:235-325 | what any anchor, in any spelling, resolves to: the last symbol emitted under its rewritten spelling, else the one symbol carrying it, else what its slug leads to |
| Names.ReceiverSpelling | internal/resolve/index.go:261-276 | a receiver in parentheses, with or without its star and blanks, spells the name rgit emits |
| Names.OtherSpelling | internal/resolve/index.go:261-276 | every anchor without a leading parenthesis, or without a closing one, is looked up as it stands |
| Names.ReceiverResolvesAlike | internal/resolve/index.go:261-309 | so `(*A).Get` and `(A).Get` resolve as `A.Get` does |
| Names.RawHeadingResolves | internal/resolve/index.go:278-325 | text that names nothing as it stands reaches the symbol that its words, lower-cased and hyphened, lead to |
| Names.MemberResolves | internal/resolve/index.go:212-258 | a member alone of its name is reached as `Container.Bare` |
| Names.NthResolves | internal/resolve/index.go:212-233 | the k-th of several symbols of one name is reached as `Name#k` |
| Names.EmittedResolvesToItselfIff | internal/resolve/index.go:235-325 | for every emitted name, the exact condition under which it resolves to its own symbol |
| Names.EmittedResolvesIff | internal/resolve/index.go:212-325 | with no imposter and no heading retry: it does if and only if it is no pseudo-anchor and is spelled as anchors are looked up, or its rewritten spelling is nobody's emitted name and its own symbol's alone to carry |
| Names.ParenthesisedKeyIsLost | internal/resolve/lang_json.go:100-118 | a JSON key `(a)b` is emitted as it stands and resolves to nothing |
| Names.CarriedNameResolvesIff | internal/resolve/index.go:301-325 | a carried name, in any spelling, resolves if and only if it is emitted or one symbol alone carries it; else the answer is the sorted list of all carriers' emitted names |
| Names.SortNamesSorts | internal/resolve/index.go:315-325 | the listing is sorted, and nothing but reordered |
| Names.ListingIsComplete | internal/resolve/index.go:315-325 | the ambiguity listing is sorted and has one entry per carrier, its emitted name |
| Names.SharedBareNameStillResolves | internal/resolve/index.go:301-325 | a function and a method of one bare name: the bare name resolves to the function |
| Decimal.ParseOrdinalInverts | internal/resolve/crosscheck.go:403-427 | parsing inverts the ordinal form if and only if the name is not empty and the ordinal is positive and fits an integer |
| Decimal.OrdinalSpellings | internal/resolve/crosscheck.go:403-427 | an ordinal may be written with a plus, which none is emitted with, not with a minus; what is no number is no ordinal |
| Decimal.OrdinalNameInjective | internal/resolve/index.go:231 | two ordinal names are equal only for equal names and ordinals, `#` in the names or not |
| Decimal.ItoaLengthMonotone | internal/app/context.go:405-412 | a larger number has no shorter numeral |
| Slugs.Slugify | internal/resolve/lang_markdown.go:233-261 | the builder loop with its pending hyphen computes the slug the next lemma is about |
| Slugs.SlugFixedIff | internal/resolve/lang_markdown.go:233-261 | a slug has only lower-case alphanumerics and single interior hyphens; such strings, and no others, are unchanged; slugs are idempotent |
| Slugs.SlugOfWords | internal/resolve/lang_markdown.go:233-261 | a heading's slug is its alphanumeric words, lower-cased, with one hyphen between each two, whatever parts or surrounds them |
| EditDistance.Levenshtein | internal/resolve/index.go:396-415 | the two-row rolling table computes the recurrence on prefixes |
| EditDistance.DistIsLeastCost | internal/resolve/index.go:396-415 | the value is the least cost of any edit script from one string to the other, and is attained |
| EditDistance.ZeroIffEqual | internal/resolve/index.go:396-415 | zero exactly for equal strings |
| EditDistance.Symmetric | internal/resolve/index.go:396-415 | symmetric |
| EditDistance.Triangle | internal/resolve/index.go:396-415 | the triangle inequality |
| FanOut.MergeResults | internal/diff/run.go:173-190 | the merge loop returns what a sequential loop over the files would |
| FanOut.SequentialMeans | internal/diff/run.go:149-190 | that is: the error of the least failing index, or all reports and warnings in index order and the disjunction of the flags |
| FanOut.EveryScheduleIsSequential | internal/diff/run.go:149-190 | under every schedule at most eight builds are in flight, each slot is written once and before the merge, and the result is the sequential loop's |
| FanOut.NoDeadlock | internal/diff/run.go:149-190 | a state that has not returned can take a step |
| FanOut.EveryScheduleEnds | internal/diff/run.go:149-190 | every schedule returns after exactly four steps a file and two more |
| ContextStream.BuildContextStream | internal/app/context.go:395-425 | the loops compute the stream the next lemmas are about |
| ContextStream.StreamKeepsLongestPrefix | internal/app/context.go:395-425 | over budget, the stream is the longest record prefix that fits the reserved limit, and the mark counts exactly the rest |
| ContextStream.StreamWithinBudgetIff | internal/app/context.go:383-425 | the stream stays within its budget if and only if everything fits or the budget covers the reserve |

## Left out

- `BlobLaws.SynthesisRefinesSubstitution`: stated for batches whose ranges are not empty and whose edits each end within the bytes
  higher edits leave in place; `BlobLimits.SynthesisLosesNothingIff` says which batches lose nothing, given that insertions do.
- `SpliceLimits.KeepsAllIff`: for insertions that are not blank and placed within what the edits above leave, and ranges that
  address more than newlines; insertions placed further up are treated for two in one newline run.
- `SpliceLimits.InsertsInsideRunIff`: for two insertions whose texts start differently and neither start nor end with a newline.
- `Tables.PlacedIff`: for tables that list a container ahead of its members and whose shared declarations keep their order
  and nesting; moved declarations are not covered.
- `WorktreeOrder.BatchInWorktreeOrder`: for such tables, HEAD extents that neither start nor end with a newline
  (`WorktreeOrder.BatchLosesNothingIff` for others), new symbols whose guard holds, and no symbol placed inside one that is named
  to be deleted. Pseudo-anchors among them are applied and lose nothing; their own place is `Tables.PseudoAnchorPlacedIff`'s. A
  widened member is covered where naming its container stages the same extent (`WorktreeOrder.WidenedIsContainer`).
- `StagedWorktree.StagedIsWorktree`: for files that have the same declarations on both sides; insertions and deletions are
  covered by `WorktreeOrder.BatchInWorktreeOrder` and, byte for byte, by `Neighbours` and `NewRuns`.
- `NewFile.NewFileReproduced`: for column-zero files whose outermost parts are a blank line or more apart, header and imports
  exactly one, and plans without siblings beyond the named anchors (`Planning.StageFile` adds them).
- `NewFileLimits.NewFileReproducedIff`: not for names of which some stage an inner piece while some part is not named; whether
  the pieces then make up the file depends on their text.
- `Planning.StageFile`: for extents that are not empty; only direct references are followed, as in the source, so a sibling pulled
  in may itself refer to a new declaration that stays out. Result rows and the cross-check are not part of this model.
- `NewRuns.RunBetweenExactIff`: for symbols in column zero, whose recorded gaps are the worktree's; `Neighbours` has indented ones.
- `Names.CarriedNameResolvesIff`: candidate suggestions for a name nobody carries are not modelled; the distance behind them is.
- `Attribution.AttributeSymbols`: the line diff returns arbitrary counts.
- `Regions.TreeRegionsAreFamily`: for distinct emitted names, declarations outside the import nodes, and regions as resolved;
  narrowing cuts some of them afterwards, and Markdown, whose lede bounds `@header` differently, is not covered.
- `Extents.ExtentsNest`: default end rule; the YAML, HTML and Rust refinements break the nesting it states.
- `OnlyProtocol.LockAloneSuffices`: a git child that outlives a crashed rgit goes on without the lock, and so counts as an outside
  writer; one that amends is not modelled.
- `OnlyProtocol.CommitIsBasePlusTargets`: history is append-only for outside writers; resets and rewrites by them are not modelled.
- Parsing, node-kind tables and declaration extraction: replaced by a tree with ordered, disjoint children.
- Cross-checking against a language server, candidate suggestions, flags, output and JSON.
- File modes, permissions and timestamps of index files, apart from the points at which carrying them over can fail.
- git's own execution: hashing, refs and index writing are state transitions; an index file is a map or unreadable.
