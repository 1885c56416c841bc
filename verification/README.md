# ShellSight: a verified model of its core algorithms

ShellSight scans hosts for webshells and runs a console that composes detection rules and collects scan
results. This project models the parts of it whose correctness does not show from reading one function, and
proves what they promise. Each module stands for one source file or one protocol; `Common.dfy` holds the option
and result types.

| module | what it models |
|---|---|
| `ResolveUnder` | symbolic links resolved inside a filesystem mounted elsewhere, with a re-rooted `/` |
| `Assemble` | scan roots assembled from the proposals of every discovery mechanism |
| `Deobfuscate` | the depth-, count- and byte-bounded search through nested encodings |
| `FoldLiterals` | joined string literals folded to one, pass by pass |
| `Taint` | the scope-aware taint fixpoint over ASP statements |
| `FoldVB` | constant folding of VBScript string expressions over a quote- and parenthesis-aware splitter |
| `Descriptor` | JVM field and method descriptors, after sections 4.3.2 and 4.3.3 of the Java Virtual Machine Specification |
| `Relocs` | base relocations and the comparison of loaded code with its file, after the Microsoft PE Format specification |
| `SaveScan` | concurrent scan imports over an abstract PostgreSQL |
| `RuleStore` | concurrent rule revisions and rule-set freezes over an abstract PostgreSQL |
| `Deps` | the rule reference graph and the exclusion gate |
| `Fusion` | correlation, scoring and the host verdict |
| `Probes` | which probes run and what every other capability is recorded as |
| `JavaCoverage` | per-artifact coverage and diagnostic totals of a Java scan |
| `BoundedResults` | bounded findings and diagnostics, and what the bounded scan of nested archives covers |
| `DuplicateKeys` | the walk that refuses a configuration with a repeated key |

Code that works step by step is a method with loops, or a class whose methods update its fields, proved against a
function or predicate on values; the promises are then lemmas about that specification. The two store protocols
are state machines: a run is any finite interleaving of any number of calls, every step may fail, and a commit may
take effect and still be reported as a failure. Loops over Go maps pick keys in any order.

What the model takes from outside is a parameter and every theorem holds for all of it: regular expressions and
what they extract, decompressors and base64, hashes, path cleaning, the file system beyond the link structure,
whether a proposed root passes validation, the components present in a package, and the rule compiler.

## What turned out not to hold

Where a property fails, an input shows it and its exact condition is proved.

- One pass of literal folding halves the number of joined literals, rounded up, if and only if that number is even
  or the last literal holds no pair of its own (`FoldLiterals.OnePassHalvesIff`); `'"a"."b"'` is rewritten inside
  (`FoldLiterals.InsideOfALiteralIsFolded`). So up to 2^n joined literals collapse in n passes if and only if no
  stage ends in such an odd literal (`FoldLiterals.JoinsCollapseIff`).
- The eight-round bound of the taint analysis loses exactly the names that every route reaches only by going back,
  eight times or more, to an assignment no later in the file (`Taint.SweepsAreRoutes`); nine assignments written
  backwards lose the ninth name (`Taint.NinthHopIsMissed`).
- The link resolver lets `f/..` pass through a regular file, which a changed root would refuse
  (`ResolveUnder.ContinuesThroughAFile`). The two agree on every path if and only if no path can settle at a regular
  file below the root (`ResolveUnder.AgreesWithChrootIff`). A target that begins with a backslash is taken as
  absolute on every platform.
- A subsumed root is listed under the final root that contains it if and only if that root is the first that
  encloses it and comes later in the list (`Assemble.SubsumedIffEarlier`); proposed after it, it is lost
  (`Assemble.InnerRootIsLost`).
- A mechanism can report more roots than are scanned, because a nested root is credited to the first root in the list
  that contains it, which may be nested too (`Assemble.MoreRootsThanScanned`). Everything it is credited with is
  scanned if and only if that is not so for any root it found (`Assemble.CreditsAreScannedIff`).
- Excluding a rule from a frozen set is accepted. The set goes on resolving to its members if and only if the rule
  is none of theirs (`RuleStore.ExclusionKeepsIff`, `RuleStore.ExclusionDrifts`).
- One more raw finding can lower the tier or score of another, because a duplicate with a greater score takes the
  place of the kept one: when it is allowlisted and the kept one was somebody's last peer, or when its own tier
  comes out lower (`Fusion.WithoutCollisionsIff`, `Fusion.AppendingLowersNothingIff`, `Fusion.DuplicateCanLower`,
  `Fusion.CleanDuplicateLowersTheVerdict`).
- Scoring twice is not scoring once: a likely tier that the first scoring gave a finding with a peer is confirmed by
  the second (`Fusion.ScoringTwiceIff`, `Fusion.ScoringTwiceEscalates`).
- A view that is declared, asked for and supported here can be written off as impossible here: when nothing is
  registered for it and the first of its rows does not apply, whatever a later row says
  (`Probes.SupportedIsWrittenOffIff`, `Probes.SecondRowIsOverlooked`). A table with one row for each view rules it
  out (`Probes.OneRowEachWritesOffNothing`).
- A region whose edge cuts a relocated pointer is judged clean if and only if the bytes of the pointer inside the
  region do not change (`Relocs.LoadedRegionIsClean`, `Relocs.CutPointerDiffers`).

## Model

| member | source | states |
|---|---|---|
| ResolveUnder.EvalSymlinksUnder | shellsight/internal/discover/resolveunder.go:67-115 | the worklist loop ends and gives what resolving the components below the root with at most 40 links gives; a path outside the root is an escape; a success lies under the root with no link component below it |
| ResolveUnder.LinkIsFollowed | shellsight/internal/discover/resolveunder.go:97-111 | a component that is a link to some names, with any number of slashes around them, continues with those names and the rest, one link fewer: from the root when the target begins with a slash or a backslash, else from the directory of the link |
| ResolveUnder.PlainIsEntered | shellsight/internal/discover/resolveunder.go:81-96 | every other component: skipped, the parent but never above the root, or an existing entry |
| ResolveUnder.SplitIff | shellsight/internal/discover/resolveunder.go:117-120 | splitting gives exactly the names a text is spelled from, in order; leading, doubled and trailing slashes are ignored |
| ResolveUnder.WalkConcat | shellsight/internal/discover/resolveunder.go:87-111 | prepending a link target to the worklist is resolving the target first and going on from there with the links that are left |
| ResolveUnder.ResolvingAgainIsIdentity | shellsight/internal/discover/resolveunder.go:67-115 | a path under the root without links below it resolves to itself with any link budget |
| ResolveUnder.SettledFrom | shellsight/internal/discover/resolveunder.go:81-111 | the same from any intermediate directory of the path |
| ResolveUnder.OutsideTheRootEscapes | shellsight/internal/discover/resolveunder.go:68-96 | a path outside the root is refused as an escape, whatever the filesystem holds |
| ResolveUnder.MoreHops | shellsight/internal/discover/resolveunder.go:97-101 | a larger link budget changes no outcome but "too many links", and leaves exactly the difference over |
| ResolveUnder.SucceedsIffFewLinks | shellsight/internal/discover/resolveunder.go:58-101 | the resolver finds a place exactly when the path resolves to it through at most 40 links; the place and the number of links are unique |
| ResolveUnder.SelfLinkNeverResolves | shellsight/internal/discover/resolveunder.go:97-101 | a link to itself exhausts every budget |
| ResolveUnder.AgreesWithChroot | shellsight/internal/discover/resolveunder.go:67-115 | on any filesystem, where both succeed they agree: this one alone refuses to climb above the root, and only the changed root refuses to pass through a non-directory |
| ResolveUnder.AgreesWithChrootIff | shellsight/internal/discover/resolveunder.go:67-115 | for every path and link budget the resolver gives what a changed root gives, refusals to climb above the root apart, if and only if no regular file lies at a place below the root that a path can settle at |
| ResolveUnder.SameAmongDirectories | shellsight/internal/discover/resolveunder.go:81-111 | the same from any settled place of such a filesystem, and a success settles again |
| ResolveUnder.ContinuesThroughAFile | shellsight/internal/discover/resolveunder.go:81-111 | the second difference is real, for every root |
| Assemble.Validate | shellsight/internal/discover/discovery.go:251-276 | accepted proposals are kept in order; the true count of refusals is reported beside the first twenty |
| Assemble.EveryProposalCounted | shellsight/internal/discover/discovery.go:251-276 | every proposal is accepted, silently missed or counted as rejected |
| Assemble.RefusedIff | shellsight/internal/discover/discovery.go:404-419 | a refusal is recorded exactly when it is a proposal's own and not that of a conventional location that is missing or not absolute here |
| Assemble.MergeSamePath | shellsight/internal/discover/discovery.go:344-356 | the appending loops compute the merge of two proposals, the more specific in front, the earlier on a tie |
| Assemble.MergeMechs | shellsight/internal/discover/discovery.go:344-356 | merging two proposals of one directory loses no mechanism and invents none, whichever provenance wins |
| Assemble.AppendUniqueMechanism | shellsight/internal/discover/discovery.go:588-598 | a mechanism is appended unless empty or already there |
| Assemble.AppendUnique | shellsight/internal/discover/discovery.go:579-586 | a path is appended unless one with its key is there |
| Assemble.Collapse | shellsight/internal/discover/discovery.go:279-289 | collapsing through the index map equals folding each proposal into the root with its key |
| Assemble.CollapseFaithful | shellsight/internal/discover/discovery.go:279-289 | collapsed roots have distinct keys, the same keys as the accepted proposals, and exactly their mechanisms |
| Assemble.CollapseStrongest | shellsight/internal/discover/discovery.go:279-289 | a collapsed root reports the provenance of the strongest proposal for its directory, the first of equals, where the operator beats a configuration, a configuration a guess, and a guess nothing at all |
| Assemble.BeatsIff | shellsight/internal/discover/discovery.go:360-371 | the specificity numbers order mechanisms in just that way |
| Assemble.EnclosingIndex | shellsight/internal/discover/discovery.go:374-381 | the first root that properly contains this one, or none |
| Assemble.Credit | shellsight/internal/discover/discovery.go:295-303 | every mechanism of a root is credited with the given root, and nothing else changes |
| Assemble.Subsume | shellsight/internal/discover/discovery.go:294-326 | the roots nothing encloses survive with what they had recorded when copied, and every mechanism is credited for the roots it found with that root, or the first in the list that contains it |
| Assemble.CreditIff | shellsight/internal/discover/discovery.go:295-326 | exactly which roots a mechanism is credited with |
| Assemble.CreditsAreScannedIff | shellsight/internal/discover/discovery.go:306-326 | everything a mechanism is credited with is scanned if and only if no root it found lies in one whose first container lies in another |
| Assemble.MoreRootsThanScanned | shellsight/internal/discover/discovery.go:306-334 | with three roots one inside the other, the middle one first, a mechanism reports two roots while one is scanned |
| Assemble.AssembleUnder | shellsight/internal/discover/discovery.go:248-341 | the four phases together compute the specified result |
| Assemble.RootsAreAnAntichain | shellsight/internal/discover/discovery.go:294-326 | no final root equals or lies inside another |
| Assemble.AcceptedInExactlyOneRoot | shellsight/internal/discover/discovery.go:248-326 | every accepted proposal lies in exactly one final root, at any depth of nesting |
| Assemble.SucceededIffContributed | shellsight/internal/discover/discovery.go:331-340 | a mechanism reports success exactly when it was not refused and had a part in an accepted proposal; its root count is positive exactly then |
| Assemble.OutcomeIs | shellsight/internal/discover/discovery.go:331-340 | the status and the reason of every outcome, from what was reported and what was contributed |
| Assemble.RejectionsAreHonest | shellsight/internal/discover/discovery.go:251-276 | proposals are accepted, silent and rejected ones together; the rejections shown are the first min(20, total) |
| Assemble.SubsumedIffEarlier | shellsight/internal/discover/discovery.go:302-314 | exactly which inner roots a final root lists |
| Assemble.InnerRootIsLost | shellsight/internal/discover/discovery.go:302-314 | of any two accepted roots one inside the other, the outer forgets the inner when it was proposed first and lists it when it was proposed second |
| Deobfuscate.Rot13 | shellsight/internal/deobfuscate/deobfuscate.go:274-287 | the buffer loop moves every letter 13 places within its case and keeps every other byte |
| Deobfuscate.RotatedIff | shellsight/internal/deobfuscate/deobfuscate.go:274-287 | the byte formula is that rotation |
| Deobfuscate.Rot13Involution | shellsight/internal/deobfuscate/deobfuscate.go:274-287 | rotating twice is the identity |
| Deobfuscate.State.Add | shellsight/internal/deobfuscate/deobfuscate.go:190-206 | exactly when a layer is added, what becomes of the layers, and exactly when the result is marked truncated |
| Deobfuscate.State.Walk | shellsight/internal/deobfuscate/deobfuscate.go:208-249 | one search keeps the bounds, only appends layers that derive from its root, and closes its root when nothing was cut off |
| Deobfuscate.State.AddAll | shellsight/internal/deobfuscate/deobfuscate.go:213-224 | after an extractor loop that cut nothing off, every non-empty product is a layer |
| Deobfuscate.State.OfferBlob | shellsight/internal/deobfuscate/deobfuscate.go:225-242 | a new base64 product is inflated, rotated and searched; one seen before is not |
| Deobfuscate.State.AddInflations | shellsight/internal/deobfuscate/deobfuscate.go:232-236 | every non-empty inflation of a new base64 product is offered, and a layer when nothing was cut off |
| Deobfuscate.SettledIsOpened | shellsight/internal/deobfuscate/deobfuscate.go:225-264 | a base64 layer that is settled has the outputs of all three inflaters and its rotation among the layers |
| Deobfuscate.State.SearchWhole | shellsight/internal/deobfuscate/deobfuscate.go:136-180 | a view of the whole file is recorded and searched like any layer |
| Deobfuscate.Run | shellsight/internal/deobfuscate/deobfuscate.go:136-180 | at most 64 distinct layers of 8 MiB in all and 65 searches; each layer is what the decoder it names makes of the file or an earlier layer, the inflaters and the rotation of base64 layers only; without truncation the layers are closed under the four extractors, and gzinflate, gzuncompress, gzdecode and the rotation of every base64 layer are layers; truncation has a cause |
| Deobfuscate.AccountedIsMade | shellsight/internal/deobfuscate/deobfuscate.go:208-249 | each layer is what its decoder makes of the file or an earlier layer |
| Deobfuscate.SourcedThrough | shellsight/internal/deobfuscate/deobfuscate.go:208-249 | layers found by searching a layer also derive from where that layer came from |
| Deobfuscate.CausePersists | shellsight/internal/deobfuscate/deobfuscate.go:190-212 | what caused a truncation is still there when more layers follow |
| FoldLiterals.Quote | shellsight/internal/deobfuscate/fold.go:110-120 | the loop writes the quoted form |
| FoldLiterals.Unquote | shellsight/internal/deobfuscate/fold.go:125-138 | the loop resolves exactly the three escapes |
| FoldLiterals.UnquoteQuote | shellsight/internal/deobfuscate/fold.go:107-138 | reading a quoted value gives the value back, for every value |
| FoldLiterals.QuotedIsLiteral | shellsight/internal/deobfuscate/fold.go:107-120 | what quoting writes scans as one literal token, whatever follows it |
| FoldLiterals.LiteralIff | shellsight/internal/deobfuscate/fold.go:44-49 | a text is one literal exactly when it is quoted units in quotes of either kind: characters, or a backslash with what it escapes |
| FoldLiterals.UnquotedIs | shellsight/internal/deobfuscate/fold.go:125-138 | reading a literal resolves escaped backslashes and quotes and keeps every other unit as written |
| FoldLiterals.GapIff | shellsight/internal/deobfuscate/fold.go:49-49 | literals are joined by one dot or plus with any white space around it |
| FoldLiterals.FoldPair | shellsight/internal/deobfuscate/fold.go:172-180 | two joined literals at the front become one literal of both values and the rest is folded on |
| FoldLiterals.OnePassHalvesIff | shellsight/internal/deobfuscate/fold.go:172-180 | one pass turns k joined literals into k/2 rounded up, in place, if and only if k is even or no pair starts inside the last literal |
| FoldLiterals.HalvedIsChain | shellsight/internal/deobfuscate/fold.go:172-180 | the result is again joined literals |
| FoldLiterals.HalvedDenotes | shellsight/internal/deobfuscate/fold.go:172-180 | and denotes the same string |
| FoldLiterals.OperatorsFolded | shellsight/internal/deobfuscate/fold.go:172-180 | on any text a pass removes exactly one operator for each pair it joins |
| FoldLiterals.FixedIffNoPair | shellsight/internal/deobfuscate/fold.go:259-278 | a pass leaves a text alone exactly when no pair starts anywhere in it |
| FoldLiterals.InsideOfALiteralIsFolded | shellsight/internal/deobfuscate/fold.go:172-180 | a literal with a pair inside is not left alone |
| FoldLiterals.Fold | shellsight/internal/deobfuscate/fold.go:264-278 | stopping early gives what all eight passes give; empty, oversized and unmarked inputs come back unchanged |
| FoldLiterals.JoinsCollapseIff | shellsight/internal/deobfuscate/fold.go:264-278 | n passes turn joined literals into one literal of the same string if and only if there are at most 2^n and no stage ends in an odd literal with a pair inside |
| FoldLiterals.CleanStagesCollapse | shellsight/internal/deobfuscate/fold.go:264-278 | where no stage does, at most 2^n literals become one and more than 2^n never do |
| FoldLiterals.OperatorIsSpent | shellsight/internal/deobfuscate/fold.go:172-180 | if joined literals, an operator and any text ever become one literal, it holds no more operators than the string of the literals and the text |
| FoldLiterals.UncleanLosesAnOperator | shellsight/internal/deobfuscate/fold.go:172-180 | where a stage does, whatever literal comes out holds fewer operators than the string |
| FoldLiterals.QuotedNoPair | shellsight/internal/deobfuscate/fold.go:107-120 | a quoted value without double quotes holds no pair |
| FoldLiterals.FoldBefore | shellsight/internal/deobfuscate/fold.go:172-180 | text without quotes makes and breaks no pair before it |
| FoldLiterals.EightPassesIff | shellsight/internal/deobfuscate/fold.go:264-278 | the eight passes make one literal of joined literals, in place between any text without quotes, if and only if there are at most 256 and no stage ends in an odd literal with a pair inside |
| FoldLiterals.ManyJoinsFold | shellsight/internal/deobfuscate/fold.go:264-278 | so up to 256 joined literals without double quotes in their values, the last without a pair, always collapse |
| Taint.ScopeOf | shellsight/internal/asptaint/taint.go:609-643 | every statement gets the routine it lies in, and a routine owns exactly its parameters and declarations |
| Taint.RoutineUnique | shellsight/internal/asptaint/taint.go:609-643 | a scope number names one routine |
| Taint.Edges | shellsight/internal/asptaint/taint.go:656-679 | one edge for each assignment that does not coerce, in the order they are written |
| Taint.EdgeIsFor | shellsight/internal/asptaint/taint.go:646-679 | an edge writes and reads exactly the keys its assignment's names stand for in that statement: the routine's own where the routine owns the name, else the file body's |
| Taint.TaintedKeys | shellsight/internal/asptaint/taint.go:681-705 | exactly the names reached by a route through the assignments that goes back to an earlier or the same one fewer than eight times; so every flow of at most eight assignments, and the least fixpoint when fewer than eight names are tainted |
| Taint.SweepsAreRoutes | shellsight/internal/asptaint/taint.go:682-703 | n rounds find exactly the names reached by a route that goes back fewer than n times, for any statement order and any n |
| Taint.SweepIsRoutes | shellsight/internal/asptaint/taint.go:682-703 | the same in the middle of a pass: after its first p assignments, also the routes that went back n times and end before p |
| Taint.SettledIsExact | shellsight/internal/asptaint/taint.go:681-705 | a round that adds nothing has reached the least fixpoint |
| Taint.SweepsSound | shellsight/internal/asptaint/taint.go:682-703 | after any number of rounds only names some flow reaches are tainted |
| Taint.FlowWithin | shellsight/internal/asptaint/taint.go:682-703 | a flow of n assignments is found within n rounds, in any statement order |
| Taint.SweepsBackwards | shellsight/internal/asptaint/taint.go:682-703 | on assignments written backwards each round finds one more name, no more |
| Taint.NinthHopIsMissed | shellsight/internal/asptaint/taint.go:78-78 | the round bound can lose a flow: nine assignments written backwards go back eight times |
| Taint.TaintedNames | shellsight/internal/asptaint/taint.go:656-707 | on the statements: the edges in order with what each name stands for; tainted is exactly what a route through them reaches that goes back fewer than eight times; a settled result, or one of fewer than eight names, is closed under every assignment; a name a routine owns is tainted only by an assignment inside that routine |
| Taint.AllCarry | shellsight/internal/asptaint/taint.go:681-703 | in a settled result an assignment that reads a tainted name, resolved where it is written, taints its own left-hand side |
| FoldVB.SplitTopLevel | shellsight/internal/asptaint/progid.go:183-224 | the one-pass loop splits exactly at the separators that an independent scan places outside strings and parentheses, and fails exactly on unbalanced text |
| FoldVB.PiecesSound | shellsight/internal/asptaint/progid.go:180-224 | the pieces rejoin to the input, and no separator stands at top level inside one |
| FoldVB.SplitJoin | shellsight/internal/asptaint/progid.go:180-224 | splitting gives back any pieces joined, when each is balanced and has no separator at top level |
| FoldVB.UnquoteVB | shellsight/internal/asptaint/progid.go:159-178 | the loop reads one literal and nothing after it |
| FoldVB.UnquoteInverse | shellsight/internal/asptaint/progid.go:156-178 | reading succeeds with a value exactly on the text that quotes that value by doubling |
| FoldVB.NestedPiece | shellsight/internal/asptaint/progid.go:180-224 | whatever balanced text stands in parentheses is never split |
| FoldVB.QuotedPiece | shellsight/internal/asptaint/progid.go:180-224 | nor whatever stands in a literal |
| FoldVB.CallReads | shellsight/internal/asptaint/progid.go:79-82 | the call patterns take exactly the argument text of a printed call, in any letter case and spacing |
| FoldVB.NoCall | shellsight/internal/asptaint/progid.go:80-81 | empty parentheses are no call, nor is an argument text that goes on after a line break |
| FoldVB.CodeReads | shellsight/internal/asptaint/progid.go:79-79 | the character-code pattern takes exactly the digits |
| FoldVB.FoldPrinted | shellsight/internal/asptaint/progid.go:90-145 | folding the text of any constant expression of literals, Chr, StrReverse, Replace and `&` gives its value, and fails exactly when it has none |
| FoldVB.FoldMeans | shellsight/internal/asptaint/progid.go:90-145 | folding the text of a constant expression gives a value exactly when the expression means it, where meaning is stated by cutting at leftmost occurrences, mirrored indices and sums of digits |
| FoldVB.ValueIff | shellsight/internal/asptaint/progid.go:90-145 | the value of an expression is what it means |
| FoldVB.ReplaceIff | shellsight/internal/asptaint/progid.go:142-142 | replacing is cutting the text at the leftmost occurrences, none inside a piece, and joining the pieces with the other text |
| FoldVB.ReversedIff | shellsight/internal/asptaint/progid.go:120-130 | reversing mirrors the indices |
| FoldVB.CodeIff | shellsight/internal/asptaint/progid.go:113-119 | a character code call means the character of the number its digits add up to, decimal or hexadecimal |
| FoldVB.FoldAtom | shellsight/internal/asptaint/progid.go:106-145 | the same for one operand |
| Descriptor.ParseFieldDescriptor | shellsight/internal/javadisk/descriptor.go:30-43 | a text is accepted exactly when it is a field descriptor of the grammar within the limits, and is described as its one reading |
| Descriptor.ParseMethodDescriptor | shellsight/internal/javadisk/descriptor.go:45-78 | a text is accepted exactly when it is a method descriptor of the grammar with at most 65535 bytes, 255 dimensions and 255 slots |
| Descriptor.Parser.ParseType | shellsight/internal/javadisk/descriptor.go:95-143 | reading a type succeeds exactly when one stands at the index, and moves past exactly it |
| Descriptor.Parser.ParseObject | shellsight/internal/javadisk/descriptor.go:145-173 | reading a class name succeeds exactly when one stands there, up to its semicolon |
| Descriptor.Parser.SkipBrackets | shellsight/internal/javadisk/descriptor.go:95-143 | the dimension loop stops at the first non-bracket or at the 256th bracket |
| Descriptor.ParseParameters | shellsight/internal/javadisk/descriptor.go:54-66 | the parameters up to the closing parenthesis, with the slots they add up to |
| Descriptor.InvokeStackEffect | shellsight/internal/javadisk/descriptor.go:80-93 | an invocation pops the parameter slots and the receiver, never over 255, and pushes the width of the result |
| Descriptor.WidthIs | shellsight/internal/javadisk/descriptor.go:80-93 | a long or a double takes two slots, everything else one |
| Descriptor.FieldUnique | shellsight/internal/javadisk/descriptor.go:95-143 | no text begins with two field descriptors |
| Descriptor.ReturnUnique | shellsight/internal/javadisk/descriptor.go:68-77 | nor with two return descriptors |
| Descriptor.NextParameter | shellsight/internal/javadisk/descriptor.go:54-66 | after the parameters read, a `)` means every reading has no more, anything else that every reading has one there |
| Descriptor.PartsRebuild | shellsight/internal/javadisk/descriptor.go:45-78 | the parameter texts between parentheses and the return text rebuild the input; the slots are the sum of the widths |
| Descriptor.DescribeTells | shellsight/internal/javadisk/descriptor.go:30-43 | what is reported can be read off the text: two slots for J and D alone, an array by its bracket, a class name before the semicolon |
| Descriptor.DescribeMethodTells | shellsight/internal/javadisk/descriptor.go:45-78 | the same for every parameter and the return of a method descriptor |
| Descriptor.ClassNameIff | shellsight/internal/javadisk/descriptor.go:145-173 | a class name is identifiers with a slash between each two |
| Relocs.ApplyRelocs | shellsight/cmd/nativemem/stompdiff.go:47-66 | rebasing in place makes what the loader makes: the little-endian number at each relocation plus the load difference, modulo 2^32 over four bytes for kind 3 and 2^64 over eight for kind 10, and every other byte kept |
| Relocs.RebasedIsLoaderMade | shellsight/cmd/nativemem/stompdiff.go:47-66 | the same of the specification, for relocations that do not overlap |
| Relocs.LoaderMadeUnique | shellsight/cmd/nativemem/stompdiff.go:47-66 | there is only one such image |
| Relocs.RebasedByte | shellsight/cmd/nativemem/stompdiff.go:43-66 | each byte is that of the one moved pointer covering it, or unchanged |
| Relocs.OrderDoesNotMatter | shellsight/cmd/nativemem/stompdiff.go:47-66 | relocations that do not overlap may come in any order |
| Relocs.MovedBack | shellsight/cmd/nativemem/stompdiff.go:56-63 | moving a pointer back restores it, wrapped or not, at either width |
| Relocs.RebaseUndone | shellsight/cmd/nativemem/stompdiff.go:47-66 | rebasing by the negated difference restores the image |
| Relocs.WindowCommutesIff | shellsight/cmd/nativemem/stompdiff.go:43-66 | rebasing a window gives the window of the rebased image if and only if every pointer cut by an edge keeps the bytes it has inside |
| Relocs.CutPointerDiffers | shellsight/cmd/nativemem/stompdiff.go:49-63 | a cut pointer can make the difference |
| Relocs.ParseRelocs | shellsight/cmd/nativemem/stompdiff.go:21-41 | the block loop decodes the directory and stops at the first block that does not fit |
| Relocs.ParseEncoded | shellsight/cmd/nativemem/stompdiff.go:18-41 | decoding any encoded blocks gives back every entry but the padding |
| Relocs.DiskBytesForRange | shellsight/cmd/nativemem/stompdiff.go:79-105 | each byte comes from the last overlapping section that has data for it, with 32-bit wrap-around as written |
| Relocs.CopySection | shellsight/cmd/nativemem/stompdiff.go:91-99 | one section overwrites exactly the bytes of the window it has data for |
| Relocs.WindowOfImage | shellsight/cmd/nativemem/stompdiff.go:75-105 | where no section runs past the address space, every range is that range of one image, so ranges agree where they overlap; none is given exactly when no section overlaps |
| Relocs.DiffBytes | shellsight/cmd/nativemem/stompdiff.go:117-140 | the loop counts the differing bytes, samples the first sixteen and tracks the longest run |
| Relocs.LongestIsLongest | shellsight/cmd/nativemem/stompdiff.go:115-140 | the run reported is the length of the longest stretch in which every byte differs |
| Relocs.CleanIffSame | shellsight/cmd/nativemem/stompdiff.go:158-169 | a region is clean exactly when no byte differs; otherwise it is stomped or patched, never both |
| Relocs.StompedIff | shellsight/cmd/nativemem/stompdiff.go:158-169 | a region is stomped exactly when it differs and at least a twentieth of its bytes differ or 256 in a row do |
| Relocs.CheckRegionStomp | shellsight/cmd/nativemem/stompdiff_windows.go:16-58 | the region check is these steps in order, with a short read compared up to its length |
| Relocs.LoadedRegionIsClean | shellsight/cmd/nativemem/stompdiff_windows.go:26-57 | memory in which the loader moved every pointer of the file and nothing else is clean at any load address, if and only if loading changed none of the bytes the region holds of pointers its edges cut |
| SaveScan.ImportIsIdempotent | console/internal/store/pg.go:669-759 | in every state of every interleaving: one scan per run id, visible only with all its rows; successful calls return it; at most one created it; "conflicted but not present" never occurs |
| SaveScan.SameAnswerForever | console/internal/store/pg.go:669-759 | two successful calls for one run id return the same scan, however far apart |
| SaveScan.ScansStay | console/internal/store/pg.go:669-759 | a committed scan stays |
| SaveScan.InvStep | console/internal/store/pg.go:669-759 | every step of every call keeps the invariant |
| SaveScan.InvAlways | console/internal/store/pg.go:669-759 | so the invariant holds in every state of every run |
| SaveScan.InvCommit | console/internal/store/pg.go:730-758 | committing publishes one whole scan and disturbs no other |
| SaveScan.NoDeadlock | console/internal/store/pg.go:701-724 | a waiting call waits for one that can move |
| RuleStore.NumbersHaveNoGaps | console/internal/store/pg.go:222-252 | under any interleaving each rule's revisions are numbered 1 to n; the unique key is never hit; a number handed back belongs to the caller's text and to no other call |
| RuleStore.MaxIsCount | console/internal/store/pg.go:236-241 | under the lock the next number is free |
| RuleStore.NumberedGrows | console/internal/store/pg.go:242-250 | inserting it extends the numbering by one |
| RuleStore.InvCommitsRevision | console/internal/store/pg.go:222-252 | publishing a revision keeps the invariant of the whole store |
| RuleStore.InvCreatesRule | console/internal/store/pg.go:119-144 | so does creating a rule with its first revision |
| RuleStore.InvBackfills | console/internal/store/pg.go:287-347 | so does rewriting the metadata of any revisions |
| RuleStore.InvCommitsFreeze | console/internal/store/pg.go:476-502 | so does publishing a freeze, which changes no other set |
| RuleStore.InvStamps | console/internal/store/pg.go:483-500 | stamping a set, which waits for another freeze of it, and pinning its members keep the invariant |
| RuleStore.OneFreezeWins | console/internal/store/pg.go:483-500 | in every run, two freezes of one set that report success, however far apart, are the same call |
| RuleStore.InvCallStep | console/internal/store/pg.go:222-252 | every step of every revision and freeze call keeps the invariant and whatever is frozen |
| RuleStore.InvEditStep | console/internal/store/pg.go:278-394 | so does every edit of rules, sets, selections and exclusions |
| RuleStore.StaysAlways | console/internal/store/pg.go:222-502 | over any stretch of any run, revisions keep their texts and frozen sets their stamps and members |
| RuleStore.DigestIsOfMembers | console/internal/ruleset/ruleset.go:48-92 | in every reachable state a frozen set's recorded hash is that of compiling exactly its pinned revisions in rule order, its blob is stored, and a draft has no members |
| RuleStore.FrozenForever | console/internal/store/pg.go:357-371 | no later edit, delete, exclusion, backfill, revision or freeze changes the stamp, the selection or the pinned texts |
| RuleStore.MetaAlways | console/internal/store/pg.go:283-347 | in every state of every run each revision's metadata is that of its text, whoever wrote it |
| RuleStore.MembersArePinned | console/internal/store/pg.go:581-601 | the members query gives the pinned rows in one order, however it breaks ties |
| RuleStore.SuccessIsRecorded | console/internal/ruleset/ruleset.go:82-91 | a freeze that reports success has recorded the version and the hash it returns |
| RuleStore.MembersWereResolved | console/internal/ruleset/ruleset.go:48-91 | the members of a frozen set are what a selection the set had, read by the call whose commit froze it, resolved to in a later state of that same call |
| RuleStore.MembersWereNewest | console/internal/store/pg.go:417-452 | the members of a frozen set carried the greatest number of their rules, n of 1 to n, when the freeze asked for them |
| RuleStore.QueriedIsNewest | console/internal/store/pg.go:417-452 | in every such state each row is the newest revision of its rule, and a rule has a row exactly when it has a revision, is not deleted, is selected by layer or by itself, and is not excluded |
| RuleStore.ResolvesToOne | console/internal/store/pg.go:417-452 | in every state that keeps the invariant every selection of every set resolves, and to one list of rows only |
| RuleStore.TracedAlways | console/internal/ruleset/ruleset.go:48-91 | in every state of every run, the selection and the rows each freeze works with are those it read from the tables |
| RuleStore.ExclusionKeepsIff | console/internal/store/pg.go:384-394 | one more exclusion leaves a set resolving to what it did if and only if the rule is none of those it resolves to |
| RuleStore.DeletingKeepsIff | console/internal/store/pg.go:278-281 | deleting a rule leaves a set resolving to what it did if and only if the rule is none of those it resolves to |
| RuleStore.ExclusionDrifts | console/internal/store/pg.go:384-394 | an exclusion of a pinned rule is taken on a frozen set, after which no selection resolves to its members |
| Deps.ReferencesIn | console/internal/deps/deps.go:69-87 | each known name among the tokens, once, YARA's own words apart |
| Deps.Graph.constructor | console/internal/deps/deps.go:50-66 | the two maps hold exactly the references between known rules, one the transpose of the other, in any map order |
| Deps.Walk | console/internal/deps/deps.go:116-133 | breadth first, in any order of successors: exactly what the start reaches, itself apart, each once, cycles included |
| Deps.Graph.DependenciesOf | console/internal/deps/deps.go:107-108 | exactly the rules this one needs, however indirectly |
| Deps.Graph.DependentsOf | console/internal/deps/deps.go:110-112 | exactly the rules that have this one among their dependencies |
| Deps.Converse | console/internal/deps/deps.go:107-112 | reaching in one map is being reached in the other |
| Deps.Service.CheckExclusionSet | console/internal/ruleset/ruleset.go:119-143 | accepted exactly when no remaining rule refers directly to an excluded one; a refusal names the first rule needed and everything that depends on it; no graph, no judgement |
| Deps.Service.CheckExclusion | console/internal/ruleset/ruleset.go:112-114 | the same for one rule |
| Deps.CrossesOver | console/internal/ruleset/ruleset.go:127-141 | an indirect dependency of a remaining rule on an excluded one always shows in some direct one |
| Deps.ExcludedTogetherIsSafe | console/internal/ruleset/ruleset.go:116-118 | a rule together with all that depends on it can always be excluded |
| Fusion.IsCorroborated | shellsight/internal/fusion/fusion.go:240-267 | some other finding on the host is an independent credible signal for this one |
| Fusion.CorroboratesSomethingIff | shellsight/internal/fusion/fusion.go:269-286 | who can corroborate anything: a finding that is not allowlisted and has an attributed family or one of seven bases |
| Fusion.CorroboratesThisIff | shellsight/internal/fusion/fusion.go:240-267 | and what: findings of its host in other views, and an attributed one those about its own target |
| Fusion.CorroborationRaises | shellsight/internal/fusion/fusion.go:111-231 | corroboration never lowers a tier or a score |
| Fusion.ConfirmedIff | shellsight/internal/fusion/fusion.go:120-231 | a finding is confirmed exactly when its probe said so on a basis that allows it, a peer lifts an attributed or likely one, or a calibrated probe left the tier to a score of 85 or more |
| Fusion.LikelyIff | shellsight/internal/fusion/fusion.go:120-231 | exactly when a finding ends likely |
| Fusion.SuspiciousIff | shellsight/internal/fusion/fusion.go:120-231 | and suspicious, or clean |
| Fusion.FloorIs | shellsight/internal/fusion/fusion.go:120-231 | the score is the probe's, or the floor of what lifted the tier |
| Fusion.ScoreStaysInBand | shellsight/internal/fusion/fusion.go:120-231 | the score lies in the band of the tier (85, 60, 40 and up) unless tier and score are handed through from a probe that mismatched them |
| Fusion.ScoreIsIgnoredIff | shellsight/internal/fusion/fusion.go:176-231 | a finding comes out the same whatever score it came with if and only if it is an ambiguous anomaly or of a basis without scores; ambiguous anomalies and log signals are suspicious alone and likely with a peer |
| Fusion.SensitiveIff | shellsight/internal/fusion/fusion.go:120-231 | exactly which findings lose tier or score when their last peer goes |
| Fusion.ScoreInPlace | shellsight/internal/fusion/fusion.go:56-59 | overwriting tiers and scores while reading peers equals scoring every finding against the unmodified list |
| Fusion.Dedup | shellsight/internal/fusion/fusion.go:39-54 | the map-and-replace loop leaves one finding for each fingerprint |
| Fusion.DedupKeepsBest | shellsight/internal/fusion/fusion.go:39-54 | it is the first of the best-scored ones, and no fingerprint is lost |
| Fusion.Assess | shellsight/internal/fusion/fusion.go:13-109 | normalise, deduplicate, score, roll up |
| Fusion.NormalIs | shellsight/internal/fusion/fusion.go:13-37 | normalising is idempotent, gives findings one incident exactly when they are about one host, and only fills in a missing family before it fingerprints |
| Fusion.Rollup | shellsight/internal/fusion/fusion.go:61-107 | the worst tier, the greatest score, and unknown instead of clean when a view failed or was cut short |
| Fusion.ExitZeroIff | shellsight/cmd/shellsight/main.go:290-306 | exit code 0 exactly when every scored tier ranks clean and no view failed or was cut short; 5 when one did; else the worst tier |
| Fusion.CorroborationAfter | shellsight/internal/fusion/fusion.go:240-267 | a finding put anywhere into the list corroborates exactly those it supports |
| Fusion.AddingRaises | shellsight/internal/fusion/fusion.go:56-59 | adding a finding to the list lowers no other tier or score |
| Fusion.AddingRaisesVerdict | shellsight/internal/fusion/fusion.go:61-107 | nor the verdict's |
| Fusion.RemovingIncredible | shellsight/internal/fusion/fusion.go:269-286 | taking out a finding that is no credible signal changes no other |
| Fusion.AppendingLowersNothingIff | shellsight/internal/fusion/fusion.go:39-59 | for any hash and any raw list, one more raw finding lowers no kept finding if and only if its fingerprint is new, or it does not outscore the one that has it, or it replaces that one without coming out lower and without taking anybody's last peer |
| Fusion.WithoutCollisionsIff | shellsight/internal/fusion/fusion.go:39-59 | without a hash collision: the condition on the tiers and scores of the two duplicates, and, for an allowlisted newcomer, on who has another peer |
| Fusion.WeakerIff | shellsight/internal/fusion/fusion.go:120-231 | exactly when a duplicate with a greater score comes out lower |
| Fusion.DuplicateCanLower | shellsight/internal/fusion/normalize.go:86-94 | an allowlisted duplicate lowers another finding, for any hash that tells the two contents apart |
| Fusion.CleanDuplicateLowersTheVerdict | shellsight/internal/fusion/fusion.go:39-107 | a clean duplicate with a greater score takes a confirmed verdict down to clean, for any hash |
| Fusion.ScoringTwiceIff | shellsight/internal/fusion/fusion.go:56-59 | scoring a scored list changes a finding if and only if it has a peer and either its calibrated probe left the tier to a score that gave likely, or it is an anomaly that was neither likely nor confirmed |
| Fusion.ScoringTwiceEscalates | shellsight/internal/fusion/fusion.go:56-59 | a corroborated anomaly becomes likely, and scored again, confirmed |
| Probes.SelectProbes | shellsight/cmd/shellsight/registry.go:338-511 | every view gets at most one record, exactly the one it is owed; runnable counts the records without a reason; unknown lists the names nothing knows |
| Probes.AnswerRequests | shellsight/cmd/shellsight/registry.go:347-471 | after the requests, everything they settle has its record |
| Probes.SweepUncarried | shellsight/cmd/shellsight/registry.go:472-503 | every supported view the build leaves out is stated |
| Probes.SweepAbsent | shellsight/cmd/shellsight/registry.go:504-510 | every view that cannot exist here is stated |
| Probes.SpecFor | shellsight/cmd/shellsight/registry.go:243-250 | the first row of the view |
| Probes.RegistryForSpecs | shellsight/cmd/shellsight/registry.go:202-210 | the rows that apply here, in table order |
| Probes.NaProbeForSpecs | shellsight/cmd/shellsight/registry.go:273-288 | the reason of the first row that does not apply |
| Probes.AskedIsAnsweredOnce | shellsight/cmd/shellsight/registry.go:338-511 | a requested view has a record or is unknown, never both |
| Probes.SupportedIsWrittenOffIff | shellsight/cmd/shellsight/registry.go:363-468 | a requested view the build does not exclude and that is registered or supported here is stated, runs exactly when registered, and is written off as not applicable if and only if nothing is registered for it and the first of its rows does not apply |
| Probes.OneRowEachWritesOffNothing | shellsight/cmd/shellsight/registry.go:446-468 | with one row for each view nothing that is supported here is written off |
| Probes.UnregisteredIs | shellsight/cmd/shellsight/registry.go:363-510 | what a view with one row and nothing registered is recorded as, in every case |
| Probes.SecondRowIsOverlooked | shellsight/cmd/shellsight/registry.go:409-468 | with two rows it can happen |
| Probes.RunsIff | shellsight/cmd/shellsight/registry.go:370-406 | a view runs exactly when it is asked for, registered and not excluded by the build |
| Probes.UndeclaredButPresentFails | shellsight/cmd/shellsight/registry.go:363-391 | a view the build excludes while the package holds it is a failure, when it is supported here, or asked for and registered |
| Probes.TableIsStated | shellsight/cmd/shellsight/registry.go:471-510 | every capability of the table that is asked for, left out by the build or impossible here is stated |
| JavaCoverage.JavaArtifactCoverage | shellsight/cmd/diskprobe/deobfscan.go:706-765 | one entry for each distinct path, folding every diagnostic in whose scope it lies |
| JavaCoverage.OneEntryEach | shellsight/cmd/diskprobe/deobfscan.go:710-723 | the entry describes the first artifact with the path |
| JavaCoverage.StatusIs | shellsight/cmd/diskprobe/deobfscan.go:686-740 | failed exactly when unreadable or named by a read failure; complete exactly when readable and in no scope |
| JavaCoverage.DiagnosticScope | shellsight/cmd/diskprobe/deobfscan.go:639-661 | which artifacts a diagnostic can be about, and the one it names |
| JavaCoverage.ScopeMeans | shellsight/cmd/diskprobe/deobfscan.go:625-661 | in terms of the diagnostic's fields: a file it names or a member of it, alone when it stands for one occurrence or an archive; the files of a directory; or everything |
| JavaCoverage.PhysicalIff | shellsight/cmd/diskprobe/deobfscan.go:601-609 | the file is what stands before the first member mark |
| JavaCoverage.FoldDiagnostic | shellsight/cmd/diskprobe/deobfscan.go:724-740 | one diagnostic touches exactly the entries in its scope |
| JavaCoverage.CodesAre | shellsight/cmd/diskprobe/deobfscan.go:733-735 | an entry carries exactly the stable codes of the diagnostics that reached it |
| JavaCoverage.OrderOfDiagnosticsDoesNotMatter | shellsight/cmd/diskprobe/deobfscan.go:724-740 | the same diagnostics in any order give the same entries |
| JavaCoverage.NoDiagnosticIsLost | shellsight/cmd/diskprobe/deobfscan.go:639-661 | every diagnostic leaves an artifact not complete, with its code if stable |
| JavaCoverage.SummarizeDiagnostics | shellsight/cmd/diskprobe/deobfscan.go:789-824 | the total of a code is min(true sum, greatest integer) in whatever order the map is walked |
| JavaCoverage.GreatestCounts | shellsight/cmd/diskprobe/deobfscan.go:795-805 | of equal diagnostics the greatest count is kept, at least one |
| JavaCoverage.GreatestIs | shellsight/cmd/diskprobe/deobfscan.go:795-805 | that count is one of theirs, or one, and no less than any |
| BoundedResults.RetainedSmallest | shellsight/internal/javadisk/archive.go:506-518 | insertion keeps the three smallest distinct details in order |
| BoundedResults.SmallestUnique | shellsight/internal/javadisk/archive.go:506-518 | the three smallest are determined by the set of details |
| BoundedResults.LessIff | shellsight/internal/javadisk/archive.go:506-518 | texts are ordered as in a dictionary |
| BoundedResults.SummedIs | shellsight/internal/javadisk/archive.go:471-488 | what is kept of a code is the total count, the least artifact and the three smallest details |
| BoundedResults.CountsAre | shellsight/internal/javadisk/archive.go:471-488 | a diagnostic counts for what it says and at least for one, and totals add up |
| BoundedResults.ArrivalOrderDoesNotMatter | shellsight/internal/javadisk/archive.go:471-488 | it depends only on the multiset of diagnostics |
| BoundedResults.DistinctKeys | shellsight/internal/javadisk/archive.go:458-469 | the distinct findings offered have distinct keys and lose none |
| BoundedResults.Results.AddFinding | shellsight/internal/javadisk/archive.go:458-469 | the collection stays the first `maxFindings` distinct findings offered, with the limit flag set exactly when there were more |
| BoundedResults.Results.AddDiagnostic | shellsight/internal/javadisk/archive.go:471-488 | the aggregates stay those of everything reported |
| BoundedResults.Results.AddResult | shellsight/internal/javadisk/archive.go:446-456 | every finding is offered, under the physical path if there is one, and every diagnostic reported |
| BoundedResults.LocatedIs | shellsight/internal/javadisk/archive.go:446-456 | the findings offered are those given, in order, under the physical path |
| BoundedResults.CodeIsKept | shellsight/internal/javadisk/archive.go:471-488 | a code is reported exactly when a diagnostic of it arrived |
| BoundedResults.Results.Finish | shellsight/internal/javadisk/archive.go:490-504 | a full collection says so |
| BoundedResults.Scanner.AddClass | shellsight/internal/javadisk/archive.go:327-350 | unless cancelled or turned away, the class is counted, its bytes charged, and it is kept or its parse fault reported; a class is turned away only when a budget is exhausted, and that is reported |
| BoundedResults.CountsGrow | shellsight/internal/javadisk/archive.go:226-350 | what the counts are of: each class once and for its bytes, each archive for its files |
| BoundedResults.Scanner.ScanMember | shellsight/internal/javadisk/archive.go:257-325 | unless cancelled or limited by a budget, the member's read fault is reported, or its content was seen before, or it is logged and everything found through it dealt with |
| BoundedResults.Scanner.Scan | shellsight/internal/javadisk/archive.go:226-302 | ends on any archive, a self-containing one included, within every budget; unless cancelled or limited, every listed entry at every level is accounted for, every new class, source and nested archive dealt with, and the counters are exactly what was found |
| BoundedResults.AnalyzeArchive | shellsight/internal/javadisk/archive.go:199-224 | findings are within the limit and have distinct keys; a result without a budget or cancellation diagnostic is complete and holds every distinct finding; a budget turns something away only when it is exhausted, by genuine contents of the archive, and says so |
| BoundedResults.JustifiedIsReported | shellsight/internal/javadisk/archive.go:226-350 | whatever a budget turned away has a diagnostic of a budget |
| DuplicateKeys.Decoder.WalkForDuplicateKeys | shellsight/internal/agentcfg/agentcfg.go:357-398 | the recursive walk ends on any token stream and consumes what its specification says |
| DuplicateKeys.WalkIsExact | shellsight/internal/agentcfg/agentcfg.go:335-398 | on a document it succeeds exactly when no object at any depth repeats a key, consuming exactly the document; else it reports a repeated key |
| DuplicateKeys.FieldsAreExact | shellsight/internal/agentcfg/agentcfg.go:366-383 | the same for the fields of one object, given the keys seen |
| DuplicateKeys.ItemsAreExact | shellsight/internal/agentcfg/agentcfg.go:384-390 | and for the items of a list |
| DuplicateKeys.RejectDuplicateKeys | shellsight/internal/agentcfg/agentcfg.go:353-355 | a document is refused exactly when some object in it repeats a key |

## Left out

- HTTP handlers, the React client, flags, process execution, `/proc` and Windows readers, temporary files: input and output.
- Regular expressions, YARA, inflate, base64, SHA-256, the XML and JSON libraries and PostgreSQL itself: parameters or stated assumptions.
- `containmentReasonUnder` and `servedAs`, and, in `ResolveUnder`, what Windows adds: the case folding of path components, the splitting of link targets at backslashes too, and the volume name dropped from a target. `Assemble` does model the folding, as a parameter.
- The second path a root carries under an offline root, and the shortening of rejected paths for the report, in `Assemble`: data carried along.
- `joinUnbalanced`, `splitStatements` and the statement patterns of the taint analysis: the model starts from what they report.
- FoldLiterals.EightPassesIff: about `foldConcat` passes alone; the other rewrites of a pass (decoders, chr runs, reversal, propagation, attribute lookup) are a parameter of `FoldLiterals.Fold`, and text with quotes of its own around the joined literals is not covered, because such a quote may open a literal that swallows them.
- FoldVB.FoldPrinted: about expressions on one line, because the call patterns do not cross line breaks.
- Deobfuscate.Run: the closure leaves out inflating and rotating a base64 product whose content was recorded before, because the code does that only when the product is new.
- Waiting on foreign keys in `RuleStore`, rule identifiers and their uniqueness, reasons and authors of exclusions, `RecordBuild` and the audit log: a wait only removes interleavings, the rest is data.
- Relocs.CleanIffSame: floating point is not modelled; the fraction is a real number, which differs from the program's only for quotients within rounding of the threshold.
- The final sorting of coverage entries, diagnostic codes, findings and orphan lists, and the joining of example texts: library sorts over results that are proved as sets or in the order built.
- The overflow of a diagnostic count past 64 bits in `BoundedResults`, and the budget of expanded bytes, which the archive reader keeps: the reader is not part of this model.
- `sortDecodedForDedup` and `dedupByOriginRule`: the same keep-the-best loop as in `Fusion`, which would only add an easy member.
- ATT&CK tags, evidence wording and the marshalling of configuration choices: one branch each.
- Rule-set versions and names being unique, and rebuilding a build identifier: `deriveBuildID` does not separate its lists, so nothing is claimed of it.
