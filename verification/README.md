# Debark: what its core promises, proved

Debark resolves packages for a machine it is not running on, carries them across as a
bundle, and rebuilds a repository on the other side. This project models the parts whose
correctness everything else leans on and proves their promises over all inputs.

| file | what it models |
|---|---|
| `AptConfLexer`, `AptConfSyntax`, `AptConfFilter` | reading, filtering and printing apt.conf |
| `AptConfLexCases`, `AptConfForms`, `AptConfReasons` | what every form of text lexes and parses to, and what every reported reason means |
| `AptConfTheorems`, `AptConfVerdict`, `AptConfSpelling`, `AptConfSettling`, `AptConfReach` | stability of the filter, conservation of assignments, what may survive, when two spellings of one setting share a fate, when the text settles at once, and how far the parser reads |
| `VersionParts`, `VersionOrder`, `VersionNul`, `VersionWhole`, `VersionZeros` | the two-cursor comparison of Debian versions (Debian Policy, section 5.6.12), why it is a total preorder on NUL-free versions, exactly which parts and which whole versions with a NUL byte break it, and leading zeros |
| `VersionPolicy` | which way each difference between two versions decides |
| `Prune` | the choice of superseded pool entries, over any total preorder |
| `PoolAssembly`, `PoolTheorems` | materialising a plan into the pool, pruning, and any sequence of runs over one directory |
| `PoolSuccess`, `PoolPruning` | when a plan succeeds and what is pruned, in terms of the plan, the starting pool, the staged files and the store |
| `EventStream` | splitting a container's output into events and diagnostics, however it is cut into writes |
| `EventOutcomes` | the outcomes of one stream over all ways of cutting it |
| `EntryPath`, `BundleTar`, `BundleTarTheorems`, `BundleRoundTrip` | archive names, the bounded import, import as the inverse of export, and exactly which trees come back |
| `BundleCollisions`, `BundleVerdict`, `BundleSuccess` | which paths are one file, the answer to every entry, and which archives import |
| `ContainerResult` | what the host accepts of a plan made in a container, and the lock comparison |
| `ContainerAcceptance` | which envelopes are accepted, field by field |
| `ClosedWorld` | the lock against the offline plan and the text of the captured status file |
| `UriMangle`, `UriNames` | apt's list-file names as a prefix code, trust by name prefix, and what each URI covers |
| `DpkgStatus`, `DpkgStatusLines`, `DpkgStatusTheorems`, `DpkgFolding` | the status file writer, its two independent readers on any statuses, and fields of several lines |
| `Seqs`, `Sorting`, `Wrappers` | sequence facts, the library sorts, and an option type |

Each loop of the source is a method proved equal to a specification function, or to a
direct statement of its result; the objects that the source updates in place (the event
sink, the event stream, the pool directory, the import target) are classes. The promises
themselves are lemmas about the specification functions, and hold for the methods through
that equality.

Conventions. A byte is a `char`, a byte string a `string`. `strings.EqualFold` and
`strings.ToLower` are arbitrary functions from strings to representatives. Hashing, .deb
identities, pool paths, the event decoder and the Debian version library are parameters; a
theorem holds for every choice of them. The only facts assumed of a parameter are written
as `requires`: the version comparison is a total preorder (which the comparator of
`VersionOrder` is shown to be), a digest is never blank, a directory is not readable as a
file, and "APT" and "Acquire" are different words.

Results that differ from what one might expect of the code:

* One setting spelled two ways can have two fates. `APT::Solver::Tune "x";` survives the
  filter, `APT { Solver { Tune "x"; }; };` does not. `SpellingVerdict` says exactly when a
  spelling survives.
* A key with neither value nor block is printed as an empty block, so its text settles on
  the second pass and not on the first (`TextMayChangeOnce`); the tree settles at once. The
  text too settles at once exactly when no key-only item passes the filter (`SettlesAtOnce`).
* A stray `}` ends the file: what follows it is neither carried nor reported, and so it is
  after a `{` that follows no key (`StrayCloseEndsTheFile`, `StrayOpenEndsTheFile`). The parser
  reads the whole file exactly when every `}` closes a block that is open (`ReadsAll`).
* The version comparison is antisymmetric on all strings, but a NUL has the rank of a digit
  and can break transitivity (`NulBreaksTransitivity`). One part of a version, compared by
  itself, keeps NUL-free strings in order exactly when its first NUL, if any, directly follows
  a digit (`OrderedExactly`). A whole version does so exactly when that holds of its epoch, of
  its upstream version where some NUL-free string ties with the epoch, and of its revision
  where some ties with both (`VersionOrderedExactly`). The first NUL of the whole string does
  not tell: "5\0:\0" breaks the order (`NulInTheNextPart`).
* Cutting a stream differently changes the events exactly when some line with a body over
  64 KiB decodes as an event: such a line is recognised if it arrives in one piece. Every
  choice among such lines is the outcome of some cutting, and no other (`OutcomesExactly`).
* The lexer's guard for a word of no bytes (core/apt/aptconf.go:164-167) can never apply:
  the byte it would skip is already consumed by an earlier case.
* The doctor's status reader sees an empty machine when the file has more than 100000
  packages or a line of 4 MiB; the resolver's reader has no such limit. The resolver's reader
  takes only the first line of a field of several (`FieldReadsBack`).

## Model

| member | source | states |
|---|---|---|
| AptConfLexer.Tokenize | core/apt/aptconf.go:107-173 | The lexer's loop, for every byte string: it ends and yields the tokens of `Lex`, which is defined by what one position starts. |
| AptConfLexer.TokenAt | core/apt/aptconf.go:112-170 | One turn of the loop: blank, comment, directive, quoted value, punctuation or word, and where the next begins. |
| AptConfLexer.ScanQuoted | core/apt/aptconf.go:128-144 | A quoted value ends at the first unescaped quote or at the end of input; a backslash takes the next byte literally. |
| AptConfLexer.LexedWordsAreLexable | core/apt/aptconf.go:107-173 | Every word token of every input is non-empty, free of bytes that end a word, and not a directive; no directive token is empty. |
| AptConfLexer.NextIsWord | core/apt/aptconf.go:152-169 | Wherever such a word stands before a byte that ends words, the lexer reads exactly it. |
| AptConfLexer.NextIsQuoted | core/apt/aptconf.go:128-144 | Wherever the quoted form of any value stands, whatever follows, the lexer reads back that value: quotes, backslashes and newlines included. |
| AptConfLexer.QuoteConfValue | core/apt/aptconf.go:717-729 | Quoting writes the value between quotes with a backslash before each quote and backslash and before nothing else. |
| AptConfLexCases.CommentIsSkipped | core/apt/aptconf.go:115-118 | Wherever "//" stands, lexing goes on at the first newline after it, or at the end of the text, and no token comes of the comment. |
| AptConfLexCases.HashLineIsDirective | core/apt/aptconf.go:145-151 | A '#' line is one directive token: the line without the carriage returns at its end. |
| AptConfLexCases.WordIsRead | core/apt/aptconf.go:152-169 | Any other text is one word up to the first delimiter, comment or end. |
| AptConfLexCases.QuotedIsRead | core/apt/aptconf.go:128-144 | A quoted text is the bytes of its units, a byte after a backslash being itself, up to the first quote that follows no backslash or to the end. |
| AptConfLexCases.LastBackslashIsRead | core/apt/aptconf.go:128-144 | A backslash that ends the text stands for itself. |
| AptConfLexCases.CommentLineIsNothing | core/apt/aptconf.go:75-118 | A comment line put before any text changes neither what is carried nor what is reported. |
| AptConfLexCases.BlankLineIsNothing | core/apt/aptconf.go:75-118 | Nor does an empty line. |
| AptConfSyntax.ParseItems | core/apt/aptconf.go:189-229 | The recursive parser with its moving position computes `Parse`: items up to a closing brace or the end, and the position reached. |
| AptConfSyntax.ParseKeyed | core/apt/aptconf.go:203-221 | After a word: a block with its optional brace and semicolon, an assignment, or a key alone; the position always advances. |
| AptConfSyntax.SerializeItems | core/apt/aptconf.go:696-715 | The printer writes `Print`: one statement per line, four spaces a level, a key alone as an empty block. |
| AptConfSyntax.LexesItems | core/apt/aptconf.go:696-715 | Wherever a printed directive-free tree stands in a text, it lexes to that tree's token sequence, at any indentation. |
| AptConfSyntax.ParsesItems | core/apt/aptconf.go:189-229 | Wherever a tree's token sequence stands among tokens, it parses to that tree with key-only items made empty blocks. |
| AptConfSyntax.RoundTrip | core/apt/aptconf.go:107-229 | For every directive-free tree with lexable keys and arbitrary value bytes, lexing and parsing the printed text gives the same tree, key-only items made empty blocks. |
| AptConfForms.ValueIsRead | core/apt/aptconf.go:203-221 | A word followed by a quoted value or by another word is an assignment of it. |
| AptConfForms.LoneKeyIsRead | core/apt/aptconf.go:203-221 | A word followed by neither a value nor an opening brace stands alone. |
| AptConfForms.BlockIsRead | core/apt/aptconf.go:203-221 | A word and an opening brace hold what is read up to the brace that ends the block, or up to the end; reading goes on behind that brace. |
| AptConfForms.OtherIsRead | core/apt/aptconf.go:196-202 | A quoted value by itself is a list element, a '#' line a directive. |
| AptConfForms.UnquotedReads | core/apt/aptconf.go:107-235 | The text of two plain words with a blank between and a semicolon behind reads as the assignment of the second to the first. |
| AptConfFilter.Filter | core/apt/aptconf.go:239-281 | The recursive filter appends to its drop log exactly the drops of `FilterItems` and returns its survivors. |
| AptConfFilter.JoinOfKeyPath | core/apt/aptconf.go:286-292 | Joining a key's path segments gives the key back, up to one "::" at its end. |
| AptConfReasons.AdmissibleMeans | core/apt/aptconf.go:533-692 | What the allow-list, the deny rules and the solver rule let through, spelled out segment by segment. |
| AptConfReasons.ReasonsExplain | core/apt/aptconf.go:533-692 | Every reported reason is true of the entry it is reported for, and a denied entry is never reported as merely unlisted. |
| AptConfReasons.ScopeIsTransparent | core/apt/aptconf.go:533-581 | A setting scoped to one program is judged as the unscoped setting. |
| AptConfReasons.ScopeAloneIsABlock | core/apt/aptconf.go:533-581 | The wrapper itself passes as a block and as nothing else. |
| AptConfReasons.DirectivesAreReported | core/apt/aptconf.go:325-337 | No '#' line is carried, and one is reported exactly when its first word, in any case, is one of the two that apt knows. |
| AptConfTheorems.FilterAptConf | core/apt/aptconf.go:75-84 | The whole pipeline; and a second pass over its result drops nothing more. |
| AptConfTheorems.FilterIsStable | core/apt/aptconf.go:75-84 | For every input text: filtering the output drops nothing and reads the same tree, and from the second pass on the text itself is stable. |
| AptConfTheorems.SurvivorsReadBack | core/apt/aptconf.go:75-84 | The text written for any input reads back as the surviving tree, with no value or nesting changed. |
| AptConfTheorems.KeptIsStable | core/apt/aptconf.go:239-281 | At any accumulated path, the survivors of a tree survive again whole and report nothing. |
| AptConfTheorems.ParsedIsWellKeyed | core/apt/aptconf.go:189-229 | Every key in a parsed tree is a word the lexer can produce. |
| AptConfTheorems.KeptIsPrintable | core/apt/aptconf.go:239-281 | No directive survives at any depth, so the survivors meet the round trip's condition. |
| AptConfTheorems.NothingIsLostSilently | core/apt/aptconf.go:239-281 | The assignments of the parsed tree are the surviving ones, with path, value and relative order, interleaved with lost ones, each covered by a recorded drop whose key joins a prefix of its own path. |
| AptConfTheorems.ItemsConserve | core/apt/aptconf.go:239-281 | The same at any depth and accumulated path, emptied blocks included. |
| AptConfTheorems.KeptIsAdmissible | core/apt/aptconf.go:239-292 | Every keyed value that survives at a non-empty path is, without one Binary scope, an exact allow-list entry, beneath APT::Solver or an opted-in proxy, and matches no Dir, hook, verification, DPkg::Tools or gpgv rule. |
| AptConfTheorems.WrittenTextIsAdmissible | core/apt/aptconf.go:72-84 | The same of every keyed value in the written text, as this program's own lexer and parser read it. |
| AptConfVerdict.KeptBare | core/apt/aptconf.go:246-252 | A bare value survives only at the top, or in a block that leads to or is an allow-list entry and that no deny rule or solver rule names, at any depth. |
| AptConfVerdict.WrittenBareInPlace | core/apt/aptconf.go:72-84 | The same of every bare value in the written text, read by this program's own lexer and parser. |
| AptConfVerdict.FlatVerdict | core/apt/aptconf.go:639-692 | A dotted assignment survives if and only if its path and value are admissible in the sense above. |
| AptConfVerdict.BlockOnTheWay | core/apt/aptconf.go:544-581 | A block on the way to an admissible setting is dropped only where a deny rule or the solver rule names the block itself. |
| AptConfSpelling.SpellingVerdict | core/apt/aptconf.go:239-281 | For any distribution of a path over dotted keys and nested blocks: the spelling survives unchanged if and only if the full path and value are admissible and no enclosing block is dangerous or a solver list; otherwise nothing of it survives. |
| AptConfSpelling.SolverSpellingsDiffer | core/apt/aptconf.go:617-628 | A concrete setting beneath APT::Solver that survives dotted and is dropped as a block. |
| AptConfSettling.SettlesAtOnce | core/apt/aptconf.go:75-84 | For every input, the second pass writes the first pass's text if and only if no key with neither value nor block passes the filter at any depth of the parsed input. |
| AptConfSettling.KeptHasKeyOnly | core/apt/aptconf.go:239-281 | Such a key survives if and only if neither it nor a block around it is dropped. |
| AptConfSettling.TextMayChangeOnce | core/apt/aptconf.go:696-715 | The input `APT::Architectures;`, whose text the second pass changes. |
| AptConfReach.ReadsAll | core/apt/aptconf.go:189-235 | The parser reads every token if and only if, read flat, no closing brace comes where no key's block is open. |
| AptConfReach.ParseIsFlat | core/apt/aptconf.go:189-235 | From any position inside any number of blocks, the recursive parser and the flat reading agree on which brace ends what. |
| AptConfReach.StrayCloseEndsTheFile | core/apt/aptconf.go:194-195 | After a closing brace at the start, no text whatever is carried or reported. |
| AptConfReach.StrayOpenEndsTheFile | core/apt/aptconf.go:222-226 | Nor after a pair of braces that follows no key. |
| VersionOrder.VerRevCmpLoop | core/apt/dpkgversion.go:98-144 | The nested loops end on every pair of strings and, without NUL bytes, return the sign of the zero-padded lexicographic order of the integer keys. |
| VersionOrder.VerRevCmpIsKeyOrder | core/apt/dpkgversion.go:98-144 | From any pair of positions the comparison has the sign of that order: ranks of each non-digit run, a 0, then the digit run's numeric value. |
| VersionOrder.VerRevCmpSwap | core/apt/dpkgversion.go:98-144 | Swapping the arguments negates the result, for any bytes whatever. |
| VersionOrder.DigitsCompareValues | core/apt/dpkgversion.go:125-141 | Comparing digit runs by length and first difference is comparing their values, at any length. |
| VersionOrder.CompareVersionsFallback | core/apt/dpkgversion.go:41-53 | Epoch, then upstream, then revision, the first difference deciding. |
| VersionPolicy.PartsDecide | core/apt/dpkgversion.go:41-75 | Of two NUL-free versions with three parts each, the first part whose keys differ decides, in the direction of its own order; they tie when all three tie. |
| VersionPolicy.FirstNonDigitDecides | core/apt/dpkgversion.go:77-124 | The first difference between two non-digits decides by one fixed order: tilde first, then letters, then the rest by byte, whatever follows. |
| VersionPolicy.EndSortsBetween | core/apt/dpkgversion.go:77-124 | The end of a part, or a digit, is above a tilde and below every other non-digit. |
| VersionPolicy.NumbersDecide | core/apt/dpkgversion.go:125-141 | Digit runs in the same place with different numbers decide by their numbers. |
| VersionOrder.FallbackAntisymmetric | core/apt/dpkgversion.go:41-53 | Swapping two versions swaps the verdict; a version equals itself. |
| VersionOrder.FallbackTransitive | core/apt/dpkgversion.go:41-53 | The comparison is transitive on NUL-free versions. |
| VersionOrder.NulBreaksTransitivity | core/apt/dpkgversion.go:77-90 | With a NUL byte it is not: "5" equals NUL equals "6", yet "6" is above "5". |
| VersionNul.OrderedExactly | core/apt/dpkgversion.go:77-144 | NUL-free byte strings below and above any byte string are themselves in order if and only if that string's first NUL, if any, directly follows a digit. |
| VersionNul.CutDecides | core/apt/dpkgversion.go:98-144 | Against a string cut by such a NUL, a NUL-free string that differs from the part before the NUL gets the verdict of that difference. |
| VersionNul.LinedUp | core/apt/dpkgversion.go:77-118 | For every string whose first NUL does not follow a digit, two NUL-free strings that it puts in the wrong order. |
| VersionWhole.VersionOrderedExactly | core/apt/dpkgversion.go:41-144 | Whole versions: NUL-free versions below and above any version are themselves in order if and only if its first NUL directly follows a digit in the epoch, in the upstream version where the epoch can tie, and in the revision where both can. |
| VersionWhole.FallbackOrdersThrough | core/apt/dpkgversion.go:41-53 | One half of it, for strings of any characters. |
| VersionWhole.OnlyTiesTie | core/apt/dpkgversion.go:98-144 | Nothing NUL-free ties with a part whose text from its first NUL on does not compare as nothing does. |
| VersionWhole.TieOf | core/apt/dpkgversion.go:98-144 | Something NUL-free, made of the part's own bytes, ties with a part where it does. |
| VersionWhole.NulInTheNextPart | core/apt/dpkgversion.go:41-53 | "5\0:\0" equals "5:6" and "5:5", which differ, though its first NUL follows a digit. |
| VersionZeros.ZerosDoNotMatter | core/apt/dpkgversion.go:41-75 | A zero put before any digit run of a whole version, in its epoch, upstream version or revision, changes no verdict. |
| VersionOrder.LeadingZeroIsIgnored | core/apt/dpkgversion.go:119-124 | The same of one part of a version, the argument of one comparison. |
| VersionParts.AbsentEpochIsZero | core/apt/dpkgversion.go:59-64 | No epoch is epoch 0. |
| VersionParts.AbsentRevisionIsZero | core/apt/dpkgversion.go:66-75 | No revision is revision 0, with or without an epoch. |
| VersionOrder.TildeSortsFirst | core/apt/dpkgversion.go:77-90 | A version followed by a tilde and anything sorts below the version itself. |
| Prune.PruneDecide | core/bundle/prune.go:36-66 | The two loops remove exactly the entries that parse, are not protected and lie strictly below a parseable entry of their name and architecture, in list order. |
| Prune.BestVersions | core/bundle/prune.go:41-53 | The best map holds for each group a version of the group that no other exceeds. |
| Prune.KeepsHighest | core/bundle/prune.go:36-66 | Every group with a parseable version keeps an entry at its maximum. |
| Prune.RemovesOnlySuperseded | core/bundle/prune.go:55-65 | What is removed parses, is neither user-supplied nor in the lock, and lies strictly below an entry that stays. |
| Prune.PruneIsIdempotent | core/bundle/prune.go:36-66 | Run again on what is left, it removes nothing. |
| Prune.SplitsTheList | core/bundle/prune.go:36-66 | Kept and removed entries together are the list, with multiplicity. |
| Prune.RemovedExactly | core/bundle/prune.go:36-66 | An entry is removed if and only if it is in the list, parses, is neither user-supplied nor locked, and an entry of the same name and architecture has a higher version that parses. |
| Prune.PruneIgnoresOrder | core/bundle/prune.go:36-66 | Two orders of one list have the same multiset removed. |
| Prune.FallbackIsTotalPreorder | core/apt/dpkgversion.go:41-53 | The in-repository comparator satisfies what pruning asks of a comparison. |
| PoolAssembly.Directory.MaterialiseSelections | core/bundle/assemble.go:238-319 | The loop over the plan leaves the pool of `Materialise`, on success and where it stops; the lists of added and unchanged paths are sorted. |
| PoolAssembly.Directory.PlaceOne | core/bundle/assemble.go:241-315 | One selection: refused for a missing filename or a claimed path, left alone when the digest already matches, else ensured in the store, verified there, written and checked. |
| PoolAssembly.Directory.CollectPoolEntries | core/bundle/assemble.go:423-480 | Succeeds if and only if every pool file outside the plan has a readable identity, and then lists each .deb of the pool once, plan data winning over the file's own. |
| PoolAssembly.Directory.PruneExistingPool | core/bundle/assemble.go:392-409 | Deletes exactly the outdated paths, lists them sorted and without repeats, and touches nothing when it cannot read the pool. |
| PoolAssembly.Directory.UnreferencedPoolFiles | core/bundle/unreferenced.go:68-102 | The sorted list of pool paths that are not indexed, each once. |
| PoolAssembly.Directory.AssemblePool | core/bundle/assemble.go:36-71 | The stages in order over one directory: the outcome and pool of `Assemble`, with both lists sorted. |
| PoolAssembly.DecisionIsOutdated | core/bundle/assemble.go:392-480 | Whatever order the walk lists entries in, the paths decided are the outdated ones: a property of the pool alone. |
| PoolTheorems.MaterialiseEffect | core/bundle/assemble.go:238-319 | On success pool = old pool + selected paths, every planned digest holds, a path counts as unchanged exactly when the starting pool already held its planned digest and as added otherwise, both lists sorted, added + unchanged = number of selections, bytes = sum of sizes; on failure files outside the selection are as before. |
| PoolTheorems.PassIsConsistent | core/bundle/assemble.go:36-71 | A pass leaves pool = (old + selected) - removed, removes no selected path, reports unreferenced = pool - selected, whatever the store held. |
| PoolTheorems.AssembleIsConsistent | core/bundle/assemble.go:36-71 | The same of assembling an unsorted plan; a failing run changes nothing outside the selected paths. |
| PoolTheorems.RemovedIsSuperseded | core/bundle/assemble.go:392-480 | A removed path is unselected, not user-supplied, and has a higher version of its group in a path that stays. |
| PoolTheorems.RerunChangesNothing | core/bundle/assemble.go:36-71 | After a successful run, the same digest-carrying plan succeeds again whatever the store now holds: nothing added, nothing removed, everything unchanged, same pool, same unreferenced list. |
| PoolTheorems.VouchedFilesHold | core/bundle/assemble.go:238-319 | Over any sequence of runs, failing ones included, every path last placed by a successful run with a planned digest still holds bytes of that digest. |
| PoolSuccess.MaterialisesExactly | core/bundle/assemble.go:238-389 | The answer is the first fault of the plan's selections, each fault spelled out in the plan, the starting pool, the staged files and the store; success if and only if there is none, and then the bytes counted as downloaded are those of the selections neither there nor stored. |
| PoolSuccess.SucceedsExactly | core/bundle/assemble.go:238-389 | A plan succeeds if and only if its selections are well named on paths of their own, and each is in the starting pool at its digest, or has a staged file that agrees with its digest if it has one, or a store object that does, and what lands at its path has the digest materialised. |
| PoolPruning.PassExactly | core/bundle/assemble.go:36-71 | A pass succeeds if and only if no selection has a fault and, when pruning, every leftover can be read; it removes exactly the outdated files, and without pruning none. |
| PoolPruning.OutdatedIs | core/bundle/assemble.go:392-480 | A file is outdated exactly when nothing in the plan owns it, no user supplied it, and the pool has a file of its name and architecture with a higher version. |
| EventStream.Stream.Write | core/apt/containerevents.go:160-189 | One write moves the stream to `AfterWrite`, tells the sink exactly the new verdicts, and leaves at most 64 KiB pending. |
| EventStream.Stream.ConsumeLine | core/apt/containerevents.go:192-217 | One complete line: passed through when overlong, else joined to what was pending, decoded, and delivered or kept as diagnostics. |
| EventStream.Stream.Close | core/apt/containerevents.go:222-228 | A trailing partial line becomes diagnostics. |
| EventStream.Sink.Accept | core/apt/containerevents.go:102-111 | An accepted event is emitted below the limit and counted as dropped beyond it. |
| EventStream.Sink.Reject | core/apt/containerevents.go:113-117 | A rejected line is counted and nothing else changes. |
| EventStream.RunIsWhole | core/apt/containerevents.go:160-228 | Any cutting of a stream with no long event line, closed, gives the diagnostics and verdicts of reading it line by line without limit. |
| EventStream.ChunkingTheorem | core/apt/containerevents.go:160-228 | All cuttings of a stream agree if and only if no line with a body over 64 KiB decodes as an event. |
| EventStream.LongEventExists | core/apt/containerevents.go:170-184 | There are such lines: 65537 bytes and a newline, under a decoder that rejects every line. |
| EventStream.CutLosesEvent | core/apt/containerevents.go:170-184 | Where there is such a line, the cut before its newline delivers fewer events than no cut. |
| EventStream.OneWriteIsWhole | core/apt/containerevents.go:160-189 | A stream that arrives in one write is read line by line, long lines included. |
| EventOutcomes.OutcomesExactly | core/apt/containerevents.go:160-228 | The outcomes of a stream over all ways of cutting it are exactly these: the lines that are no event, the last partial line and any choice of the events over 64 KiB become diagnostics, and all other events are delivered, each in stream order. |
| EventOutcomes.NothingIsLost | core/apt/containerevents.go:160-228 | A stream without an event line comes out as it went in, however it is cut. |
| EventOutcomes.LinesMakeTheStream | core/apt/containerevents.go:160-228 | The lines of a stream, each with its newline, and its last part are the stream. |
| EventStream.PendingIsBounded | core/apt/containerevents.go:170-184 | Between writes the buffer never exceeds 64 KiB, for any stream and any cutting. |
| EventStream.SinkCounts | core/apt/containerevents.go:91-133 | The forwarded events are the first accepted ones, in order, up to the limit; forwarded + dropped = accepted; rejected counts the rejects. |
| EventStream.SharedSinkCounts | core/apt/containerevents.go:91-133 | The same totals for every interleaving of two streams into one sink. |
| EntryPath.AcceptedNames | core/bundle/tar.go:508-543 | A name is accepted if and only if it passes the raw checks and, followed component by component from the root, stays inside, ends below the root and has no over-long component; the result's components are that position, none empty, "." or "..". |
| EntryPath.AcceptedStaysInside | core/bundle/tar.go:508-543 | Joined to any directory, an accepted name denotes a place strictly beneath it. |
| EntryPath.CleanFollows | core/bundle/tar.go:527-536 | Cleaning a path denotes the same place as following it, and shows whether it climbs out. |
| EntryPath.SplitOfJoin | core/bundle/tar.go:537-541 | Splitting undoes joining, for slash-free components. |
| BundleTar.Target.ImportTar | core/bundle/tar.go:340-460 | The loop over an archive ends in the state of `Import`; on every outcome the files on the disk that are new or changed hold together no more than the bytes charged, at most one more than the total limit. |
| BundleTar.Target.ImportOne | core/bundle/tar.go:382-458 | One entry: every refusal in the source's order, then a directory or a file. |
| BundleTar.Target.ExtractRegularFile | core/bundle/tar.go:467-500 | A file is cut off one byte beyond the smaller of its limit and the remaining budget; going past it, or breaking off, is refused. |
| BundleTar.EntryKeepsBudget | core/bundle/tar.go:382-458 | Through any entry the budget falls no lower than -1, and not below 0 when the import goes on. |
| BundleTarTheorems.DiskMatchesBudget | core/bundle/tar.go:382-500 | For every archive, starting directory and outcome: the files written, read back from the disk, are different files, each at most one byte past the limit for one entry, and hold exactly the bytes charged; every other file is as it was. |
| BundleTarTheorems.EmptyDirHoldsTheBudget | core/bundle/tar.go:382-500 | Started empty, those files are all there is, so the sizes on the disk sum to what was charged. |
| BundleTarTheorems.ImportIsBounded | core/bundle/tar.go:340-500 | For every archive, starting directory and outcome: the files on the disk that are new or changed hold at most total limit + 1 bytes together and entry limit + 1 each; on success the total, each file and the entry count are within their limits and collision keys are pairwise distinct. |
| BundleTarTheorems.ImportLeaves | core/bundle/tar.go:340-500 | For every archive, starting directory and outcome: no file is lost, a new or changed file holds a beginning of the bytes of a regular entry whose accepted name puts it there, and a new directory is on the way to an accepted name. |
| BundleTarTheorems.ImportWritesArchive | core/bundle/tar.go:340-500 | After success the target holds each file entry's bytes in full at its path, executable as the header says where the file is new, and nothing else changed. |
| BundleTarTheorems.CollectExportEntries | core/bundle/tar.go:38-77 | Refuses exactly the trees with an unexportable node; else the files, sorted by path. |
| BundleTarTheorems.ExportTar | core/bundle/tar.go:83-185 | Writes one entry a file, in that order, or refuses in exactly those cases. |
| BundleTarTheorems.ExportForgetsWalkOrder | core/bundle/tar.go:38-77 | Two walks meeting the same files export the same archive. |
| BundleTarTheorems.ImportInvertsExport | core/bundle/tar.go:340-460 | For every tree whose paths pass the name check, have distinct collision keys and fit the limits, importing its export into an empty directory succeeds and gives exactly its map from path to bytes and executable bit. |
| BundleRoundTrip.RoundTripExactly | core/bundle/tar.go:38-543 | For every file tree: its export, imported into an empty directory, succeeds and is that tree again if and only if every path is one the name check returns as it is, no two collide, no file is a directory of another, and the limits hold. |
| BundleRoundTrip.SafeIsFixed | core/bundle/tar.go:508-543 | A result of the name check that the check accepts is returned unchanged. |
| BundleTarTheorems.ImportStaysInside | core/bundle/tar.go:340-543 | For every archive, starting directory and outcome, with the program's own name check: each file that is new or changed lies strictly beneath the directory imported into, and each new directory inside it. |
| BundleTarTheorems.KeysSeparatePaths | core/bundle/tar.go:309-327 | Entries with different collision keys have different paths. |
| BundleCollisions.KeysCollideExactly | core/bundle/tar.go:309-327 | Two paths have one key if and only if they have as many components and these agree one by one after taking off trailing dots and blanks and lower-casing. |
| BundleVerdict.NextVerdict | core/bundle/tar.go:382-500 | After any accepted entries, the answer for the next one, case by case: which error, or none, in terms of the entries before it and the tree. |
| BundleVerdict.DuplicatesExactly | core/bundle/tar.go:399-406 | An entry is refused as a duplicate if and only if it is within the count, its name is accepted, and an earlier entry is the same file in the sense above. |
| BundleSuccess.ImportsExactly | core/bundle/tar.go:340-500 | Any archive imports into an empty directory if and only if it is within the limits, each entry is a file or directory with an accepted name and all its bytes, no two have one key, and no file is where another entry needs a directory. |
| ContainerResult.CrossCheckEnvelope | core/apt/container_driver.go:819-929 | Passes if and only if all names are admissible, every selection agrees with files[] or is a requested external one, and every file is selected; the refusal is the machine's fault if and only if a shared volume is named and only the last of these fails. |
| ContainerResult.ReverifyFiles | core/apt/container_driver.go:1020-1038 | Passes if and only if each listed file is in the archives directory with its size and digest. |
| ContainerResult.ReverifyExternalFiles | core/apt/container_driver.go:1075-1110 | Passes if and only if each external selection is in the external directory with its digest. |
| ContainerResult.RewriteStagedPaths | core/apt/container_driver.go:1127-1149 | In place: succeeds if and only if every filename is admissible, and then each selection is as before but staged in its directory. |
| ContainerResult.Accept | core/apt/container.go:582-605 | The four steps in order give a plan if and only if all pass, and it is the envelope's plan restaged. |
| ContainerResult.AcceptanceIsSound | core/apt/container.go:582-605 | For every host and envelope that passes: files[] and the non-external selections have the same name:arch keys, only requested names are external, and each selection with a filename has a one-component staged path in the right directory whose bytes have the digest it claims. |
| ContainerAcceptance.AcceptsExactly | core/apt/container.go:582-605 | An envelope passes if and only if names, keys, versions, filenames, digests, sizes and the host's bytes agree, each condition stated on the fields. |
| ContainerAcceptance.AcceptedIsListed | core/apt/container_driver.go:868-909 | In an accepted envelope each non-external selection has a listed file of its key, version and filename, with equal digest and size where both give one. |
| ContainerAcceptance.AgreementIsAccepted | core/apt/container_driver.go:819-929 | An envelope with distinct keys whose plan and files[] agree in every field, over files the host has, is accepted. |
| ContainerAcceptance.KeysAreApart | core/apt/container_driver.go:819-868 | Two keys of colon-free names are equal only for equal name and equal architecture. |
| ContainerResult.UpgradeMismatches | core/apt/closedworld.go:382-399 | Reports a key with both versions if and only if it is locked and selected at another version, once for every such selection, in the order of the message texts. |
| ContainerResult.VersionMismatches | core/apt/container.go:1179-1214 | Reports exactly the divergences, in the order of the message texts: selected otherwise, once for every such selection; unselected and installed otherwise, once; unselected and absent, once. |
| ContainerResult.NoMismatchMeansHonoured | core/apt/container.go:1179-1214 | No mismatch if and only if each locked key is selected and only at the locked version, or unselected and installed at it. |
| ContainerResult.NoMismatchMeansLocked | core/apt/container.go:1179-1214 | Then the installed state overridden by the selections agrees with the lock on every key. |
| ClosedWorld.UpgradeTargets | core/apt/closedworld.go:340-359 | The wanted versions by key, and the entries to ask for, sorted, one for each upgrade of the lock. |
| ClosedWorld.EntriesAre | core/apt/closedworld.go:348-357 | The entries are name:arch=version of exactly the packages locked as upgrades. |
| ClosedWorld.LockVerdict | core/apt/container.go:1147-1259 | From the lock, the plan and the text of the captured status file: no divergence is reported if and only if each locked upgrade is selected only at its version, or is not selected and the file says it is installed at that version. |
| UriMangle.AptURIToFileName | core/apt/sources.go:378-407 | The loop over the stripped URI computes `Mangle`. |
| UriMangle.StripLeavesHostAndPath | core/apt/sources.go:379-393 | A URI of scheme, user information, host and path strips to host and path, user information with colons and at signs included; so does one without user information. |
| UriMangle.DecodeOfEncode | core/apt/sources.go:394-406 | The byte encoding is decodable: decoding it gives back every byte string. |
| UriMangle.EncodePrefix | core/apt/sources.go:394-406 | It is a prefix code: one encoding is a prefix of another if and only if the originals are. |
| UriMangle.ManglePrefix | core/apt/sources.go:378-407 | The same of mangled URIs and their forms without scheme and user information. |
| UriMangle.TrustedIndexPrefixes | core/apt/sources.go:418-458 | The prefixes are sorted, distinct, non-empty, and exactly the mangled slash-ended URIs. |
| UriMangle.StripOfSlashed | core/apt/sources.go:440-447 | The slash added to a URI is the last byte of its stripped form, so it closes a path component. |
| UriMangle.MatchesOnlyAtBoundary | core/apt/sources.go:440-448 | A list-file name starts with a source's prefix if and only if what it encodes starts with the source's slash-ended stripped form. |
| UriMangle.TrustedExactly | core/apt/sources.go:418-469 | An index file whose name encodes some byte string is trusted if and only if some trusted URI covers that string in that sense. |
| UriNames.CoversExactly | core/apt/sources.go:378-448 | A URI of scheme, optional user information, host and path covers exactly what goes on from its host and path at a slash, whether or not it ends in one; an empty one covers nothing. |
| UriNames.ByteBecomes | core/apt/sources.go:394-406 | In any name a slash becomes an underscore, printable bytes outside the escaped set stay, and any other byte becomes a percent sign and two hexadecimal digits. |
| DpkgStatus.DpkgStatusFor | core/apt/closure.go:335-344 | The appended text is that of the sorted packages, four fields and a blank line each. |
| DpkgStatus.SplitDpkgStatusStanzas | core/apt/held.go:91-124 | The line loop yields the stanzas of the reader's line-by-line fold: blank lines flush, continuation and colon-less lines are skipped, a final stanza needs no blank line. |
| DpkgStatus.HeldPackageVersions | core/apt/held.go:56-82 | The holds of a status file: named stanzas whose three-word status starts with hold and ends with installed, the last of a name winning. |
| DpkgStatus.ContainerInstalledVersions | core/apt/container.go:1234-1259 | The versions by name:arch of the stanzas with both fields and a three-word status ending in installed, the last of a key winning. |
| DpkgStatus.ParseDeb822 | core/doctor/deb822.go:64-135 | The line loop with its folding builder yields the fold's stanzas, or refuses where a line is too long or a line follows the 100000th stanza. |
| DpkgStatus.ParseDpkgStatus | core/doctor/checks.go:278-303 | The installed and held names of a document; none of either for an empty or refused one. |
| DpkgStatusTheorems.ResolverReadsBack | core/apt/held.go:56-124 | Any closure of well-formed packages with distinct name:arch, written and read by the resolver's reader, gives exactly its keys, each at its version without surrounding white space, and no holds. |
| DpkgStatusTheorems.ResolverReads | core/apt/held.go:56-124 | Any file of four-field stanzas, whatever their statuses: a version for each name:arch of an installed package and a hold for each name of a held one, that of the package where its key is its own. |
| DpkgStatusTheorems.StatusSays | core/apt/held.go:71-79 | A status of three words is a hold if and only if the first is hold and the last installed. |
| DpkgStatusTheorems.DoctorReads | core/doctor/checks.go:278-303 | The same file read by the doctor: the installed and the held names, or none of either past its limits. |
| DpkgStatusTheorems.DoctorReadsBack | core/doctor/checks.go:278-303 | The doctor's independent reader gives exactly the closure's names and no holds when there are at most 100000 packages and no line of 4 MiB, and nothing otherwise. |
| DpkgStatusTheorems.OverrunsExactly | core/doctor/deb822.go:97-101 | The stanza limit refuses a written file if and only if it has more packages than the limit. |
| DpkgStatusTheorems.TextForgetsOrder | core/apt/closure.go:96-110 | Two orders of one closure are written as the same bytes. |
| DpkgStatusTheorems.WrittenInOrder | core/apt/closure.go:100-110 | Stanzas are written by name, then architecture, then version. |
| DpkgFolding.FieldReadsBack | core/doctor/deb822.go:79-130 | A field of several lines is read back whole by the doctor, and up to its first line by the resolver. |
| DpkgFolding.FoldedLineExactly | core/doctor/deb822.go:99-112 | A further line comes back if and only if it is empty, or is not a lone dot, starts with no tab and is not white space alone. |
| DpkgFolding.TrimTakesOff | core/doctor/deb822.go:99-120 | Trimming takes off all white space at both ends and nothing else. |
| DpkgStatusTheorems.FoldingIsInvisible | core/doctor/deb822.go:72-130 | After any lines at all, the builder that stores a field when it ends yields the same stanzas as a reader that extends the stored value at every continuation line. |

## Left out

- Running apt-get, docker and podman, ELF probing, backend selection and image tables: foreign calls and branch tables.
- The regular-expression parsers of apt output (core/apt/parse.go) and of network signals (core/doctor/network.go).
- SHA-256, JSON, tar and zstd encoding, and the version library: parameters or faithful sequences. Nothing is said of `CompareVersions` where library and fallback comparison mix.
- JSON validation of one event line: the decoder is an arbitrary function of the line.
- Case folding is an arbitrary function, not Unicode's; the spelling theorems need only that it keeps "APT" and "Acquire" apart.
- White space in status files and directives is ASCII white space; Unicode spaces are not modelled.
- Environment errors of the file system, permissions, partial writes, clocks and cancellation, beyond a step that reports failure.
- `path.Clean`, `sort.*`, `strings.*` and `bufio.Scanner` are library code; they are modelled by definitions of what they compute.
- Reading sources files (core/apt/sources.go:291-357): the trusted URIs are the input of `TrustedIndexPrefixes`.
- Lock, manifest, README and warning rendering, user-supplied index parsing, and the choice of the embedded binary.
- The envelope's schema check and decoding; the wording and the hint of every refusal. A refusal is a constructor.
- Windows path variants.
- FallbackTransitive: asks that all three versions are NUL-free; `VersionOrderedExactly` says for which versions between two NUL-free ones the middle one may hold NUL bytes. Chains of several versions with NUL bytes are not characterised.
- ImportStaysInside: the file system has files and directories but no symbolic links, which the source would follow in a target that already exists; it imports into a fresh directory (core/bundle/open.go:25).
- NothingIsLostSilently: starts from the parsed tree; `ReadsAll` says when that is the whole file.
- TrustedExactly: covers names that are encodings, as apt's own are; other names are not described.
- TrustedIndexPrefixes: starts from the URIs of the trusted entries; reading the sources files is not modelled.
- UpgradeMismatches: the text of a message is a parameter; only its order is used.
- VersionMismatches: likewise.
- WrittenTextIsAdmissible: the reader is this program's own lexer and parser; apt's is not part of this model.
- Accept: a failing acceptance gives no plan; of the refusals only their class is modelled (`CrossCheckEnvelope`).
- LockVerdict: asks that names have no colon, that the lock has one version and the file one stanza for a name and architecture; the stanzas have the four fields that matter, in the writer's order.
