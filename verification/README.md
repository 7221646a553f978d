# Lea: verified model of the adapter's stateful cores

A Dafny 4.11 model, with proofs, of the parts of the Lea adapter and its Overleaf extension whose
correctness depends on whole texts, whole runs or whole graphs:

* **Lean sources and the blueprint** (`text`, `lexer`, `lexer_trees`, `scan`, `scan_rules`, `blueprint`,
  `blueprint_rules`, `blueprint_blocks`, `blueprint_document`, `blueprint_seed`, `seed_rules`,
  `blueprint_reruns`, `blueprint_readback`): the two comment lexers, the declaration scanner, the
  fence-aware blueprint parser and validator, and the additive generator whose output the parser has to
  read back.  All of it works on characters.
* **Human review decisions** (`reviews`, `review_decisions`): the append-only log of approvals and withdrawals, idempotency
  keys and the revision token.
* **Graph closures** (`sorting`, `dependencies`, `dependency_hash`, `unassignment`, `document_origin`): the import closure
  and the digest of what it finds, the reachability check before a theorem leaves a project, and the walk to
  the run that owns a piece of document work.
* **The Overleaf pane's stale-response protocol** (`display`): requests tagged with project, generation
  and per-surface sequence, and responses in any order.
* **Attempt numbering under concurrency** (`alignment`, `alignment_rows`): transactions under `write()` and `connect()`
  interleaved step by step over a table with a unique index.
* **Reports, model catalog and Git export** (`report_paging`, `report_rules`, `suggestions`,
  `suggestion_rules`, `catalog_paging`, `catalog_refresh`, `catalog_runs`, `catalog_rules`, `git_stream`,
  `git_rules`): keyset paging over a growing table, the greedy
  suggestion pass, page chains, the refresh and back-off state machine, and the length-prefixed stream
  that is rewritten and must stay readable.

Code that changes state step by step is a class or a loop here, proved equal to a specification
function; the theorems are about that function, over every input, run or interleaving, and say what it
answers without naming its helpers: by an inverse, a second definition, or case by case.  `dafny verify
dfyconfig.toml` checks the project.

Several promises do not hold of the code as it stands.  The model keeps the code, shows a failing input,
and proves exactly when the promise holds:

* Blueprint text that ends in a `## ` heading with a blank key loses that node when sections are appended:
  `BlueprintDocument.BlankHeadingIsLost` for `##` and two spaces.  Every other text keeps all its nodes,
  whatever the sections hold, if the first new key is one line (`BlueprintSeed.OldNodesSurvive`).
* The new sections come back as printed, and behind unchanged old nodes, exactly when the old text has no such
  ending and they are readable, with only the last leaving a fence open
  (`BlueprintReadback.GenerateIsAdditiveIff`, for any artifacts).
* A second run of the generator adds a section again that a fence left open by an earlier section has
  swallowed: `BlueprintReruns.SecondRunAddsAgain` for two theorems with a comment in their header.
  `BlueprintReruns.SecondRunAddsNothingIff` says exactly when it adds nothing.
* A declaration whose line begins inside a comment or string is listed, but its span alone scrubs otherwise
  than in the file, and no other declaration's does (`DeclarationScan.SpanScrubsAloneIff`); a marker the file
  shows can so appear in no span (`DeclarationScan.QuotedStartHidesMarker`).
* Approving and withdrawing restores the earlier projection except for a target outside review that had
  no review events, which stays concerned (`Reviews.ApproveThenWithdraw`): `Reviews.WithdrawalStaysVisible`
  from empty tables.
* The dependency digest is free of the order of import lines, roots and files when the modules of a file share
  its contents and their digest (`ArtifactDependencies.HashIgnoresOrder`, exactly when:
  `ArtifactDependencies.OrderFreeIffOneDigestPerFile`).  But only steps found among a formalization's linked
  files carry the content digest; steps found by path are digested by the random id of their stored contents.
  So inside one project the order of two import lines changes the digest if and only if two modules of one file
  with contents are looked up differently (`ArtifactDependencies.OrderFreeIffOneView`, witness
  `ArtifactDependencies.BackfilledDependsOnOrder`), and with a formalization of another project it can change
  even when they are looked up alike (`ArtifactDependencies.OutsideViewDependsOnOrder`).
* An entry that shares the removed theorem's module can lose imports although the check was clear
  (`ProjectUnassignment.SharedModuleLosesImports`).  A clear check keeps an entry's transitive imports if and
  only if it is in another module or the module's imports are the same without the target
  (`ProjectUnassignment.RemovalIsInvisibleIff`).
* A model source whose configuration disappears for one refresh and returns is read again at once, also
  within thirty seconds (`CatalogRuns.ReturningSourceIsReadAgain`, exactly when:
  `CatalogRuns.ThirtySecondsIff`), and a scope change gives listed models a new discovery time
  (`CatalogRuns.RescopedSourceIsDatedAnew`, exactly when: `CatalogRuns.DiscoveryTimeKeptIff`).

Why `create` of an alignment check needs `write()`: there no insert is ever refused
(`AlignmentStore.ImmediateNeverRefuses`).  Under `connect()` the unique index refuses one if and only if another
call has committed a row of the key since the highest attempt was read (`AlignmentStore.RefusedIffOvertaken`,
witness `AlignmentStore.DeferredRefuses`).  The silent duplicates of app/db.py:74-79 cannot occur in this table
in either mode (`AlignmentStore.EveryRunNumbersAttempts`).

## Model

| member | source | states |
|---|---|---|
| `LeanLexer.ScrubLeanSource` | apps/lea-standalone/adapter/app/artifacts.py:86-142 | the index/depth/string loop writes exactly what the token-by-token specification writes |
| `LexerTrees.ScrubInvertsPrint` | apps/lea-standalone/adapter/app/artifacts.py:86-142 | any text printed from code, strings with escapes, line comments and arbitrarily nested block comments is scrubbed to its code in place, everything else blanked |
| `LeanLexer.ScrubKeepsPositions` | apps/lea-standalone/adapter/app/artifacts.py:86-142 | length and newlines survive at their positions; every other character is kept where the mask says code and is a space elsewhere |
| `LeanLexer.ScrubIdempotent` | apps/lea-standalone/adapter/app/artifacts.py:86-142 | scrubbed text has no quote and no comment opener left, so scrubbing again changes nothing |
| `LeanLexer.ScrubConcat` | apps/lea-standalone/adapter/app/artifacts.py:86-142 | a text cut after a newline scrubs piece by piece, the lexer mode carried over |
| `LeanLexer.ScrubCut` | apps/lea-standalone/adapter/app/artifacts.py:86-142 | a text cut at a newline scrubs side by side, from whatever mode, the right side in the mode the left one leaves |
| `LeanLexer.ModesShow` | apps/lea-standalone/adapter/app/artifacts.py:86-142 | begun in two different modes, a line scrubs differently unless it scrubs to spaces |
| `LeanLexer.StripLeanComments` | apps/lea-standalone/adapter/app/blueprint_seed.py:103-133 | the second lexer's loop computes its specification |
| `LexerTrees.StripInvertsPrint` | apps/lea-standalone/adapter/app/blueprint_seed.py:103-133 | stripping such a text without string literals leaves exactly its code |
| `LeanLexer.StripIsKeptIffNoQuote` | apps/lea-standalone/adapter/app/blueprint_seed.py:103-133 | stripping comments gives exactly the characters the scrubber found outside comments if and only if no quote stands where the lexer is in code; then and only then the stripped text has no quote |
| `LeanLexer.MarkerSplitsAtNewline` | apps/lea-standalone/adapter/app/artifacts.py:235-245 | a text has a `sorry`/`admit` word exactly when one side of a newline has |
| `DeclarationScan.ScanLeanDeclarations` | apps/lea-standalone/adapter/app/artifacts.py:151-198 | the scope-stack loop and the span loop return the specified declarations |
| `DeclarationScan.ScanInvertsPrint` | apps/lea-standalone/adapter/app/artifacts.py:151-182 | scanning the lines printed from any well-nested tree of namespaces, sections, mutual blocks and declarations gives the tree's declarations in order; the full name is the namespaces around it in nesting order, each followed by a dot, then the name, a dotted name is unchanged, the short name stands behind the last dot; the scope stack is restored |
| `DeclarationScan.ScanOfPrintedModule` | apps/lea-standalone/adapter/app/artifacts.py:151-182 | the same for a whole file, from the empty stack |
| `DeclarationScan.NestedName` | apps/lea-standalone/adapter/app/artifacts.py:162-181 | `foo` in namespaces A and B, with an unnamed scope between, is found as `A.B.foo` |
| `DeclarationScan.AfterLastDot` | apps/lea-standalone/adapter/app/artifacts.py:148-149 | the short name has no dot and is the whole name or preceded by a dot |
| `ScanRules.DeclaredAs` | apps/lea-standalone/adapter/app/artifacts.py:145-198 | for any lines, nested or not, a declaration has its line's keyword and name, the full name by the namespaces open there, and is a definition unless theorem or lemma |
| `DeclarationScan.FoundExactly` | apps/lea-standalone/adapter/app/artifacts.py:162-181 | the lines found are exactly the declaration lines of the scrubbed text, in increasing order |
| `DeclarationScan.SpansTile` | apps/lea-standalone/adapter/app/artifacts.py:183-198 | spans are adjacent, do not overlap and reach from the first declaration to the end; joined they are that part of the file |
| `DeclarationScan.SpanScrubsAloneIff` | apps/lea-standalone/adapter/app/artifacts.py:183-198 | scrubbing a declaration's span alone gives the slice of the whole file's scrub if and only if the lexer is outside comments and strings where its first line begins; blank lines declare nothing |
| `DeclarationScan.SpanMarked` | apps/lea-standalone/adapter/app/artifacts.py:183-198 | a declaration that starts outside comments and strings has a marker in its span exactly when its lines have one in the scrubbed file, wherever the other declarations start |
| `DeclarationScan.SorryIsLocal` | apps/lea-standalone/adapter/app/artifacts.py:238-245 | when all declarations start outside, the file has a marker exactly when its preamble or some declaration's span has |
| `DeclarationScan.QuotedStartHidesMarker` | apps/lea-standalone/adapter/app/artifacts.py:183-198 | where a declaration's line closes a string, the file can show a marker that neither the preamble nor any span shows |
| `DeclarationScan.FileIsCleanIffDeclarationsAre` | apps/lea-standalone/adapter/app/artifacts.py:259-275 | the file is free of markers exactly when the preamble is and asking for every declaration by its full name reports none, name clashes included |
| `ScanRules.AnswersFor` | apps/lea-standalone/adapter/app/artifacts.py:259-275 | the only declaration with the full name answers by its span, without any the only one with the short name; otherwise the whole file answers |
| `Blueprint.Parse` | apps/lea-standalone/adapter/app/blueprint.py:47-99 | the line loop returns the nodes of the specification |
| `BlueprintRules.ParseBySections` | apps/lea-standalone/adapter/app/blueprint.py:47-99 | the one pass equals reading each section by itself: its last header lines outside fences, and the trimmed rest of its lines |
| `BlueprintRules.AbsentIff` | apps/lea-standalone/adapter/app/blueprint.py:86-91 | a kind or name is absent exactly without such a line or when the last one is blank; a kind is read in small letters, a name without backticks |
| `BlueprintRules.HeadingIff` | apps/lea-standalone/adapter/app/blueprint.py:33 | exactly the lines of two hashes, whitespace, key and whitespace are headings, with the trimmed key |
| `BlueprintRules.HeaderIff` | apps/lea-standalone/adapter/app/blueprint.py:32 | exactly the lines of dash, `kind`, `lean` or `uses` in any case, colon and value, with any whitespace between, are header lines |
| `BlueprintRules.FenceIff` | apps/lea-standalone/adapter/app/blueprint.py:34 | exactly the lines of whitespace and three backticks are fences |
| `Blueprint.FenceParity` | apps/lea-standalone/adapter/app/blueprint.py:66-98 | the parser ends inside a fence exactly when the number of fence lines is odd |
| `Blueprint.TrailingSpace` | apps/lea-standalone/adapter/app/blueprint.py:66-98 | dropping trailing whitespace keeps nodes and fence state, unless the text ends in a blank-key heading, whose node is then the only one lost |
| `Blueprint.Validate` | apps/lea-standalone/adapter/app/blueprint.py:102-134 | the loops return the duplicate-key, kind and unknown-use warnings of the specification, in order |
| `BlueprintRules.WarnedIff` | apps/lea-standalone/adapter/app/blueprint.py:102-134 | a warning is given if and only if it is true: two nodes with the key, a node without a kind or with one that is not among the three, a dependency on a key no node has |
| `BlueprintRules.NodesInOrder` | apps/lea-standalone/adapter/app/blueprint.py:119-132 | nodes are reported in their order, a node's kind before its dependencies |
| `BlueprintBlocks.BlockRuns` | apps/lea-standalone/adapter/app/blueprint_seed.py:143-150 | a readable block adds exactly its node and ends outside a fence, from any state outside a fence |
| `BlueprintBlocks.ReadsBackIffReadable` | apps/lea-standalone/adapter/app/blueprint_seed.py:143-150 | a printed block reads back exactly when its key is trimmed, its name has no outer backtick or space, its uses are trimmed and comma-free, and its statement is trimmed with no heading, header or unclosed fence |
| `BlueprintBlocks.RunWellRead` | apps/lea-standalone/adapter/app/blueprint.py:66-98 | every node the parser builds has a trimmed one-line key, a one-line name and non-empty, trimmed, comma-free uses |
| `BlueprintDocument.NewTextParses` | apps/lea-standalone/adapter/app/blueprint_seed.py:223-232 | the new document parses to the old nodes as they read without trailing whitespace, the last statement closed if a fence was open, followed by exactly the new nodes |
| `BlueprintDocument.OldNodesStay` | apps/lea-standalone/adapter/app/blueprint_seed.py:223-232 | whatever the sections hold, the old nodes as they read without trailing whitespace come first in the new document, unchanged up to the closing fence |
| `BlueprintDocument.OldNodesStayIff` | apps/lea-standalone/adapter/app/blueprint_seed.py:223-232 | all old nodes stay if and only if the old text does not end in a blank-key heading |
| `BlueprintDocument.BlankHeadingIsLost` | apps/lea-standalone/adapter/app/blueprint_seed.py:223-232 | `##` and two spaces is a node, and appending anything loses it |
| `BlueprintDocument.RoundTrip` | apps/lea-standalone/adapter/app/blueprint_seed.py:223-232 | readable entries come back behind the unchanged old nodes if and only if the old text does not end in a blank-key heading |
| `BlueprintReadback.RoundTripIff` | apps/lea-standalone/adapter/app/blueprint_seed.py:143-232 | the new document reads as the unchanged old nodes followed by exactly the printed ones if and only if the old text does not end in a blank-key heading, every section has the readable shape and only the last leaves a fence open |
| `BlueprintSeed.UniqueKey` | apps/lea-standalone/adapter/app/blueprint_seed.py:59-67 | the numbered search stops, takes its key and returns the specified one |
| `BlueprintSeed.FreshKeyIsFirst` | apps/lea-standalone/adapter/app/blueprint_seed.py:59-67 | the key is the plain name if free, otherwise the first numbered one that is free |
| `SeedRules.NumberedIs` | apps/lea-standalone/adapter/app/blueprint_seed.py:59-67 | a numbered key is the name, an underscore and the number in decimal |
| `BlueprintSeed.KindFor` | apps/lea-standalone/adapter/app/blueprint_seed.py:136-140 | definition exactly for def, abbrev, instance, structure, inductive and class, or without any of the eight keywords for an artifact that is one; theorem exactly for theorem; lemma otherwise |
| `BlueprintSeed.SignatureTrimmed` | apps/lea-standalone/adapter/app/blueprint_seed.py:82-100 | an extracted signature has no whitespace at either end |
| `SeedRules.SignatureIs` | apps/lea-standalone/adapter/app/blueprint_seed.py:82-100 | the signature is the header without whitespace at its lines' ends and around it, cut after 240 characters |
| `SeedRules.StatementIs` | apps/lea-standalone/adapter/app/blueprint_seed.py:193 | the statement is the signature, or names the artifact if its header is blank |
| `BlueprintSeed.CollectCandidates` | apps/lea-standalone/adapter/app/blueprint_seed.py:165-197 | the loop over artifacts returns the specified candidates, skip count and warnings |
| `BlueprintSeed.CandidatesComeFrom` | apps/lea-standalone/adapter/app/blueprint_seed.py:165-197 | every candidate stems from an artifact not yet represented, with its name, statement, span and kind and a fresh key |
| `BlueprintSeed.CandidatesCover` | apps/lea-standalone/adapter/app/blueprint_seed.py:165-197 | every artifact not yet represented has a candidate |
| `SeedRules.CandidatesInOrder` | apps/lea-standalone/adapter/app/blueprint_seed.py:165-197 | one candidate per unrepresented artifact, in their order, with its name, span, statement and kind |
| `SeedRules.NotFoundIff` | apps/lea-standalone/adapter/app/blueprint_seed.py:185-186 | a warning names exactly the unrepresented artifacts whose declaration was not found |
| `SeedRules.NewNodesDescribe` | apps/lea-standalone/adapter/app/blueprint_seed.py:153-239 | read back from the new document, behind the old nodes there is one node per unrepresented artifact, in order, with its name, its statement and the kind its keyword asks for |
| `BlueprintSeed.NewKeysFresh` | apps/lea-standalone/adapter/app/blueprint_seed.py:174-197 | new keys collide with no existing node and not with each other |
| `BlueprintSeed.IndexShorts` | apps/lea-standalone/adapter/app/blueprint_seed.py:199-204 | the index maps every short name to its keys in order, and remembers the order of first sight |
| `BlueprintSeed.DeriveUses` | apps/lea-standalone/adapter/app/blueprint_seed.py:206-221 | the edge loop over the comment-free span returns the specified edges |
| `BlueprintSeed.EdgesResolve` | apps/lea-standalone/adapter/app/blueprint_seed.py:199-222 | every generated edge names an old declared node or a new node, never its source, and none twice |
| `BlueprintSeed.EdgesMeanMentions` | apps/lea-standalone/adapter/app/blueprint_seed.py:199-222 | a new node has an edge to a key if and only if its own code mentions, outside comments, a short name other than its own that exactly this key answers to |
| `SeedRules.EdgesSnoc` | apps/lea-standalone/adapter/app/blueprint_seed.py:206-221 | edges come in the order in which the names are first seen, none twice |
| `SeedRules.MentionsIff` | apps/lea-standalone/adapter/app/blueprint_seed.py:206-221 | a name is mentioned exactly where it stands with no letter, digit or underscore next to it |
| `SeedRules.OwnersAre` | apps/lea-standalone/adapter/app/blueprint_seed.py:199-204 | a key answers to a short name exactly if an old node's declaration or a new node has that short name |
| `SeedRules.OwnersInOrder` | apps/lea-standalone/adapter/app/blueprint_seed.py:199-204 | old nodes are asked before new ones, and these in their order |
| `SeedRules.ShortIs` | apps/lea-standalone/adapter/app/graph.py:43-45 | the short name is what stands behind the last dot |
| `BlueprintSeed.Generate` | apps/lea-standalone/adapter/app/blueprint_seed.py:153-239 | the whole generator: the specified document and warnings, and added plus skipped is the number of artifacts |
| `BlueprintSeed.SecondRunAddsNothing` | apps/lea-standalone/adapter/app/blueprint_seed.py:153-239 | with readable entries, a second run on the same artifacts has no candidate and leaves the document as it is |
| `BlueprintReruns.SecondRunAddsNothingIff` | apps/lea-standalone/adapter/app/blueprint_seed.py:153-239 | a second run adds nothing if and only if every new name is what the last `- lean:` line outside fences of some appended section says; the first new key must not begin with a newline |
| `BlueprintReruns.QuietSecondRunIff` | apps/lea-standalone/adapter/app/blueprint_seed.py:153-239 | for readable headers, distinct names and statements without `- lean:` lines, that is: every section but the last has an even number of fence lines |
| `BlueprintReruns.SecondRunAddsAgain` | apps/lea-standalone/adapter/app/blueprint_seed.py:82-239 | two theorems whose header comment begins a line with a fence: the second run adds a section again |
| `BlueprintSeed.ValidatorStaysQuiet` | apps/lea-standalone/adapter/app/blueprint_seed.py:223-232 | with readable entries, the validator reports nothing about the new document that it did not report about the old |
| `BlueprintSeed.GenerateIsAdditive` | apps/lea-standalone/adapter/app/blueprint_seed.py:223-232 | with readable entries, the new document is the unchanged old nodes followed by exactly the candidates, if and only if the old text does not end in a blank-key heading |
| `BlueprintReadback.GenerateIsAdditiveIff` | apps/lea-standalone/adapter/app/blueprint_seed.py:153-239 | the same for whatever artifacts the generator is given |
| `BlueprintSeed.OldNodesSurvive` | apps/lea-standalone/adapter/app/blueprint_seed.py:223-232 | for any artifacts, whatever their statements, every old node stays unchanged if and only if the old text does not end in a blank-key heading |
| `BlueprintSeed.PlainNamesAreReadable` | apps/lea-standalone/adapter/app/blueprint_seed.py:165-232 | for names without whitespace, commas and backticks, comma-free old keys and inert statements, all entries are readable |
| `Reviews.ProjectReview` | apps/lea-standalone/adapter/app/formalization_reviews.py:126-155 | the step-by-step projection is the specified review |
| `ReviewDecisions.ProjectionShows` | apps/lea-standalone/adapter/app/formalization_reviews.py:126-155 | field by field: token, outcomes and evidence are shown for a reviewed, unblocked target; eligible and approval if and only if nothing runs and no approval, or some, of the revision stands |
| `ReviewDecisions.VerdictShows` | apps/lea-standalone/adapter/app/formalization_reviews.py:130-155 | which verdict is given when, the suspended approval under a running operation included |
| `ReviewDecisions.TokenIffSameInputs` | apps/lea-standalone/adapter/app/formalization_reviews.py:122-129 | two contexts have one token if and only if target, run, attempt, source, declaration, kind, candidate and the files' paths, contents and environments are the same |
| `Reviews.ReviewLog.DecideRequest` | apps/lea-standalone/adapter/app/formalization_reviews.py:208-287 | one request changes the two tables and answers exactly as specified, every refusal included |
| `ReviewDecisions.ApproveAppendsIff` | apps/lea-standalone/adapter/app/formalization_reviews.py:225-286 | an approve request appends an event if and only if its token is the current revision's, its outcome is the candidate's, the target is an unblocked, inactive review run's, an Overleaf source resolves and no approval of the revision stands; the event carries that outcome and everything the context binds |
| `ReviewDecisions.ApproveAnsweredIff` | apps/lea-standalone/adapter/app/formalization_reviews.py:246-252 | it is answered with the approval that stands if and only if it matches what is shown and asks for the same outcome |
| `ReviewDecisions.ApproveRefusals` | apps/lea-standalone/adapter/app/formalization_reviews.py:230-256 | each refusal of an approval, if and only if |
| `ReviewDecisions.WithdrawCases` | apps/lea-standalone/adapter/app/formalization_reviews.py:262-268 | a withdrawal is refused exactly without an id or when the target has no such approval |
| `ReviewDecisions.WithdrawAppends` | apps/lea-standalone/adapter/app/formalization_reviews.py:262-286 | the first withdrawal appends an event that carries what the approval carried |
| `ReviewDecisions.WithdrawAnswered` | apps/lea-standalone/adapter/app/formalization_reviews.py:269-273 | later ones are answered with the first |
| `ReviewDecisions.BoundKeyFirst` | apps/lea-standalone/adapter/app/formalization_reviews.py:214-222 | a bound key is settled by its event, or refused for another request, also while an operation runs |
| `ReviewDecisions.BusyIff` | apps/lea-standalone/adapter/app/formalization_reviews.py:225-227 | any other request is refused exactly while one runs |
| `ReviewDecisions.DigestIff` | apps/lea-standalone/adapter/app/formalization_reviews.py:212 | requests that differ in the source reference alone, and no others, count as the same |
| `Reviews.DecideExtends` | apps/lea-standalone/adapter/app/formalization_reviews.py:214-287 | a request appends at most one event and rebinds no key |
| `Reviews.EveryRunKeepsInv` | apps/lea-standalone/adapter/app/formalization_reviews.py:198-287 | in every run, a revision is approved again only after its approval was withdrawn, no approval is withdrawn twice, and every key stays bound to one event of its target |
| `Reviews.EveryRunFromEmpty` | apps/lea-standalone/adapter/app/formalization_reviews.py:198-287 | so after every run from empty tables the log and the keys are in that shape |
| `Reviews.LiveIsUnique` | apps/lea-standalone/adapter/app/formalization_reviews.py:130-132 | a target's revision has at most one un-withdrawn approval |
| `Reviews.RunExtends` | apps/lea-standalone/adapter/app/formalization_reviews.py:214-287 | over any run the log only grows, by at most one event per call, and bindings are kept |
| `Reviews.ReplayIsStable` | apps/lea-standalone/adapter/app/formalization_reviews.py:214-222 | whatever happens in between, a replay returns the first event and changes nothing; the key with another digest is refused and changes nothing |
| `Reviews.ApprovalIffLive` | apps/lea-standalone/adapter/app/formalization_reviews.py:130-155 | an approval is reported exactly if no check blocks, nothing runs and the log has an un-withdrawn approval of this revision; it was made for the same source, attempt, declaration, path, contents and environments |
| `Reviews.EvidenceIdsDoNotMatter` | apps/lea-standalone/adapter/app/formalization_reviews.py:124-129 | changing only blob and evidence ids changes nothing but the listed evidence |
| `Reviews.ApproveThenWithdraw` | apps/lea-standalone/adapter/app/formalization_reviews.py:228-286 | approve then withdraw restores every target's projection if and only if the context is a review run's, the target had events, or it is another target |
| `Reviews.WithdrawalStaysVisible` | apps/lea-standalone/adapter/app/formalization_reviews.py:228-286 | approving and withdrawing on empty tables leaves a target outside review with another projection than before |
| `ArtifactDependencies.TransitiveProjectDependencies` | apps/lea-standalone/adapter/app/artifact_snapshots.py:19-55 | the worklist loop stops on every import graph and returns the specified walk |
| `ArtifactDependencies.DependenciesAreClosure` | apps/lea-standalone/adapter/app/artifact_snapshots.py:19-55 | each path once and none a root's; each file reached from a root by imports; every resolvable import of a root or found file is a root or found |
| `ArtifactDependencies.FoundIffReached` | apps/lea-standalone/adapter/app/artifact_snapshots.py:19-55 | when the modules of a file share its contents, exactly the reached files outside the roots are found, each with its one digest |
| `DependencyHash.ResolvesTo` | apps/lea-standalone/adapter/app/artifact_snapshots.py:23-52 | the artifact registered last decides; its formalization's linked row comes first and is digested by contents, the project's newest by the stored object's id, lost contents by a fixed mark |
| `DependencyHash.ResolvesIff` | apps/lea-standalone/adapter/app/artifact_snapshots.py:23-52 | and nothing else resolves |
| `DependencyHash.RootsAre` | apps/lea-standalone/adapter/app/artifact_snapshots.py:24-26 | the walk starts with what any root imports and leaves every root file out |
| `DependencyHash.HashedTextIff` | apps/lea-standalone/adapter/app/artifact_snapshots.py:111-116 | two digested texts are equal if and only if they are of the same paths with the same digests, each as often; no dependencies and nothing else give the empty text |
| `DependencyHash.HashIffSameFiles` | apps/lea-standalone/adapter/app/artifact_snapshots.py:111-116 | before and after any change, the hash is the same if and only if the same files with the same digests are found |
| `DependencyHash.HashIffSameReached` | apps/lea-standalone/adapter/app/artifact_snapshots.py:19-116 | in coherent projects, if and only if imports lead to the same files with the same digests |
| `DependencyHash.ChangedFileShows` | apps/lea-standalone/adapter/app/artifact_snapshots.py:111-116 | a found file with other contents changes the hash |
| `ArtifactDependencies.HashIgnoresOrder` | apps/lea-standalone/adapter/app/artifact_snapshots.py:111-116 | when the modules of a file share its contents, the digested text does not depend on the order of roots, files or import lines |
| `ArtifactDependencies.OneViewIsCoherent` | apps/lea-standalone/adapter/app/store.py:2783-2885 | among a project's own formalizations, if the modules of each file are looked up the same way, they share its contents |
| `ArtifactDependencies.OrderFreeIffOneDigestPerFile` | apps/lea-standalone/adapter/app/artifact_snapshots.py:41-55 | the digested pairs never depend on the order if and only if the modules of a file agree on its digest |
| `ArtifactDependencies.OrderFreeIffOneView` | apps/lea-standalone/adapter/app/artifact_snapshots.py:41-52 | among a project's own formalizations the digested pairs never depend on the order if and only if no file with contents has two modules of which one is looked up among linked files and the other by path |
| `DependencyHash.HashOrderFreeCases` | apps/lea-standalone/adapter/app/artifact_snapshots.py:41-116 | both conditions hold of the hash itself |
| `ArtifactDependencies.BackfilledDependsOnOrder` | apps/lea-standalone/adapter/app/artifact_snapshots.py:41-52 | one module recorded with its formalization and one without: inside one project the order of two import lines changes what is digested |
| `ArtifactDependencies.OutsideViewDependsOnOrder` | apps/lea-standalone/adapter/app/artifact_snapshots.py:19-55 | two formalizations, one of another project with an older row of the file: the order decides although both modules are looked up alike |
| `ArtifactDependencies.FileOrderDoesNotMatter` | apps/lea-standalone/adapter/app/artifact_snapshots.py:19-40 | when the files that claim a module have one path and step, listing the files in another order resolves every module alike |
| `ProjectUnassignment.ModuleImports` | apps/lea-standalone/adapter/_deferred/project_unassignment.py:245-257 | the stack walk stops on cycles and is true exactly when a non-empty import chain through known modules ends in the target |
| `ProjectUnassignment.DependencyConflicts` | apps/lea-standalone/adapter/_deferred/project_unassignment.py:188-242 | the verdict is clear exactly when no other entry imports or mentions the target, the target uses none and imports nothing of the project; otherwise exactly the conflicting entries are listed |
| `ProjectUnassignment.UsedByTargetIff` | apps/lea-standalone/adapter/_deferred/project_unassignment.py:219-231 | an entry counts as used exactly if the target imports its module or one below it, or mentions its theorem |
| `ProjectUnassignment.RemovalIsInvisibleIff` | apps/lea-standalone/adapter/_deferred/project_unassignment.py:188-242 | after a clear check, removing the target keeps an entry's transitive imports if and only if the entry is in another module or the target's module has the same imports without it |
| `ProjectUnassignment.SharedModuleLosesImports` | apps/lea-standalone/adapter/_deferred/project_unassignment.py:144-242 | two theorems of one module of the namespace, a clear check, and an import lost by the removal |
| `DocumentOrigin.RunAncestry` | apps/lea-standalone/adapter/app/formalize_batch_reports.py:110-116 | the loop stops on cyclic continuations and collects exactly the run and those it continues |
| `DocumentOrigin.OwnerEdge` | apps/lea-standalone/adapter/app/formalize_batch_reports.py:125-135 | the dependency attempt of the newest generation that carries the run comes first, then the resumed run; a dependency nobody carries is a dead end |
| `DocumentOrigin.Origin` | apps/lea-standalone/adapter/app/formalize_batch_reports.py:119-135 | the recursion stops on every finite graph and returns a run exactly when following owner edges reaches it and it has no owner; otherwise nothing |
| `DocumentOrigin.CycleHasNoOrigin` | apps/lea-standalone/adapter/app/formalize_batch_reports.py:119-135 | a run on an ownership cycle has no origin |
| `DocumentOrigin.SameOriginOnTheWay` | apps/lea-standalone/adapter/app/formalize_batch_reports.py:119-135 | every run on the way to an origin has that same origin |
| `DocumentOrigin.OriginIsUnique` | apps/lea-standalone/adapter/app/formalize_batch_reports.py:119-135 | no run has two origins |
| `DisplayRequests.DisplayPane.SelectDisplayProject` | apps/overleaf-extension/extension/content.js:100-123 | selecting another project starts a generation and forgets revision and rename mark |
| `DisplayRequests.DisplayPane.DisplayRequest` | apps/overleaf-extension/extension/content.js:125-131 | selects the page's project, advances the surface and hands out the request |
| `DisplayRequests.DisplayPane.AcceptDisplayResponse` | apps/overleaf-extension/extension/content.js:133-147 | accepts exactly current requests; a new revision marks the rename and starts a generation |
| `DisplayRequests.DisplayPane.MarkProjectRenaming` | apps/overleaf-extension/extension/content.js:167-177 | ignores other projects; starts a generation on the first mark or when invalidating |
| `DisplayRequests.DisplayPane.IdentityAnswer` | apps/overleaf-extension/extension/content.js:3259-3277 | the answer to a namespace change starts a generation, whichever project the page shows |
| `DisplayRequests.InvalidatesIff` | apps/overleaf-extension/extension/content.js:100-177 | which events make a surface's earlier requests stale, one by one |
| `DisplayRequests.CurrentIffUntouched` | apps/overleaf-extension/extension/content.js:133-138 | in every trace a request is current exactly while the page names its project and nothing since has invalidated its surface |
| `DisplayRequests.NewRevisionSilencesOlderRequests` | apps/overleaf-extension/extension/content.js:140-147 | after a response with a new revision is accepted, no earlier request on any surface is ever shown |
| `DisplayRequests.NewerRequestWins` | apps/overleaf-extension/extension/content.js:125-138 | on one surface, an older request is never shown once a newer one is issued |
| `DisplayRequests.ReturningRevivesNothing` | apps/overleaf-extension/extension/content.js:100-138 | once another project was selected, coming back revives no old request |
| `DisplayRequests.RevisionIsLastShown` | apps/overleaf-extension/extension/content.js:100-147 | in every trace the revision on display is the last one shown, and none since another project was selected |
| `DisplayRequests.RenamingSinceMark` | apps/overleaf-extension/extension/content.js:100-177 | the rename mark stands from the last marking event until the rename is settled or another project is selected |
| `AlignmentStore.CheckTable.CreateCheck` | apps/lea-standalone/adapter/app/alignment_store.py:47-98 | the body of `create`: returns the latest row of the key, or inserts the next attempt |
| `AlignmentRows.CreateAppendsIff` | apps/lea-standalone/adapter/app/alignment_store.py:47-98 | a retry always appends a row with its id, key and mark and the attempt after the highest; any other call appends exactly if the key has none, and else changes nothing |
| `AlignmentStore.SharedDatabase.InsertNext` | apps/lea-standalone/adapter/app/alignment_store.py:60-97 | the insert step of one transaction, computed from what it read; the unique index refuses an attempt that is stored |
| `AlignmentStore.SharedDatabase.CommitTransaction` | apps/lea-standalone/adapter/app/db.py:88-98 | commit publishes the holder's rows and frees the lock |
| `AlignmentStore.SharedDatabase.RollBackTransaction` | apps/lea-standalone/adapter/app/db.py:91-98 | rollback drops them and frees the lock |
| `AlignmentStore.EveryRunIsSerial` | apps/lea-standalone/adapter/app/db.py:53-98 | under `write()` and under `connect()`, every interleaving, rollbacks and refusals included, leaves the rows of running the committed calls one after the other |
| `AlignmentStore.EveryRunNumbersAttempts` | apps/lea-standalone/adapter/app/alignment_store.py:47-98 | so in either mode the attempts of a key are exactly 1..n in order, and only the first is not a retry |
| `AlignmentRows.UndisturbedCallCommits` | apps/lea-standalone/adapter/app/db.py:53-98 | after any interleaving, with the lock free, a call that nobody interrupts commits in either mode and does what `create` does on its own |
| `AlignmentRows.EveryRowIsOwned` | apps/lea-standalone/adapter/app/alignment_store.py:47-98 | in every interleaving of either mode each row belongs to one committed call and carries its fields, every committed retry has a row of its own, and every committed call finds a row of its key |
| `AlignmentRows.CommittedRetryIsStored` | apps/lea-standalone/adapter/app/alignment_store.py:62-97 | so a committed retry is in the table |
| `AlignmentStore.ImmediateNeverRefuses` | apps/lea-standalone/adapter/app/db.py:67-98 | under `write()` no insert is ever refused |
| `AlignmentStore.RefusedIffOvertaken` | apps/lea-standalone/adapter/migrations/versions/0020_alignment_checks.py:75-83 | in every interleaving of either mode, an insert is refused if and only if another call has committed a row of the key since this one read its highest attempt |
| `AlignmentStore.DeferredRefuses` | apps/lea-standalone/adapter/app/db.py:53-64 | under `connect()`, for every key, two calls that both read before either inserts: the second fails, where run after the first it would have returned the row that is there |
| `ReportPaging.EarlyLookIsInvisible` | apps/lea-standalone/adapter/app/formalize_batch_reports.py:169-223 | however many creates ran since the first look, the answer is that of one atomic look-and-insert |
| `ReportPaging.CreateBinds` | apps/lea-standalone/adapter/app/formalize_batch_reports.py:214-223 | creates only append, keep batch ids unique and succeed exactly if the id is then bound to the request's project and digest |
| `ReportPaging.PageFacts` | apps/lea-standalone/adapter/app/formalize_batch_reports.py:235-259 | a page is newest first and past its cursor; what it leaves out is older than its next cursor, the last row of a full page |
| `ReportRules.OlderIff` | apps/lea-standalone/adapter/app/formalize_batch_reports.py:247-248 | older is finished earlier, or at the same time with the smaller batch id |
| `ReportRules.NextIff` | apps/lea-standalone/adapter/app/formalize_batch_reports.py:247-259 | a page has a cursor if and only if it leaves something out, and is then full |
| `ReportRules.RefusedIff` | apps/lea-standalone/adapter/app/formalize_batch_reports.py:235-246 | when a listing is refused, and for which reason |
| `ReportPaging.PagingIsComplete` | apps/lea-standalone/adapter/app/formalize_batch_reports.py:235-259 | following the cursor to the end returns every report that existed at the start exactly once and newest first, whatever is added between pages |
| `ReportPaging.StablePagesJoin` | apps/lea-standalone/adapter/app/formalize_batch_reports.py:235-259 | over an unchanged table the pages joined are the whole listing, and the end is reached |
| `ReportPaging.Count` | apps/lea-standalone/adapter/app/formalize_batch_reports.py:82-107 | each counter is the number of items it concerns |
| `ReportRules.ConcernsIff` | apps/lea-standalone/adapter/app/formalize_batch_reports.py:84-98 | which counter is about which state |
| `ReportRules.SkippedIff` | apps/lea-standalone/adapter/app/formalize_batch_reports.py:99-106 | how the reasons of skipped items are told apart |
| `ReportPaging.CountsAddUp` | apps/lea-standalone/adapter/app/formalize_batch_reports.py:82-107 | the counters add up to the number of items, and verified is proofs plus definitions |
| `Suggestions.Suggest` | apps/lea-standalone/adapter/app/catalog_service.py:384-409 | the loop with its set of identities and its group counters makes the specified greedy choice |
| `SuggestionRules.RankLeIff` | apps/lea-standalone/adapter/app/catalog_service.py:385-391 | selected first, then recently used in their order, dated, bundled, not in preview, newest, supported, and at last by name |
| `SuggestionRules.ModelsAre` | apps/lea-standalone/adapter/app/catalog_service.py:369-375 | which rows are shown, by provider and name, a row that claims nothing for a chosen model the catalog lacks |
| `SuggestionRules.IdentityIs` | apps/lea-standalone/adapter/app/catalog_service.py:394 | a model's identity is its provider and its canonical name without the provider in front |
| `SuggestionRules.SuggestedExactly` | apps/lea-standalone/adapter/app/catalog_service.py:384-409 | a model is suggested if and only if it is selected or neither retired, unavailable nor deprecated, no better suggestion is the same model, and it is chosen, or of a known provider, dated or bundled, with fewer than three better rivals when released and two otherwise |
| `Suggestions.SuggestedIff` | apps/lea-standalone/adapter/app/catalog_service.py:385-409 | a model is suggested exactly if it is eligible, no better-ranked suggestion has its identity, and it is pinned or its group is not full of better-ranked ones |
| `Suggestions.SuggestionsBalanced` | apps/lea-standalone/adapter/app/catalog_service.py:385-409 | suggestions come best first, with distinct identities, at most three unpinned per provider for released and two otherwise, all eligible |
| `Suggestions.SelectedComesFirst` | apps/lea-standalone/adapter/app/catalog_service.py:369-409 | a non-empty selected model is the first suggestion, known to the catalog or not |
| `CatalogPaging.ReadAccountPages` | apps/lea-standalone/adapter/app/catalog_service.py:225-271 | the paging loop computes its specification |
| `CatalogPaging.ListsExactlyCompleteChains` | apps/lea-standalone/adapter/app/catalog_service.py:225-271 | a list is returned exactly if the pages form a complete chain of at most a hundred valid pages, each fetched with its predecessor's cursor and none repeated, and it is what they list, in order |
| `CatalogRules.AccountFaults` | apps/lea-standalone/adapter/app/catalog_service.py:225-271 | a read times out, or fails for the network, if and only if that is the first thing to stop it within a hundred requests; without a complete chain it is otherwise invalid |
| `CatalogRules.PageLists` | apps/lea-standalone/adapter/app/catalog_service.py:242-257 | one value per entry, in order, Gemini's that generate no content passed over |
| `CatalogRules.ValueIs` | apps/lea-standalone/adapter/app/catalog_service.py:246-251 | Gemini's and Portkey's models get their source in front once |
| `CatalogRules.CursorIs` | apps/lea-standalone/adapter/app/catalog_service.py:258-265 | where each kind of page says the next one begins |
| `CatalogRules.MetadataReads` | apps/lea-standalone/adapter/app/catalog_service.py:219-224 | metadata is one answer of at least a hundred rows |
| `CatalogRefresh.CatalogService.RefreshSources` | apps/lea-standalone/adapter/app/catalog_service.py:273-314 | one refresh drops, reads and stores exactly as specified, in whatever order the sources answer |
| `CatalogRefresh.CatalogService.Forget` | apps/lea-standalone/adapter/app/catalog_service.py:280-282 | exactly the records of sources gone or rescoped are dropped |
| `CatalogRefresh.CatalogService.Store` | apps/lea-standalone/adapter/app/catalog_service.py:300-313 | a failure changes error, count and next attempt only; a success replaces the list and its time |
| `CatalogRules.AttemptLeaves` | apps/lea-standalone/adapter/app/catalog_service.py:300-313 | a failure is counted, backs off by the count and keeps list and time; a success starts the count anew, waits a week and replaces the list, each model with the time it had, zero or now |
| `CatalogRules.OutcomeIs` | apps/lea-standalone/adapter/app/catalog_service.py:289-290 | metadata may not lose more than half its rows |
| `CatalogRuns.StoredListsAreComplete` | apps/lea-standalone/adapter/app/catalog_service.py:273-314 | in every run, a dated record holds exactly what its last successful read listed, whole, at that time, and no refresh since dropped the source or succeeded |
| `CatalogRuns.BackoffDoubles` | apps/lea-standalone/adapter/app/catalog_service.py:302-304 | the wait starts at two minutes, doubles up to the ninth failure, then stays, below the weekly interval |
| `CatalogRuns.ReadAgainIff` | apps/lea-standalone/adapter/app/catalog_service.py:280-284 | a source read under a scope is read again exactly if a refresh between found it not so configured, or its wait is over, or a forced refresh comes thirty seconds later |
| `CatalogRuns.ThirtySecondsIff` | apps/lea-standalone/adapter/app/catalog_service.py:283-284 | within thirty seconds a scope is read twice exactly if it was not configured in between |
| `CatalogRuns.ReturningSourceIsReadAgain` | apps/lea-standalone/adapter/app/catalog_service.py:280-284 | a run in which that happens within two seconds |
| `CatalogRuns.ListedSinceStep` | apps/lea-standalone/adapter/app/catalog_service.py:306-312 | after one refresh a listed model has the time its kept record gave it, else zero if known without any source, else now |
| `CatalogRuns.DiscoveryTimeKeptIff` | apps/lea-standalone/adapter/app/catalog_service.py:306-312 | a refresh keeps a listed model's time exactly if the record was kept or a new model would get the same time |
| `CatalogRuns.RescopedSourceIsDatedAnew` | apps/lea-standalone/adapter/app/catalog_service.py:280-312 | a run in which a model stays listed through a change of scope and is dated anew |
| `CatalogRuns.FirstSeenIsStable` | apps/lea-standalone/adapter/app/catalog_service.py:306-312 | while a source stays configured and lists a model, its discovery time never changes |
| `GitStream.GitExport` | scripts/shutdown_snapshot.py:292-299 | the reading loop returns exactly the records, or the fault, of the specification |
| `GitRules.FaultIff` | scripts/shutdown_snapshot.py:292-299 | reading fails for a bad length if and only if after some records a `data ` line has none, and as incomplete if and only if the stream ends within a block |
| `GitRules.LengthIff` | scripts/shutdown_snapshot.py:295 | a length is a decimal numeral and at most the newline |
| `GitStream.RewriteStream` | scripts/shutdown_snapshot.py:469-473 | the rewriting loop writes the cleaned records with recomputed lengths |
| `GitRules.CleanedIs` | scripts/shutdown_snapshot.py:469-473 | every record keeps its kind and its bytes are the cleaned ones |
| `GitStream.ReadInvertsWrite` | scripts/shutdown_snapshot.py:292-299 | reading what was written gives back exactly the records if and only if every command is one newline-ended line that is not a `data ` line; the last one may lack its newline |
| `GitStream.RewrittenStreamReads` | scripts/shutdown_snapshot.py:469-473 | so the rewritten export reads as the cleaned records exactly when cleaning keeps that shape, whatever the data blocks hold |
| `GitStream.UnchangedIffCanonical` | scripts/shutdown_snapshot.py:469-473 | without redaction the stream is reproduced exactly when its lengths are spelled canonically |

## Left out

- Regular expressions: which line opens a scope, which declares what, and which texts mention a theorem are parameters (a classification of scrubbed lines, per-entry mention sets); the theorems hold for every such classification.
- Unicode: whitespace, case folding and word characters are the ASCII ones, and lines end at a newline only, where `splitlines` and `strip` know further characters.
- Hashes are injective, so tokens and digests are the records they digest, and random ids of stored contents are distinct and no digests; event ids are log positions and row ids are given by the caller.
- The declaration lookup, module file and code of an artifact in the blueprint generator, and reading and writing the blueprint file: the lookup's result is part of the artifact, the document is a text.
- The checks of the review projection before its token, the texts of its messages, and decisions on reformalization drafts: whether a check blocks is part of the context.
- Coordination locks, sessions, timestamps and HTTP status codes around review decisions: one request is one atomic step, as under the write transaction.
- Deleting projects, formalizations, runs and reports: the tables of the model only grow.
- Import parsing and the database look-ups of artifacts, runs, steps and dependency attempts: their results are the graphs the walks run on, attempts with the newest generation first.
- Document objects, timers, polling and the pane's rendering: only the variables that decide whether a response is shown are modelled, and every caller's order of events is allowed.
- SQLite's own locking and busy timeouts: a begin under `write()` is enabled when the lock is free; a caller whose wait times out is one that does not start.
- The primary key of alignment checks, as their ids are random; and tables with a `max(seq)` that no unique index guards.
- `update` calls on alignment checks after their creation: they leave key, attempt and retry mark alone.
- Validation of batch items, cursor encoding in base64 and JSON, and report narratives: a cursor is absent, a key, or garbled, and rows carry the columns the listing and the idempotent create read.
- Assembling the catalog rows before ranking (metadata, bundled and account overlays, availability), and the payload's warnings and revision: rows enter the suggestion pass as given, one per value.
- Labels and other descriptive fields of listed models, HTTP status codes in recorded errors, the cache file and its validation when loaded: `CatalogRuns` starts from any records, the completeness theorem from none.
- Redaction itself: cleaning is an arbitrary function on byte strings.
- Other spellings Python accepts for a length on a `data ` line, such as a sign, spaces or underscores: Git writes plain digits, and the model reads only those.
- Git's own exit status and the archive around the stream.
- `has_unrelated_declarations`, `declaration_present`, `extract_declaration_name`, `_item_fact`, `latest_target_outcomes`, `remember_model`: single comprehensions or table look-ups over what is modelled.
- Collation, configuration, backup, provider error texts, the launcher and site scripts, and the `.tex` mirror.
