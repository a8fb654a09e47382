# Release tooling: a verified model

The repository ships extension packages, and a set of scripts guards their releases. Some of these scripts
are small checkers around real algorithms. This project models eight of them in Dafny 4.11 and proves what
they are relied on for. `dafny verify dfyconfig.toml` checks all of it.

- **The Markdown scanner** of `scripts/check_doc_paths.py`: escapes and brackets (`Brackets`), destinations
  (`Destinations`), inline links (`InlineLinks`) and what their spans have in common (`LinkFamily`),
  `outermost` and `visible_text` (`VisibleText`, `VisibleCharacters`), blanking (`Blanking`), code spans
  (`CodeSpans`), fenced blocks (`Fences`), heading anchors (`Anchors`), line references (`LineReferences`).
- **The detector of adjacent literals** of `scripts/check_implicit_concatenation.py`: runs of literals
  (`LiteralRuns`), byte and character columns (`Utf8Columns`), the owner of a run (`RunOwner`).
- **Version ranges** of `scripts/check_suite_installs_together.py`: the two orders on versions (`Versions`),
  ranges read from requirements (`CoreRanges`), what those leave out (`Requirements`), conflicting pairs and
  published spans (`SuiteConflicts`).
- **The bounded capture** of `scripts/build_hyperlight_aks_image.py` (`SmokeCapture`).
- **The admission probe** of `scripts/check_hyperlight_admission_aks.py` (`AdmissionProbe`) against an API
  server other clients change at will (`Cluster`).
- **The sandbox sweep** of `scripts/cleanup_acas_sandboxes.py` (`SandboxSweep`).
- **The repair verdict** of `scripts/check_live_fix_loop_sample.py` (`RepairVerdict`).
- **The script normaliser** of `scripts/check_title_diff.py` (`ScriptComments`).

Loops and objects that change state are methods and classes, proved against specification functions or
predicates; lemmas then say what those mean. A link's label is the field `shown`, since `label` is a Dafny
keyword.

Three things the proofs bring out about the code:

- `inline_links` gives up at the first `[` nothing closes, so `[[x](a)` reports no link although it holds
  one; `LinkFamily.ReportedExactly` says which links are found and which are not.
- `_disjoint` is exact except for an empty range (`CoreRanges.DisjointExactly`). The sentence "the core ranges
  overlap, so the conflict is elsewhere" is wrong of an exact pin (`SuiteConflicts.PinsAreMissed`). For any
  given input it is right if and only if no three clauses clash (`SuiteConflicts.ElsewhereExactly`), and a
  requirement never makes it wrong if and only if all its clauses are harmless: exclusions are, a pin or a bound
  tighter than the one read is not (`Requirements.OverlapIsEnoughExactly`, `SuiteConflicts.NoPairsMeansACore`).
- The admission probe deletes only objects it created, but with its namespaces goes whatever other clients
  put into them meanwhile (`AdmissionProbe.RemovedIsOwnOrInside`, `AdmissionProbe.OthersGoWithTheNamespace`).

## Model

| member | source | states |
|---|---|---|
| Brackets.EscapeRunIsMaximal | scripts/check_doc_paths.py:209-211 | the run counted is the longest run of backslashes before the position |
| Brackets.IsEscaped | scripts/check_doc_paths.py:202-212 | the loop decides the parity of that run |
| Brackets.ClosingBracket | scripts/check_doc_paths.py:177-199 | the forward scan that skips escaped characters returns the first unescaped `]` where the depth of unescaped brackets is back to zero, and None exactly when there is none |
| Brackets.ClosesOnce | scripts/check_doc_paths.py:194-197 | a bracket has at most one closing bracket |
| Brackets.InnerCloses | scripts/check_doc_paths.py:177-199 | inside a matched pair every unescaped `[` is matched inside that pair |
| Brackets.ClosesInWindow | scripts/check_doc_paths.py:349-349 | brackets inside a label close there exactly as they do in the whole text |
| Brackets.LabelAllClose | scripts/check_doc_paths.py:325-327 | every `[` of a matched pair's label closes within the label |
| Destinations.ReadAfterTitle | scripts/check_doc_paths.py:215-233 | the loop computes where the scan is after white space and an optional title |
| Destinations.TitleEndsAtFirstCloser | scripts/check_doc_paths.py:222-230 | a title ends at the first closing quote that is unescaped by the backward reading, or runs off the text |
| Destinations.ReadDestination | scripts/check_doc_paths.py:247-292 | the loops compute the destination, its bounds and the end of the link, None where nothing closes it |
| Destinations.BareEndIsBareDestination | scripts/check_doc_paths.py:272-286 | a bare destination runs to the first unescaped space or unescaped `)` without a `(` of its own |
| Destinations.BareDestinationUnique | scripts/check_doc_paths.py:250-253 | that end is the only one |
| Destinations.DestinationExactly | scripts/check_doc_paths.py:247-292 | what is read is exactly a grammar: white space, a bare destination or one in angle brackets up to the first `>`, white space, perhaps a title up to its first unescaped closer, white space, the closing parenthesis; no text reads in two ways |
| Destinations.UnescapedInvertsEscape | scripts/check_doc_paths.py:236-244 | a path spelt with backslash escapes is read back as the path |
| Destinations.UnescapedExactly | scripts/check_doc_paths.py:236-244 | of any target exactly the backslashes go that are not escaped themselves and stand before ASCII punctuation; every other character stays |
| Destinations.PunctuationExactly | scripts/check_doc_paths.py:57-57 | punctuation is the printable ASCII that is no letter and no digit |
| Destinations.BeforeDestination | scripts/check_doc_paths.py:263-270 | between the `(` and the destination stands only white space and perhaps a `<` |
| Destinations.DestinationInWindow | scripts/check_doc_paths.py:247-292 | a destination that parses inside a label parses the same, moved, in the whole document |
| InlineLinks.ReadTurn | scripts/check_doc_paths.py:325-334 | one unescaped `[` is a link, is stepped over, or ends the scan |
| InlineLinks.ReadLinks | scripts/check_doc_paths.py:312-350 | the scan, which recurs into labels and ends for every text, returns the specified links in order |
| LinkFamily.LinksLaminar | scripts/check_doc_paths.py:312-350 | of any two links one ends before the other begins or lies strictly inside its label, and every part of a link is in order and in bounds |
| LinkFamily.LinksSound | scripts/check_doc_paths.py:335-349 | every link reported, nested ones included, is what the whole document holds at the reported place |
| LinkFamily.LinkExactly | scripts/check_doc_paths.py:321-345 | a link is an unescaped `[`, its closing bracket, and right after that a parenthesis that opens a destination of the grammar with some text |
| LinkFamily.LabelNeverStops | scripts/check_doc_paths.py:325-327 | the scan of a label never takes the break for an unclosed bracket |
| LinkFamily.LinksShift | scripts/check_doc_paths.py:316-317 | the offset moves all spans and changes nothing else |
| LinkFamily.ReportedExactly | scripts/check_doc_paths.py:312-350 | of the links one comes to, at the top level or inside the labels of constructs there, with a target or without, exactly those are reported that no unclosed `[` stands before at the top level; constructs are given by brackets and the destination grammar |
| LinkFamily.ReportedLeads | scripts/check_doc_paths.py:312-350 | and nothing else is reported |
| LinkFamily.LabelReportsAll | scripts/check_doc_paths.py:346-349 | inside the label of a construct every link one comes to is reported |
| LinkFamily.UnclosedBracketHidesLink | scripts/check_doc_paths.py:325-327 | `[[x](a)` holds a link and none is reported |
| VisibleText.Outermost | scripts/check_doc_paths.py:358-369 | the loop keeps, in order of start, each link that begins after the last one kept |
| VisibleText.OutermostOfLaminar | scripts/check_doc_paths.py:358-369 | of a laminar family exactly the maximal links are kept, in order and disjoint, and every other lies in the label of a kept one |
| VisibleText.OutermostIsMaximal | scripts/check_doc_paths.py:358-369 | that holds of the links of any text |
| VisibleText.ImageAfterIndex | scripts/check_doc_paths.py:597-601 | the `!` of an image is never before the end of the link before it, so no slice is inverted |
| VisibleText.ReadVisible | scripts/check_doc_paths.py:583-603 | the loop, recursive on labels and ending for every text, splices what the specification says |
| VisibleCharacters.LabelFamily | scripts/check_doc_paths.py:349-349 | the links reported inside a link's label are the links of that label on its own |
| VisibleCharacters.VisibleIsShown | scripts/check_doc_paths.py:583-603 | `visible_text` emits, in order and once each, exactly the characters that no link of the flat list hides: a link hides all but its label, an image all of itself and its `!` |
| Blanking.Blank | scripts/check_doc_paths.py:457-465 | in place, the span is spaces except for its line breaks, and the rest is untouched |
| Blanking.BlankAll | scripts/check_doc_paths.py:498-501 | a list of spans blanked one after the other blanks what they cover together and keeps length and line breaks |
| Blanking.BlankingIsByCoverage | scripts/check_doc_paths.py:457-465 | order and overlaps of the spans make no difference, and a second pass none either |
| Blanking.WithoutLinkDestinations | scripts/check_doc_paths.py:409-424 | a character is blanked exactly when it is in the destination of an inline link, nested ones included, or in the line of a reference definition |
| Blanking.LabelStaysVisible | scripts/check_doc_paths.py:417-419 | a label keeps every character that is in no nested link's destination and no reference definition |
| CodeSpans.NextRun | scripts/check_doc_paths.py:107-108 | the search finds the first maximal run of backticks from a position on |
| CodeSpans.Closer | scripts/check_doc_paths.py:477-482 | the inner loop finds the first later run of exactly the opener's length, if there is one |
| CodeSpans.ReadCodeSpans | scripts/check_doc_paths.py:468-488 | the spans are in order and disjoint, each from a maximal run to the next of the same length, and no run outside them has one of its length later |
| CodeSpans.CodeSpansUnique | scripts/check_doc_paths.py:468-488 | only one list of spans has these properties |
| CodeSpans.WithoutCodeSpans | scripts/check_doc_paths.py:491-501 | exactly those spans are blanked |
| CodeSpans.NoSpansLeft | scripts/check_doc_paths.py:491-501 | the blanked text has no code span left |
| Fences.WithoutFencedBlocks | scripts/check_doc_paths.py:545-580 | a line is blanked exactly when it lies from an opening fence to the first later line that meets all four closing conditions, or to the end if none does |
| Fences.FenceExactly | scripts/check_doc_paths.py:86-86 | a fence is up to three spaces, three or more backticks or tildes, and a rest that does not begin with another of them |
| Fences.QuoteExactly | scripts/check_doc_paths.py:561-562 | the quote depth of a line and the line without its markers: up to three spaces and `>` markers, each with the space that follows it |
| Fences.FencesAreInBlocks | scripts/check_doc_paths.py:563-580 | no fence line survives |
| Fences.FencedIsIdempotent | scripts/check_doc_paths.py:545-580 | the line count stays, no fence is left, and a second pass changes nothing |
| Anchors.CandidateInjective | scripts/check_doc_paths.py:679-682 | the names tried for one slug are all different |
| Anchors.DecimalExactly | scripts/check_doc_paths.py:682-682 | the suffix is the decimal numeral of its number, without a leading zero |
| Anchors.FreeName | scripts/check_doc_paths.py:679-682 | the loop ends and finds the name with the least suffix that is free |
| Anchors.ReadAnchors | scripts/check_doc_paths.py:659-685 | each heading with a non-empty slug gets its first free name, as many names as such headings, and the explicit anchors are added |
| Anchors.NumberingUnique | scripts/check_doc_paths.py:676-683 | the numbering is determined by the slugs and gives no name twice |
| Anchors.BareWhenFree | scripts/check_doc_paths.py:676-683 | a heading keeps its bare slug exactly when no earlier heading was given that name |
| Anchors.RepeatedSlug | scripts/check_doc_paths.py:676-683 | headings that share one slug get it bare, then with `-1`, `-2` and so on |
| Anchors.NonEmptyExactly | scripts/check_doc_paths.py:676-678 | headings with an empty slug are passed over and no others |
| LineReferences.ReadLabelDestination | scripts/check_doc_paths.py:825-837 | the loop picks, of the links that hold the span, the one that starts last |
| LineReferences.HolderIsInnermost | scripts/check_doc_paths.py:826-826 | that link lies in the label of every other link holding the span |
| LineReferences.HeldInLabel | scripts/check_doc_paths.py:834-834 | a code span that ends before the destination ends inside the label |
| LineReferences.SameParagraphExactly | scripts/check_doc_paths.py:859-859 | two places are in one paragraph if and only if no break stands between them |
| LineReferences.NoReference | scripts/check_doc_paths.py:864-871 | a span that is no reference, and a bare number with nothing to inherit, leave what is carried, and the pending name unless they are one |
| LineReferences.TakeReference | scripts/check_doc_paths.py:873-876 | a reference consumes the pending name and hands on its file and link |
| LineReferences.ReadLineReferences | scripts/check_doc_paths.py:840-877 | the references read are exactly those that name a file or follow one in their paragraph that does; each carries its own or the last named file and link, and the last bare name since the reference before it |
| LineReferences.ReadText | scripts/check_doc_paths.py:840-877 | on the page of a text, its own code spans, stripped, and its own links: the references read are exactly those that name a file or follow one that does with no break between, each once and in order; neither a file nor a name is carried across a break |
| LineReferences.LinkIsInnermostLabel | scripts/check_doc_paths.py:825-837 | on that page a code span gets the destination of the innermost link whose label it stands in, and none exactly when it stands in no label |
| LiteralRuns.FindEnd | scripts/check_implicit_concatenation.py:92-102 | the loop finds where the f-string ends, or the last token of a list that never closes it |
| LiteralRuns.LevelTiles | scripts/check_implicit_concatenation.py:135-151 | the top-level parts lie end to end over all tokens: no token is skipped or read twice |
| LiteralRuns.ReadRuns | scripts/check_implicit_concatenation.py:105-152 | for every token list the recursion ends and reports one run for each maximal block and each run inside an f-string, in order; a run has its first literal's start, its last literal's end, their number, and is parenthesized exactly when the tokens on both sides are there and read `(` and `)` |
| LiteralRuns.RunsExact | scripts/check_implicit_concatenation.py:105-152 | reported are the maximal blocks of two or more adjacent literals, an f-string counting as one, and what is reported inside each f-string: all of them, each once, in the order in which they end |
| LiteralRuns.BlocksApart | scripts/check_implicit_concatenation.py:117-133 | no literal is in two blocks |
| LiteralRuns.FStringIsClosed | scripts/check_implicit_concatenation.py:92-102 | in a well-nested list each f-string ends at its own FSTRING_END and its inside is well-nested, so the fallback is never taken |
| LiteralRuns.LevelIsBalanced | scripts/check_implicit_concatenation.py:135-151 | at the top level of a well-nested list no part is the end of an f-string |
| Utf8Columns.EncodingIsPrefixFree | scripts/check_implicit_concatenation.py:182-189 | no character's UTF-8 encoding begins another's |
| Utf8Columns.EncodingExactly | scripts/check_implicit_concatenation.py:189-189 | the encoding is the table of RFC 3629, section 3: lengths, first bytes, continuation bytes, and the code point they spell |
| Utf8Columns.CharacterColumnExact | scripts/check_implicit_concatenation.py:182-189 | a byte column converts to a character column exactly when it is that column's boundary; between boundaries decoding fails |
| Utf8Columns.PastTheEnd | scripts/check_implicit_concatenation.py:189-189 | a column past the last byte is the end of the line |
| Utf8Columns.OrderIsKept | scripts/check_implicit_concatenation.py:182-197 | converting the parser's position recovers the tokenizer's, and both order positions alike |
| RunOwner.Owner | scripts/check_implicit_concatenation.py:200-208 | over nested spans the part returned holds the run and lies in every other that does, the last listed of equal spans; None when no part holds it |
| RunOwner.OwnerIgnoresOrder | scripts/check_implicit_concatenation.py:200-208 | the span chosen does not depend on the order of the list |
| RunOwner.HoldsInBytes | scripts/check_implicit_concatenation.py:185-187 | a part holds a run in characters exactly when it does in bytes |
| RunOwner.Concatenations | scripts/check_implicit_concatenation.py:228-241 | reported are, in order, exactly the runs whose closest part is an element of a collection |
| Versions.AdmitsIsBelow | scripts/pypi_index.py:264-268 | padding compares two releases at the first component where they differ, absent ones reading as zero |
| Versions.TupleOrderExtends | scripts/check_suite_installs_together.py:255-255 | the plain tuple order that `min` and `max` use extends the padded order |
| Versions.BelowBetween | scripts/pypi_index.py:264-268 | the padded order is a strict weak order: of a below b, any third release is above a or below b |
| Versions.JustAboveCompares | scripts/pypi_index.py:264-268 | the order is dense: just above any release is one that all releases up to a given width compare to as they do to it |
| CoreRanges.EmptyExactly | scripts/check_suite_installs_together.py:187-188 | a range is empty exactly when its ceiling does not admit its floor |
| CoreRanges.ReadFloor | scripts/check_suite_installs_together.py:191-203 | the first `>=` clause |
| CoreRanges.ReadCeiling | scripts/check_published_dependents_admit.py:66-88 | the first `<` clause |
| CoreRanges.RangeCovers | scripts/check_suite_installs_together.py:249-253 | what satisfies a requirement lies in the range read from it |
| CoreRanges.RangeIsFirstBounds | scripts/check_suite_installs_together.py:191-203 | a core lies in the range exactly when it meets the first `>=` clause and the first `<` clause, as far as there are any |
| CoreRanges.SimpleIsRange | scripts/check_suite_installs_together.py:284-286 | a requirement of at most one lower and one upper bound is met exactly in its range |
| CoreRanges.DisjointShareNothing | scripts/check_suite_installs_together.py:206-212 | ranges called disjoint share no version |
| CoreRanges.DisjointExactly | scripts/check_suite_installs_together.py:206-212 | two ranges share no version if and only if they are called disjoint or one is empty |
| CoreRanges.EmptyRangeIsMissed | scripts/check_suite_installs_together.py:206-212 | an empty range that is not called disjoint from the range of everything |
| Requirements.RangeExactly | scripts/check_suite_installs_together.py:249-253 | the range read from a requirement is exact if and only if it is empty or its bounds imply every clause |
| Requirements.OverlapIsEnoughExactly | scripts/check_suite_installs_together.py:284-286 | every range that overlaps the one read holds a core meeting the requirement, if and only if all its clauses are harmless |
| Requirements.MetTogetherExactly | scripts/check_suite_installs_together.py:215-216 | clauses can be met by one core if and only if no three of them clash: a lower and an upper bound with nothing between, or just a version a third excludes |
| SuiteConflicts.PairsExact | scripts/check_suite_installs_together.py:215-223 | the disjoint pairs are listed: all, each once, names and pairs in sorted order |
| SuiteConflicts.ListedExactly | scripts/check_suite_installs_together.py:215-223 | two names whose requirements are one lower and one upper bound at most, and that some core suits each, are listed if and only if no core suits both |
| SuiteConflicts.CrossingExactly | scripts/check_suite_installs_together.py:206-212 | for any two requirements the ranges are disjoint exactly when a first lower bound of one, or zero, is not below a first upper bound of the other |
| SuiteConflicts.PairwiseIsJoint | scripts/check_suite_installs_together.py:363-367 | one core lies in all ranges if and only if none is empty and no pair is listed |
| SuiteConflicts.ReadSpan | scripts/check_suite_installs_together.py:242-255 | the span is no narrower, in the padded order, than any declared range, and each of its ends is declared by some version |
| SuiteConflicts.SpanEndsDeclared | scripts/check_suite_installs_together.py:242-255 | the ends of a span are the first `>=` and the first `<` clause of published versions, zero and open where one has none |
| SuiteConflicts.DeclaredExactly | scripts/check_suite_installs_together.py:243-253 | the ranges a span is over are those of the versions that name a core requirement, and no others |
| SuiteConflicts.PublishedSpans | scripts/check_suite_installs_together.py:226-256 | a distribution has a span exactly when one of its versions declares a core requirement, and it is its own |
| SuiteConflicts.DisjointSpansAreProof | scripts/check_suite_installs_together.py:400-406 | disjoint spans: no version of the one and none of the other that declare a core requirement share a core |
| SuiteConflicts.ElsewhereExactly | scripts/check_suite_installs_together.py:363-367 | for every input: one core meets the candidate's range and all other requirements if and only if no three of their clauses clash, and a listed pair means some do |
| SuiteConflicts.NoPairsMeansACore | scripts/check_suite_installs_together.py:259-292 | with harmless published clauses one core meets the candidate and all of them if and only if no range is empty and no pair is listed |
| SuiteConflicts.PinsAreMissed | scripts/check_suite_installs_together.py:363-366 | a candidate with `>=2,<3` beside a dependent with `==1`: no pair is listed, no range is empty, and no core meets both |
| SmokeCapture.Capture.Read | scripts/build_hyperlight_aks_image.py:192-198 | one chunk changes the shared buffers and the flag as the step says |
| SmokeCapture.Play | scripts/build_hyperlight_aks_image.py:181-205 | events handled one after the other reach the state of the run |
| SmokeCapture.Invariant | scripts/build_hyperlight_aks_image.py:189-198 | under every interleaving the two buffers hold the lesser of the limit and what was delivered, each is a prefix of its own pipe, the flag says exactly whether more than the limit came, and the readers kill at most once |
| SmokeCapture.KilledExactly | scripts/build_hyperlight_aks_image.py:195-198 | the readers kill the process exactly when the limit is passed while it runs, and then once |
| SmokeCapture.RemainingIsNeverNegative | scripts/build_hyperlight_aks_image.py:193-194 | the bytes left to take are never negative, and a chunk only extends its own buffer |
| SmokeCapture.OutcomeExactly | scripts/build_hyperlight_aks_image.py:206-216 | a value is returned exactly when all ended, the process succeeded and the output fitted, and it is all of stdout; too much output is reported as that whatever the exit code; a failure exactly for another exit code, with both pipes in full; otherwise the time ran out |
| SmokeCapture.NothingAfterEof | scripts/build_hyperlight_aks_image.py:192-192 | after the end of a pipe nothing more is delivered from it |
| Cluster.Server.Delete | scripts/check_hyperlight_admission_aks.py:214-230 | a delete acts only on the object that still has the UID and the resource version it names; with a namespace goes what stands in it |
| Cluster.Server.Create | scripts/check_hyperlight_admission_aks.py:101-107 | a create adds one object of this run or none; the reply may be lost or name no UID |
| AdmissionProbe.NoCollision | scripts/check_hyperlight_admission_aks.py:90-97 | the scan looks each object up in turn; it passes when all were seen absent and ends at one that exists or cannot be looked up |
| AdmissionProbe.CreateAll | scripts/check_hyperlight_admission_aks.py:98-107 | the objects are created in turn, up to the first create that fails or names no UID; the UIDs recorded are those returned; left alone, all are created |
| AdmissionProbe.CleanUpOne | scripts/check_hyperlight_admission_aks.py:185-237 | one turn, entry by entry: the lookup, what may stand against a delete, the delete, the wait, the last look, and the error each ends in; left alone, an object of this run is removed |
| AdmissionProbe.TurnAsks | scripts/check_hyperlight_admission_aks.py:187-230 | the delete is asked for exactly when the lookup finds the run's label and the recorded UID; an object is unreachable exactly when its lookup was not answered |
| AdmissionProbe.TurnKeepsOwned | scripts/check_hyperlight_admission_aks.py:192-203 | whatever others do, a turn names for deletion only what this run created, and what it names is removed only while it carries the run's label |
| AdmissionProbe.CleanUp | scripts/check_hyperlight_admission_aks.py:184-239 | every object gets its turn, the last one first, whatever became of the others; left alone, each is removed and no error is left |
| AdmissionProbe.Check | scripts/check_hyperlight_admission_aks.py:87-239 | the whole run is scan, creation, calls, cleanup, and its end is decided by them in that order; with no other client acting and no failure it passes, and each object was created, asked to be deleted, removed and seen absent |
| AdmissionProbe.NotStartedMeans | scripts/check_hyperlight_admission_aks.py:90-97 | a run that does not start did nothing but look, and its last lookup failed or found an object |
| AdmissionProbe.RunIsOwned | scripts/check_hyperlight_admission_aks.py:183-230 | every run: each delete names an object by a UID that a create of this run returned for it, and removes it only while it carries the run's label |
| AdmissionProbe.EveryObjectAccounted | scripts/check_hyperlight_admission_aks.py:183-239 | however a started run ends, every object was seen absent after the last create, or an error names it |
| AdmissionProbe.PassedMeans | scripts/check_hyperlight_admission_aks.py:87-239 | a run passes only when every object was seen absent, created, and seen absent again, and all calls were answered |
| AdmissionProbe.RemovedIsOwnOrInside | scripts/check_hyperlight_admission_aks.py:76-230 | every object removed was created by this run, or stood in a namespace that this run created and asked to delete |
| AdmissionProbe.OthersGoWithTheNamespace | scripts/check_hyperlight_admission_aks.py:197-230 | that second case occurs: an object another client puts into the namespace is removed, although every delete carries a UID this run was given |
| SandboxSweep.CheckIds | scripts/cleanup_acas_sandboxes.py:81-86 | the loop accepts exactly inventories whose ids are present and different |
| SandboxSweep.Cleanup | scripts/cleanup_acas_sandboxes.py:61-116 | the report and the deletions requested are those specified; a preview, no inventory, or a missing or repeated id means no deletion at all; it raises exactly for a bad duration, a clock without a zone, or a stop time with no UTC form |
| SandboxSweep.Consider | scripts/cleanup_acas_sandboxes.py:101-115 | one candidate gets one entry in one list, and its deletion is requested exactly when the second look shows it unchanged |
| SandboxSweep.EveryIdAccountedFor | scripts/cleanup_acas_sandboxes.py:97-116 | when applied every eligible id is once in exactly one of deleted, already absent, retained, or the new failures |
| SandboxSweep.EligibleExactly | scripts/cleanup_acas_sandboxes.py:87-97 | eligible are exactly the ids of sandboxes stopped at a readable time before the cutoff |
| SandboxSweep.ListsExactly | scripts/cleanup_acas_sandboxes.py:101-115 | each list by what the service answered: absent on the second look or gone at removal; seen running or stopped at another time; unclear or refused |
| SandboxSweep.ComplaintsExactly | scripts/cleanup_acas_sandboxes.py:50-58 | an invalid stop time is reported for exactly the stopped sandboxes whose time is missing, unreadable or without a zone |
| SandboxSweep.OnlyLongStoppedRequested | scripts/cleanup_acas_sandboxes.py:101-109 | a deletion is requested only if the inventory and the second look at that candidate both showed the sandbox Stopped since one time before the cutoff |
| SandboxSweep.DeletedExactly | scripts/cleanup_acas_sandboxes.py:97-115 | an id is reported deleted if and only if its candidate was seen unchanged and the removal of that candidate was confirmed; it was then requested |
| RepairVerdict.AssessTally | scripts/check_live_fix_loop_sample.py:167-196 | no reason exactly when the list matches its count, repeats nothing and names tracked rules only |
| RepairVerdict.AuthoredFaults | scripts/check_live_fix_loop_sample.py:234-288 | no reason exactly when the baseline is sound and has a fault; only the model's reason exactly when it is sound |
| RepairVerdict.AssessCallsAndCleanup | scripts/check_live_fix_loop_sample.py:314-351 | no reason exactly when both turns validated and one Docker id stands alone at all four checkpoints |
| RepairVerdict.BaselineWarnings | scripts/check_live_fix_loop_sample.py:481-500 | the loop counts each rule's diagnostics that are no errors |
| RepairVerdict.AssessCompilerAgrees | scripts/check_live_fix_loop_sample.py:503-586 | no reason exactly when tally and compiler agree and no untracked rule but the tolerated one is reported more often than before |
| RepairVerdict.AssessRepair | scripts/check_live_fix_loop_sample.py:354-478 | no reason exactly when the closing block is accountable and the repair converged; only the model's reasons exactly when it is accountable |
| RepairVerdict.Assess | scripts/check_live_fix_loop_sample.py:224-231 | no reason exactly for a healthy run; only the model's reasons exactly when the rest is in order |
| RepairVerdict.ExitCode | scripts/check_live_fix_loop_sample.py:607-643 | exit 0 for a healthy run, 3 exactly when only the model's half is missing, 1 otherwise; 3 means both turns reached the sandbox, the file was written and changed, nothing was left behind |
| RepairVerdict.AcceptanceExactly | scripts/check_live_fix_loop_sample.py:224-231 | accepted is exactly a run that printed all of a list of facts about baseline, turns, containers, file, tallies, final compile and cleanup |
| RepairVerdict.SuiteHealthyExactly | scripts/check_live_fix_loop_sample.py:224-231 | what exit 3 takes beside the model's own half, as such a list |
| RepairVerdict.TrackedExactly | scripts/check_live_fix_loop_sample.py:167-196 | tracked are the faults of diagnostics whose rule is one of the two, up to case |
| RepairVerdict.TimesExactly | scripts/check_live_fix_loop_sample.py:481-500 | a rule is counted as often as diagnostics are of that rule, errors left out or not |
| RepairVerdict.AcceptanceIsProgress | scripts/check_live_fix_loop_sample.py:224-231 | an accepted run: the authored faults split into fixed, which is not empty, and remaining; the final compile's tracked faults are the remaining ones and strictly fewer; nothing else got worse; one container throughout |
| ScriptComments.WithoutPrefixComments | scripts/check_title_diff.py:108-134 | the loop returns the normal form |
| ScriptComments.NormalIsIdempotent | scripts/check_title_diff.py:108-134 | normalising again changes nothing |
| ScriptComments.CodeIsKept | scripts/check_title_diff.py:123-128 | the lines of code of a script are those of its normal form, in order |
| ScriptComments.NormalIsSubsequence | scripts/check_title_diff.py:116-134 | what is kept, comments and code alike, is a subsequence of the script, and missing are exactly the comments met in the prefix that are no directives |
| ScriptComments.TailIsVerbatim | scripts/check_title_diff.py:118-132 | once a marker or the odd end of a block is met, all that follows is kept as it is |
| ScriptComments.TailBeginsExactly | scripts/check_title_diff.py:118-132 | in the prefix a line that is no comment begins the verbatim part exactly when it holds a quote, backtick, backslash or angle bracket, one of two pairs, or an odd number of single quotes |
| ScriptComments.BlockExactly | scripts/check_title_diff.py:114-119 | the depth of a block comment follows its `<#` and `#>` pairs, and the line that ends it begins the verbatim part unless it is `#>` alone |
| ScriptComments.DropsExactly | scripts/check_title_diff.py:122-127 | dropped is a comment in the prefix unless it is the interpreter line of the file or `#requires` |
| ScriptComments.CommentIsIgnored | scripts/check_title_diff.py:123-128 | an ordinary comment in the prefix, after the first line, may come or go |
| ScriptComments.CommentInFront | scripts/check_title_diff.py:124-124 | in front of the first line it may exactly when that line is not an interpreter line |
| ScriptComments.CommentsOnlyIsSound | scripts/check_title_diff.py:137-144 | an equivalence on existing files, under which equal scripts have the same lines of code |

## Left out

- Regular expressions other than the fence and block quote patterns, `ast`, `tokenize`, JSON and TOML: their results are inputs (tokens, spans, clauses, parsed records, classified code spans).
- `reference_links`, `headings` and `slugify`: the reference definitions and the slugs are inputs.
- `without_urls`, `without_html_comments`: they blank the matches of a pattern, which `Blanking.BlankAll` covers.
- Splitting a text into lines and joining lines again: the fence pass and the script normaliser are modelled on lists of lines.
- `findings`: it prints the concatenations that are not parenthesized, which the flag of `RunOwner.Concatenations` says.
- `broken_links`, `_stale` and the other readers of the tracked tree: file access and lookups.
- Utf8Columns.CharacterColumnExact: the decoder is specified as the inverse of the encoder, not byte by byte.
- SuiteConflicts.DisjointSpansAreProof: versions are their release segments, as in `pypi_index.version`; pre-releases, epochs and local parts are not modelled.
- Requirements.MetTogetherExactly: clauses are the six comparisons; `~=`, `===` and wildcards such as `==2.*` are not modelled. None of them is read as a bound by the code.
- SuiteConflicts.PairsExact: `sorted(ranges)` is an input that lists every key once.
- SmokeCapture.OutcomeExactly: the deadline is "not everything has ended yet"; the second wait in `finally` and the text written to stderr are not modelled.
- AdmissionProbe.Check: the calls between creation and cleanup are any number of calls that may fail; what they exercise is not modelled, nor are the role, service accounts and binding created inside the namespace, which go with it.
- Cluster.Server.Delete: what stands in a namespace goes at the moment its deletion is accepted; how the server empties it over time is not modelled.
- Cluster.Server.Other: `kubectl wait` promises nothing here; only the look after it is relied on.
- SandboxSweep.Cleanup: overflow when the cutoff itself is computed is not modelled.
- RepairVerdict.AssessCompilerAgrees: one reason stands for all faults of a kind, and messages carry no text.
- RepairVerdict.Assess: the sections and lines of the output are given as records; how markers are found in it is not modelled.
- The remaining scripts, which are lists of equality checks or drive other programs.
