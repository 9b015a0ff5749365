# Redaction and policy inputs, verified

A Dafny model of two parts of Chainloop, with proofs of what they promise.

The first part is the engine that removes secrets from JSON evidence before it is stored. It decodes a document, renders
it with indentation, scans the text, and replaces the secrets that were found in the string leaves by placeholders, until
a scan finds nothing more to replace. A leaf is rewritten in its JSON-encoded form. Leaves can be protected by a path
filter, and lines can be exempted by an allow marker. The scanner cuts the text into overlapping chunks of whole lines,
scans them concurrently, and on later passes scans only the chunks that changed.

The second part decides which runtime inputs apply to a policy attachment and which values the policy receives.

## Layout

| modules | content |
|---|---|
| `Options`, `Text`, `Order`, `TextLines` | missing values, substring search and left-to-right substitution, sorting, lines of a text |
| `Escapes`, `StringBody`, `Breaks` | open escapes and trimming, JSON string bodies, cutting at an escape |
| `Masking`, `Markers`, `LineWise` | substituting placeholders, allow markers, the line-by-line reference |
| `Pending`, `Leaf`, `LeafLines`, `Tree`, `OpaqueLeaves` | pending secrets, one leaf, its lines, one pass over a document, leaves taken out of it |
| `Elimination`, `Survival`, `Rebuilding` | exactly when a secret is gone, when a marker stays, when a leaf is rebuilt |
| `DecodedLines`, `LineCounts`, `Occurrences`, `LinePositions`, `MarkedLines`, `MarkedLeaves` | lines of the decoded string, how they run together, and exactly when marked lines stay |
| `Positions`, `LeafEvents`, `PassEvents`, `RunReports` | where leaves stand and what they count: paths, events, exact reports |
| `Rewriter`, `Redact`, `Convergence`, `RunBounds` | the mutable rewriter, the loop, what runs guarantee and how long they take |
| `Counterexamples`, `Placeholders` | where the conditions are needed, the default placeholder |
| `DuplicateKeys` | the stack machine that refuses repeated keys |
| `Chunks`, `LineRanges`, `LocalScan` | cutting a text, line ranges and byte spans, what chunks can miss |
| `Scanner`, `Matches`, `DocumentScanner`, `CachedScanner`, `ScannerRuns` | collecting findings, what they say about reports, the remembering scanner, its runs |
| `Rendering`, `RenderedLeaves`, `ReadBack` | the indented rendering, the leaves on its lines, reading it back |
| `RedactionRuns`, `DetectedRuns` | the loop and the scanner together, from the leaves to the end of a run |
| `InputValues`, `ArgSplit`, `References`, `RuntimeInputs` | policy inputs, references and scopes |

Methods and classes follow the loops and the mutable objects of the program, and are proved against functions that say
what they compute. The lemmas are about those functions.

## Conditions

Some results hold under conditions, which are stated in the contracts:

- *Separate secrets.* A placeholder could complete a secret out of the text next to it. The elimination and convergence
  results ask that encoded placeholders are delimited by brackets and that no placeholder can touch a secret: hold it,
  overlap with it, or lie inside it. `Elimination` gives the exact conditions: for one substitution, and, as this one,
  for all pending lists and for whole leaves. `Counterexamples` gives inputs. `Masking.BracketsKeepApart` and
  `Placeholders.DefaultSeparate` say when it holds with brackets and with the default placeholder.
- *Clean cuts.* A placeholder that is written inside an escape leaves a body that does not decode, and unless a later
  secret takes what is left of that escape the whole leaf is dropped. `Rebuilding` says exactly when one secret does that:
  when the text in front of a substituted occurrence, read from the one substituted before it, ends inside an escape. The
  results about marked lines ask that this happens at no turn and that placeholders hold no line break and no marker.
  Occurrences that all start outside escapes, called aligned, have clean cuts, but not only those.
- *Local detectors.* A chunk can only report what lies in it. The results that compare chunks with whole texts are for
  detectors whose findings depend on one line, or on two lines within a window.
- *Digests.* The remembering scanner identifies a chunk by its digest; its results ask that no two chunk texts that were
  seen have the same digest.

## Where the code and its comments differ

- The comment on the recogniser of default placeholders speaks of any rule id. `Placeholders.RecognisedIff` gives the ids
  for which it holds, `Placeholders.RecognisedEncodedIff` the ids for which it holds of the encoded text it is applied to,
  and `Placeholders.UnrecognisedPlaceholder` one for which it does not.
- The comment on the secrets the loop skips says that no eligible leaf contains them. `RunReports.UnlocatedIff` says what is
  reported as unlocated, and `Counterexamples.SwallowedIsLost` gives a secret that an eligible leaf contains.
- The comment on `splitArgs` speaks of any input. `ArgSplit.SplitArgsCorrectIff` gives the lines for which it holds, and
  `ArgSplit.PlaceholderIsMissplit` one for which it does not.
- A comment in `redactLeaf` says that a replacement never adds or removes a marker. `Survival.MarkerSurvivesIff` and
  `Survival.FlagStaysIff` say exactly when a marker stays, and `Elimination.AddsNoMarkerIff` when none is added.
  `Counterexamples.MarkedLeafLosesLine` gives a leaf in which a marker is lost and a secret it covered is replaced, and
  `Counterexamples.MarkerInPlaceholder` a rule id that adds one.
- Lines with a marker are documented to keep their secrets. `MarkedLeaves.MarkedLinesSurviveIff` says exactly when they do.
- The comment on the document scanner says that chunks stay fixed as line ranges. `LineRanges.CarriedOver` shows that they
  cover a later version only if the text that was cut did not end in a line feed, or the later one does, and
  `LineRanges.LastLineLeftOut` gives two texts for which they do not; `RedactionRuns.EveryVersionKeepsLines` shows that the
  renderings of a run never end in a line feed.

## Model

| member | source | states |
|---|---|---|
| `Redact.Redact` | internal/redaction/redaction.go:278-392 | the loop, with its mutable skip set, report and rewriter objects, returns exactly what the recursive specification of a run returns; what that is, told by the documents of its passes, is stated by RunReports.ResultIff and RunReports.ReportIsExact |
| `Redact.Classify` | internal/redaction/redaction.go:341-356 | after a pass the secrets given up are those with a protected copy, those found nowhere and those kept on an allowed line; a rule is reported once for every protected or missing secret, also when another copy was kept |
| `RunReports.ReportIsExact` | internal/redaction/redaction.go:341-363 | over every successful run and told by the documents its passes scanned: for each rule the allowed counter is the number of occurrences of its secrets kept on allowed lines of eligible leaves, the counter by rule the number substituted, and the unlocated counter the number of its pending secrets that a pass lost; the run ends with the document of its last pass, rewritten |
| `RunReports.AllowedIff` | internal/redaction/redaction.go:360-362 | a rule is in the allowed report if and only if in some pass, at its turn, an occurrence of a secret pending with it lies within an allowed line of an eligible leaf; without markers the report is empty |
| `RunReports.UnlocatedIff` | internal/redaction/redaction.go:345-351 | a rule is in the unlocated report if and only if in some pass a secret pending with it is in a protected leaf, or at its turn in no eligible leaf |
| `RunReports.LostIffNowhere` | internal/redaction/redaction.go:345-351 | a secret that no earlier secret of the list and no placeholder touches is lost if and only if it is in a protected leaf or in no string leaf |
| `RunReports.GivenUpIff` | internal/redaction/redaction.go:341-356 | the secrets a run stops chasing are exactly those that some pass lost or kept on an allowed line |
| `RunReports.MissingIff` | internal/redaction/redaction.go:341-356 | the switch after a pass, told by the document it scanned instead of by the sets of the rewriter |
| `RunReports.EndsIff` | internal/redaction/redaction.go:306-375 | a run does not converge if and only if it made all its passes and each substituted something, and fails if and only if each substituted something and the scan of what they left fails |
| `RunReports.ResultIff` | internal/redaction/redaction.go:278-391 | what Redact returns, told by its passes: refused, failed, unstable, the input verbatim if nothing was replaced, and else the encoding of the final document with its opaque leaves back |
| `RunReports.CleanIsVerbatim` | internal/redaction/redaction.go:275-277 | a document in which the first scan finds nothing but placeholders is returned verbatim with an empty report |
| `PassEvents.PassCounts` | internal/redaction/redaction.go:503-607 | the counters of a pass are the numbers of occurrences met in the leaves of the document |
| `PassEvents.PassRecordsIff` | internal/redaction/redaction.go:503-607 | a pass records a secret as kept, located or protected if and only if a leaf makes it |
| `LeafEvents.FoldCounts` | internal/redaction/redaction.go:543-593 | in a leaf, the counters of a rule are the numbers of occurrences of its secrets that were kept and that were substituted, each secret in the body the ones before it left |
| `LeafEvents.TakenCount` | internal/redaction/redaction.go:622-648 | the occurrences replaced and kept are those found from the left without overlap, as a set of positions |
| `LeafEvents.DroppedForLast` | internal/redaction/redaction.go:599-605 | a leaf that no longer decodes becomes the placeholder for the last secret that was substituted in it |
| `LeafEvents.AnyOccurrence` | internal/redaction/redaction.go:622-648 | for an aligned secret some occurrence found from the left lies within an allowed line if and only if any occurrence does |
| `Counterexamples.SwallowedIsLost` | internal/redaction/redaction.go:341-351 | a secret that is in an eligible leaf and in no protected one, but only inside a longer pending secret, is reported as unlocated |
| `Convergence.TwoPassesSuffice` | internal/redaction/redaction.go:306-375 | for every document, path filter and marker setting: if no pending secret can be completed by or found in a placeholder and the second scan reports nothing new, the loop stops within two passes, so non-convergence is impossible with at least two passes allowed |
| `RunBounds.ListBoundsPasses` | internal/redaction/redaction.go:306-375 | for every document and every scanner: if all secrets of a run are in a list none of whose placeholders can touch one of them, the loop stops after at most one pass more than the list has secrets |
| `RunBounds.PassesBounded` | internal/redaction/redaction.go:306-375 | from any pass on, the loop takes at most one pass more than there are secrets in the document that are not given up |
| `RunBounds.PassCloses` | internal/redaction/redaction.go:341-371 | a pass that replaces something removes for good, or gives up, at least one secret that was in the document |
| `Convergence.ChasedIsAbsent` | internal/redaction/redaction.go:341-356 | a pending secret that is not given up after a pass occurs in no string leaf of the rewritten document |
| `RunBounds.RunSettles` | internal/redaction/redaction.go:275-391 | after a successful run every secret that was pending in some pass was given up or occurs in no string leaf of the final document, whatever the later passes wrote |
| `Tree.TreeStaysWithout` | internal/redaction/redaction.go:503-607 | a string that no placeholder can touch and that is nowhere in the document stays out of it over a pass, also where leaves are dropped |
| `Convergence.RunInvariant` | internal/redaction/redaction.go:306-363 | over every run: keys, array lengths, scalars and protected leaves are unchanged, a leaf changes only if it held a secret that was pending in some pass, the skip set and the reports only grow, and the replacement total equals the sum over rules |
| `Positions.LeafAtItsPath` | internal/redaction/redaction.go:503-526 | for every document and position: the leaf that a list of keys and indices leads to is redacted as the one at the path made of a solidus and the text of each of them in order, and every other value keeps its kind, keys and length |
| `Positions.TouchedAtItsPath` | internal/redaction/redaction.go:503-526 | a leaf that a pass or a run changes was eligible at the text of its position |
| `Positions.DetachedAtItsPath` | internal/redaction/redaction.go:401-421 | before the first pass exactly the leaves are blank whose key the opaque filter reports at the path of their object |
| `Positions.ItoaIsNumeral` | internal/redaction/redaction.go:515 | the text of an index is made of decimal digits with that value, without a leading zero |
| `Positions.NumeralUnique` | internal/redaction/redaction.go:515 | a number has one such numeral |
| `Positions.PathSplits` | internal/redaction/redaction.go:503-518 | when no key holds a solidus, splitting the path at it gives the keys and indices back |
| `Positions.PathsTellApart` | internal/redaction/redaction.go:503-518 | then two positions of a document have different paths |
| `Positions.SolidusInKey` | internal/redaction/redaction.go:504-506 | with a solidus in a key two leaves of one document have the same path |
| `Convergence.DroppedIffReported` | internal/redaction/redaction.go:341-356 | a pass gives up a secret if and only if the unlocated or the allowed report grows |
| `Convergence.IdleDropsAll` | internal/redaction/redaction.go:341-369 | a pass that replaces nothing gives up all its secrets, which is why the loop may stop there |
| `Convergence.SuccessIsClean` | internal/redaction/redaction.go:322-371 | after every successful run, whatever the scanner remembers between passes: the last scan was one of the final document and found only placeholders and secrets that were given up, and none was given up if and only if both reports are empty |
| `Convergence.NoReplacementNoChange` | internal/redaction/redaction.go:377-381 | a run that replaces nothing ends with the document it started from |
| `Convergence.VerbatimIfClean` | internal/redaction/redaction.go:275-391 | redacting the output of a run with any scanner whose first scan of it finds nothing to chase makes no replacement and returns those bytes verbatim, opaque leaves included |
| `Convergence.Idempotent` | internal/redaction/redaction.go:322-391 | for a scanner that is a function of the text: redacting the output of a run with empty unlocated and allowed reports makes no replacement and returns those bytes verbatim |
| `Convergence.OutputIsFramed` | internal/redaction/redaction.go:288-291 | what a successful run hands back differs from the document in eligible string leaves that are not opaque, and blanking its opaque leaves gives the document the loop ended with |
| `Convergence.OpaqueDoesNotShow` | internal/redaction/redaction.go:92-96 | two documents that differ only in opaque leaves give the same report and the same kind of result |
| `OpaqueLeaves.DetachedAttached` | internal/redaction/redaction.go:383-385 | putting the opaque leaves back and taking them out again gives the rewritten document |
| `OpaqueLeaves.AttachedIsFramed` | internal/redaction/redaction.go:383-385 | with the opaque leaves back, they are verbatim and the document differs from the original in eligible string leaves only |
| `OpaqueLeaves.StaysBlank` | internal/redaction/redaction.go:401-421 | a blanked leaf is changed by no run |
| `OpaqueLeaves.SameDetached` | internal/redaction/redaction.go:401-421 | documents that differ only in opaque leaves are the same once these are taken out |
| `RedactionRuns.EveryVersionIsFramed` | internal/redaction/redaction.go:306-371 | every document that any run scans, also of a run that fails, differs from the input in eligible string leaves only |
| `RedactionRuns.EveryVersionKeepsLines` | internal/redaction/redaction.go:788-804 | every rendering a run scans has as many lines as the first and does not end in a line feed |
| `RedactionRuns.FirstCutIsKept` | internal/redaction/betterleaks.go:225-261 | over every run the document is cut once: all later passes reuse the line ranges of the first, also after failed scans |
| `RedactionRuns.EveryPassFindsWhole` | internal/redaction/betterleaks.go:222-307 | in every pass of every run, for a detector local within a window of lines, a successful scan by the chunked and caching scanner reports a finding if and only if the detector finds it in the whole rendered document; single-line rules need nothing of the document, others only that the document as it was given can be cut for the window |
| `DetectedRuns.EveryPassFindsLeaves` | internal/redaction/redaction.go:306-322 | in every pass of every run with the chunked and caching scanner, a successful scan reports what the rules find on single lines for every leaf that holds it |
| `DetectedRuns.DetectedIsGone` | internal/redaction/redaction.go:275-375 | from the leaves through the rendering, the chunks, the cache and the loop: when a run succeeds, a secret that the rules report on every line that holds it is in no leaf of the final document, unless it was given up, is an open escape only, or is taken for a placeholder |
| `RenderedLeaves.LeafOnItsLine` | internal/redaction/redaction.go:311-317 | each string leaf stands on one line of the rendering: the indentation of its depth, its key if it has one, and its encoding in quotes |
| `RenderedLeaves.RenderHolds` | internal/redaction/redaction.go:788-805 | whatever a string leaf holds is in the rendered text |
| `ReadBack.RenderInjective` | internal/redaction/redaction.go:788-805 | documents that differ in a key, a leaf or a scalar are rendered differently |
| `ReadBack.ReadValue` | internal/redaction/redaction.go:788-805 | a value can be read off the front of a rendered text |
| `RedactionRuns.LastVersion` | internal/redaction/redaction.go:322-371 | the last document a successful run scans is the one it ends with |
| `RedactionRuns.RememberingIsIdempotent` | internal/redaction/redaction.go:299-391 | for the chunked and caching scanner over a local detector: redacting the output of a run with empty unlocated and allowed reports again, with a new scanner, makes no replacement and returns those bytes verbatim |
| `Rendering.FramedKeepsLines` | internal/redaction/redaction.go:788-805 | rewriting string leaves never changes the number of lines of the indented rendering |
| `Rendering.ObjectEndsNoLine` | internal/redaction/redaction.go:794-805 | a rendered object does not end in a line feed |
| `Rendering.EncodedOnOneLine` | internal/redaction/redaction.go:791-793 | an encoded string holds no line feed |
| `Counterexamples.PlaceholderCompletesSecret` | internal/redaction/redaction.go:580 | without the bracket condition elimination fails: a placeholder that overlaps the secret recreates it |
| `Counterexamples.ContainingPlaceholderKeepsSecret` | internal/redaction/redaction.go:580 | for every body: a placeholder that contains the secret leaves the secret in place |
| `Counterexamples.OverlappingPlaceholderKeepsSecret` | internal/redaction/redaction.go:580 | for every split of a secret in two: a placeholder that ends in its start leaves the secret in some body |
| `Counterexamples.ContinuingPlaceholderKeepsSecret` | internal/redaction/redaction.go:580 | a placeholder that starts with the end of the secret continues what stood in front of it |
| `Counterexamples.SpanningSecretTakesMarker` | internal/redaction/redaction.go:543-593 | a secret that spans lines takes the marker of the second line with it, and another secret on that line is then replaced, contrary to the comment on the marker flag |
| `Counterexamples.MarkedLeafLosesLine` | internal/redaction/redaction.go:537-607 | the same on the whole leaf: its marked line is gone and the secret it covered is replaced |
| `Counterexamples.MarkerInPlaceholder` | internal/redaction/redaction.go:547-549 | a rule whose id is a marker gives markers to bodies that had none under the default placeholder |
| `Counterexamples.NeverConverges` | internal/redaction/redaction.go:306-375 | with an unrecognised placeholder that is detected as a secret the loop ends in non-convergence for every bound on the passes |
| `Pending.PendingSecrets` | internal/redaction/redaction.go:432-464 | the loop and the sort compute the specified pending list |
| `Pending.CanonicalList` | internal/redaction/redaction.go:429-464 | the list is strictly ordered, longest first and then by bytes, holds every wanted secret, and each carries the rule of the first finding of that secret |
| `Pending.PendingWanted` | internal/redaction/redaction.go:432-464 | the secrets in the list are exactly the trimmed, non-empty, not skipped secrets that are no placeholder |
| `Pending.ContainingSecretFirst` | internal/redaction/redaction.go:429-431 | no secret is processed before another pending secret that contains it |
| `Pending.OrderIndependent` | internal/redaction/redaction.go:457-462 | findings in another order give the same secrets in the same order |
| `Order.BelowIff` | internal/redaction/redaction.go:457-462 | the order that breaks ties is the one of strings: a proper prefix first, else the smaller character where they first differ |
| `Leaf.SurvivorsAreRecorded` | internal/redaction/redaction.go:537-607 | a pending secret that still occurs in a leaf after the pass is recorded as kept or protected, whatever the markers, the path filter and the whole-leaf fallback did |
| `Leaf.EligibleLeafIsFree` | internal/redaction/redaction.go:551-607 | in an eligible leaf without markers no pending secret is left in the encoded body, although shorter secrets are substituted after longer ones and the whole leaf may be dropped |
| `Elimination.RemovedIff` | internal/redaction/redaction.go:580 | strings.ReplaceAll removes a secret from every text if and only if the placeholder does not hold it, does not end in a start of it and does not continue a start of it that can stand in front of an occurrence |
| `Elimination.FoldRemovesIff` | internal/redaction/redaction.go:551-593 | without markers, folding any list of secrets in pending order through any body removes a given secret of the list if and only if no placeholder can touch it |
| `Elimination.LeavesFreeIff` | internal/redaction/redaction.go:537-607 | with bracketed placeholders and without markers, a well-encoded secret is gone from every eligible leaf, whatever the leaf and the other secrets of the list in pending order, if and only if no placeholder can touch it; some plain character is in neither the secret nor the placeholder |
| `Elimination.AddsNoMarkerIff` | internal/redaction/redaction.go:547-549 | the placeholder of a rule gives no body a marker, whatever the body and the secret, if and only if it can touch neither marker |
| `Leaf.StaysAbsent` | internal/redaction/redaction.go:551-593 | a secret that is gone never reappears through the later substitutions in the same leaf |
| `Leaf.ApplyEliminates` | internal/redaction/redaction.go:551-593 | each pending secret that no placeholder of the list can touch is gone from the body or recorded as kept |
| `Leaf.ApplyPatchedOrSevered` | internal/redaction/redaction.go:568-605 | folding all secrets through a body leaves it as the encoder writes it but for codes cut short, or with a severed escape |
| `Rebuilding.DecodesIffClean` | internal/redaction/redaction.go:601-606 | for every body, trimmed secret and encoded bracketed placeholder: the substituted body decodes if and only if the text in front of each substituted occurrence, read from the one substituted before it, ends outside an escape; it is then well encoded |
| `Rebuilding.RebuiltIffClean` | internal/redaction/redaction.go:568-607 | for a leaf and one secret that is substituted in it: the leaf is rebuilt from the substituted body if all these cuts are clean, and is the bare placeholder otherwise |
| `Rebuilding.CleanLeafIsRebuilt` | internal/redaction/redaction.go:568-607 | when the cuts of all secrets are clean at their turns, the encoded leaf after the pass is the body all secrets were folded through |
| `Rebuilding.AlignedLeafIsRebuilt` | internal/redaction/redaction.go:568-607 | in particular the leaf is rebuilt, and never dropped, when all occurrences start outside escapes |
| `Counterexamples.SeveredLeafIsDropped` | internal/redaction/redaction.go:601-604 | a leaf that is dropped: the secret is the letter of an escape |
| `Counterexamples.MisalignedLeafIsRebuilt` | internal/redaction/redaction.go:568-607 | a leaf that is rebuilt although an occurrence starts inside an escape, since the occurrence in front of it takes the rest of that escape |
| `Counterexamples.LaterSecretTakesOpenCode` | internal/redaction/redaction.go:568-607 | two secrets in pending order, the first of which cuts a code open and the second takes the rest of it: the cut was not clean and the leaf is rebuilt |
| `MarkedLeaves.TurnKeepsMarkedIff` | internal/redaction/redaction.go:543-593 | one secret, spanning lines or not and aligned or not, when its cuts are clean: the marked lines are the same, in order and verbatim, before and after its turn if and only if no substituted occurrence holds the line break in front of a marked line or behind one |
| `MarkedLeaves.MarkedLinesSurvive` | internal/redaction/redaction.go:543-593 | with aligned secrets: the marked lines survive the pass and no other line holds a pending secret when no substituted occurrence takes a line break from a marked line |
| `MarkedLeaves.MarkedLinesSurviveIff` | internal/redaction/redaction.go:543-593 | for every leaf whose cuts are clean, whatever spans lines: the sequence of marked lines is the same before and after the pass and no other line holds a pending secret, if and only if at no turn a substituted occurrence takes a line break from a marked line |
| `Counterexamples.FarSecretTakesNoBreak` | internal/redaction/redaction.go:543-593 | a secret that spans lines but takes no line break from a marked line |
| `LineCounts.LinesAfter` | internal/redaction/redaction.go:622-648 | each substitution takes away exactly the line breaks of the secret: the number of lines after it |
| `Survival.SurvivesIff` | internal/redaction/redaction.go:622-648 | a string that the placeholder cannot touch is in the substituted text if and only if one of its occurrences meets no substituted occurrence |
| `Survival.MarkerSurvivesIff` | internal/redaction/redaction.go:547-549 | for every body and secret: after the substitution the body carries a marker if and only if a marker of the body before meets no substituted occurrence |
| `Survival.FlagStaysIff` | internal/redaction/redaction.go:547-549 | what is decided once per leaf, that it carries a marker, stays true up to the last secret if and only if at each secret some marker meets no substituted occurrence |
| `MarkedLeaves.LeftoversAreAllowed` | internal/redaction/redaction.go:543-593 | with aligned secrets, when no substituted occurrence takes a line break from a marked line, every occurrence of a pending secret left in the leaf lies within an allowed line |
| `Counterexamples.LeftoverAcrossLines` | internal/redaction/redaction.go:622-648 | without alignment a leftover can reach over the end of its marked line: an occurrence that overlaps with a spared one from inside its last escape |
| `MarkedLeaves.SpanningSecretsGone` | internal/redaction/redaction.go:171-173 | an aligned secret with a line break in it is spared nowhere and is gone after the pass |
| `MarkedLeaves.ApplyStaysAligned` | internal/redaction/redaction.go:551-593 | substituting aligned secrets one after another leaves every other secret aligned |
| `Masking.NoNewOccurrence` | internal/redaction/redaction.go:576-581 | substituting a placeholder creates no occurrence of a string it cannot touch |
| `Masking.BracketsKeepApart` | internal/redaction/redaction.go:226-231 | a placeholder delimited by brackets cannot touch a string that holds no bracket and does not occur in it |
| `Masking.Eliminated` | internal/redaction/redaction.go:576-581 | substituting every occurrence of a secret leaves none |
| `Masking.StaysSevered` | internal/redaction/redaction.go:599-605 | an escape that a substitution severed is not repaired by any later substitution |
| `Masking.StaysPatchedOrSevered` | internal/redaction/redaction.go:568-605 | one substitution keeps every unit of a body but for codes cut short by the placeholder, or severs an escape |
| `Escapes.TrimPartialEscape` | internal/redaction/redaction.go:476-482 | the result is the secret without the trailing backslash that opens an escape, and the secret itself if and only if it leaves no escape open |
| `Escapes.TrimmedEndsOnBoundary` | internal/redaction/redaction.go:466-482 | an occurrence of a trimmed secret that starts where no escape is open ends where none is; the untrimmed one ends inside an escape if and only if it had to be trimmed |
| `Escapes.EscIsParity` | internal/redaction/redaction.go:474-478 | an escape is left open if and only if the run of trailing backslashes is odd |
| `StringBody.DecodeEncode` | internal/redaction/redaction.go:599-606 | decoding an encoded string gives the string back |
| `StringBody.EncodeDecode` | internal/redaction/redaction.go:599-606 | encoding what a well-encoded body decodes to gives the body back |
| `StringBody.EncodeIsWellEncoded` | internal/redaction/redaction.go:809-818 | the encoder writes well-encoded bodies only |
| `StringBody.EncodedIsPrintable` | internal/redaction/redaction.go:809-818 | the encoder writes no control character and no line separator |
| `StringBody.DecodablePatched` | internal/redaction/redaction.go:599-606 | a body with codes cut short that still decodes is well encoded |
| `StringBody.SeveredIsUndecodable` | internal/redaction/redaction.go:601-604 | a body with a severed escape does not decode, so the whole leaf is dropped |
| `Markers.AllowedLines` | internal/redaction/redaction.go:653-664 | the loop over positions returns the spans of the lines that carry a marker, which are those of the decoded string by DecodedLines.AllowedIffMarkedPart |
| `DecodedLines.LinesAreParts` | internal/redaction/redaction.go:650-664 | the lines of an encoded string are the encodings, in order, of the parts of the string between its line feeds and carriage returns |
| `DecodedLines.AllowedIffMarkedPart` | internal/redaction/redaction.go:650-664 | an occurrence lies within an allowed line if and only if it lies in the encoding of such a part and that encoding carries one of the two markers |
| `Counterexamples.MarkerFromEscape` | internal/redaction/redaction.go:609-664 | the letter of an escape can complete a marker that the decoded line does not carry |
| `Markers.ReplaceOutsideAllowedLines` | internal/redaction/redaction.go:622-648 | the scan with its builder computes the left-to-right substitution that spares exactly the occurrences within an allowed line; replaced plus kept is the number of non-overlapping occurrences |
| `LineWise.MaskLinesSpec` | internal/redaction/redaction.go:618-648 | for aligned secrets without a line break the substitution equals the line-by-line one: marked lines verbatim, every occurrence replaced on the others |
| `LineWise.LinesOfMasked` | internal/redaction/redaction.go:618-664 | the substituted text has the same lines, each substituted on its own |
| `LineWise.AllowedHoldNoBreak` | internal/redaction/redaction.go:650-664 | no allowed line holds a line break |
| `LineWise.SpanningIsNeverAllowed` | internal/redaction/redaction.go:171-173 | an occurrence across a line break never lies within an allowed line |
| `LineWise.StaysAligned` | internal/redaction/redaction.go:568-593 | substituting an aligned secret keeps the other secrets aligned |
| `Rewriter.Rewriter.constructor` | internal/redaction/redaction.go:328-338 | a new rewriter has counted nothing |
| `Rewriter.Rewriter.RewriteMap` | internal/redaction/redaction.go:503-507 | for every order of the keys: the object becomes the specified one and the counters grow by the specified effect |
| `Rewriter.Rewriter.Rewrite` | internal/redaction/redaction.go:509-526 | the value becomes the specified one and the counters grow by the specified effect |
| `Rewriter.Rewriter.RewriteItems` | internal/redaction/redaction.go:514-518 | the same for the items of an array, in place one by one |
| `Rewriter.Rewriter.RedactLeaf` | internal/redaction/redaction.go:537-607 | the loop over the secrets, with its early exits and lazily consulted path filter, computes the specified leaf and adds exactly its tally to the counters |
| `Rewriter.Rewriter.Substitute` | internal/redaction/redaction.go:568-592 | one secret: the new body, the number replaced, and all counters but the total |
| `Rewriter.Rewriter.Record` | internal/redaction/redaction.go:582-592 | the per-rule counters and the located and kept sets after one substitution |
| `Rewriter.Rewriter.RecordProtected` | internal/redaction/redaction.go:556-565 | a protected leaf records exactly the pending secrets it holds |
| `Tree.EffectKeysAnyOrder` | internal/redaction/redaction.go:503-507 | what an object counts does not depend on the order its keys are visited in |
| `Tree.EffectConsistent` | internal/redaction/redaction.go:486-607 | in every pass the total equals the sum over rules, something was located if and only if something was replaced, and something was kept if and only if the allowed report is not empty |
| `Tree.TreeSurvivorsRecorded` | internal/redaction/redaction.go:503-607 | a pending secret is absent from the whole rewritten document or recorded as kept or protected |
| `Tree.NothingToDo` | internal/redaction/redaction.go:503-607 | a pass whose secrets occur nowhere changes and counts nothing |
| `Tree.ZeroCountUnchanged` | internal/redaction/redaction.go:365-369 | a pass that replaces nothing leaves the document as it is |
| `Tree.PassTouches` | internal/redaction/redaction.go:503-607 | a pass changes only eligible string leaves that hold a pending secret |
| `Placeholders.RecognisedIff` | internal/redaction/redaction.go:226-241 | the recogniser accepts the default placeholder of a rule id if and only if the id holds no closing bracket and no white space |
| `Placeholders.RecognisedEncodedIff` | internal/redaction/redaction.go:436-448 | in the encoded form in which it is met in a document, the placeholder is recognised if and only if the id holds no closing bracket and no space: other white space is escaped |
| `Placeholders.UnrecognisedPlaceholder` | internal/redaction/redaction.go:233-241 | a rule id with a blank gives a placeholder that is not recognised |
| `Placeholders.DefaultIsBracketed` | internal/redaction/redaction.go:226-231 | the encoded default placeholder is delimited by brackets for every rule id |
| `Placeholders.DefaultSeparate` | internal/redaction/redaction.go:226-241 | with the default placeholder, pending secrets without brackets that occur in no placeholder meet the condition of the convergence and elimination results |
| `DuplicateKeys.RejectDuplicateKeys` | internal/redaction/redaction.go:723-786 | the loop with its frame stack computes the specified run of the stack machine |
| `DuplicateKeys.RunValue` | internal/redaction/redaction.go:739-785 | for every stack and every continuation: the tokens of a value make the machine stop at the first repeated key of the value or go on behind it |
| `DuplicateKeys.FirstIffRepeats` | internal/redaction/redaction.go:716-722 | a first repeated key exists if and only if some object in the value, at any depth, repeats a key |
| `DuplicateKeys.DuplicateIffRepeats` | internal/redaction/redaction.go:716-786 | on any stream of complete values a duplicate is reported if and only if one of them repeats a key, and the key reported is the first repeated one |
| `DuplicateKeys.StartDuplicateIff` | internal/redaction/redaction.go:739-785 | for a stream that ends anywhere, also inside an object: a duplicate is reported if and only if what was read so far repeats a key, and the stream is invalid if and only if it ends in an error and repeats none |
| `Breaks.CutAtEscape` | internal/redaction/betterleaks.go:409-422 | the loop stops in front of the first escape whose letter is among the terminators, reading escapes as units |
| `Breaks.CutIsFirstBreak` | internal/redaction/betterleaks.go:394-422 | the cut is at the first such escape, read as a unit, or there is none |
| `Breaks.CutBeforeBreak` | internal/redaction/betterleaks.go:407-422 | a text without such an escape that is followed by one is exactly what the cut returns |
| `Scanner.AppendSecret` | internal/redaction/betterleaks.go:359-370 | a finding is appended with its cut secret unless that is empty |
| `Scanner.RecordedStops` | internal/redaction/betterleaks.go:359-422 | what is recorded is a prefix, cut only for the two rules concerned, at the first terminator escape |
| `Scanner.Report` | internal/redaction/betterleaks.go:188-205 | the primary match and then every component that is neither nil nor optional, as Matches.ReportedIff and Matches.FindingsInOrder say |
| `Matches.ReportedIff` | internal/redaction/betterleaks.go:188-205 | a report gives a finding if and only if the finding is not empty and is what is recorded of the whole match or of a component that is neither nil nor optional |
| `Matches.FindingsInOrder` | internal/redaction/betterleaks.go:188-205 | the whole match comes first, and reading one component more appends what is recorded of it, or nothing if it is nil or optional |
| `Matches.OptionalDoesNotShow` | internal/redaction/betterleaks.go:188-205 | taking the optional components out of every report changes nothing that is collected |
| `Matches.CollectedIff` | internal/redaction/betterleaks.go:160-215 | what is collected for a chunk is exactly what is recorded of the matches reported for it |
| `Matches.FindingsConcat` | internal/redaction/betterleaks.go:188-205 | the findings of reports are those of the first ones followed by those of the others |
| `Matches.NothingCollectedIff` | internal/redaction/betterleaks.go:177-215 | the scan of chunks fails if and only if it was cancelled or a result is an error or out of range |
| `Scanner.ScanChunks` | internal/redaction/betterleaks.go:160-215 | the loop over the result stream collects the findings per chunk in order of arrival, and fails on an error, an invalid chunk index or cancellation |
| `Scanner.InterleavingDoesNotMatter` | internal/redaction/betterleaks.go:170-176 | for every interleaving that keeps the order within each chunk the collected findings are those of the sequential scan |
| `Chunks.SplitLines` | internal/redaction/betterleaks.go:439-471 | the nested loops compute the specified cut |
| `Chunks.CutIsOrderly` | internal/redaction/betterleaks.go:429-471 | from any line start on: chunks begin and end at line boundaries, starts never go back behind the previous fresh text or over more than overlap lines, and every chunk but the last carries at least size new bytes, but less without its last line |
| `Chunks.CutIsLinear` | internal/redaction/betterleaks.go:429-471 | for every text, size and overlap the chunks cover the text in order, the new text of each reaches size with its last line only, none reaches back over more than overlap lines, chunks that are not neighbours do not overlap, and together they are at most twice as long as the text |
| `Chunks.AtMostTwo` | internal/redaction/betterleaks.go:432-434 | a byte lies in at most two chunks, and those are neighbours |
| `LineRanges.LineSpans` | internal/redaction/betterleaks.go:311-327 | the carried-forward count gives the line range of every span |
| `LineRanges.Advance` | internal/redaction/betterleaks.go:335-345 | the inner loop reaches the offset where a later line begins, or the end of a shorter text |
| `LineRanges.ByteSpans` | internal/redaction/betterleaks.go:331-355 | the advancing and rewinding loop gives the byte span of every line range |
| `LineRanges.CutRoundTrip` | internal/redaction/betterleaks.go:309-355 | byteSpans undoes lineSpans on every cut |
| `LineRanges.CutRanges` | internal/redaction/betterleaks.go:309-327 | the line ranges of a cut follow each other without a gap over all lines |
| `LineRanges.CarriedOver` | internal/redaction/betterleaks.go:329-355 | on another text with as many line feeds the spans start at the same lines, and cover it entirely if and only if the cut text does not end in a line feed or the other one does |
| `LineRanges.LastLineLeftOut` | internal/redaction/betterleaks.go:329-355 | an input where the carried spans leave out the last line |
| `LocalScan.RangesFindWhole` | internal/redaction/betterleaks.go:429-438 | ranges that keep every pair of lines within the window together find exactly what the whole text holds |
| `LocalScan.CutKeepsPairs` | internal/redaction/betterleaks.go:429-471 | every two lines within the window share a chunk: always for neighbouring lines, and up to overlap lines apart when that many lines fit in a chunk |
| `LocalScan.ChunkedFindsWhole` | internal/redaction/betterleaks.go:247-261 | the chunked scan finds exactly what a scan of the whole text finds, on the text that was cut and on later versions that reuse its line ranges |
| `DocumentScanner.StepIsFromScratch` | internal/redaction/betterleaks.go:247-307 | one scan on a sound memory returns what scanning all chunks from scratch returns and leaves the memory sound |
| `DocumentScanner.MemorySound` | internal/redaction/betterleaks.go:237-239 | after every sequence of calls, with failures and cancellations, each remembered entry is the detector's answer for the chunk text of that digest |
| `DocumentScanner.EveryScanIsFromScratch` | internal/redaction/betterleaks.go:222-307 | over every sequence of versions each successful scan returns exactly what scanning all current chunks from scratch returns |
| `DocumentScanner.RescansChangedOnly` | internal/redaction/betterleaks.go:222-229 | behind a successful scan the next one scans exactly the chunks whose text the version before did not have |
| `DocumentScanner.ScanFailsIff` | internal/redaction/betterleaks.go:247-299 | a scan fails if and only if it was cancelled before, or some chunk has to be scanned and that is cancelled or yields an error; it then remembers the same findings |
| `CachedScanner.CachedScanner.constructor` | internal/redaction/betterleaks.go:218-220 | a new document scanner remembers nothing |
| `CachedScanner.CachedScanner.Scan` | internal/redaction/betterleaks.go:247-307 | the method on the fields chunks, lines and findings performs the specified step, including what it leaves behind when the scan fails |
| `CachedScanner.CachedScanner.Lookup` | internal/redaction/betterleaks.go:275-283 | remembered findings are put in their places and the other indices are listed in order |
| `CachedScanner.CachedScanner.Fill` | internal/redaction/betterleaks.go:294-296 | the scanned findings go to the stale places and the others stay |
| `CachedScanner.CachedScanner.Rebuild` | internal/redaction/betterleaks.go:301-304 | the new memory holds this version only, a later chunk overwriting an earlier one with the same digest |
| `ScannerRuns.RangesComeFromACut` | internal/redaction/betterleaks.go:230-261 | after any calls the remembered ranges are those of a cut of the text of the last call that cut |
| `ScannerRuns.EveryScanFindsWhole` | internal/redaction/betterleaks.go:222-307 | for a local detector, over every sequence of calls: when the text whose cut is in use can be cut for the window and does not end in a line feed unless the version at hand does, a successful scan reports a finding if and only if the detector finds it in that whole version |
| `ScannerRuns.FirstScanFindsPart` | internal/redaction/betterleaks.go:247-307 | a new scanner reports nothing that the detector does not find in the whole text, however the text is cut |
| `InputValues.SplitArgs` | pkg/policies/policies.go:898-918 | the loop returns the trimmed, non-empty fields of the line |
| `InputValues.GetValue` | pkg/policies/policies.go:858-876 | no value, one value or a list, from the trimmed non-empty strings |
| `InputValues.ArgOf` | pkg/policies/policies.go:867-875 | there is no argument if and only if there is no value, and the argument lists exactly the values |
| `InputValues.GetInputArguments` | pkg/policies/policies.go:832-856 | for every visiting order: an input is passed on if and only if it has a value, with all its values in order |
| `InputValues.AppendIsHomomorphic` | pkg/policies/runtime_inputs.go:177-199 | for all contract and runtime values the values of the merged text are the values of the contract followed by those of the runtime, whatever line feeds, commas and escapes they hold |
| `ArgSplit.ValuesAsDocumented` | pkg/policies/policies.go:832-856 | an input none of whose lines holds the internal placeholder or a start of it that an escaped comma completes has exactly the documented values: line by line, the fields between unescaped commas, trimmed, without the empty ones |
| `InputValues.TrimSpaceSpec` | pkg/policies/policies.go:861-862 | what is cut off a value is white space, and what is left neither starts nor ends with any |
| `InputValues.NonBlankIff` | pkg/policies/policies.go:858-876 | the values kept are exactly what is left of the fields, if anything is |
| `ArgSplit.SplitArgsCorrectIff` | pkg/policies/policies.go:878-918 | splitArgs returns the documented list if and only if the line holds neither its internal placeholder nor one of the two starts of it that an escaped comma completes |
| `ArgSplit.BadIffTainted` | pkg/policies/policies.go:899-912 | marking puts the placeholder where the line has no escaped comma if and only if the line holds one of these three strings |
| `ArgSplit.NoDollarIsFine` | pkg/policies/policies.go:878-918 | a line without a dollar sign is always split as documented |
| `ArgSplit.PlaceholderIsMissplit` | pkg/policies/policies.go:878-918 | an input that is not split as documented: the placeholder itself comes out as a comma |
| `References.ParsePrinted` | pkg/policies/loader.go:309-358 | parsing any printed form with optional scheme, provider, organisation and digest recovers the parts |
| `References.EveryReference` | pkg/policies/loader.go:309-358 | every text with no at-sign but that of a digest is such a printed form |
| `References.MatchesIff` | pkg/policies/runtime_inputs.go:143-168 | on printed references, URLs with a path included, a scope matches if and only if its name is that of the reference or of the policy and its digest, if any, is that of the reference, or it is written as the metadata name is, or it has no name and is written as the reference is; with a metadata name free of separators only the first case is left |
| `References.SpecificityOf` | pkg/policies/runtime_inputs.go:115-141 | a digest counts two and any qualification one, so a digest outweighs every qualification |
| `RuntimeInputs.MergeRuntimeInputs` | pkg/policies/runtime_inputs.go:183-199 | for every visiting order the merged map holds every key, with the runtime value appended to a non-empty contract value |
| `RuntimeInputs.MatchingScopes` | pkg/policies/runtime_inputs.go:99-113 | for every visiting order the result lists exactly the matching scopes in ascending order of specificity and text |
| `RuntimeInputs.ScopeListUnique` | pkg/policies/runtime_inputs.go:93-98 | there is only one such list |
| `RuntimeInputs.ScopesRanked` | pkg/policies/runtime_inputs.go:104-111 | each scope in the list is more specific than those in front of it, or as specific with a greater text |
| `RuntimeInputs.ForPolicy` | pkg/policies/runtime_inputs.go:61-91 | the inputs to append and to replace are the folds over the ordered scopes, and the matched scopes are listed once each |
| `RuntimeInputs.MergedValues` | pkg/policies/runtime_inputs.go:177-199 | per key, the values after a merge are those before it followed by the runtime ones |
| `RuntimeInputs.LayeredResolution` | pkg/policies/runtime_inputs.go:52-113 | the final value comes from the greatest matching override scope that sets the input, else the global override, else it lists the contract values, the global appends and the scoped appends in order |
| `RuntimeInputs.DecidesUnique` | pkg/policies/runtime_inputs.go:93-98 | the deciding override scope is unique, so map iteration order cannot show |

## Left out

- The betterleaks detector, its rules and the regular expression engine: a detector is any function from a text to reports.
- Go's `encoding/json`, except for string bodies and the indented rendering: the document decoder and the compact encoder
  are parameters, and `Convergence.Idempotent` asks that decoding undoes encoding on the documents of the run.
- Invalid UTF-8: a text is a sequence of characters, and positions and lengths count characters instead of bytes.
- Updating the tree in place: the rewriter returns the new value of each node, and opaque leaves are put back by walking
  the original instead of through pointers, so sharing between nodes is not modelled.
- `RedactText`, which wraps a text in a document.
- Opaque filters that look at the other fields of the object: whether a string is opaque depends here on the path of its
  object and on its key, because a filter that reads its neighbours can depend on the order of a map.
- Timing and synchronisation: a cancelled context is a flag of a call, concurrent scanning is an arbitrary interleaving of
  results, and the mutex, the limit on goroutines and the ruleset version do not appear.
- The digest is an arbitrary function that is assumed to be free of collisions on the chunk texts of a run.
- Sorting is by insertion; the orders are strict on the elements, so the sorted list is unique.
- The difference between a nil map and an empty one.
- Redact.Redact: a scanner depends on the pass number and the text only, the pass number standing for what it remembers.
- Leaf.EligibleLeafIsFree: states one direction, for a given list; the exact condition over all lists in pending order is
  `Elimination.LeavesFreeIff`.
- Rebuilding.CleanLeafIsRebuilt: states one direction for a list of secrets, since a later secret can take away a code that
  an earlier one cut open (`Counterexamples.LaterSecretTakesOpenCode`); the exact condition for one secret is
  `Rebuilding.RebuiltIffClean`.
- MarkedLeaves.MarkedLinesSurviveIff: is for leaves with clean cuts, which are rebuilt.
- MarkedLeaves.LeftoversAreAllowed: is for aligned secrets; `Counterexamples.LeftoverAcrossLines` is an input without
  alignment where it fails.
- References.MatchesIff: is for references without an at-sign in front of the digest.
- ReadBack.RenderInjective: asks that scalars have the text of numbers, of true, false or null.
- RunReports.AllowedIff: names occurrences in the body that the secrets before it left; for aligned secrets
  `LeafEvents.AnyOccurrence` says that any occurrence in that body will do.
- RuntimeInputs.LayeredResolution: describes the merged arguments; defaults and template bindings in `ComputeArguments`
  are not part of this model.
- The tracker of unmatched scopes, policy execution, policy loaders, gates and groups.
- The command line, the control plane, storage, messaging, telemetry and schema validation.
