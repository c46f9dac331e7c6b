# Isoform alignment of uniprotService, in Dafny

uniprotService reads a UniProt entry and lines up its protein isoforms. The
canonical isoform comes first, then every modified isoform. Each modified
isoform lists the edits (UniProt "VSP" modifications) that turn the
canonical sequence into its own: a 1-based range `begin .. end` of the
canonical sequence and the substitution that replaces it.

`getAlignmentPos` gives every isoform an aligned buffer. A buffer holds a
sequence into which gap characters (`-`) are spliced, and a list of typed
features (`mismatch`, `gap`, `gapD`). It then replays every isoform's edits,
in list order, against every buffer, in list order. Each buffer decides for
itself what an edit means to it (`AlignedSequence.applyModification`):
- If the edited span is longer than the substitution, the edit is a
  deletion.
- Otherwise it is an insertion or a same-length mismatch.

The answer depends on whether the buffer belongs to the isoform that
declared the edit, on the gaps already recorded, and on the buffer's own
isoform's edits.

The model has five layers:

- **Value records and beans** (`range.dfy`, `modification.dfy`,
  `sequence_feature.dfy`, `isoform.dfy`, `isoform_records.dfy`):
  - the mutable Java beans are classes whose setters change one field;
  - a feature stamped onto a buffer is a `Feature` value with Java's
    `equals`/`hashCode`, including 32-bit wrap-around;
  - the inner `Isoforms.Modification` read by the engine is a datatype
    whose `GetEnd()` is one past the stored end.
- **One call** (`alignment.dfy`): what one `applyModification` call does to
  one buffer, as functions of the buffer's state (`ApplyStep`,
  `DeletionStep`, `InsertionStep`). The lemmas about them state each branch.
- **The buffer class** (`aligned_sequence.dfy`): `AlignedSequence`, with
  its `sequence` and `features` fields reassigned in place. Each method is
  proved to compute exactly the corresponding step function.
- **The replay order** (`replay.dfy`): every isoform, every edit, every
  buffer, with an exception ending the whole replay. It is stated once for
  any per-buffer step, with lemmas about what the replay keeps.
- **The driver** (`isoforms.dfy`): `getAlignmentPos` as nested loops over
  the buffer objects, proved to leave buffer `k` in the state that `Align`
  gives for isoform `k`. Also here: `getMaxSequenceLength`, and the id
  taken after the last `/` of a URI.

Java exceptions on the alignment path are modelled as a `thrown` result:
- `NullPointerException` from a null id or a null sequence;
- `StringIndexOutOfBoundsException` from `substring`;
- `IllegalArgumentException` from `nCopies`.

A throw ends `getAlignmentPos`, so the replay stops there.

Where the code and the documented behaviour differ, the model follows the
code:
- A deletion leaves the declaring isoform's buffer alone and pads every
  other buffer (see Findings).
- Net-growth insertions splice getEnd() - begin + |substitution| - 1 gap
  characters into the other buffers, and record no `gapI` feature because
  the `addFeature` call is commented out (see Findings).
- `movedStart` counts only features typed exactly `gap`. The "already
  covered" test accepts any type that starts with `gap`.

## Model

| member | source | states |
|---|---|---|
| Ranges.Range.constructor | src/main/java/de/sybig/uniprotFetcher/Range.java:9-10 | both ends start at -1, so a fresh range is not valid |
| Ranges.Range.SetBegin | src/main/java/de/sybig/uniprotFetcher/Range.java:16-18 | sets begin only; the length becomes end - begin, exclusive of the end |
| Ranges.Range.SetEnd | src/main/java/de/sybig/uniprotFetcher/Range.java:24-37 | sets end only; the length is end - begin; valid exactly when both ends are positive |
| Ranges.Range.IsValid | src/main/java/de/sybig/uniprotFetcher/Range.java:28-33 | true exactly when begin and end are both positive |
| Ranges.Range.GetLength | src/main/java/de/sybig/uniprotFetcher/Range.java:35-37 | end - begin, exclusive of the end |
| Modifications.Modification.constructor | src/main/java/de/sybig/uniprotFetcher/Modification.java:5-8 | Java field defaults: null substitution and id, zero coordinates |
| Modifications.Modification.SetSubstitution | src/main/java/de/sybig/uniprotFetcher/Modification.java:18-20 | sets the substitution, nothing else changes |
| Modifications.Modification.SetBegin | src/main/java/de/sybig/uniprotFetcher/Modification.java:26-28 | sets begin; the inclusive length end - begin + 1 shifts by the change |
| Modifications.Modification.SetEnd | src/main/java/de/sybig/uniprotFetcher/Modification.java:30-36 | getEnd returns the stored end unchanged; the length is end - begin + 1 |
| Modifications.Modification.GetLength | src/main/java/de/sybig/uniprotFetcher/Modification.java:10-12 | the inclusive length end - begin + 1 |
| Modifications.Modification.GetEnd | src/main/java/de/sybig/uniprotFetcher/Modification.java:30-32 | the stored end, with no offset |
| Modifications.Modification.SetId | src/main/java/de/sybig/uniprotFetcher/Modification.java:42-44 | sets the id, nothing else changes |
| SequenceFeatures.Wrap32 | src/main/java/de/sybig/uniprotFetcher/SequenceFeature.java:69-73 | Java int arithmetic: the result is in the 32-bit range and congruent to the exact value |
| SequenceFeatures.StringHash | src/main/java/de/sybig/uniprotFetcher/SequenceFeature.java:72 | the type's hash, computed as String.hashCode in 32-bit arithmetic, is an int |
| SequenceFeatures.Feature.HashCode | src/main/java/de/sybig/uniprotFetcher/SequenceFeature.java:67-74 | 7, then 29 * hash + start, end, type hash, wrapping; always an int |
| SequenceFeatures.Feature.Length | src/main/java/de/sybig/uniprotFetcher/SequenceFeature.java:26-28 | the inclusive length end - start + 1 |
| SequenceFeatures.Feature.Equals | src/main/java/de/sybig/uniprotFetcher/SequenceFeature.java:76-98 | false for null; otherwise equal start, end and type, with movedStart not compared |
| SequenceFeatures.EqualsIsEquivalence | src/main/java/de/sybig/uniprotFetcher/SequenceFeature.java:76-98 | equals is reflexive, symmetric and transitive, and false for null |
| SequenceFeatures.EqualsIgnoresMovedStart | src/main/java/de/sybig/uniprotFetcher/SequenceFeature.java:87-97 | movedStart plays no part in equals or hashCode |
| SequenceFeatures.EqualFeaturesHashEqually | src/main/java/de/sybig/uniprotFetcher/SequenceFeature.java:67-98 | equal features have equal hash codes |
| SequenceFeatures.SequenceFeature.constructor | src/main/java/de/sybig/uniprotFetcher/SequenceFeature.java:11-18 | zero start and end, null type, movedStart 0 |
| SequenceFeatures.SequenceFeature.FromModification | src/main/java/de/sybig/uniprotFetcher/SequenceFeature.java:20-28 | both ends shifted by movedStart; the movedStart field stays 0 (shadowed); the length equals the modification's |
| SequenceFeatures.SequenceFeature.GetLength | src/main/java/de/sybig/uniprotFetcher/SequenceFeature.java:26-28 | the bean's length is that of its start, end and type as a Feature |
| SequenceFeatures.SequenceFeature.Equals | src/main/java/de/sybig/uniprotFetcher/SequenceFeature.java:76-98 | null is unequal; otherwise the two beans' Feature values are compared |
| SequenceFeatures.SequenceFeature.HashCode | src/main/java/de/sybig/uniprotFetcher/SequenceFeature.java:67-74 | the bean's hash is its Feature value's |
| SequenceFeatures.SequenceFeature.SetStart | src/main/java/de/sybig/uniprotFetcher/SequenceFeature.java:34-36 | only start changes |
| SequenceFeatures.SequenceFeature.SetEnd | src/main/java/de/sybig/uniprotFetcher/SequenceFeature.java:42-44 | only end changes |
| SequenceFeatures.SequenceFeature.SetType | src/main/java/de/sybig/uniprotFetcher/SequenceFeature.java:50-52 | only the type changes |
| SequenceFeatures.SequenceFeature.SetMovedStart | src/main/java/de/sybig/uniprotFetcher/SequenceFeature.java:54-56 | only movedStart changes |
| IsoformBeans.Isoform.constructor | src/main/java/de/sybig/uniprotFetcher/Isoform.java:12-17 | every field starts null |
| IsoformBeans.Isoform.AddName | src/main/java/de/sybig/uniprotFetcher/Isoform.java:51-56 | creates the list when null, appends the name at the end, nothing else changes |
| IsoformBeans.Isoform.AddModification | src/main/java/de/sybig/uniprotFetcher/Isoform.java:66-71 | creates the list when null, appends the modification at the end, nothing else changes |
| IsoformBeans.Isoform.SetId | src/main/java/de/sybig/uniprotFetcher/Isoform.java:31-33 | sets the id, nothing else changes |
| IsoformBeans.Isoform.SetUrl | src/main/java/de/sybig/uniprotFetcher/Isoform.java:39-41 | sets the url, nothing else changes |
| IsoformBeans.Isoform.SetNames | src/main/java/de/sybig/uniprotFetcher/Isoform.java:47-49 | sets the names, nothing else changes |
| IsoformBeans.Isoform.SetSequence | src/main/java/de/sybig/uniprotFetcher/Isoform.java:23-25 | sets the sequence, nothing else changes |
| IsoformBeans.Isoform.SetModifications | src/main/java/de/sybig/uniprotFetcher/Isoform.java:62-64 | sets the modifications, nothing else changes |
| IsoformBeans.Isoform.SetBasedOn | src/main/java/de/sybig/uniprotFetcher/Isoform.java:73-76 | sets basedOn, nothing else changes |
| IsoformRecords.Modification.GetEnd | src/main/java/de/sybig/uniprotFetcher/Isoforms.java:459-461 | the inner modification's getEnd is one past the stored end |
| IsoformRecords.ExclusiveSpanIsInclusiveLength | src/main/java/de/sybig/uniprotFetcher/Isoforms.java:451-461 | for the same coordinates, the inner getEnd() - getBegin() equals the top-level getLength(), and the two getEnd()s differ by one |
| IsoformRecords.Isoform.constructor | src/main/java/de/sybig/uniprotFetcher/Isoforms.java:369-375 | every field starts null |
| IsoformRecords.Isoform.AddName | src/main/java/de/sybig/uniprotFetcher/Isoforms.java:409-414 | creates the list when null, appends the name, nothing else changes |
| IsoformRecords.Isoform.AddModification | src/main/java/de/sybig/uniprotFetcher/Isoforms.java:424-429 | creates the list when null, appends the modification, nothing else changes |
| IsoformRecords.Isoform.SetId | src/main/java/de/sybig/uniprotFetcher/Isoforms.java:389-391 | sets the id, nothing else changes |
| IsoformRecords.Isoform.SetUrl | src/main/java/de/sybig/uniprotFetcher/Isoforms.java:397-399 | sets the url, nothing else changes |
| IsoformRecords.Isoform.SetNames | src/main/java/de/sybig/uniprotFetcher/Isoforms.java:405-407 | sets the names, nothing else changes |
| IsoformRecords.Isoform.SetModifications | src/main/java/de/sybig/uniprotFetcher/Isoforms.java:420-422 | sets the modifications, nothing else changes |
| IsoformRecords.Isoform.SetSequence | src/main/java/de/sybig/uniprotFetcher/Isoforms.java:381-383 | sets the sequence, nothing else changes |
| Alignment.MovedStart | src/main/java/de/sybig/uniprotFetcher/AlignedSequence.java:53-58 | movedStart: the sum of end - start over the features typed exactly "gap" that start before begin |
| Alignment.IsDeletion | src/main/java/de/sybig/uniprotFetcher/AlignedSequence.java:40-47 | the deletion path: getEnd() - getBegin() is larger than the substitution's length |
| Alignment.ApplyStep | src/main/java/de/sybig/uniprotFetcher/AlignedSequence.java:40-47 | one applyModification call: the deletion step when IsDeletion holds, the insertion step otherwise |
| Alignment.DeletionStep | src/main/java/de/sybig/uniprotFetcher/AlignedSequence.java:49-80 | a null buffer id throws; the declaring buffer is left alone; any other buffer runs the deletion body with its movedStart |
| Alignment.DeletionInOther | src/main/java/de/sybig/uniprotFetcher/AlignedSequence.java:60-79 | a mismatch for a non-empty substitution; then nothing past the end, a throw for a negative index, or getEnd() - begin - sub gaps at begin + sub - 1 and a gapD feature |
| Alignment.InsertionStep | src/main/java/de/sybig/uniprotFetcher/AlignedSequence.java:82-124 | a null id throws; the declaring buffer gets a mismatch when the substitution fits; a buffer whose gap covers the edit is left alone; otherwise the insertion body |
| Alignment.InsertionInOther | src/main/java/de/sybig/uniprotFetcher/AlignedSequence.java:100-123 | the end-overlap "gap" feature, then for net growth getEnd() - begin + sub - 1 gaps at begin - 1, throwing on a bad index or count |
| Alignment.CoveredByGap | src/main/java/de/sybig/uniprotFetcher/AlignedSequence.java:156-168 | some feature whose type starts with "gap" contains [begin, begin + sub] |
| Alignment.EndOverlapGap | src/main/java/de/sybig/uniprotFetcher/AlignedSequence.java:188-215 | the "gap" feature [begin + own sub, realEnd] for the first own modification overlapped at the end, if any |
| Alignment.Dashes | src/main/java/de/sybig/uniprotFetcher/AlignedSequence.java:77 | nCopies(n, "-") joined: exactly n gap characters |
| Alignment.Splice | src/main/java/de/sybig/uniprotFetcher/AlignedSequence.java:76-78 | n gaps put in at k: the prefix before k and the rest after the gaps are the old sequence's, and removing the gaps gives it back |
| Alignment.SpliceKeepsResidues | src/main/java/de/sybig/uniprotFetcher/AlignedSequence.java:76-78 | splicing in gaps keeps every residue, in order |
| Alignment.MovedStartAppend | src/main/java/de/sybig/uniprotFetcher/AlignedSequence.java:53-58 | movedStart is a sum over the feature list, so it splits over any split of the list |
| Alignment.MovedStartOnlyCountsGaps | src/main/java/de/sybig/uniprotFetcher/AlignedSequence.java:53-58 | features not typed exactly "gap", or starting at or after begin, contribute nothing |
| Alignment.DispatchBySpan | src/main/java/de/sybig/uniprotFetcher/AlignedSequence.java:40-47 | deletion path exactly when the declared inclusive span end - begin + 1 is longer than the substitution, insertion path otherwise |
| Alignment.RealEnd | src/main/java/de/sybig/uniprotFetcher/AlignedSequence.java:196-198 | the real end is the larger of begin + substitution length and getEnd() |
| Alignment.FirstEndOverlap | src/main/java/de/sybig/uniprotFetcher/AlignedSequence.java:193-213 | the first own modification that the edit overlaps at the end, or none exactly when there is no such one |
| Alignment.ApplyStepExtends | src/main/java/de/sybig/uniprotFetcher/AlignedSequence.java:40-124 | every call, thrown or not, only splices in gaps and appends features: no shorter, the same residues, old features a prefix |
| Alignment.DeletionStepExtends | src/main/java/de/sybig/uniprotFetcher/AlignedSequence.java:49-80 | the deletion path keeps residues and appends features |
| Alignment.DeletionInOtherExtends | src/main/java/de/sybig/uniprotFetcher/AlignedSequence.java:60-79 | the deletion body keeps residues and appends features, whatever movedStart is |
| Alignment.InsertionStepExtends | src/main/java/de/sybig/uniprotFetcher/AlignedSequence.java:82-124 | the insertion path keeps residues and appends features |
| Alignment.NullIdThrows | src/main/java/de/sybig/uniprotFetcher/AlignedSequence.java:49-52 | a buffer whose isoform id is null throws on every edit and is left as it was |
| Alignment.DeletionSkipsDeclaringBuffer | src/main/java/de/sybig/uniprotFetcher/AlignedSequence.java:49-52 | a deletion leaves the declaring isoform's own buffer exactly as it was |
| Alignment.DeletionInRange | src/main/java/de/sybig/uniprotFetcher/AlignedSequence.java:60-79 | on another buffer, n >= 1 gaps go in at begin + sub - 1, removing them gives the old sequence, and a mismatch (if sub > 0) then a gapD feature are appended |
| Alignment.DeletionOutOfRange | src/main/java/de/sybig/uniprotFetcher/AlignedSequence.java:60-71 | past the end, the sequence is untouched but the mismatch feature is already appended |
| Alignment.DeletionSpliceIgnoresMovedStart | src/main/java/de/sybig/uniprotFetcher/AlignedSequence.java:72-78 | where the deletion's gaps go, and whether it throws, depends on the sequence only, not on the features |
| Alignment.InsertionOnDeclaringBuffer | src/main/java/de/sybig/uniprotFetcher/AlignedSequence.java:140-154 | on the declaring buffer the sequence never changes and a mismatch is appended exactly when the substitution fits the exclusive span |
| Alignment.InsertionAlreadyCovered | src/main/java/de/sybig/uniprotFetcher/AlignedSequence.java:156-168 | on another buffer, a gap-typed feature containing [begin, begin + sub] makes the edit a no-op |
| Alignment.InsertionAppendsEndOverlapGap | src/main/java/de/sybig/uniprotFetcher/AlignedSequence.java:188-215 | otherwise at most one feature is appended, exactly when an own modification is overlapped at the end, and it is the "gap" for the first such one |
| Alignment.NoInsertionGapRecorded | src/main/java/de/sybig/uniprotFetcher/AlignedSequence.java:108-122 | every appended feature is mismatch, gapD or gap; no gapI feature is ever recorded |
| Alignment.DeletionInOtherAppends | src/main/java/de/sybig/uniprotFetcher/AlignedSequence.java:60-79 | a deletion on another buffer appends only mismatch and gapD features |
| Alignment.InsertionInOtherAppends | src/main/java/de/sybig/uniprotFetcher/AlignedSequence.java:100-123 | an insertion on another uncovered buffer appends only "gap" features |
| Alignment.InsertionNetGrowth | src/main/java/de/sybig/uniprotFetcher/AlignedSequence.java:107-123 | net growth on another buffer puts getEnd() - begin + sub - 1 (at least 2) gaps in at begin - 1 and keeps the rest |
| Alignment.EqualLengthKeepsSequence | src/main/java/de/sybig/uniprotFetcher/AlignedSequence.java:107-108 | a same-length substitution never changes another buffer's sequence and never throws |
| AlignedSequences.AlignedSequence.constructor | src/main/java/de/sybig/uniprotFetcher/AlignedSequence.java:25-32 | the isoform's sequence with the one feature [1, length] of type null, owned by the given isoform |
| AlignedSequences.AlignedSequence.NewFeature | src/main/java/de/sybig/uniprotFetcher/AlignedSequence.java:72-75 | a new feature bean after its three setters has exactly those start, end and type |
| AlignedSequences.AlignedSequence.AddFeature | src/main/java/de/sybig/uniprotFetcher/AlignedSequence.java:248-253 | appends at the end; the sequence is untouched |
| AlignedSequences.AlignedSequence.MovedStartBefore | src/main/java/de/sybig/uniprotFetcher/AlignedSequence.java:53-58 | the loop computes MovedStart of the current features |
| AlignedSequences.AlignedSequence.ApplyModification | src/main/java/de/sybig/uniprotFetcher/AlignedSequence.java:40-47 | the new state and throw are ApplyStep's, and the buffer only grows (Extends) |
| AlignedSequences.AlignedSequence.ApplyDeletion | src/main/java/de/sybig/uniprotFetcher/AlignedSequence.java:49-80 | the new state and throw are DeletionStep's |
| AlignedSequences.AlignedSequence.DeleteInThisSequence | src/main/java/de/sybig/uniprotFetcher/AlignedSequence.java:60-79 | the new state and throw are DeletionInOther's for the given movedStart |
| AlignedSequences.AlignedSequence.ApplyInsertion | src/main/java/de/sybig/uniprotFetcher/AlignedSequence.java:82-124 | the new state and throw are InsertionStep's |
| AlignedSequences.AlignedSequence.InsertInThisSequence | src/main/java/de/sybig/uniprotFetcher/AlignedSequence.java:100-123 | the new state and throw are InsertionInOther's |
| AlignedSequences.AlignedSequence.InsertMismatchInOwningSequence | src/main/java/de/sybig/uniprotFetcher/AlignedSequence.java:140-154 | answers true exactly on the declaring buffer, and appends the mismatch there exactly when the substitution fits |
| AlignedSequences.AlignedSequence.CheckForSameModificationInCanonicalSequence | src/main/java/de/sybig/uniprotFetcher/AlignedSequence.java:156-168 | true exactly when some gap-typed feature covers [begin, begin + sub] |
| AlignedSequences.AlignedSequence.CheckForSameModificationInThisSequence | src/main/java/de/sybig/uniprotFetcher/AlignedSequence.java:170-186 | true exactly when the owning isoform declares the same begin, getEnd() and substitution |
| AlignedSequences.AlignedSequence.CheckForEndOverlapsInThisSequence | src/main/java/de/sybig/uniprotFetcher/AlignedSequence.java:188-215 | appends the "gap" feature for the first end overlap and answers whether there was one |
| Replay.Seeds | src/main/java/de/sybig/uniprotFetcher/Isoforms.java:63-66 | one fresh buffer per isoform, in list order |
| Replay.ApplyToBuffers | src/main/java/de/sybig/uniprotFetcher/Isoforms.java:72-75 | buffers not yet reached are unchanged |
| Replay.ReplayModifications | src/main/java/de/sybig/uniprotFetcher/Isoforms.java:71-77 | the first t edits of one isoform, each over every buffer, stopping at a throw; one state per buffer |
| Replay.ReplayIsoforms | src/main/java/de/sybig/uniprotFetcher/Isoforms.java:67-78 | the first i isoforms' edits, skipping a null list, stopping at a throw; one state per buffer |
| Replay.AlignWith | src/main/java/de/sybig/uniprotFetcher/Isoforms.java:58-80 | one seeded buffer per isoform, then every isoform's edits replayed with the given step; one state per isoform |
| Replay.Align | src/main/java/de/sybig/uniprotFetcher/Isoforms.java:58-80 | AlignWith with applyModification as written; one state per isoform |
| Replay.ApplyToBuffersThrownPersists | src/main/java/de/sybig/uniprotFetcher/Isoforms.java:72-75 | once a buffer throws, the later buffers are not reached |
| Replay.ReplayModificationsThrownPersists | src/main/java/de/sybig/uniprotFetcher/Isoforms.java:71-77 | once an edit throws, the isoform's later edits are not applied |
| Replay.ReplayIsoformsThrownPersists | src/main/java/de/sybig/uniprotFetcher/Isoforms.java:67-78 | once an isoform's edits throw, the later isoforms are not replayed |
| Replay.AsWrittenExtends | src/main/java/de/sybig/uniprotFetcher/AlignedSequence.java:40-47 | applyModification as written only splices in gaps and appends features |
| Replay.ApplyToBuffersExtends | src/main/java/de/sybig/uniprotFetcher/Isoforms.java:72-75 | one edit over the buffers only extends each buffer |
| Replay.ReplayModificationsExtends | src/main/java/de/sybig/uniprotFetcher/Isoforms.java:71-77 | one isoform's edits only extend each buffer |
| Replay.ReplayIsoformsExtends | src/main/java/de/sybig/uniprotFetcher/Isoforms.java:67-78 | the whole replay only extends each buffer |
| Replay.AlignKeepsEveryIsoform | src/main/java/de/sybig/uniprotFetcher/Isoforms.java:58-80 | one buffer per isoform, each at least as long as its sequence, with exactly its residues once gaps are removed, and its first feature the seed |
| Replay.NoModificationsNoChange | src/main/java/de/sybig/uniprotFetcher/Isoforms.java:67-70 | with every modification list null, the buffers stay as seeded |
| Isoforms.IsoformList | src/main/java/de/sybig/uniprotFetcher/Isoforms.java:49-56 | the canonical isoform first, then the modified ones in order |
| Isoforms.GetAlignmentPos | src/main/java/de/sybig/uniprotFetcher/Isoforms.java:58-80 | throws on a null sequence; otherwise throws exactly when Align does, and when not, the buffers are fresh and pairwise distinct, buffer k has isoform k's id and own modifications and holds Align's state k |
| Isoforms.SeedBuffers | src/main/java/de/sybig/uniprotFetcher/Isoforms.java:63-66 | throws exactly when some sequence is null; otherwise distinct fresh buffers, each seeded from its isoform |
| Isoforms.ReplayIsoformsOf | src/main/java/de/sybig/uniprotFetcher/Isoforms.java:67-78 | the outer loop leaves the buffers in ReplayIsoforms' states and throws exactly when it does |
| Isoforms.ReplayIsoform | src/main/java/de/sybig/uniprotFetcher/Isoforms.java:68-77 | a null modification list is skipped; otherwise one more isoform of the replay |
| Isoforms.ReplayModificationsOf | src/main/java/de/sybig/uniprotFetcher/Isoforms.java:71-77 | the middle loop leaves the buffers in ReplayModifications' states |
| Isoforms.ApplyToEveryBuffer | src/main/java/de/sybig/uniprotFetcher/Isoforms.java:72-75 | the inner loop leaves the buffers in ApplyToBuffers' states |
| Isoforms.ApplyToBuffer | src/main/java/de/sybig/uniprotFetcher/Isoforms.java:73-74 | buffer j takes one step, the other buffers are untouched |
| Isoforms.GetMaxSequenceLength | src/main/java/de/sybig/uniprotFetcher/Isoforms.java:222-228 | 0 for no buffers, otherwise the length of some buffer and no less than any |
| Isoforms.LastIndexOf | src/main/java/de/sybig/uniprotFetcher/Isoforms.java:275 | the last index holding the character, or -1 when there is none |
| Isoforms.IdFromUri | src/main/java/de/sybig/uniprotFetcher/Isoforms.java:275 | the suffix after the last '/', holding no '/'; the whole URI when it has none |
| Findings.AsWrittenPadsCanonical | src/main/java/de/sybig/uniprotFetcher/AlignedSequence.java:49-52 | as written, a deletion pads the canonical buffer and not the isoform's: lengths 15 and 5, features 2 and 1 |
| Findings.CorrectedDeletionLinesUp | src/main/java/de/sybig/uniprotFetcher/AlignedSequence.java:49-80 | corrected, the declaring isoform's buffer gets gaps for exactly the residues it lacks and ends as long as the canonical, and other buffers are untouched |
| Findings.CorrectedExtends | src/main/java/de/sybig/uniprotFetcher/AlignedSequence.java:40-124 | the corrected step still only splices in gaps and appends features |
| Findings.CorrectedKeepsEveryIsoform | src/main/java/de/sybig/uniprotFetcher/Isoforms.java:58-80 | the corrected alignment keeps every isoform's residues and seed feature |
| Findings.CorrectedLinesUpExample | src/test/java/de/sybig/uniprotFetcher/IsoformsTest.java:64-72 | corrected, the deletion example gives equal lengths, with 1 feature on the canonical and 2 on the isoform |
| Findings.CorrectedStep | src/main/java/de/sybig/uniprotFetcher/AlignedSequence.java:40-124 | applyModification corrected: a deletion pads only the declaring buffer; an insertion counts as covered also at begin + movedStart, and net growth pads other buffers by the extra residues and records gapI; every other branch as written |
| Findings.CorrectedDeletionStep | src/main/java/de/sybig/uniprotFetcher/AlignedSequence.java:49-80 | the deletion body runs on the declaring buffer instead of on the others |
| Findings.CorrectedCovered | src/main/java/de/sybig/uniprotFetcher/AlignedSequence.java:156-168 | a gap-typed feature contains [begin, begin + sub] at the unshifted begin, as written, or at begin + movedStart, as the loop's note asks |
| Findings.CorrectedInsertionStep | src/main/java/de/sybig/uniprotFetcher/AlignedSequence.java:82-124 | the declaring buffer as written; on other buffers the corrected covering test, then the corrected net-growth body |
| Findings.CorrectedInsertionInOther | src/main/java/de/sybig/uniprotFetcher/AlignedSequence.java:100-123 | sub - (getEnd() - begin) gaps at begin - 1 and the gapI feature that addFeature was meant to record |
| Findings.AsWrittenInsertionOverpads | src/main/java/de/sybig/uniprotFetcher/AlignedSequence.java:107-123 | as written, another buffer holding the canonical ends 2 * (end - begin + 1) - 1 characters longer than the inserting isoform, so the lengths never match |
| Findings.AsWrittenInsertionRepeats | src/main/java/de/sybig/uniprotFetcher/AlignedSequence.java:108-121 | as written, when the buffer's own isoform has no modification the insertion overlaps at the end, no feature records the insertion, so applying it twice pads twice, getEnd() - begin + sub - 1 gaps each time, features unchanged |
| Findings.CorrectedInsertionLinesUp | src/main/java/de/sybig/uniprotFetcher/AlignedSequence.java:107-123 | corrected, a canonical buffer gets sub - (end - begin + 1) gaps at begin - 1 and ends as long as the inserting isoform, with its residues before begin and after end; the declaring buffer keeps its sequence |
| Findings.CorrectedInsertionIdempotent | src/main/java/de/sybig/uniprotFetcher/AlignedSequence.java:108-116 | corrected, whatever movedStart is, the gapI recorded at begin + movedStart covers the insertion where the corrected covering test looks, so applying it again changes nothing |
| Findings.CorrectedInsertionInOtherExtends | src/main/java/de/sybig/uniprotFetcher/AlignedSequence.java:100-123 | the corrected insertion body only splices in gaps and appends features |
| Findings.AsWrittenInsertionExample | src/main/java/de/sybig/uniprotFetcher/AlignedSequence.java:119-121 | as written, E replaced by EXYZ gives `ABCD----EFGHIJ` (14) against `ABCDEXYZFGHIJ` (13) |
| Findings.CorrectedInsertionExample | src/main/java/de/sybig/uniprotFetcher/AlignedSequence.java:108-121 | corrected, the same input gives `ABCD---EFGHIJ` with a gapI feature against `ABCDEXYZFGHIJ`, both 13 |

## Left out

- Fetching the RDF file over the network and parsing the XML, from `getDocument` to `getPos`, is not modelled. The isoform objects that parsing produces are the driver's inputs.
- The SVG rendering (`getSVG`, `getSVGWithSequence` and their helpers) is not modelled beyond `getMaxSequenceLength`.
- The Dropwizard application and configuration classes, the JAX-RS annotations, logging and `toString` are not modelled.
- Java's 32-bit `int` arithmetic is modelled only in `hashCode`. Coordinates on the alignment path are unbounded integers.
- Strings are sequences of Unicode scalar values, while Java counts UTF-16 code units. So `StringHash` matches `String.hashCode`, and the sequence lengths, `substring` indices and splice positions on the alignment path match Java's, only for characters in the Basic Multilingual Plane (protein sequences are ASCII).
- A null substitution is not modelled on the alignment path: `applyModification` calls `length()` on it first, so the engine's substitution is a plain string.
- The inner `Isoforms.Modification` is a value. Its setters are used only while parsing, which is not part of this model.
- `AlignedSequence`'s `type` field and its getter and setter, `setSequence` and `setFeatures` are not modelled. Nothing on the alignment path uses them.
- Features stored in an `AlignedSequence` are `Feature` values, not shared `SequenceFeature` objects. Nothing on the alignment path mutates a feature after adding it.
- `setBasedOn` prints a line to standard output. The print is not modelled.
- The list fields of both `Isoform` classes (`names`, `modifications`) are sequence values. In Java, `setNames` and `setModifications` keep the caller's `ArrayList`, and a later `addName` or `addModification` appends to that same list, which the caller then sees; the model does not capture this aliasing.
- The driver and the buffer class follow the code as written. The corrected step (`Findings.CorrectedStep`) is replayed by the same generic `AlignWith`, and its properties are proved there; it does not replace the as-written step in the class model.
- Equal aligned lengths are not proved for a whole replay, as written or corrected. The corrected step is proved to line up one edit against a buffer holding the canonical sequence (`Findings.CorrectedDeletionLinesUp`, `Findings.CorrectedInsertionLinesUp`); overlapping edits, and edits of several isoforms meeting in one buffer, are not covered.

## Findings

| source | as written | input that shows it | evidently intended | confidence | as-written member | corrected member |
|---|---|---|---|---|---|---|
| src/main/java/de/sybig/uniprotFetcher/AlignedSequence.java:49-52 | `applyDeletion` returns early on the buffer of the isoform that declares the deletion and splices the gaps into every other buffer, the canonical one included | canonical `ABCDEFGHIJ`, isoform `ABCDE` declaring the deletion of 6..10 with an empty substitution: buffers `ABCDE-----FGHIJ` (2 features) and `ABCDE` (1 feature) | only the declaring isoform, which lacks the residues, takes the gaps: `ABCDEFGHIJ` (1 feature) and `ABCDE-----` (2 features, as IsoformsTest.java:69-71 expects) | not executed | Findings.AsWrittenPadsCanonical | Findings.CorrectedDeletionLinesUp |
| src/main/java/de/sybig/uniprotFetcher/AlignedSequence.java:119-121 | for net growth, `applyInsertion` splices getEnd() - begin + sub - 1 gap characters into every other buffer, where sub is the substitution's length, while the inserting isoform has only sub - (getEnd() - begin) more residues | canonical `ABCDEFGHIJ`, isoform `ABCDEXYZFGHIJ` declaring residue 5 replaced by `EXYZ`: buffers `ABCD----EFGHIJ` (14) and `ABCDEXYZFGHIJ` (13) | sub - (getEnd() - begin) gap characters: `ABCD---EFGHIJ`, as long as the isoform | not executed | Findings.AsWrittenInsertionOverpads | Findings.CorrectedInsertionLinesUp |
| src/main/java/de/sybig/uniprotFetcher/AlignedSequence.java:108-116 | the `gapI` feature for a net-growth insertion is built but its `addFeature` is commented out, so the "already covered" test never sees the insertion | two isoforms that both declare residue 5 replaced by `EXYZ`: the canonical buffer is padded once for each | the `gapI` feature is recorded, at begin + movedStart, and the covering test also looks there (the "consider moved start" note at line 157), so a repeat of the same insertion leaves the buffer unchanged | not executed | Findings.AsWrittenInsertionRepeats | Findings.CorrectedInsertionIdempotent |
