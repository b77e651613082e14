# A verified model of the privacy gateway

The gateway stands between a user and a language model. It detects sensitive spans in a prompt, merges what
several detectors report, replaces each accepted span with a synthetic value, sends the sanitised text
upstream, turns the synthetics in the reply back into the originals, writes a tamper-evident audit record and
purges everything it knew about the request. This project models those steps in Dafny, one module for each
component, and proves what they promise one by one and together.

## Layout

| module | models |
|---|---|
| `Sequences`, `OrderedDict`, `Text` | stable sorting and filtering, Python's insertion-ordered `dict`, leftmost non-overlapping `str.replace` |
| `Intervals` | the sweep that groups sorted spans, against the connected components of the overlap graph |
| `Detections`, `Merge`, `MergeOutcomes`, `MergeProperties`, `MergeOrder` | the merge engine, where each detection ends up, what it guarantees, and what the order of its input decides |
| `Ner`, `NerTokens` | interval union and token grouping of the named-entity detector |
| `Components`, `NameParts`, `SessionMap`, `Substitution` | name decomposition and what the parts stand for, the encrypted session map, forward and reverse substitution |
| `ForwardProperties`, `Replies`, `RoundTrip`, `CleanRequests`, `RoundTripLimits` | alignment of the splice, what the reversal makes of a reply, the echo round trip, which requests are sure of it, and exactly when it fails |
| `CheckDigits`, `Scanners`, `Synthetic`, `GeneratorProperties` | mod-97 and Luhn arithmetic, the digit-run scanners, the synthetic generator, and what each entity type gets |
| `Audit`, `AuditInterleaving`, `PostgresAudit`, `PostgresInterleaving` | the audit chain, interleaved writers, and the Postgres backend's cached head, for one writer and for many |
| `Rules`, `Retrieval`, `RetrievalProperties` | the layered rule store, top-k retrieval, who sees which rules and what a score counts |
| `SessionLifecycle`, `SessionStore` | the registry of session maps, as a state machine and as code that refines it |
| `Pipeline`, `Gateway` | concurrent requests as a state machine, and one request in code from merge to close |

Code that updates state is a method or a class proved against a function of the old state; the lemmas are
about those functions. Crypto is abstract: an AEAD that opens what it sealed (`SessionMap.Aead`), a hash without
collisions among the records at hand (`Audit.Crypto.SoundOn`, which a hash of fixed length can meet), and a MAC
under which every valid signature is on a message `record` signed (`Audit.Unforged`). A hypothesis is always a
named predicate in a `requires`, never built into a type.

## The main results

* **Replies and the echo round trip.** Any reply made of own words and registered forms, full or component, comes
  back with every form as what it means, provided each surface stands, when it is tried, exactly at its own forms
  (`CleanReplyReversed`). For every text, every list of detections and every synthesizer, a clean reply that repeats
  the sanitised text is therefore reversed into the original if equal synthetics stand for equal originals, and,
  where texts behind one synthetic are equally long, only then (`EchoRoundTrip`); hole by hole this holds without
  any condition on lengths (`EveryHoleRestoredExactly`). `ForeignFormsRoundTrip` reads cleanliness off the request. `HandleChat` carries it through merge, session map,
  substitution, reversal, audit and close. `RoundTripLimits` says which requests the generator itself rules out,
  with the exact condition for requests of custom entities and inputs that fail for every salt.
* **Merging.** The sweep's clusters are the connected components of the overlap graph; the accepted list has
  one winner for each component, disjoint and in order. Reordering the input changes no accepted span, text, tier or
  precedence; among equal claims to a span the first detected wins, so what else it decides, an entity type for
  instance, is exactly what two best detections of a component disagree on (`OrderFreeExactly`). Merging again
  changes nothing; no detection is lost or duplicated.
* **Audit.** `verify_chain` accepts exactly the prefixes of the honest log and such a prefix with one record on top
  that was signed there and then refused by the backend. A log written by interleaved writers to the in-memory backend
  verifies if and only if no append fell between another call's read and its own append; on the Postgres backend, if
  and only if every record was inserted while the head it is sealed on, from the cache or not, was still the table's.
* **Sessions.** Whatever fails, whatever runs beside it, a request that has ended has its map purged, and a
  response has been returned only with exactly one audit record. Every request handled in code is a run of that
  machine (`HandledIsRun`, `HandleNext`).
* **Rules.** What concerns other countries and other customers changes nothing a caller lists, finds or retrieves;
  the Tier 3 rules retrieved are the stable top k of the caller's own, by how many different terms they mention.
* **Identifiers.** A RIB has exactly one key; any changed digit and any swap of two unequal digits is found.
  The scanners report exactly the maximal digit runs, and what the generator makes the scanner
  for that entity type, and no other, recognises.

## Where the code and its documentation differ

The model follows the code.

* The merge engine's header promises `max + 0.05` for spans seen by more than one detector
  (`src/merge/engine.py:11-12`); the code raises the winner's own confidence (`src/merge/engine.py:177`).
  `DocumentedBoost` gives the exact condition under which the two agree, `BoostMissesMaximum` an input on which
  they do not.
* The header lets detector precedence decide between spans of equal length (`src/merge/engine.py:9-10`); the
  code asks the tier first (`src/merge/engine.py:158-162`). `DocumentedPrecedence` gives the exact condition under
  which the winner is the documented one, `OwnDetectorsKeepPrecedence` shows that the gateway's own detectors meet
  it, `TierBeatsPrecedence` gives an input that does not.
* A chain of overlapping detections keeps only its winner, so accepted spans need not cover every detected
  character (`src/merge/engine.py:145-149`). `CoverageExactly` says when they do.
* Tier 1 rules are described as immutable for customers (`src/rules/store.py:9-11`), but an upsert replaces
  whatever rule holds the id (`src/rules/store.py:80`). `UpsertKeepsOthersExactly` gives the exact condition.
* Reversal takes a synthetic to stand for one original (`src/substitution/engine.py:92-98`), but all
  `custom` entities of one request get the same token, because its tail is the start of the salt
  (`src/substitution/synthetic.py:85`, `src/substitution/synthetic.py:109`). `CustomRoundTripExactly` and
  `CustomStrayExactly` give the exact conditions, `CollisionBreaksRoundTrip` and `StrayBreaksRoundTrip` inputs.
* Ciphertexts are meant to be bound to customer and request (`src/substitution/session_map.py:127-128`), but
  separators in a customer id and in a request id together can make two scopes one. `SameAssociatedData` says exactly
  when, `SeparatorJoinsScopes` gives an input. The gateway's own request ids hold no separator
  (`src/proxy/pipeline.py:77`), and for such ids the binding never fails (`SlotBoundByRequestIds`).
* The Postgres backend is meant to keep the chain ordering by serialising writes
  (`src/audit/postgres_backend.py:16-20`), but `latest_hash` reads and fills its cache outside the lock
  (`src/audit/postgres_backend.py:42-48`). `LateCacheBreaksChain` is a run in which a late write to the cache breaks
  the chain of a call that is itself undisturbed, `VerifiesExactlyWhenUpToDate` the exact condition, `WarmRunsVerify`
  the case of a cache already filled.

## Model

| member | source | states |
|---|---|---|
| `Text.JoinInjective` | src/audit/writer.py:133-137 | two strings joined by a separator the first parts lack determine both parts, so one signed message fits one pair of hashes only |
| `Text.ReplaceFillsMarks` | src/substitution/engine.py:117-119 | if a surface occurs in a text only at marked, disjoint places, `replace` changes exactly those places and nothing else |
| `Text.ReplaceFillsExactly` | src/substitution/engine.py:117-119 | where no two occurrences of the surface overlap and the replacement differs from it, `replace` yields the text with only the marked places filled if and only if the surface occurs nowhere else |
| `Intervals.SweepCorrect` | src/merge/engine.py:131-143 | the sweep drops and repeats nothing, keeps the order, every item overlaps an earlier one of its group, and groups do not touch |
| `Intervals.SweepGroupsAreComponents` | src/merge/engine.py:131-143 | two items share a group if and only if a chain of overlapping items joins them |
| `Merge.SweepClusters` | src/merge/engine.py:131-143 | the loop over `current`, `current_end` and `clusters` computes the sweep of the detections sorted by start, longest first |
| `Merge.ResolveOverlaps` | src/merge/engine.py:126-149 | the result is the list of the clusters' winners, in cluster order; nothing for no input |
| `Merge.MergeDetections` | src/merge/engine.py:53-88 | the four result lists: span-invalid, suppressed, below threshold, and the winners of what is left, each in input order; `MergeOutcomes` says who belongs where |
| `MergeOutcomes.OutcomeExactly` | src/merge/engine.py:60-101 | in the fields of detection, entries and thresholds: span-invalid if and only if it does not read there; otherwise suppressed if and only if an entry that says something agrees with it in every field given; otherwise below threshold if and only if less confident than its tier needs; otherwise passed on |
| `MergeOutcomes.OthersNotSuppressed` | src/merge/engine.py:116-123 | an entry that gives a text, a type or a rule id suppresses nothing with another one |
| `MergeOutcomes.EmptyEntriesIgnored` | src/merge/engine.py:112-118 | entries whose fields are all absent or empty change nothing at all |
| `MergeOutcomes.TextEntrySuppresses` | src/merge/engine.py:116-123 | an entry that gives only a text suppresses exactly the span-valid detections of that text |
| `MergeOutcomes.NarrowerSuppressesLess` | src/merge/engine.py:116-123 | giving an entry that says something one more field never suppresses more |
| `MergeOutcomes.EmptyEntryWidens` | src/merge/engine.py:117-118 | an input: an entry that says nothing suppresses nothing, and with one field more it does |
| `MergeOutcomes.ThresholdsKept` | src/merge/engine.py:78-95 | nothing accepted of tier 1, 2 or 3 is below that tier's threshold, and nothing of it below threshold reaches it |
| `MergeOutcomes.ConfidenceExactly` | src/merge/engine.py:166-182 | what is accepted is its origin, with 0.05 more confidence up to 0.99 and never less if another detector passes the same span |
| `MergeOutcomes.PrecedenceAtEqualTier` | src/merge/engine.py:21-27 | on one span and in one tier structural beats NER, NER beats contextual, contextual beats any other |
| `MergeProperties.ClustersAreComponents` | src/merge/engine.py:126-143 | two passing detections share a cluster if and only if overlaps connect them |
| `MergeProperties.AcceptedDisjoint` | src/merge/engine.py:145-149 | accepted detections are pairwise disjoint, in text order, one for each cluster, and each has its cluster's winning span |
| `MergeProperties.OneWinnerPerComponent` | src/merge/engine.py:145-149 | each detection's component has exactly one accepted detection |
| `MergeProperties.WinnerFromCluster` | src/merge/engine.py:152-182 | the winner is a member of its cluster that nothing in it outranks, changed at most in confidence, never lowered, never raised past 0.99 |
| `MergeProperties.WinnerStartsFirst` | src/merge/engine.py:131-165 | among the members tied on length, tier and precedence the winner starts first, because both sorts are stable |
| `MergeProperties.OriginIsBest` | src/merge/engine.py:152-165 | the winner's origin is best in its component by rank and then by start, said without lists or sorting |
| `MergeProperties.PermutationInvariance` | src/merge/engine.py:131-165 | reordering or repeating the detections changes no accepted span, text, tier or precedence rank, nor their number |
| `MergeOrder.FirstDetectedWins` | src/merge/engine.py:156-165 | among the detections that claim a winner's span with its tier and precedence, the winner comes from the first one in the input |
| `MergeOrder.OrderFreeExactly` | src/merge/engine.py:126-182 | every reordering of the input leaves the whole accepted list as it is if and only if the best detections of each component would all be accepted as the same |
| `MergeOrder.OneBestOrderFree` | src/merge/engine.py:126-182 | in particular when no component has two different best detections |
| `MergeOrder.OrderDecidesType` | src/merge/engine.py:156-165 | one span claimed as two entity types with equal authority: the order decides which is accepted |
| `MergeProperties.AcceptedMatchText` | src/merge/engine.py:97-101 | accepted detections are disjoint, in order, and each text is exactly its slice of the source |
| `MergeProperties.MergeIdempotent` | src/merge/engine.py:53-88 | merging the accepted list again returns it unchanged with three empty reject lists |
| `MergeProperties.Conservation` | src/merge/engine.py:60-88 | as multisets, the input is the disjoint union of the three reject lists and the clustered detections; one accepted detection for each cluster |
| `MergeProperties.Dominance` | src/merge/engine.py:152-182 | every accepted detection comes from the input with at most its confidence raised, and is no shorter than anything in its cluster |
| `MergeProperties.DocumentedBoost` | src/merge/engine.py:166-182 | the documented `max + 0.05` capped at 0.99 holds of a corroborated winner if and only if its own confidence is at most 0.99 and is either the best seen on its span or at least 0.94 |
| `MergeProperties.BoostMissesMaximum` | src/merge/engine.py:166-182 | structural 0.80 and NER 0.95 on one span end at 0.85 |
| `MergeProperties.DocumentedPrecedence` | src/merge/engine.py:156-165 | the winner has the best detector precedence among the longest members if and only if one longest member has both that and the least tier |
| `MergeProperties.PrecedenceByTier` | src/merge/engine.py:156-165 | it does whenever no detector claims the tier of a stronger one |
| `MergeProperties.OwnDetectorsKeepPrecedence` | src/merge/engine.py:21-27 | so it does for the tiers the gateway's own detectors write: 1 structural, 2 NER, 3 contextual |
| `MergeProperties.TierBeatsPrecedence` | src/merge/engine.py:158-162 | an NER detection of tier 1 beats a structural one of tier 2 on the same span |
| `MergeProperties.CoverageExactly` | src/merge/engine.py:145-149 | accepted spans cover every character of every passing detection if and only if each component has a member that spans all of it |
| `MergeProperties.ChainLeavesUncovered` | src/merge/engine.py:145-149 | any chain a-b-c in which a and c do not overlap leaves some detected character uncovered |
| `Ner.MergeOverlapping` | src/detectors/ner.py:172-189 | the loop that rewrites the last span computes the stitched union of the sorted spans |
| `Ner.MergedDisjoint` | src/detectors/ner.py:172-189 | the union is in order, disjoint, and each stitched text is exactly its slice of the source |
| `Ner.MergedCoversSame` | src/detectors/ner.py:172-189 | a character is covered after the union if and only if it was before |
| `Ner.MergedByComponent` | src/detectors/ner.py:172-189 | two spans end up in one span of the union if and only if overlaps connect them |
| `Ner.LongestGivesType` | src/detectors/ner.py:175-187 | each span of the union takes its type from the longest of the spans that start where it starts |
| `NerTokens.GroupTokens` | src/detectors/ner.py:133-155 | the token loop computes the grouping function, special and unlabelled tokens flushing the current span |
| `NerTokens.TokensGrouped` | src/detectors/ner.py:133-155 | for tokens in order, spans are disjoint, in order, carry their own slice of the text, and every labelled token lies in exactly one span, of its type |
| `NerTokens.SpansAreChains` | src/detectors/ner.py:133-155 | the spans are exactly those of the maximal runs of labelled tokens of one type with gaps of at most one character |
| `NerTokens.TokensShareSpan` | src/detectors/ner.py:138-153 | two labelled tokens share a span if and only if every token from one to the other counts, has their type and follows with such a gap |
| `NerTokens.LabelsBecome` | src/detectors/ner.py:115-123 | a token alone: which type each label of the model becomes, and that any other becomes nothing |
| `Components.DecomposePerson` | src/substitution/components.py:36-68 | the nested loops build the full form, then first, last and every honorific form, in that order; `NameParts` says what they stand for |
| `NameParts.FirstForFirst` | src/substitution/components.py:48-55 | for names of two words or more, the one first-name component is the synthetic's first word for the original's first word |
| `NameParts.LastForLast` | src/substitution/components.py:48-56 | the one last-name component is last word for last word |
| `NameParts.HonorificsForLast` | src/substitution/components.py:58-67 | the honorific components are each canonical honorific of the three languages before the two last words, and no others |
| `NameParts.WholeOnly` | src/substitution/components.py:50-51 | a name of one word on either side, and everything that is not a person, has its full form only |
| `NameParts.AsciiSpaces` | src/substitution/components.py:48-49 | which ASCII characters separate words |
| `NameParts.ComponentMeans` | src/substitution/engine.py:102-119 | a component of a spliced name means its own part of the original, unless its surface has another meaning too |
| `NameParts.FirstNameRead` | src/substitution/engine.py:102-119 | a reply that is the synthetic's first name, with no other meaning and no shorter surface in what it stands for, comes back as the original's first name |
| `NameParts.LastNameRead` | src/substitution/engine.py:102-119 | likewise the last name |
| `NameParts.HonorificRead` | src/substitution/engine.py:102-119 | and the last name behind any canonical honorific, which stays |
| `Components.DecomposeFullFirst` | src/substitution/components.py:71-79 | the full pair comes first and is the only full form; every other surface is non-empty; so no synthetic is ever without components |
| `SessionMap.PayloadRoundTrip` | src/substitution/session_map.py:76 | splitting a payload once at the separator gives back type and original, even for originals that contain the separator |
| `SessionMap.SlotBoundToScope` | src/substitution/session_map.py:126-129 | with no separator in either customer id, a slot opens under another scope if and only if customer and request are both the same |
| `SessionMap.SlotBoundToRequest` | src/substitution/session_map.py:126-129 | between two requests of one customer, whatever the ids contain, if and only if the request is the same |
| `SessionMap.SameAssociatedData` | src/substitution/session_map.py:126-129 | two scopes bind to the same data if and only if they are the same, or one customer id continues the other behind a separator and the request ids make up for it |
| `SessionMap.SlotBoundByRequestIds` | src/substitution/session_map.py:126-129 | with no separator in either request id, whatever the customer ids are, if and only if customer and request are both the same; the gateway's own ids are of this kind (src/proxy/pipeline.py:77) |
| `SessionMap.SeparatorJoinsScopes` | src/substitution/session_map.py:126-129 | an input of the class: a customer id and another scope's request id that both hold the separator share a scope |
| `SessionMap.EncryptedSessionMap.Add` | src/substitution/session_map.py:71-80 | what the map decrypts to is the old contents with this entry on top, or an error and no change once purged |
| `SessionMap.EncryptedSessionMap.Reverse` | src/substitution/session_map.py:84-95 | returns exactly the stored entry, `None` for an unknown synthetic, an error once purged; contents unchanged |
| `SessionMap.EncryptedSessionMap.Purge` | src/substitution/session_map.py:114-118 | nothing is left and the map is purged, however often it is called |
| `Substitution.Register` | src/substitution/engine.py:61-66 | session map and component index are both extended by the same synthetic, or neither is |
| `Substitution.ApplySubstitution` | src/substitution/engine.py:36-74 | the sanitised text, the index and the session map are those of the splice of the sorted detections; it fails exactly on a purged map with something to add |
| `Substitution.CollectCandidates` | src/substitution/engine.py:102-112 | the candidate list in index order, with the session map consulted only for want of components |
| `Substitution.ReverseSubstitution` | src/substitution/engine.py:85-135 | text, counters and novel entities are those of trying every candidate, longest surface first |
| `Substitution.NovelEntities` | src/substitution/engine.py:125-133 | novel are, in order, the non-empty entities no candidate accounts for that stand in the reply both before and after reversal |
| `ForwardProperties.AcceptedSpliceable` | src/substitution/engine.py:49-52 | merge output needs no sorting and never takes the skip branch |
| `ForwardProperties.SpliceShape` | src/substitution/engine.py:49-68 | gaps and holes alternate, hole i holding the i-th detection and its synthetic |
| `ForwardProperties.RefillRebuilds` | src/substitution/engine.py:49-68 | putting the detection texts back into the holes rebuilds the original text |
| `ForwardProperties.SanitisedLength` | src/substitution/engine.py:49-72 | the sanitised text is as long as the original plus what each synthetic adds to its span |
| `ForwardProperties.GapAligned` | src/substitution/engine.py:53 | a character between two detections is found at its own position plus the shift of the detections before it |
| `ForwardProperties.HoleAligned` | src/substitution/engine.py:54-60 | synthetic i stands in the sanitised text at the start of detection i plus the shift of those before it |
| `ForwardProperties.ForwardAlignment` | src/substitution/engine.py:36-74 | all of these together for whatever `merge` accepts, with the rebuilt original |
| `ForwardProperties.LastWriteWins` | src/substitution/engine.py:61-64 | what is stored under a synthetic is the text and type of the last detection spliced with it |
| `ForwardProperties.IndexAgrees` | src/substitution/engine.py:61-66 | session map and index have the same keys, and under each key the index holds the decomposition of the stored entry |
| `ForwardProperties.SessionMapAgreesWithIndex` | src/substitution/engine.py:61-66 | after a pass over an empty map, the original the map returns for a synthetic is the one in its full component, colliding synthetics included |
| `ForwardProperties.NeverBare` | src/substitution/engine.py:107-112 | no key of a forward pass's index lacks components, so the fallback branch is never taken |
| `Replies.MeaningIsFirst` | src/substitution/engine.py:114-119 | a surface means the original of its first candidate; surfaces without one mean nothing |
| `Replies.CleanReplyReversed` | src/substitution/engine.py:85-135 | for any reply made of own words and registered forms, full or component: when each surface, at its turn, stands exactly at its forms, every form comes back as what it means and nothing else changes |
| `Replies.CleanExactly` | src/substitution/engine.py:114-119 | where occurrences of a surface do not overlap at its turn, every intermediate text is the intended one if and only if every replacement step is clean |
| `Replies.FirstSplicedDecides` | src/substitution/engine.py:102-119 | when several synthetics share a surface, the one spliced first decides what it means; within one synthetic its first component |
| `Replies.FallbackMeans` | src/substitution/engine.py:107-112 | a synthetic without components means what the session map holds for it, or nothing |
| `Replies.CountersExact` | src/substitution/engine.py:114-123 | the two counters say how many full forms and how many components stood in the text when they were tried |
| `Replies.NovelExactly` | src/substitution/engine.py:125-133 | an entity is reported if and only if it was asked about, no candidate accounts for it, and it stands in the reply before and after reversal: nothing the reversal removed is |
| `Replies.LongestFirst` | src/substitution/engine.py:94-95 | no candidate is tried before one whose surface properly contains its own |
| `Replies.SurfaceReplyReversed` | src/substitution/engine.py:94-119 | a reply that is one registered surface reaches that surface's candidate untouched, becomes its original, and is then up to the shorter candidates alone |
| `Replies.SurfaceReplyRead` | src/substitution/engine.py:94-119 | so the caller reads that original when no shorter surface stands in it |
| `RoundTrip.EchoExact` | src/substitution/engine.py:85-135 | a clean echo comes back with the last written original in every hole, collisions included |
| `RoundTrip.EveryHoleRestoredExactly` | src/substitution/engine.py:85-135 | in the reversed text of a clean echo, every hole reads its own original if and only if equal synthetics stand for equal originals |
| `RoundTrip.EchoRefilledExactly` | src/substitution/engine.py:85-135 | the whole text of a clean echo comes back if equal synthetics stand for equal originals; for equally long texts behind each synthetic, only then |
| `RoundTrip.EchoRoundTrip` | src/substitution/engine.py:36-135 | for merge-accepted detections and a clean echo, the reversal gives the original text if equal synthetics stand for equal originals, and for equally long texts behind each synthetic only then |
| `CleanRequests.ForeignFormsClean` | src/substitution/engine.py:94-119 | any request, names with their components included: when each registered surface stands in no gap and no hidden text, and neither these nor a synthetic no longer than it end in its beginning, the echo is clean |
| `CleanRequests.ForeignFormsRoundTrip` | src/substitution/engine.py:36-135 | so such a request, with equal synthetics only for equal originals, comes back from a verbatim reply |
| `RoundTrip.SingleSyntheticExactly` | src/substitution/engine.py:114-119 | with one synthetic whose occurrences do not overlap, consistent holes come back if and only if it stands nowhere but in them |
| `RoundTrip.EchoCandidatesFaithful` | src/substitution/engine.py:102-112 | every full candidate carries the last written original of its synthetic, and every spliced synthetic has one |
| `RoundTripLimits.ConsistentDetections` | src/substitution/engine.py:54-64 | a splice is consistent if and only if equal synthetics come only from equal detection texts |
| `RoundTripLimits.CustomConsistentExactly` | src/substitution/synthetic.py:85-109 | a request with custom entities only is consistent if and only if all of them are the same text |
| `RoundTripLimits.ManyNamesInconsistent` | src/substitution/synthetic.py:28-68 | a request with more different persons, organizations or locations than their pool holds is never consistent |
| `RoundTripLimits.CustomRoundTripExactly` | src/substitution/synthetic.py:85-109 | custom entities only, equally long, the token nowhere else: the echo gives the original back if and only if they are all the same text |
| `RoundTripLimits.CustomStrayExactly` | src/substitution/synthetic.py:85-109 | custom entities that are all one text: the echo gives the original back if and only if the token stands nowhere but where it was spliced, or is that text |
| `RoundTripLimits.SideBySideReversed` | src/substitution/engine.py:64 | a text made of custom entities side by side comes back as its last entity, once for each of them |
| `RoundTripLimits.CollisionBreaksRoundTrip` | src/substitution/engine.py:64 | two custom entities, for every salt: "ab" comes back as "bb" |
| `RoundTripLimits.StrayBreaksRoundTrip` | src/substitution/engine.py:117-119 | the token written by the user, for every salt: token and "a" come back as "aa", although consistent |
| `RoundTripLimits.InconsistentCanStillReturn` | src/substitution/engine.py:114-119 | without equal lengths consistency is not necessary: custom entities "a", "aaa", "aa" side by side come back right by accident |
| `RoundTripLimits.UncleanCanStillReturn` | src/substitution/engine.py:117-119 | nor is cleanliness, where occurrences overlap: with the one-name pool "zz", the text "zz" with the name "z" at its end comes back right through a wrong replacement |
| `CheckDigits.RibValidExactly` | src/detectors/countries/algeria.py:96-107 | twenty digits form a valid RIB if and only if their value is 0 modulo 97 and the key is between 1 and 97 |
| `CheckDigits.OneKeyPerBody` | src/detectors/countries/algeria.py:105-107 | each 18-digit body has exactly one key |
| `CheckDigits.RibDetectsChange` | src/detectors/countries/algeria.py:96-107 | changing any one digit of a valid RIB makes it invalid |
| `CheckDigits.RibDetectsSwap` | src/detectors/countries/algeria.py:96-107 | swapping any two unequal digits of a valid RIB makes it invalid |
| `CheckDigits.OneLuhnDigit` | src/substitution/synthetic.py:134-146 | each base has exactly one check digit under the ISO/IEC 7812-1 Annex B test |
| `CheckDigits.LuhnDetectsChange` | src/substitution/synthetic.py:136-146 | changing any one digit of a number that passes makes it fail |
| `CheckDigits.LuhnNeighbourSwap` | src/substitution/synthetic.py:136-146 | swapping two neighbours goes unnoticed if and only if they are equal or 0 and 9 |
| `Scanners.StartExact` | src/detectors/countries/algeria.py:32-34 | resuming behind each match misses none: the starts found are exactly the places the pattern matches |
| `Scanners.FindIter` | src/detectors/countries/algeria.py:32-34 | the scanning loop yields exactly those starts, in order |
| `Scanners.RunsDisjoint` | src/detectors/countries/algeria.py:28-34 | two maximal digit runs are the same or share no character |
| `Scanners.DetectNin` | src/detectors/countries/algeria.py:58-76 | reports exactly the maximal runs of 18 digits, each once and in order, with confidence 0.85 |
| `Scanners.DetectNif` | src/detectors/countries/algeria.py:79-93 | reports exactly the maximal runs of 15 digits, each once and in order, with confidence 0.85 |
| `Scanners.DetectRib` | src/detectors/countries/algeria.py:110-127 | reports exactly the maximal runs of 20 digits with a valid key, each once and in order, with confidence 0.99 |
| `Scanners.RunDigitScanners` | src/detectors/countries/algeria.py:58-127 | what the three scanners report on one text never overlaps |
| `Scanners.RibStartsExact` | src/detectors/countries/algeria.py:110-127 | a start is reported if and only if a maximal run of 20 digits with a valid key begins there |
| `Scanners.RibFound` | src/detectors/countries/algeria.py:110-127 | a valid RIB is found in any context whose neighbours are not digits |
| `Synthetic.DigitStringFor` | src/substitution/synthetic.py:112-118 | the hashing loop ends with the first `length` digits of the digest stream |
| `Synthetic.LuhnFor` | src/substitution/synthetic.py:134-146 | the loop over the reversed digits computes the base with its check digit |
| `Synthetic.LoopSumIsLuhnSum` | src/substitution/synthetic.py:138-144 | at every point of the loop, its sum and the standard's sum of what is left add up to the standard's sum |
| `Synthetic.GeneratedRibIsFound` | src/substitution/synthetic.py:128-131 | for every seed the generated RIB has 20 digits, a valid key, and is found by the scanner wherever no digit touches it |
| `Synthetic.GeneratedRibIsOnlyMatch` | src/substitution/synthetic.py:128-131 | in a generated RIB the scanner finds that RIB, once, and nothing else |
| `Synthetic.GeneratedCardPasses` | src/substitution/synthetic.py:134-146 | every generated card number passes the Luhn test, and no change of one digit does |
| `GeneratorProperties.BankAccountFound` | src/substitution/synthetic.py:99-100 | what a bank account becomes: twenty digits, a valid key, reported by the RIB scanner in any context whose neighbours are not digits |
| `GeneratorProperties.CardPasses` | src/substitution/synthetic.py:101-102 | what a card number becomes: sixteen digits that pass the Luhn test and fail it with any one digit changed |
| `GeneratorProperties.NationalIdReported` | src/substitution/synthetic.py:95-96 | what a national id becomes is reported by the NIN scanner in any such context |
| `GeneratorProperties.TaxIdReported` | src/substitution/synthetic.py:97-98 | what a tax id becomes is reported by the NIF scanner in any such context |
| `GeneratorProperties.ScannersTellApart` | src/substitution/synthetic.py:95-100 | of the three scanners exactly the one for the entity's own type reports the synthetic |
| `GeneratorProperties.KeptVerbatim` | src/substitution/synthetic.py:105-108 | dates and amounts come back as they are |
| `GeneratorProperties.NamesFromPack` | src/substitution/synthetic.py:84-92 | persons, organizations and locations get a value of their own pool, of the country's pack or else the Algerian one |
| `GeneratorProperties.EighthBytePicks` | src/substitution/synthetic.py:66-68 | from a pool of eight, the eighth byte of the hash of salt, type, original and country picks |
| `GeneratorProperties.EmptyPoolCollides` | src/substitution/synthetic.py:64-65 | from an empty pool every name of a request becomes the start of its salt |
| `GeneratorProperties.DigitsFromDigest` | src/substitution/synthetic.py:112-118 | the digits of a synthetic number are the last digits of that hash's bytes, one after another |
| `GeneratorProperties.OriginalTells` | src/substitution/synthetic.py:85 | within a request two entities of one type have the same seed if and only if they are the same text |
| `GeneratorProperties.TypeTells` | src/substitution/synthetic.py:85 | one text under two types has the same seed if and only if the types are the same |
| `GeneratorProperties.CountryTells` | src/substitution/synthetic.py:85 | likewise for two countries |
| `GeneratorProperties.SaltTells` | src/substitution/synthetic.py:85 | and for the salts of two requests |
| `GeneratorProperties.EmailShape` | src/substitution/synthetic.py:149-151 | the form of a synthetic e-mail address |
| `GeneratorProperties.PhoneShape` | src/substitution/synthetic.py:121-125 | the form of a synthetic telephone number, Algerian and other |
| `Synthetic.CustomAllCollide` | src/substitution/synthetic.py:85-109 | every custom entity of a request gets the same token, made of the type and the start of the salt |
| `Synthetic.PoolCollides` | src/substitution/synthetic.py:63-92 | more persons, organizations or locations than their pool holds: two of them get the same synthetic |
| `Audit.InMemoryAuditBackend.Append` | src/audit/writer.py:67-69 | the log grows by this record at its end |
| `Audit.InMemoryAuditBackend.Latest` | src/audit/writer.py:75-77 | the content hash of the last record, or the genesis value |
| `Audit.AuditWriter.Record` | src/audit/writer.py:103-153 | the log grows by exactly the record sealed over this body and the current head, or not at all without a tenant |
| `Audit.AuditWriter.VerifyChain` | src/audit/writer.py:155-192 | reports the first record whose link, hash or signature is wrong, and which of the three it is |
| `Audit.VerifiesIsChained` | src/audit/writer.py:155-192 | verification succeeds if and only if every record is sealed over its own body and its predecessor's hash |
| `Audit.ReportedExactly` | src/audit/writer.py:155-192 | what is reported, from the first bad record's own fields: a wrong link with what was expected and found, else a wrong hash, else a wrong signature, each under that record's id |
| `Audit.RecordKeepsHonest` | src/audit/writer.py:103-153 | recording onto an honest log with a new id gives an honest log |
| `Audit.AtomicRunsVerify` | src/audit/writer.py:103-192 | every run of whole `record` calls with fresh ids, some refused, leaves a log that verifies and holds the bodies that went through, in order; the refused records were signed on the head of their time |
| `Audit.AcceptedExactly` | src/audit/writer.py:155-192 | with no forged signatures and no collisions among the records at hand, a list verifies if and only if it is a prefix of the honest log, or such a prefix followed by one refused record sealed on its head |
| `Audit.AcceptedExactlyPrefixes` | src/audit/writer.py:155-192 | when no insert was refused: if and only if it is a prefix of the honest log |
| `Audit.SameLengthMeansUntouched` | src/audit/writer.py:155-192 | a list of the honest log's length verifies and holds no refused record if and only if it is that log |
| `AuditInterleaving.HeadAsRead` | src/audit/writer.py:132 | a call that has not appended yet holds the head of the log as it was when it read |
| `AuditInterleaving.LogGrows` | src/audit/writer.py:152 | logs only grow, and stay as they were if and only if no append happened |
| `AuditInterleaving.VerifiesExactlyWhenUndisturbed` | src/audit/writer.py:132-152 | an interleaved run's log, free of collisions, verifies if and only if no append fell between another call's read and its append |
| `AuditInterleaving.AtomicCallsVerify` | src/audit/writer.py:132-152 | runs in which every append directly follows its own read verify, whatever the hash |
| `PostgresAudit.PostgresAuditBackend.Append` | src/audit/postgres_backend.py:32-36 | a refused insert leaves table and cached head as they were; otherwise both advance together |
| `PostgresAudit.PostgresAuditBackend.Latest` | src/audit/postgres_backend.py:42-48 | as long as calls do not overlap, the cached head is the table's head |
| `PostgresAudit.PostgresAuditBackend.Record` | src/audit/writer.py:103-153 | through this backend, a record is sealed over the true head, or refused without a trace |
| `PostgresAudit.RecordRun` | src/audit/postgres_backend.py:26-48 | after any run with any refused inserts the table is the log of that run, verifies, and holds exactly the surviving bodies in order |
| `PostgresInterleaving.RunDbOk` | src/audit/postgres_backend.py:32-48 | in every interleaving, each cached, selected or held head was the table's head at the length noted with it, and the table holds the bodies of finished calls, each once |
| `PostgresInterleaving.VerifiesExactlyWhenUpToDate` | src/audit/postgres_backend.py:32-48 | with select and cache write as steps of their own, the table verifies if and only if every insert happened while the head it used, wherever from, was still the table's |
| `PostgresInterleaving.WarmStaysWarm` | src/audit/postgres_backend.py:36-44 | a filled, current cache that no call is about to fill stays current, and every later call starts from the table's head |
| `PostgresInterleaving.WarmRunsVerify` | src/audit/postgres_backend.py:36-44 | from then on calls that look and insert in one go keep the table in order, refused inserts included |
| `PostgresInterleaving.LateCacheBreaksChain` | src/audit/postgres_backend.py:42-48 | a head selected before another call's insert and cached after it: the next call, undisturbed, breaks the chain |
| `Rules.InMemoryRuleStore.constructor` | src/rules/store.py:32-35 | every id of the seed is stored, in the order of their first rules, each with its last rule |
| `Rules.InMemoryRuleStore.ListForCustomer` | src/rules/store.py:37-51 | returns exactly the rules visible to the caller, in store order; `RetrievalProperties` says which those are |
| `RetrievalProperties.ListedExactly` | src/rules/store.py:40-50 | a stored rule is listed if and only if it is enabled, and a Tier 1 rule of the caller's country, a Tier 2 rule of an industry asked for or none is, a Tier 3 rule the caller's own |
| `RetrievalProperties.ListedAlike` | src/rules/store.py:37-51 | stores that differ only in disabled rules, other countries' Tier 1 and other customers' Tier 3 rules list the same |
| `RetrievalProperties.SearchedAlike` | src/rules/store.py:53-72 | such stores find the same |
| `Rules.InMemoryRuleStore.SearchKeywords` | src/rules/store.py:53-72 | its own loop over the store returns what ranking the caller's visible rules and cutting off at the limit would |
| `Rules.InMemoryRuleStore.SearchScored` | src/rules/store.py:55-70 | the loop's own exclusions select exactly the visible rules, each with its score |
| `RetrievalProperties.SearchFindsExactly` | src/rules/store.py:55-70 | a rule is found if and only if it is listed for the caller and some term occurs in its lowered description or is one of its lowered keywords |
| `RetrievalProperties.ScoreCountsHits` | src/rules/store.py:63-68 | its score is the number of places in the query at which such a term stands, repetitions counted |
| `Rules.InMemoryRuleStore.UpsertTier3` | src/rules/store.py:74-80 | refuses other tiers and other owners without a change; otherwise overwrites by rule id |
| `Rules.InMemoryRuleStore.DeleteTier3` | src/rules/store.py:82-89 | an unknown id is ignored, a rule not the caller's own Tier 3 is refused, anything else is removed alone |
| `Rules.UpsertKeepsOthersExactly` | src/rules/store.py:74-80 | an upsert leaves shared and foreign rules alone if and only if its id is free or already the caller's own Tier 3 |
| `Rules.UpsertCanReplaceTier1` | src/rules/store.py:80 | a country rule replaced by a customer's rule of the same id |
| `Rules.DeleteKeepsOthers` | src/rules/store.py:82-89 | a delete that goes through leaves every rule the caller does not own |
| `RetrievalProperties.UpsertAcceptedExactly` | src/rules/store.py:74-80 | an upsert is accepted if and only if the rule is of Tier 3 and the caller's own, and which refusal it meets otherwise |
| `RetrievalProperties.UpsertUnseen` | src/rules/store.py:74-80 | an upsert is not seen by another customer, unless it takes the id of a rule that is not the writer's own |
| `RetrievalProperties.DeleteUnseen` | src/rules/store.py:82-89 | nor is a delete |
| `Rules.RankedOrder` | src/rules/store.py:71-72 | ranked are exactly the rules with a positive score, and scores never rise |
| `Rules.RankedIsTopK` | src/rules/store.py:71-72 | a list is the first `limit` ranked rules if and only if its scores are positive and never rise, each score has the first rules of that score in store order, and none is cut off unless the limit is reached with nothing lower taken |
| `Rules.RankedStable` | src/rules/store.py:71-72 | rules of equal score stand in store order, each as often as in the store |
| `Retrieval.RankByKeyword` | src/retrieval/engine.py:42-52 | the loop ranks the rules by their keyword score; `RetrievalProperties` says what that counts |
| `RetrievalProperties.CandidateExactly` | src/retrieval/engine.py:36-52 | for lowering that works character by character: a Tier 3 rule is a candidate whenever it is the caller's own, enabled, and mentions a term in its description or a keyword; for terms without spaces, only then |
| `RetrievalProperties.ScoreCountsMentions` | src/retrieval/engine.py:44-50 | for such terms the score is the number of different terms the rule mentions |
| `RetrievalProperties.MostMentionsFirst` | src/retrieval/engine.py:51-52 | candidates stand in order of how many different terms they mention, the most first |
| `RetrievalProperties.RepetitionIgnored` | src/retrieval/engine.py:44 | repeating or reordering the terms changes nothing that is retrieved |
| `Retrieval.Retrieve` | src/retrieval/engine.py:30-40 | all visible Tier 1 rules, then Tier 2, then the cut-off ranking of Tier 3 |
| `RetrievalProperties.SharedRetrievedExactly` | src/retrieval/engine.py:33-40 | in any store state a Tier 1 rule is retrieved if and only if it is stored, enabled and of the caller's country, a Tier 2 rule if and only if stored, enabled and of an industry asked for, or none is |
| `RetrievalProperties.RetrievedAlike` | src/retrieval/engine.py:30-40 | stores that differ only in rules that do not concern the caller give the same snippets |
| `RetrievalProperties.TiersInOrder` | src/retrieval/engine.py:40 | Tier 1 rules come first, then Tier 2, then Tier 3 |
| `RetrievalProperties.SnippetAt` | src/retrieval/engine.py:55-61 | what is handed on of each rule: its id, tier, entity type and description, in its place |
| `RetrievalProperties.TakenFromCandidates` | src/retrieval/engine.py:38-40 | the Tier 3 rules retrieved are the front of the candidates |
| `RetrievalProperties.TakeLength` | src/retrieval/engine.py:39 | how much of a list a positive, zero, large or negative limit leaves |
| `Retrieval.OwnRulesRanked` | src/retrieval/engine.py:36-40 | the Tier 3 candidates are exactly the caller's own enabled rules, and those retrieved are the one top k of them |
| `Retrieval.OnlyOwnTier3` | src/retrieval/engine.py:36-40 | every Tier 3 rule retrieved is the caller's own, enabled, with a positive score |
| `SessionLifecycle.RunsKeepInv` | src/substitution/session_map.py:132-168 | in every run with fresh ids, registered maps are alive and unregistered ones purged or held by a pending close |
| `SessionLifecycle.OpenKeepsInvExactly` | src/substitution/session_map.py:141-146 | opening keeps that invariant if and only if the id is not registered |
| `SessionLifecycle.PurgedForever` | src/substitution/session_map.py:122-124 | a purged map stays purged and unused, whatever happens afterwards |
| `SessionLifecycle.SweepExactly` | src/substitution/session_map.py:154-168 | a sweep unregisters and purges exactly the maps idle for the timeout, counts them, and leaves all others as they were |
| `SessionLifecycle.UsedMapSurvives` | src/substitution/session_map.py:105-110 | a live map survives a sweep if and only if it was used less than the timeout before |
| `SessionLifecycle.CloseExactly` | src/substitution/session_map.py:148-152 | a close turns the request's live map into a purged one, unregisters its id alone, leaves no close pending and touches no other map |
| `SessionStore.SessionMapStore.Open` | src/substitution/session_map.py:141-146 | refines the machine's opening step and returns a new, empty, live map |
| `SessionStore.SessionMapStore.PopForClose` | src/substitution/session_map.py:149-150 | refines the machine's pop, the half of `close` under the lock |
| `SessionStore.SessionMapStore.PurgePopped` | src/substitution/session_map.py:151-152 | refines the machine's second half of `close` |
| `SessionStore.SessionMapStore.Close` | src/substitution/session_map.py:148-152 | refines the machine's pop and purge taken together, which touch no other map; an unknown id changes nothing |
| `SessionStore.SessionMapStore.SweepIdle` | src/substitution/session_map.py:154-168 | refines the machine's sweep and returns the number of maps purged |
| `Pipeline.RunsInOrder` | src/proxy/pipeline.py:115-159 | in every run each request's map is where its stage says, and the log is honest and holds exactly the records of the requests past recording |
| `Pipeline.EndedMeansPurged` | src/proxy/pipeline.py:157-159 | a request that returned or failed has its map purged and unregistered |
| `Pipeline.ReturnedMeansRecordedOnce` | src/proxy/pipeline.py:143-156 | a returned request has exactly one record in the log, a failed one none |
| `Pipeline.RunsVerify` | src/proxy/pipeline.py:143-155 | the log of every run verifies, with any stages failing and any inserts refused |
| `Pipeline.RefusedInsertLeavesNoTrace` | src/audit/postgres_backend.py:32-48 | a refused insert leaves the log and the head the next record is sealed over unchanged |
| `Pipeline.UseAfterPurgeFails` | src/substitution/session_map.py:122-124 | a request that reaches for its map after a sweep purged it never returns a response and leaves no record, whatever comes next |
| `Gateway.Exchange` | src/proxy/pipeline.py:116-156 | inside the `try`: a response if and only if the upstream answered and the record was written, the reversed reply, and exactly one new record or none |
| `Gateway.ExchangeAndClose` | src/proxy/pipeline.py:116-159 | the same with `finally`: on every way out the map is unregistered and purged |
| `Gateway.HandleChat` | src/proxy/pipeline.py:109-159 | one request from merge to close: which failure or which text the caller gets, record exactly with a response, map purged and every other map as it was; a clean echo gives the original if (for equal lengths, only if) consistent, any other clean reply its forms as what they mean |
| `Gateway.HandledIsRun` | src/proxy/pipeline.py:109-159 | from any state in order, the request machine's own steps for that outcome leave session maps and log as `HandleChat` leaves its store and table |
| `Gateway.HandleNext` | src/proxy/pipeline.py:109-159 | `HandleChat` as the next request of a run: with store and log those of the machine before, they are those of the machine after its own steps for the outcome |

## Left out

- RoundTrip.EchoRoundTrip: the other direction for the text as a whole asks for equal lengths behind each synthetic;
  `InconsistentCanStillReturn` is an input without them on which it fails. It is about clean echoes: an unclean step
  need not show in the text (`UncleanCanStillReturn`), so cleanliness is exact step by step (`Replies.CleanExactly`)
  and for one synthetic (`SingleSyntheticExactly`, `CustomStrayExactly`).
- Replies.CleanExactly: where occurrences of a surface overlap, a stray one can be harmless, so only cleanliness is
  shown to suffice there.
- SessionMap.EncryptedSessionMap.Add: entity types do not contain the payload separator; the source's closed list of types has none.
- PostgresAudit.PostgresAuditBackend.Record: repeats the writer's body over this backend, because the common backend protocol is not modelled.
- Ner.MergeOverlapping: states the returned list, not that the argument list is sorted in place.
- Scanners.FindIter: ASCII digits; `\d` and `isdigit` also accept other Unicode digits.
- PostgresAudit.PostgresAuditBackend.Latest: one call at a time; overlapping calls are in `PostgresInterleaving`.
- Gateway.HandleChat: one request with nothing running beside it; concurrent requests, failures of any stage and an
  idle sweep in the middle of a request are in `Pipeline`.
- AES-GCM, SHA-256 and HMAC internals, and key length checks: abstract functions with named hypotheses.
- JSON canonicalisation and UTF-8: one hash of the seven body fields; `occurred_at` is an integer, as the clock's 64
  bits are.
- Floating point: confidences are `real`; rounding of `confidence + 0.05` is not modelled.
- Nonces, uuids, salts and clocks are parameters; a request in `Gateway` reads the clock once. The fallback to a random salt is not modelled.
- Locks: each locked section is one atomic step, and so is each access of an unlocked method to shared state. `record` is one step of `Pipeline`, as `handle_chat` calls it
  without awaiting, and two steps in `AuditInterleaving`.
- Failures after a commit, rows with equal `created_at`, and other writers on the audit table.
- `require_customer`: the tenant is a parameter, and a missing one is modelled in `AuditWriter.Record` only.
- The model-backed detector's session and tokenizer (labels and offsets are inputs), the stub detector's patterns,
  and `detect_phone`.
- `lower()` and the word-token pattern of retrieval: parameters. What the text score counts is stated for lowering that
  works character by character, which the final sigma of Greek does not.
- `register_pack`: the packs are a parameter of the generator. The linguistic quality of synthetics.
- Detection metadata and a rule's confidence floor: nothing modelled here reads them.
- Gathering detector results and failure modes, flattening messages, taking the text out of a response.
- The exception store, telemetry, HTTP clients, routes, dashboard, settings, logging and SQL: plumbing, or single
  checks whose properties are immediate.
