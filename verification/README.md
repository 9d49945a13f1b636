# Tamper evidence, proved

A Dafny model of the tamper-evidence core of the OpenAuditModel conformance tool, with proofs of
what its verdicts mean. The program seals audit events with a hash of their canonical form, links
them into chains, compares an archive of chains with a recorded chain head, and proves single
events to be leaves of a published Merkle tree. The model follows that code branch by branch, down
to the UTF-16 strings and the UTF-8 bytes that are hashed, and ends in statements about the events
themselves: which deletions, substitutions and reorderings a verdict rules out, and which it cannot.

Verify everything with `dafny verify dfyconfig.toml`.

## How the parts fit

| files | what they model |
|---|---|
| `Unicode`, `Json`, `Canonical` | strings as UTF-16 code units, their UTF-8 bytes, JSON values, the RFC 8785 text of a value |
| `KeyOrder`, `JsonReader` | the order of members, and a reader that undoes the canonical text |
| `Hashing`, `Digest`, `EventVerification` | the hash, hexadecimal digests, the digest input of an event, sealing, the verdict on one event |
| `Merkle`, `MerkleShape`, `Proof` | RFC 6962 trees and audit paths, what a path's shape says, the verdict on an inclusion proof |
| `Chain`, `ChainOrder`, `ChainIntake` | the specification of a chain's verdict, and the streaming intake that computes it |
| `ChainProperties`, `ChainFindings`, `ChainBinding`, `Sealing`, `Truncation` | what an intact chain is, and what it says about its events |
| `Checkpoint`, `CheckpointFindings`, `CheckpointProperties` | comparison with a recorded head, and what agreement proves |
| `LineReader`, `Stream` | reading a file line by line with bounded memory, and the items it yields |
| `Pipeline` | several files through reader, stream, labels and intake to one report |
| `Entropy` | the entropy heuristic of the privacy linter |

Code that changes things step by step is imperative here too. The intake and the line reader are
classes whose fields are the program's own; the loops of `verify-chain.ts`, `verify-checkpoint.ts`,
`verify-proof.ts`, `sources.ts`, `entropy.ts`, `splitPoint`, `rootFromPath` and `buildDigestInput`
are methods with invariants, each proved equal to a specification function or to an exact condition.
The theorems are about those specification functions.

**The hash.** `HashFunction` is any function whose results have the algorithm's length; nothing else
is assumed of it. A result that needs two inputs told apart assumes `CollisionFree` of a finite list
that its statement spells out: the inputs that the computations in question hash. Assuming more
would be false of every real hash, and concluding "or a collision exists" would say nothing.
`FindCollision` searches that same list and returns two colliding inputs exactly when the list is
not collision-free, so each of these results fails only together with a pair it returns.

**Sameness of events.** Hashes do not see the order of an object's members or the two members left
out of the digest, so events are compared by `SameValue` on their digest inputs.

**What comes from outside.** `Context` carries the hash, the reading of a number token as a whole
number, the schema validator, the locale order of labels as a rank in the reals (any total preorder
of strings, ties allowed), and the check of a signature against a supplied key. The log of the
entropy heuristic, the JSON parser and `trim` are parameters as well.

**Where code and documentation differ.** The guard of canonicalization is documented as rejecting
what `JSON.parse` could not have produced, and the depth walk of the reader as applying the limit of
canonicalization, but `JSON.parse` turns a number beyond the double range, such as 1e400, into an
infinity. The reader hands such an event on, and the guard then throws. `ReadableIsHashable` says
exactly which values read are accepted and which can be hashed, by whether the numbers concerned are
finite; `InfinityIsNotHashable` and `InfinityIsHandedOn` give the failing line; `VerifiedIsFinite`
says that no such event ever verifies.

`shannonEntropy` documents bits per character but divides
counts of code points by the length in UTF-16 units, so for a string with a surrogate pair the
shares add up to less than one. The code is followed. `EntropyBound` says for every string whether
its entropy is still at most the logarithm of its number of distinct characters: it is with three
distinct characters or more, without a surrogate pair, and for two characters of one width; it is
not for one character written as a pair (`PairExceedsBound`); and for one letter and one pair,
occurring a and b times, it is if and only if (a + 2b)^(a + b) <= 2^(a + 2b) a^a b^b
(`LetterAndPairBound`), which fails for one of each (`LetterAndPairExceedBound`).

## Model

| member | source | states |
|---|---|---|
| `Unicode.ByteLengthIsEncodedLength` | conformance/src/sources.ts:326-328 | The byte count the reader takes without encoding is the length of the UTF-8 encoding, lone surrogates replaced |
| `Unicode.ByteLengthAtMostThreePerUnit` | conformance/src/sources.ts:318-325 | A string never holds more than three UTF-8 bytes per code unit, nor fewer than one |
| `Unicode.ByteLengthMonotone` | conformance/src/sources.ts:297-301 | A line that grows never gets shorter in bytes, even when the cut falls inside a surrogate pair |
| `Unicode.EncodeInjective` | conformance/src/integrity/canonicalize.ts:119-128 | UTF-8 encoding loses nothing on text without lone surrogates |
| `Unicode.EncodeReadsBack` | conformance/src/integrity/canonicalize.ts:119-128 | The bytes of any text, decoded as section 3 of RFC 3629 defines, are its code points, a lone surrogate being U+FFFD |
| `Unicode.ShortestForm` | conformance/src/integrity/canonicalize.ts:119-128 | No code point takes more bytes than it needs |
| `Json.GuardsAgree` | conformance/src/integrity/canonicalize.ts:50-105 | The guard of canonicalization accepts exactly the values some JSON text parses to that have finite numbers only and that the depth walk of the reader lets through |
| `Json.DepthLimit` | conformance/src/sources.ts:355-368 | Both walks accept a value nested two hundred levels deep and refuse one level more |
| `Canonical.QuoteDetermined` | conformance/src/integrity/canonicalize.ts:4-10 | A quoted string is self-delimiting: from a text that starts with one, the string and the rest can be read back |
| `Canonical.ValueUnambiguous` | conformance/src/integrity/canonicalize.ts:107-117 | No canonical text of a value is a proper beginning of another inside a larger document |
| `Canonical.TextIdentifiesValue` | conformance/src/integrity/canonicalize.ts:107-117 | Two JSON values have the same canonical text if and only if they are equal up to the order of object members |
| `Canonical.TextWellFormed` | conformance/src/integrity/canonicalize.ts:4-10 | Canonical text holds no lone surrogate, whatever the strings in the value hold, because those are escaped |
| `Canonical.BytesIdentifyValue` | conformance/src/integrity/canonicalize.ts:126-128 | The bytes that get hashed are equal if and only if the values are equal up to member order |
| `JsonReader.ValueBack` | conformance/src/integrity/canonicalize.ts:4-10 | An independent reader of JSON text (RFC 8259, no whitespace) reads the canonical text of any value back as that value up to member order, whatever follows it |
| `JsonReader.CanonicalReadsBack` | conformance/src/integrity/canonicalize.ts:107-117 | The round trip: the whole canonical text reads as the value, with nothing left over |
| `JsonReader.StringBack` | conformance/src/integrity/canonicalize.ts:4-10 | Every escaped string reads back as itself by the escapes of section 7 of RFC 8259 |
| `JsonReader.PlainIsVerbatim` | conformance/src/integrity/canonicalize.ts:4-10 | A string that needs no escape is written as it is |
| `JsonReader.PairIsVerbatim` | conformance/src/integrity/canonicalize.ts:4-10 | A surrogate pair is written as it is, a lone surrogate as six units |
| `JsonReader.ShortEscapes` | conformance/src/integrity/canonicalize.ts:4-10 | The seven short escapes of section 3.2.2.2 of RFC 8785 |
| `JsonReader.LongEscapes` | conformance/src/integrity/canonicalize.ts:4-10 | The remaining control characters and lone surrogates are written as four lower-case hexadecimal digits |
| `KeyOrder.BeforeIsLower` | conformance/src/integrity/canonicalize.ts:4-10 | One key sorts before another if and only if at the first place they differ it has ended or has the lower code unit |
| `KeyOrder.MembersInOrder` | conformance/src/integrity/canonicalize.ts:4-10 | The members of a printed object are its fields, each once as quoted key, colon and value, in that order of keys |
| `KeyOrder.TwoMembers` | conformance/src/integrity/canonicalize.ts:107-117 | An object of two fields, in either order, is written in braces with the lower key first |
| `Hashing.DigestBytes` | conformance/src/integrity/digest.ts:41-51 | Feeding parts one after another hashes their concatenation, with a digest of the length of the algorithm |
| `Hashing.HexRoundTrip` | conformance/src/integrity/digest.ts:54-56 | Bytes written as hexadecimal read back as themselves |
| `Hashing.DigestsEqualIsTextEquality` | conformance/src/integrity/digest.ts:149-162 | Comparing decoded bytes accepts exactly the well-formed digests that are equal as text; a malformed one equals nothing |
| `Hashing.DecodeDigestInjective` | conformance/src/integrity/merkle.ts:43-48 | A decoded digest has one accepted spelling, its lower-case hexadecimal |
| `Hashing.AlgorithmNames` | conformance/src/integrity/digest.ts:20-39 | Three names are supported, with digests of 64, 96 and 128 hexadecimal digits |
| `MerkleShape.HexIsDigits` | conformance/src/integrity/digest.ts:99-108 | Each byte is written with two digits of `0123456789abcdef`, the high half first |
| `MerkleShape.DigestTexts` | conformance/src/integrity/digest.ts:53-56 | The accepted digests are exactly the texts some non-empty bytes are written as, and for an algorithm those of its length |
| `Digest.BuildDigestInput` | conformance/src/integrity/digest.ts:70-86 | The deletion loop leaves exactly the members outside the excluded two, and does nothing without an integrity object |
| `Digest.DigestInputReads` | conformance/src/integrity/digest.ts:58-69 | Every member but the excluded two reads the same from the digest input as from the event |
| `Digest.DigestInputSound` | conformance/src/integrity/digest.ts:70-86 | The digest input is a value again, and passes the canonicalization guard when the event does |
| `Digest.DigestInputFinite` | conformance/src/integrity/digest.ts:70-86 | The numbers left in the digest input are those outside the excluded two members |
| `Digest.ReadableIsHashable` | conformance/src/sources.ts:355-368 | A parsed value the depth walk lets through passes the guard if and only if all its numbers are finite, and its digest input can be hashed if and only if all numbers outside the excluded two members are |
| `Digest.InfinityIsNotHashable` | conformance/src/integrity/canonicalize.ts:65-70 | What `{"n":1e400}` parses to gets past the depth walk, fails the guard and has no canonical bytes |
| `Digest.SameValueIntegrity` | conformance/src/integrity/digest.ts:70-86 | Values equal up to member order declare the same integrity texts |
| `Digest.ExcludedMemberNotHashed` | conformance/src/integrity/digest.ts:60-66 | Setting the hash or adding a signature changes nothing that is hashed |
| `Digest.SealIsFixedPoint` | conformance/src/integrity/digest.ts:120-139 | A sealed event recalculates to the hash it declares, and sealing it again returns it unchanged |
| `Digest.SealSetsHash` | conformance/src/integrity/digest.ts:137-138 | Sealing sets the hash to the calculated digest and changes no other member |
| `Digest.DigestExactly` | conformance/src/integrity/digest.ts:99-108 | When calculating a digest throws, for which of two reasons, and what it is otherwise |
| `Digest.SealFailsExactly` | conformance/src/integrity/digest.ts:120-135 | When sealing throws, and for which reason, by what the event declares |
| `EventVerification.VerifiedIsSealed` | conformance/src/integrity/verify-event.ts:106-293 | An event is verified if and only if it passes the schema where asked, declares the supported canonicalization and a supported algorithm, declares as hash the hexadecimal digest of its own digest input, and its signature does not fail |
| `EventVerification.SignedVerifiesExactly` | conformance/src/integrity/verify-event.ts:307-340 | A signed event verifies if and only if its digest holds, the algorithm is one of the three implemented, and a supplied key finds nothing |
| `EventVerification.SignedFailsExactly` | conformance/src/integrity/verify-event.ts:265-281 | When its digest holds and its signature fails, the finding is the unsupported algorithm or what the key found |
| `EventVerification.UnsignedVerifiesExactly` | conformance/src/integrity/verify-event.ts:315-318 | Without a declared signature the digest decides alone |
| `EventVerification.DeclarationFindingExactly` | conformance/src/integrity/verify-event.ts:114-206 | Each of the seven findings on what is declared is the result exactly when its check is the first to fail |
| `EventVerification.HashFindingExactly` | conformance/src/integrity/verify-event.ts:208-261 | Each of the four findings on the declared hash is the result exactly when its check is the first to fail |
| `EventVerification.HashFindingNeedsNames` | conformance/src/integrity/verify-event.ts:208-261 | Those four are found only of events that declare the canonicalization and a supported algorithm |
| `EventVerification.VerifiedIsFinite` | conformance/src/integrity/verify-event.ts:232-241 | An event with an infinity in what is hashed never verifies |
| `EventVerification.SameHashSameEvent` | conformance/src/integrity/digest.ts:99-108 | Two sealed events with one hash used one algorithm and have the same digest input up to member order |
| `Merkle.SplitPoint` | conformance/src/integrity/merkle.ts:34-40 | The doubling loop returns the power of two k with k < n <= 2k |
| `Merkle.SplitUnique` | conformance/src/integrity/merkle.ts:33-40 | There is only one such power of two |
| `Merkle.SplitHalves` | conformance/src/integrity/merkle.ts:33-40 | From three leaves on the split is even, and half of it is the split of half the leaves rounded up |
| `Merkle.RootFromPath` | conformance/src/integrity/merkle.ts:153-170 | The loop climbs the path from the leaf, and gives up exactly at a sibling that is not a digest |
| `MerkleShape.ClimbOneStep` | conformance/src/integrity/merkle.ts:158-167 | One step hashes a one, then the sibling and the node on a left step, the node and the sibling on a right step; a sibling that is no digest ends the climb |
| `Merkle.PreimagesApart` | conformance/src/integrity/merkle.ts:50-62 | A leaf is hashed behind a zero, two children in order behind a one; the inputs are never equal, and a node input determines both children |
| `Merkle.PathOverClimbs` | conformance/src/integrity/merkle.ts:96-115 | Climbing the audit path of a leaf recomputes the root |
| `Merkle.PathOverSides` | conformance/src/integrity/merkle.ts:138-147 | The sides of an audit path are the expected sides of its position |
| `Merkle.ProofCompleteness` | conformance/src/integrity/merkle.ts:118-131 | For every list that has a root and every index in range the audit path exists, recomputes the root and has the expected sides |
| `MerkleShape.AuditPathExists` | conformance/src/integrity/merkle.ts:118-131 | An audit path exists exactly when the index is in range and every digest decodes |
| `Merkle.TreeBindsDigests` | conformance/src/integrity/merkle.ts:65-75 | Two lists of digests with one tree hash are the same list, whatever their lengths |
| `Merkle.RootBindsList` | conformance/src/integrity/merkle.ts:78-86 | The root determines the list of digests, its length included |
| `Merkle.ClimbIsAuditPath` | conformance/src/integrity/merkle.ts:150-170 | A path that climbs from a digest to the root is the audit path of a leaf with that digest |
| `Merkle.ProofSoundness` | conformance/src/integrity/merkle.ts:153-170 | For any path, its shape unchecked: if it recomputes the root of a list, the digest stands in the list at some index and the path is exactly the audit path of that index |
| `MerkleShape.SidesArePrefixFree` | conformance/src/integrity/merkle.ts:133-147 | Read from the root down, the sides of one position are never a beginning of the sides of another |
| `MerkleShape.LeftStepsAreOneBits` | conformance/src/integrity/merkle.ts:138-147 | The number of left steps is the number of one bits of the index, in a tree of any size |
| `MerkleShape.PathLength` | conformance/src/integrity/merkle.ts:138-147 | A path in a tree of at most 2^h leaves has at most h steps |
| `MerkleShape.ProofPinsPosition` | conformance/src/integrity/merkle.ts:13-15 | With the shape checked too, the digest stands at exactly the claimed index |
| `MerkleShape.ClimbsAgree` | conformance/src/integrity/merkle.ts:153-170 | Two climbs with the same sides to one node start from one digest and follow one path |
| `MerkleShape.LevelKeepsRoot` | conformance/src/integrity/merkle.ts:7-11 | Pairing neighbours and promoting an odd last node unchanged keeps the root |
| `MerkleShape.TwoTreesAgree` | conformance/src/integrity/merkle.ts:65-75 | The recursive tree hash equals the root of level-by-level pairing, its bytes written out, for every non-empty list |
| `MerkleShape.RootIsBottomUp` | conformance/src/integrity/merkle.ts:78-86 | A root exists exactly for a non-empty list of digests, and is that of pairing upward from the hashed leaves |
| `MerkleShape.SmallRoots` | conformance/src/integrity/merkle.ts:50-75 | The roots over one, two and three digests, byte for byte |
| `Proof.CheckPath` | conformance/src/integrity/verify-proof.ts:161-227 | Each finding on the path is there exactly under its condition, and there is none exactly when the path has the shape of the position and climbs from the leaf to the root |
| `Proof.CheckDocument` | conformance/src/integrity/verify-proof.ts:135-159 | There is no finding exactly when the document holds together whichever event is offered; otherwise exactly the findings whose conditions hold |
| `Proof.CheckLeaf` | conformance/src/integrity/verify-proof.ts:230-254 | The leaf is the verified hash of the event, or differs, or there is no hash to compare |
| `Proof.NoLeafExactly` | conformance/src/integrity/verify-proof.ts:41-54 | An event leaves the proof without a leaf exactly when the validator accepts it and it declares no hash, another canonicalization or an unsupported algorithm, so not when its hash is wrong |
| `Proof.Judge` | conformance/src/integrity/verify-proof.ts:256-263 | Verified without any failure; no leaf exactly when an unavailable leaf is the only finding |
| `Proof.JudgeProof` | conformance/src/integrity/verify-proof.ts:133-263 | Given the verdict on the event: verified, no leaf and failed, each exactly under its condition, with the findings on the document followed by those on the leaf |
| `Proof.VerifyProof` | conformance/src/integrity/verify-proof.ts:71-275 | The outcome is verified if and only if the document is consistent and the event verifies with the leaf as its hash; the other outcomes and the findings are stated exactly |
| `Proof.VerifiedProofPinsLeaf` | conformance/src/integrity/verify-proof.ts:60-70 | A verified proof against the root of a list shows the hash of the event at exactly the claimed index of the list |
| `Proof.VerifiedProofPinsEvent` | conformance/src/integrity/verify-proof.ts:60-70 | When the list was built from sealed events, the proved event is the published one at that index, up to what is not hashed |
| `Proof.PositionBindsLeaf` | conformance/src/integrity/verify-proof.ts:60-70 | Without the list: two consistent documents for one position of one root name the same leaf and the same path |
| `Proof.PositionBindsEvent` | conformance/src/integrity/verify-proof.ts:60-70 | Two events proved to stand at one position of one root are the same event, up to what is not hashed |
| `Proof.CutProofVerifies` | conformance/src/integrity/verify-proof.ts:211-227 | Every proof cut from a tree verifies for the event whose verified hash is the leaf |
| `ChainOrder.SortMembersKeeps` | conformance/src/integrity/verify-chain.ts:138 | Sorting the members keeps each as often as it was there |
| `ChainOrder.SortMembersSorted` | conformance/src/integrity/verify-chain.ts:79-86 | The comparison sorts by sequence, with events that declare none at the largest safe integer |
| `ChainFindings.SortRanks` | conformance/src/integrity/verify-chain.ts:78-86 | Equal sequences are in the order of their labels |
| `ChainOrder.NoMembersUnlessListed` | conformance/src/integrity/verify-chain.ts:399-404 | A chain has a group exactly when it has members |
| `ChainIntake.Intake.constructor` | conformance/src/integrity/verify-chain.ts:318-329 | A fresh intake has seen nothing |
| `ChainIntake.Intake.AddChainEvent` | conformance/src/integrity/verify-chain.ts:332-406 | After each event the counts, the unassigned findings and every group are those the batch specification gives for all events seen, with the placement `PlaceExactly` states |
| `ChainProperties.PlaceExactly` | conformance/src/integrity/verify-chain.ts:332-368 | An event goes to the chain it names if and only if the validator accepts it and it names one; otherwise it gets the first of three findings, each with its exact condition |
| `ChainProperties.UnassignedExactly` | conformance/src/integrity/verify-chain.ts:332-368 | The unassigned findings of a report are exactly those on events kept out, and every event is counted |
| `ChainFindings.SpelledReads` | conformance/src/integrity/verify-chain.ts:381-386 | The members an event is read by, spelled out, and what is left of it to be hashed |
| `ChainFindings.SpelledMember` | conformance/src/integrity/verify-chain.ts:388-397 | The chain member such an event becomes |
| `ChainFindings.MemberFindings` | conformance/src/integrity/verify-chain.ts:376-390 | A member keeps what the check of its own digest found, under its label |
| `ChainIntake.Intake.FinishChains` | conformance/src/integrity/verify-chain.ts:409-436 | The report is the batch report on the events seen |
| `ChainIntake.VerifyChains` | conformance/src/integrity/verify-chain.ts:449-459 | Streaming the events through the intake gives the batch report |
| `ChainIntake.VerifyOneChain` | conformance/src/integrity/verify-chain.ts:88-299 | The verdict equals its specification: ends, head, findings and notes |
| `ChainIntake.GroupBySequence` | conformance/src/integrity/verify-chain.ts:140-151 | The buckets hold exactly the members at each sequence in order, and their keys are the distinct sequences |
| `ChainIntake.CheckLinks` | conformance/src/integrity/verify-chain.ts:167-212 | Exactly the members whose previousHash is missing or differs from the declared hash of the predecessor are found |
| `ChainIntake.CollectDuplicates` | conformance/src/integrity/verify-chain.ts:153-161 | Exactly the sequences declared more than once are found |
| `ChainIntake.FindHead` | conformance/src/integrity/verify-chain.ts:282-286 | The head hash is that of the only event at the last sequence, and there is none when events share it |
| `ChainProperties.VerdictIsDeclarative` | conformance/src/integrity/verify-chain.ts:88-299 | A chain is intact if and only if all its members verify and declare a sequence, are sealed alike, have distinct sequences, and each links to the one next below it in sequence |
| `ChainFindings.FindingsExactly` | conformance/src/integrity/verify-chain.ts:88-212 | Each finding of a verdict is there exactly when its members give cause for it, by kind, label and count, and there is no other |
| `ChainFindings.EndsExactly` | conformance/src/integrity/verify-chain.ts:224-228 | The count is of all members, and the ends are the least and the greatest sequence any declares |
| `ChainFindings.HeadExactly` | conformance/src/integrity/verify-chain.ts:282-286 | The head hash is that of the only member at the greatest sequence, and absent when several are there |
| `ChainFindings.GapsExactly` | conformance/src/integrity/verify-chain.ts:221-237 | A gap is noted if and only if a number between the ends is declared by no member |
| `ChainFindings.GenesisExactly` | conformance/src/integrity/verify-chain.ts:170-182 | A start within the chain is noted if and only if the first member declares a previousHash |
| `ChainFindings.ReportInOrder` | conformance/src/integrity/verify-chain.ts:426-428 | The chains of a report stand in the order of their identifiers |
| `ChainProperties.ReportedChains` | conformance/src/integrity/verify-chain.ts:426-428 | A chain is reported exactly when some event belongs to it, with the verdict on its members |
| `ChainProperties.ReportIsDeclarative` | conformance/src/integrity/verify-chain.ts:430-435 | A report is intact if and only if the validator accepts every event, every event names a chain, and every chain is intact |
| `ChainProperties.EventsAreConserved` | conformance/src/integrity/verify-chain.ts:332-406 | The number of events is the number unassigned plus the sizes of all groups: each event is in exactly one place |
| `ChainProperties.MembersPermuted` | conformance/src/integrity/verify-chain.ts:399-404 | Permuting the events permutes the members of each chain |
| `ChainProperties.VerdictPermuted` | conformance/src/integrity/verify-chain.ts:282-298 | What a verdict publishes depends on the set of members only, though ties are sorted by label |
| `ChainProperties.OrderIndependence` | conformance/src/integrity/verify-chain.ts:449-459 | Permuting the input changes neither the verdict of the report nor the verdict, size, ends or head of any chain |
| `ChainBinding.SameSealedSameLinks` | conformance/src/integrity/digest.ts:58-69 | Sequence, previous hash and chain of an event are fixed by its digest input |
| `ChainBinding.LinkNamesPredecessor` | conformance/src/integrity/verify-chain.ts:163-212 | In an intact chain a link names its only possible predecessor |
| `ChainBinding.DeletionsOnlyAtEnds` | conformance/src/integrity/verify-chain.ts:221-237 | A sub-collection of an intact chain that verifies intact is a contiguous run of it |
| `ChainBinding.SameBackwards` | conformance/src/integrity/verify-chain.ts:163-212 | Two intact chains that share one hash hold the same events backwards from there, as far as both go |
| `Sealing.SealNextReads` | conformance/tools/generate-integrity-fixtures.ts:309-402 | Linking and then sealing a draft gives a sealed event of the same chain and sequence with that link |
| `Sealing.SealAllReads` | conformance/tools/generate-integrity-fixtures.ts:309-402 | Sealing drafts in turn seals each and links each to the hash of the one before |
| `Sealing.InTurnVerifies` | conformance/src/integrity/verify-chain.ts:88-299 | Events sealed in turn with rising sequences verify intact in any order |
| `Sealing.SealAllSucceeds` | conformance/src/integrity/digest.ts:120-139 | Sealing drafts of JSON values within the depth limit under a supported algorithm never throws, links included |
| `Sealing.SealThenVerify` | conformance/src/integrity/verify-chain.ts:449-459 | Seal, then verify: for such drafts with rising sequences sealing succeeds, and the report is intact in any input order, with the ends of the drafts and the hash of the last as head |
| `Checkpoint.IndexArchive` | conformance/src/integrity/verify-checkpoint.ts:100-138 | The two maps hold, for every chain, the entries of its assigned events in arrival order and the count of its unassigned ones |
| `Checkpoint.CompareClaim` | conformance/src/integrity/verify-checkpoint.ts:141-263 | Pushing findings one by one gives the specified comparison, whose status is what `AgreesExactly` characterises |
| `Checkpoint.VerifyCheckpoint` | conformance/src/integrity/verify-checkpoint.ts:274-381 | Each claim gets its comparison in document order; there is no chain exactly when no claim names one the archive has members of, and the archive agrees if and only if nothing fails and every claim agrees |
| `Checkpoint.MissingExactly` | conformance/src/integrity/verify-checkpoint.ts:326-345 | A claim is missing, with that one finding, if and only if the archive has no members of its chain |
| `CheckpointFindings.AbsentHeadFindings` | conformance/src/integrity/verify-checkpoint.ts:153-186 | Without an event at the head: truncated, missing or unverified, each exactly under its condition |
| `CheckpointFindings.PresentHeadFindings` | conformance/src/integrity/verify-checkpoint.ts:187-258 | With an event at the head: mismatch of algorithm, of head or of count, or unverified, each exactly under its condition |
| `CheckpointFindings.StatusExactly` | conformance/src/integrity/verify-checkpoint.ts:260-262 | A claim agrees exactly with an intact chain, no finding and nothing unverified |
| `CheckpointProperties.IndexAgreesWithGrouping` | conformance/src/integrity/verify-checkpoint.ts:89-138 | With distinct labels the entries of a chain are exactly its members that declare a sequence, in arrival order |
| `CheckpointProperties.IndexCoversChain` | conformance/src/integrity/verify-checkpoint.ts:246-262 | Even with clashing labels, a chain with nothing unverified is indexed whole and from verified members only |
| `CheckpointProperties.AgreesExactly` | conformance/src/integrity/verify-checkpoint.ts:260-262 | A claim agrees if and only if the chain is intact, none of it is unverified, and at some position it holds the recorded head, sealed as recorded, with as many events up to it as recorded |
| `CheckpointProperties.ReadOffAgrees` | conformance/src/integrity/verify-checkpoint.ts:274-381 | A claim read off an intact chain agrees with the events it was read off |
| `CheckpointProperties.ShorterThanOriginal` | conformance/src/integrity/verify-chain.ts:170-182 | An agreeing chain that starts after the start of the original declares a previousHash on its first member |
| `CheckpointProperties.CheckpointBinding` | conformance/src/integrity/verify-checkpoint.ts:141-263 | When a claim read off an intact chain agrees with an archive, the archive holds the events of the original backwards from the head, one for one as far as both go; there are equally many when a count is recorded or both start at genesis, the archive's are a run of the original's end when the original starts at genesis, and where the archive reaches further back it holds all of the original |
| `Truncation.PrefixIntact` | conformance/src/integrity/verify-chain.ts:163-212 | What is left of an intact chain after its end is cut off is intact |
| `Truncation.IntactInTwo` | conformance/src/integrity/verify-chain.ts:163-212 | A chain is intact if and only if, cut at a member, the part up to it and the part from it are |
| `Truncation.TruncationOnlySeenByCheckpoint` | conformance/src/integrity/verify-checkpoint.ts:167-176 | A chain cut short before the recorded head verifies intact, and its comparison has tail-truncated as its only finding |
| `Truncation.ExtensionStillAgrees` | conformance/src/integrity/verify-checkpoint.ts:238-244 | An agreeing chain extended past its head by events that verify and link stays intact and goes on agreeing |
| `LineReader.TooLongIsByteCount` | conformance/src/sources.ts:326-328 | The three-bytes-per-unit shortcut never changes the answer of the plain byte count |
| `LineReader.SplitRestores` | conformance/src/sources.ts:278-311 | Splitting loses nothing but a missing last newline, and no line holds one |
| `LineReader.SplitOfTerminated` | conformance/src/sources.ts:278-311 | Lines that hold no newline, each ended by one, split back into themselves |
| `LineReader.ReadingOfText` | conformance/src/sources.ts:278-311 | A text reads as its lines numbered from one, up to the first of more than 8388608 bytes, whose number the failure names |
| `LineReader.TakeLines` | conformance/src/sources.ts:278-301 | The inner loop hands on the finished lines of a buffer and stops at the first that is too long, finished or not |
| `LineReader.Reader.constructor` | conformance/src/sources.ts:260-264 | A fresh reader has read nothing |
| `LineReader.Reader.Feed` | conformance/src/sources.ts:267-302 | One read extends what was consumed by its text, keeps the partial line within the limit, and refuses the file exactly when it grew over its limit |
| `LineReader.Reader.Finish` | conformance/src/sources.ts:304-312 | At the end the lines are those of the whole text, or the failure is the one the whole text has |
| `LineReader.HeldIsBounded` | conformance/src/sources.ts:244-255 | What is held is at most one line and one decoded read, however long the file |
| `LineReader.ReadLines` | conformance/src/sources.ts:256-316 | Without a limit on the file, any split into reads yields the numbered lines of the whole text up to the first that is too long, and then that line as failure; with a limit, a prefix of them |
| `Stream.StreamFile` | conformance/src/sources.ts:411-453 | However the file is split into reads, its items are those of the whole text; reading stops at a failure, with items that nothing still unread could have changed; a file refused for its size yields events of the whole text and the refusal |
| `Stream.TakeRead` | conformance/src/sources.ts:413-442 | One read hands on the items of the lines it completes, and ends the reading exactly with items settled whatever follows |
| `Stream.ItemExactly` | conformance/src/sources.ts:413-442 | A blank line gives nothing, and any other an event or one of two failures, each exactly under its condition |
| `Stream.EveryLineHandedOn` | conformance/src/sources.ts:413-442 | No line that is not blank is skipped before the first that fails |
| `Stream.FileItemsExactly` | conformance/src/sources.ts:398-453 | The items of a text are exactly those of its lines up to the first that fails, and the failure of the reader when none does |
| `Stream.OneFailureEndsTheFile` | conformance/src/sources.ts:390-396 | Every item but the last is an event, and all are events exactly when every line parses within the depth limit and the reader reached the end |
| `Stream.StreamedEventsHashable` | conformance/src/sources.ts:434-441 | An event handed on passes the guard if and only if its numbers are finite, and can be hashed if and only if its hashed numbers are |
| `Stream.InfinityIsHandedOn` | conformance/src/sources.ts:434-441 | A line with a number beyond the double range is handed on as an event that cannot be hashed |
| `Stream.FileIndexesRise` | conformance/src/sources.ts:438-441 | The events of any file carry rising line numbers |
| `Pipeline.LabelNamesLine` | conformance/src/sources.ts:438-441 | A label of file name, number sign and decimal line names one line of one file |
| `Pipeline.DecimalIsNumber` | conformance/src/sources.ts:438-441 | Line numbers are written in decimal without a leading zero |
| `Pipeline.ArchiveLabelsDistinct` | conformance/src/sources.ts:488-495 | Events read from files of distinct names have distinct labels |
| `Pipeline.ReadArchiveIsIndexed` | conformance/src/integrity/verify-checkpoint.ts:89-138 | So for what was read from such files the checkpoint's index is the grouping of the chain verifier |
| `Pipeline.VerifyFiles` | conformance/src/cli.ts:1110-1127 | Streaming every file into one intake gives the batch report on all events of the files, with one failure for each file that could not be read to its end |
| `Pipeline.ArchiveExactly` | conformance/src/sources.ts:488-495 | The archive is exactly the events the files hand on, labelled by file and line |
| `Pipeline.FailuresExactly` | conformance/src/cli.ts:478-486 | Every reason a file could not be read to its end is reported, and no other |
| `Pipeline.SplitsDoNotMatter` | conformance/src/cli.ts:1110-1127 | The report and the failures `VerifyFiles` is proved to return depend on the names and texts of the files only, so two ways of splitting them into reads return the same |
| `Entropy.CountCharacters` | conformance/src/privacy/entropy.ts:46-49 | The map holds how often each code point occurs, in the order of first occurrence |
| `Entropy.ShannonEntropy` | conformance/src/privacy/entropy.ts:41-58 | The loops compute the sum of -p log p over the distinct code points, and zero for the empty string |
| `Entropy.EntropyBound` | conformance/src/privacy/entropy.ts:41-58 | For every non-empty string: the entropy is at most the logarithm of the number of distinct characters if and only if there are three or more, no surrogate pair, or two that have one width or pass the test in their counts |
| `Entropy.LetterAndPairBound` | conformance/src/privacy/entropy.ts:52-55 | With one letter a times and one pair b times the bound is the inequality (a + 2b)^(a + b) <= 2^(a + 2b) a^a b^b |
| `Entropy.LetterAndPairExceedBound` | conformance/src/privacy/entropy.ts:52-55 | One letter and one pair have more entropy than the logarithm of two |
| `Entropy.PairExceedsBound` | conformance/src/privacy/entropy.ts:52-55 | One character outside the basic plane has half a bit of entropy, above the logarithm of one |
| `Entropy.EntropyOrderIndependent` | conformance/src/privacy/entropy.ts:46-55 | The value depends on how often each character occurs and not on where |
| `Entropy.TokenCharacters` | conformance/src/privacy/entropy.ts:37-38 | In a string of the token alphabet every code unit is a character |
| `Entropy.CharactersJoin` | conformance/src/privacy/entropy.ts:46-49 | The characters of a string, joined, are the string, and each is one unit or one surrogate pair |
| `Entropy.CandidateExactly` | conformance/src/privacy/entropy.ts:79-96 | A string is reported if and only if it has 24 to 4096 units, all of the alphabet and of three classes, is not a safe format, and has an entropy of at least four |
| `Entropy.CandidatesAreDiverse` | conformance/src/privacy/entropy.ts:79-96 | Every string the heuristic reports has at least sixteen distinct characters |

## Left out

- Signature primitives and keys (`signature.ts`): the check of a signature with a supplied key is a parameter; what is modelled is when it is consulted and what its failure does.
- SHA internals and the timing of comparisons: the hash is any function with results of fixed length.
- Schema validation: an arbitrary predicate on events, and for checkpoint and proof documents the verdict of the schema as a field of the document. The reading of a schema-valid document into a record (`readClaims` and its counterpart for proofs) is not modelled.
- Wording of findings, detail lines, notes and passed checks, including batches and `batchId`: none of them decides a verdict. The note on events after the head is left out with them.
- Canonical.BytesIdentifyValue: a number is identified by its canonical token, as number formatting is not modelled; tokens are self-delimiting, and the two zeros are one number, as RFC 8785 prints them.
- Digest.BuildDigestInput: the structured clone is the value itself. A class instance inside an event, which the clone would turn into a plain object, counts as a value JSON cannot represent.
- Json.GuardsAgree: values with cycles, which no parser returns, are not modelled, nor is the walk of the reader over class instances.
- ChainOrder.SortMembersSorted: the platform sort is modelled as a stable insertion sort under the program's comparison.
- ChainIntake.VerifyChains: whole numbers are unbounded; tokens that round to one double are read as one number by the parameter that reads them.
- LineReader.ReadLines: the decoder that carries a character across reads is not modelled. Each read is given as its byte count and the text it decoded to, and the text held back at the end holds no newline. The failure of a read itself is left out.
- Stream.StreamFile: `trim` and the parser are parameters, and the parser is any function whose results are values some JSON text parses to, infinities included. The items of one read are handed on together after that read, where the program hands on each line's. Opening files, the size refusal before reading and the branch for single documents are left out.
- Pipeline.VerifyFiles: only JSON Lines files, given by the names they are displayed under; expanding directories, printing and exit codes are left out.
- Entropy.ShannonEntropy: over ideal reals, with any logarithm that turns products into sums, increases and lies under its tangent at one; floating-point rounding is left out.
- Entropy.CandidatesAreDiverse: the recognised safe formats are an arbitrary predicate.
- Directory expansion, configuration, the command line, the MCP server, reports and fixtures: plumbing whose claims are about single branches.
