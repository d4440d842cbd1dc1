# Agent Passport System: a verified model of its commitments, serializers and governance rules

The Agent Passport System signs and hashes JSON artifacts on behalf of agents. This
project models the parts where a mistake would be silent and proves what they are for:

- **Merkle commitments** (`Merkle`, `MerkleReference`): inclusion proofs are sound and complete, a root binds
  its multiset of leaves, and root and proofs are those of section 2.1 of RFC 6962 over the sorted leaves.
- **Canonical JSON** (`Json`, `JsonText`, `CanonicalJcs`, `CanonicalLegacy`, `LegacyHeap`): the RFC 8785
  serializer and the legacy serializer, their write twins, a JSON parser that inverts them, and
  exact cycle detection on shared and cyclic heaps.
- **Patterns and governance chains** (`DidPattern`, `PathGlob`, `GovernanceChain`): both matchers decide
  an existential definition of matching; hash-linked histories that end alike are alike, and a block is valid
  exactly when its signature, content and parent check, so that no edit goes unnoticed.
- **Charters, amendments, approvals** (`Threshold`, `Charter`, `CharterBinding`, `CharterSigning`, `CharterText`,
  `Amendment`, `Approval`): M-of-N counting, when each step succeeds and what it records, signing runs, what a
  signature binds, what the signed texts say, and the approval lifecycle.
- **Scopes and request identity** (`ActionRef`), **the Cedar bridge** (`Cedar`, `CedarPolicy`, `CedarGrammar`),
  **the per-epoch limiter** (`EpochLimit`) and **the x402 budget** (`X402`).

`Text` holds JavaScript strings (16-bit units), their order, sorting and splitting; `Hashing` holds
SHA-256 and Ed25519 as arbitrary functions. Check everything with `dafny verify dfyconfig.toml`.

## How to read the theorems

**Collisions.** A hash is any function from strings to 64-unit strings; it is never assumed injective.
Where collision resistance is needed, the conclusion is "the claim holds, or two *different* strings
with the same digest occur among the strings that the two computations really hash"
(`Hashing.Collides`, with `Merkle.BuildInputs`, `Merkle.VerifyInputs` and `GovernanceChain.HashedTexts`
naming those strings). Node encodes a string as UTF-8 before hashing; an unpaired surrogate is replaced
there, so two strings that differ only in unpaired surrogates count as such a collision. Canonical texts
never contain one (`CanonicalJcs.PrintWellFormed`, `CanonicalLegacy.LegacyWellFormed`).

**Signatures.** `Hashing.KeyPair` says that what a secret signs verifies under its public key.
`Hashing.OneMessagePerSignature`, used only by `Amendment.SignatureCannotMove`, says that no signature
verifies for two messages under one key.

**Time, randomness, identifiers** are parameters. Times are integers in milliseconds; a timestamp that
cannot be read is `None`.

**Code and comments that disagree.** The model follows the code.

- The comment on `matchDidPattern` says that `did:*` matches any DID; the code returns true for any text
  at all. `DidPattern.DidStarShortcut` says exactly where the two agree.
- `createCharter` means to refuse duplicate office ids, but an empty id is false to JavaScript.
  `Charter.DuplicateCheck` gives the exact set of lists refused, `Charter.DistinctOrEmpty` the exact set accepted,
  and `Charter.EmptyIdsEscape` a charter with duplicates that is created and then verified as valid.
- `verifyCharter` announces a check for duplicate ids and does not make it: every list of ids belongs to a charter
  that verifies (`Charter.AnyIdsVerify`), and repeating an office changes no finding (`Charter.RepeatedOfficePasses`).
- The outer `signature` of a charter is made by `createCharter` and `signCharter` and read by no check of
  `verifyCharter` (`Charter.OuterSignatureUnread`).
- The comment on `approvalSignContent` says that it binds request and subject. It does so exactly when neither holds
  a colon (`Approval.ContentIdentifies`); generated ids hold none, and among those it binds (`Approval.PlainIdsBind`).
- The fourth x402 gate can never fire, because the search for a delegation has already applied the same
  budget test (`X402.BudgetRun`); and only the first delegation found is ever tried against the merchant
  list (`X402.FirstCoveringDecides`).

## Model

| member | source | states |
|---|---|---|
| `Merkle.PairUp` | src/core/attribution.ts:326-334 | The inner loop pairs neighbours and promotes a last odd node unchanged, never duplicating it |
| `Merkle.BuildMerkleRoot` | src/core/attribution.ts:319-338 | The loop over levels computes `Root`, which `RootIsTreeDigest` ties to a tree and `MerkleTreeLeaves` to the sorted leaves |
| `Merkle.RootIsTreeDigest` | src/core/attribution.ts:323-337 | The root is the digest of one binary tree with separately prefixed leaves and nodes |
| `Merkle.MerkleTreeLeaves` | src/core/attribution.ts:312-338 | That tree holds exactly the given leaves, in sorted order, whatever nodes were promoted |
| `Merkle.SortedInOrder` | src/core/attribution.ts:322-322 | Every sorted leaf equals, or comes before in code-unit order, all leaves that follow it |
| `MerkleReference.RootIsTreeHash` | src/core/attribution.ts:299-338 | The level-by-level root is the tree hash of section 2.1 of RFC 6962, written out, over the leaves in any order that puts lower ones first; without leaves, the hash of "empty" |
| `Merkle.VerifyMerkleProof` | src/core/attribution.ts:386-396 | Accepts exactly when hashing up from the leaf through the siblings reaches the claimed root |
| `MerkleReference.AcceptsMeans` | src/core/attribution.ts:386-396 | Accepted exactly when hashing up from 0x00 and the leaf, under 0x01 with each sibling on its own side, gives the root |
| `MerkleReference.ShortProofs` | src/core/attribution.ts:386-396 | The same for no sibling, one on the right and one on the left, as formulas |
| `Merkle.Soundness` | src/core/attribution.ts:382-396 | For every leaf list and every accepted proof of its root, with siblings of any length: the proved hash is a leaf, or building and verifying collide |
| `Merkle.PathSound` | src/core/attribution.ts:386-396 | The same for any subtree; only the running hash's length is used to split a preimage |
| `Merkle.Binding` | src/core/attribution.ts:299-338 | Two leaf lists with one root are permutations of each other, or their builds collide; covers the empty list and repeated leaves |
| `Merkle.TreeBinding` | src/core/attribution.ts:299-310 | Two trees with one digest are equal, or their hashed strings collide |
| `MerkleReference.InputsAreFew` | src/core/attribution.ts:299-338 | The strings among which collisions are named: at most 2n - 1 for n leaves, one more than the path for a proof |
| `Merkle.PermutationSameRoot` | src/core/attribution.ts:312-322 | Any reordering of the leaves gives the same root |
| `Merkle.Climb` | src/core/attribution.ts:354-379 | The climbing loop yields siblings that fold to the root, at most k of them whenever there are at most 2^k leaves |
| `Merkle.GenerateMerkleProof` | src/core/attribution.ts:344-380 | A proof is returned exactly for members; it is accepted, carries the list's root and the first sorted index, and has at most ceil(log2 n) siblings |
| `MerkleReference.SiblingsAreAuditPath` | src/core/attribution.ts:344-380 | The siblings returned are the audit path of RFC 6962: for each half left behind its tree hash, on its own side |
| `MerkleReference.AuditPathReaches` | src/core/attribution.ts:344-396 | That path leads from the leaf to the tree hash |
| `Json.ParsePrintInt` | src/core/canonical-jcs.ts:106-115 | A printed integer reads back, whatever non-digit follows it |
| `Json.PrintIntText` | src/core/canonical-jcs.ts:106-115 | Decimal notation, digit by digit, with a minus sign before negative numbers |
| `Json.ParseStringify` | src/core/canonical-jcs.ts:116-118 | A quoted string reads back unit for unit, unpaired surrogates included |
| `Json.ShortEscapes` | fixtures/authority-revocation/recompute-independent.ts:57-63 | The seven two-character escapes |
| `Json.LongEscapes` | fixtures/authority-revocation/recompute-independent.ts:64-74 | Lower-case hexadecimal for the other controls and for lone surrogates; every other unit stands for itself |
| `Json.EscapedText` | fixtures/authority-revocation/recompute-independent.ts:53-76 | Surrogate pairs are kept, all other units escaped one by one |
| `JsonText.ParseBack` | src/core/canonical-jcs.ts:94-147 | The text of any value without undefined reads back to that value from the front of a longer text |
| `JsonText.RoundTrip` | src/core/canonical-jcs.ts:94-147 | Parsing canonical text gives back the value it was printed from |
| `JsonText.PrintInjective` | src/core/canonical-jcs.ts:53-70 | Canonical bytes are equal exactly when the values are |
| `Text.SortedKeysInOrder` | src/core/canonical-jcs.ts:133-133 | Sorted keys: each key once, before all that follow it by first differing unit or by being a prefix |
| `JsonText.PrintObjectText` | src/core/canonical-jcs.ts:130-145 | An object prints as its members in that order between braces, separated by commas, each a quoted key, a colon and the value |
| `JsonText.LowerKeyPrintedFirst` | src/core/canonical-jcs.ts:133-145 | Of two members, the one whose key has the smaller unit where they differ, or ends first, is printed first |
| `JsonText.PrintArrayText` | src/core/canonical-jcs.ts:120-130 | An array prints as its items in order between brackets, separated by commas |
| `JsonText.PrintWords` | src/core/canonical-jcs.ts:94-105 | The texts of null, true and false |
| `CanonicalJcs.NoLoneSurrogate` | src/core/canonical-jcs.ts:34-51 | The scan passes exactly the strings in which every surrogate is paired |
| `ActionRef.WellFormedMeans` | src/core/canonical-jcs.ts:34-51 | Well formed means that no decoded code point is a surrogate |
| `CanonicalJcs.NoUndefined` | src/core/canonical-jcs.ts:149-168 | The walk passes exactly the values with no undefined at any depth, in whatever order keys come up |
| `CanonicalJcs.CanonicalizeValue` | src/core/canonical-jcs.ts:90-147 | The emitter succeeds exactly on values free of its defects, then prints the canonical text; an error names a defect the value has |
| `CanonicalJcs.EmittableMeans` | src/core/canonical-jcs.ts:94-147 | Free of defects means: no undefined, no unpaired surrogate in a string or key, and no unsafe integer when writing |
| `Json.UndefinedWithin` | src/core/canonical-jcs.ts:149-168 | Having undefined means that undefined occurs somewhere inside |
| `Json.UnsafeIntegerWithin` | src/core/canonical-jcs.ts:106-113 | Having an unsafe integer means that a number of 2^53 or more in size occurs somewhere inside |
| `Json.LoneSurrogateWithin` | src/core/canonical-jcs.ts:34-51 | Having a lone surrogate means that a string or key somewhere inside is not well formed |
| `CanonicalJcs.CanonicalizeJCS` | src/core/canonical-jcs.ts:53-70 | Undefined is reported first, then an unpaired surrogate; otherwise the canonical text is returned |
| `CanonicalJcs.JcsMeans` | src/core/canonical-jcs.ts:53-70 | An undefined anywhere inside is reported first, then a lone surrogate anywhere; any other value prints |
| `CanonicalJcs.CanonicalizeJCSForWrite` | src/core/canonical-jcs.ts:72-88 | The read twin's bytes; beyond what the read twin refuses, exactly the values holding an unsafe integer are refused |
| `CanonicalJcs.JcsInjective` | src/core/canonical-jcs.ts:53-70 | Two accepted values with the same bytes are the same value |
| `CanonicalJcs.PayloadCheck` | src/decisionReceipt.ts:190-249 | A payload survives "parse, canonicalize, compare" exactly when it is the canonical text of some value, and then parses to that value |
| `CanonicalJcs.PrintWellFormed` | src/core/canonical-jcs.ts:116-118 | Canonical text never contains an unpaired surrogate, so its UTF-8 encoding loses nothing |
| `CanonicalJcs.JcsString` | fixtures/authority-revocation/recompute-independent.ts:45-76 | The independent string printer refuses exactly unpaired surrogates and otherwise equals `JSON.stringify` |
| `CanonicalJcs.JcsStringOnlyObject` | fixtures/authority-revocation/recompute-independent.ts:78-99 | Accepts exactly the flat string objects that the serializer accepts, with the same text |
| `CanonicalLegacy.KeptKeys` | src/core/canonical.ts:30-35 | Sorting then filtering the keys gives the sorted keys of the stripped object |
| `CanonicalLegacy.LegacyIsPrintOfStrip` | src/core/canonical.ts:14-44 | Legacy text is the canonical text of the value with null and undefined members removed at every depth |
| `CanonicalLegacy.LegacyRoundTrip` | src/core/canonical.ts:14-44 | For every value, legacy text parses back to the stripped value |
| `CanonicalLegacy.LegacyObjectReads` | src/core/canonical.ts:30-42 | Read back, an object has exactly the members that are neither null nor undefined, each as its own text reads |
| `CanonicalLegacy.LegacyItemsRead` | src/core/canonical.ts:14-29 | Arrays keep every item, undefined reading back as null; atoms read back as they are |
| `CanonicalLegacy.LegacyKernel` | src/core/canonical.ts:3-8 | Legacy bytes are equal exactly when the stripped values are |
| `CanonicalLegacy.LegacyVersusJcs` | src/core/canonical-jcs.ts:54-62 | The strict serializer gives the legacy text of the stripped value exactly when that value has no unpaired surrogate |
| `CanonicalLegacy.LegacyWellFormed` | src/core/canonical.ts:14-44 | Legacy text never contains an unpaired surrogate |
| `LegacyHeap.Canonicalize` | src/core/canonical.ts:14-44 | Over any finite heap and any set of ancestors: prints the unfolded tree or reports a cycle, terminates, and on success leaves the ancestor set as it found it |
| `LegacyHeap.CanonicalizeRoot` | src/core/canonical.ts:14-44 | Throws exactly when a cycle is reachable from the argument; otherwise returns the text of the tree it stands for, sharing allowed |
| `LegacyHeap.UnfoldFailsWhenTrapped` | src/core/canonical.ts:18-25 | The path-scoped ancestor test fires exactly when some walk returns to an ancestor or to itself |
| `LegacyHeap.RepresentedIsAcyclic` | src/core/canonical.ts:18-22 | A value that stands for a finite tree reaches no cycle |
| `LegacyHeap.RepresentsUnique` | src/core/canonical.ts:18-22 | A heap value stands for at most one tree |
| `LegacyHeap.UnfoldsUnlessCyclic` | src/core/canonical.ts:18-25 | A tree exists exactly when no cycle is reachable, however much is shared |
| `LegacyHeap.CanonicalizeForWrite` | src/core/canonical.ts:46-96 | The read twin's bytes and ancestor discipline; succeeds exactly when the tree exists and holds no unsafe integer |
| `LegacyHeap.CanonicalizeForWriteRoot` | src/core/canonical.ts:46-96 | On a tree: the legacy text, or an unsafe-integer error exactly when the tree holds one |
| `DidPattern.MatchDidPattern` | src/core/aps-txt.ts:241-263 | True exactly when the stars can be replaced by texts that give the DID, or the pattern is `did:*` |
| `DidPattern.MatchParts` | src/core/aps-txt.ts:248-262 | The loop decides: first part a prefix, last part a suffix of the remainder, the others in order between |
| `DidPattern.LeftmostSuffices` | src/core/aps-txt.ts:257-259 | Taking the leftmost occurrence of a middle part loses no match |
| `DidPattern.MatchesByParts` | src/core/aps-txt.ts:243-247 | Cutting the pattern at its stars keeps its meaning |
| `DidPattern.DidStarShortcut` | src/core/aps-txt.ts:235-242 | The meaning of `did:*` is "begins with did:", so the shortcut differs exactly on other texts |
| `DidPattern.SimplePatterns` | src/core/aps-txt.ts:243-262 | A pattern without a star matches itself only; one with a single star any text with that beginning and end, not overlapping |
| `PathGlob.GlobPartsMatch` | src/core/aps-txt.ts:213-233 | The backtracking matcher terminates and decides matching of the remaining parts and segments |
| `PathGlob.GlobsStepwise` | src/core/aps-txt.ts:205-211 | Matching part by part equals cutting the path into one covered run of segments per part |
| `PathGlob.MatchGlob` | src/core/aps-txt.ts:205-211 | True exactly when the segments can be cut into runs: any run for `**`, one segment for `*`, the segment itself otherwise |
| `PathGlob.PartsMean` | src/core/aps-txt.ts:205-211 | What `**`, `*` and any other part cover, and that parts stand between slashes |
| `PathGlob.ResolveTermsForPath` | src/core/aps-txt.ts:184-203 | Exactly the first override whose path and agent patterns both match is laid over the defaults; the defaults alone if none does |
| `PathGlob.AppliesMeans` | src/core/aps-txt.ts:188-203 | Without a user agent the path alone decides; with one, an agent must be given and match |
| `GovernanceChain.UnsignedMembers` | src/core/aps-txt.ts:348-366 | A derivative keeps source, expiry and (unless given one) revocation policy of its parent, carries its own terms, and links to its parent |
| `GovernanceChain.CreatedBlock` | src/core/aps-txt.ts:348-371 | Every member of the created block, no other, and a signature over the text of all the rest |
| `GovernanceChain.MemberNames` | src/core/aps-txt.ts:353-365 | The names the members are published under |
| `GovernanceChain.CreatedUnlessUnsafe` | src/core/aps-txt.ts:348-371 | Creation fails exactly on an unsafe integer in the parent, the terms or a given revocation policy |
| `GovernanceChain.TruthyMeans` | src/core/aps-txt.ts:360-362 | The values taken as absent for expiry and revocation policy |
| `GovernanceChain.CreatedVerifies` | src/core/aps-txt.ts:334-405 | A created derivative verifies against its content, its agent's key and its parent |
| `GovernanceChain.VerdictMeans` | src/core/aps-txt.ts:376-405 | Valid exactly when the signature verifies over the legacy text of the other members, the content hash is the digest of the content, and a given parent is the one named |
| `GovernanceChain.OneBlockPerSignature` | src/core/aps-txt.ts:384-389 | Two valid blocks with one signature and key are equal after stripping |
| `GovernanceChain.EditRefused` | src/core/aps-txt.ts:384-389 | A valid block that is edited, its signature kept, is refused whatever it is checked against |
| `GovernanceChain.OneContentPerBlock` | src/core/aps-txt.ts:391-393 | Two contents accepted for one block are equal or collide |
| `GovernanceChain.OneParentPerBlock` | src/core/aps-txt.ts:395-402 | Two parents accepted for one block are equal after stripping, or their texts collide |
| `GovernanceChain.SameParentDigest` | src/core/aps-txt.ts:395-402 | Children with equal text name one parent digest |
| `GovernanceChain.ChainIntegrity` | src/core/aps-txt.ts:376-405 | Two linked histories of any lengths that end alike agree up to null stripping at every common position from the end, or the texts of their parent blocks collide |
| `GovernanceChain.ChainKeepsOrigin` | src/core/aps-txt.ts:348-362 | At any depth of any created chain the source is the root's; so is a non-empty expiry, and an absent one stays absent |
| `GovernanceChain.ChainRunLinked` | src/core/aps-txt.ts:334-371 | Every created chain passes every parent check |
| `Threshold.CountClass` | src/core/charter.ts:290-306 | The loop collects the distinct keys of the class that are eligible and verify, and reports every signature of the class it leaves out |
| `Threshold.EvaluateThreshold` | src/core/charter.ts:267-334 | Per class: role, required, collected and satisfied; met is their conjunction; the totals are the sums; the reports, in order |
| `Threshold.StatusMeans` | src/core/charter.ts:307-320 | A class reports as collected the size of the largest set of eligible keys with verifying signatures of the class |
| `Threshold.TotalsAdd` | src/core/charter.ts:319-320 | The totals add up the lines |
| `Threshold.NoErrorsMeans` | src/core/charter.ts:290-333 | Nothing is reported exactly when the policy is met and every signature of one of its classes counts; so reports may stand beside a met policy |
| `Threshold.ReportsMean` | src/core/charter.ts:292-311 | Which report a signature that does not count gets, and when a class falls short |
| `Threshold.ReportTexts` | src/core/charter.ts:296-311 | The reports of evaluateThreshold, spelled out |
| `Threshold.ClassMetMeans` | src/core/charter.ts:252-266 | A class is met exactly when some set of enough distinct eligible keys each carries a verifying signature of that class |
| `Threshold.MetMonotone` | src/core/charter.ts:289-309 | More signatures never lose a class; order and repetition change nothing |
| `Charter.CheckSuccessors` | src/core/charter.ts:188-198 | True exactly when every office named as successor exists, with one report per unknown successor |
| `Charter.SuccessorsMean` | src/core/charter.ts:188-198 | Known means: every successor named is the id of some office |
| `Charter.CheckIncompatibility` | src/core/charter.ts:200-225 | True exactly when nobody holds two offices of which one forbids the other, with one report per clash found |
| `Charter.ClashMeans` | src/core/charter.ts:200-225 | Two offices clash exactly when one lists the other as incompatible and some key holds both |
| `Charter.VerifyCharter` | src/core/charter.ts:147-250 | What each of the six findings means, the reports in order, and valid (nothing reported) is the conjunction of the findings with the citation gate |
| `Charter.CharterErrorsMean` | src/core/charter.ts:151-248 | The list of reports is empty exactly when every finding holds and cited work is covered by receipts |
| `CharterSigning.CitationGate` | src/core/charter.ts:224-237 | A charter that cites nothing passes; one that cites needs receipts that cover it |
| `CharterSigning.ReportsMean` | src/core/charter.ts:151-237 | Which finding gives which report, in order |
| `CharterSigning.ReportTexts` | src/core/charter.ts:157-235 | The reports of verifyCharter, spelled out |
| `Charter.RunStaysSound` | src/core/charter.ts:62-140 | At every point of every run of createCharter and signCharter with matching keys: content hash intact, all signatures valid, no key twice |
| `CharterSigning.SignedExactly` | src/core/charter.ts:115-140 | Signing succeeds exactly for a new key on a body without unsafe integers; the signature added and the new outer signature |
| `CharterSigning.RunRecords` | src/core/charter.ts:62-140 | At every point of every run: one signature per step over the content hash, in order, with key, role and time, and whose outer signature it carries |
| `CharterSigning.RunGoesOn` | src/core/charter.ts:121-124 | A run can go on with every key that has not signed, and with no other |
| `Charter.QuorumIsKept` | src/core/charter.ts:109-182 | Signatures are only appended, so a quorum once met stays met |
| `CharterSigning.QuorumMeans` | src/core/charter.ts:173-182 | The quorum is met exactly when each class has enough distinct eligible keys with a verifying signature over the content hash in its role |
| `CharterSigning.RunQuorum` | src/core/charter.ts:62-182 | In a run with matching keys: exactly when, for each class, enough eligible keys signed in its role |
| `CharterSigning.ValidMeans` | src/core/charter.ts:147-248 | A charter is valid exactly when its hash is that of its text, every founding signature verifies over the hash, every class has its quorum, it is not dissolved, its offices are consistent and its citations covered |
| `Charter.DuplicateCheck` | src/core/charter.ts:65-70 | Creation refuses a list of offices for duplicates exactly when the first id that repeats an earlier one is not the empty string |
| `Charter.DistinctOrEmpty` | src/core/charter.ts:62-106 | A body without unsafe integers is accepted exactly when its office ids are distinct or the first repeated one is empty |
| `CharterSigning.CreatedExactly` | src/core/charter.ts:62-106 | When creation succeeds and which error it gives otherwise; the hash, the founder's signature over it, and the outer signature |
| `Charter.EmptyIdsEscape` | src/core/charter.ts:65-70 | Two pairs of offices with equal ids, the first pair empty: the charter is created and verifies as valid |
| `Charter.AnyIdsVerify` | src/core/charter.ts:188-198 | Every list of office ids, repeated or not, belongs to a charter that verifies |
| `Charter.RepeatedOfficePasses` | src/core/charter.ts:188-225 | Listing an office twice changes neither finding about offices |
| `Charter.OuterSignatureUnread` | src/core/charter.ts:147-248 | Any other outer signature gives the same findings, reports and verdict |
| `CharterBinding.RequirementBinds` | src/core/charter.ts:73-90 | A requirement is determined by its stripped object |
| `CharterBinding.OfficeBinds` | src/core/charter.ts:73-90 | So are an office's id, succession order, holders' keys and incompatibilities |
| `CharterBinding.ContentHashBinds` | src/core/charter.ts:147-157 | Two intact charters with one content hash have the same identity, status, amendment policy and offices, or their texts collide |
| `CharterBinding.CharterValueBinds` | src/core/charter.ts:363-371 | The same for whole charters that are equal after stripping |
| `CharterText.ContentReads` | src/core/charter.ts:73-90 | Read back by a JSON parser, the hashed text holds every field of the body under its published name, no founding signature, no hash and no signature |
| `CharterText.CharterReads` | src/core/charter.ts:101-105 | A whole charter also holds its hash, its founding signatures and its outer signature |
| `Amendment.VerifyAmendment` | src/core/charter.ts:457-524 | What each finding means, the reports in order, and valid (nothing reported) is the conjunction of the findings |
| `Amendment.AmendmentErrorsMean` | src/core/charter.ts:457-524 | Nothing is reported exactly when every finding holds |
| `Amendment.ThresholdMeans` | src/core/charter.ts:489-502 | The threshold is met exactly when each class has enough distinct eligible keys with a verifying signature over that text in its role |
| `Amendment.ProposalErrorsMean` | src/core/charter.ts:504-513 | Filtering the reports by the words "office" and "incompatible" leaves one exactly when the proposed offices are inconsistent |
| `Amendment.FilterMeans` | src/core/charter.ts:510-512 | The filter keeps a report exactly when one of the two words occurs in it |
| `Amendment.SignContentBinds` | src/core/charter.ts:349-375 | Equal signed text means equal charter id, versions, description and proposed charter up to null stripping, hence equal policy and offices |
| `CharterText.AmendmentReads` | src/core/charter.ts:365-373 | What amendment signers sign reads back as exactly five members: charter id, both versions, description and proposed charter |
| `Amendment.SignatureCannotMove` | src/core/charter.ts:349-375 | A signature that counts for two amendments counts for one and the same proposal |
| `Amendment.RunKeepsKeysApart` | src/core/charter.ts:391-450 | In every run of createAmendment and signAmendment each key signs once, the proposer first and as proposer, and charter id, both versions, description and proposed charter never change |
| `Amendment.ProposedExactly` | src/core/charter.ts:391-430 | An amendment can be proposed exactly to a charter neither dissolved nor suspended, without unsafe integers; every field of the result |
| `Amendment.CosignedExactly` | src/core/charter.ts:432-450 | Signing succeeds exactly for a new key on a proposal without unsafe integers; the one signature it adds |
| `Amendment.RunRecords` | src/core/charter.ts:391-450 | At every point of every run: one signature per step over one text, in order, the first as proposer |
| `Amendment.RunSignaturesVerify` | src/core/charter.ts:385-450 | With matching keys every signature of a run verifies over the text signed first: the write twin signs what the read twin checks |
| `Amendment.OneRolePerKey` | src/core/charter.ts:432-450 | With distinct keys no key counts for two roles |
| `Amendment.ProposerCountsOnlyAsProposer` | src/core/charter.ts:403-415 | In every run the proposer's key counts for no class but 'proposer' |
| `Approval.CreatedRequest` | src/core/charter.ts:593-614 | A new request is pending and unsigned; in every run from it each request keeps id and subject, has distinct signers, and expires exactly when the timeout has passed |
| `Approval.AddedExactly` | src/core/charter.ts:627-664 | A signature is accepted exactly on a pending request, within a readable expiry, from a new key; which refusal otherwise; the signature is the signer's over id, colon and subject |
| `Approval.AcceptedUntilTimeout` | src/core/charter.ts:593-664 | In every run from a new request: accepted exactly while pending, until the timeout, from keys new to that request |
| `Approval.ApprovedIsClosed` | src/core/charter.ts:627-757 | In every run an approved request was approved by the evaluation that made it, satisfied and in time, and accepts no signature |
| `Approval.SignContentBinds` | src/core/charter.ts:616-623 | For all ids and subjects: equal signed content exactly when id and subject are equal, or one id runs on past a colon into the subject of the other |
| `Approval.PlainIdsBind` | src/core/charter.ts:604-623 | Among ids without a colon, such as the generated ones, equal content means equal id and subject |
| `Approval.ContentIdentifies` | src/core/charter.ts:616-623 | The content names its request among all others exactly when neither id nor subject holds a colon |
| `Approval.AddedSignatureCounts` | src/core/charter.ts:627-664 | A signature added with a matching key makes exactly that key count, and the key was not there before |
| `Approval.MissingRoles` | src/core/charter.ts:690-711 | The missing offices in order, none exactly when every required office has signed; per-role status |
| `Approval.OrderKept` | src/core/charter.ts:716-740 | Met exactly when the i-th signature is of the i-th office, for all of the order; per-place status and reports |
| `Approval.LinesMean` | src/core/charter.ts:700-734 | The report lines for offices and places: one signature wanted, and whether it is there |
| `Approval.EvaluateApprovalRequest` | src/core/charter.ts:668-757 | Only the status changes: expired, else approved or pending as the policy is satisfied; per-class status, totals and reports for every kind of policy |
| `Approval.ThresholdSatisfied` | src/core/charter.ts:678-689 | A threshold policy is satisfied exactly when each class has enough distinct eligible keys that signed id, colon and subject |
| `Approval.RolesSatisfied` | src/core/charter.ts:691-699 | A role policy exactly when every required office, none unnamed, has signed |
| `Approval.OrderSatisfied` | src/core/charter.ts:716-756 | A sequential policy exactly when the signatures begin with those of the offices in order; any other by one signature |
| `Approval.PoolDescends` | src/core/charter.ts:627-757 | In every run, from whichever earlier request each step starts: identity and expiry are kept, signatures only grow, no key twice |
| `Approval.MadeFromExtends` | src/core/charter.ts:627-757 | In every run a request made from another, in any number of steps, keeps its id, subject and expiry and extends its signatures |
| `Approval.ApprovedOnlyInTime` | src/core/charter.ts:672-686 | An evaluation changes only the status: expired exactly after expiry, before it approved exactly when the policy is satisfied, else pending |
| `Approval.ExpiredIsFinal` | src/core/charter.ts:627-757 | Under a non-decreasing clock, after any report of expired no later step adds a signature or approves |
| `Approval.SatisfiedIsKept` | src/core/charter.ts:678-757 | Appending signatures never un-satisfies a policy of any kind |
| `Approval.ApprovalIsStable` | src/core/charter.ts:668-757 | In every run an approval holds at every later evaluation under the same policy of the request, or of any request made from it, until expiry |
| `ActionRef.DecodeEncode` | src/core/action-ref.ts:57-63 | Every code point's UTF-16 form decodes to it |
| `ActionRef.DecodeInjective` | src/core/action-ref.ts:64-75 | Distinct UTF-16 strings, well formed or not, have distinct code-point sequences |
| `ActionRef.AstralComesLast` | src/core/action-ref.ts:57-63 | A leading surrogate pair sorts after every leading single unit |
| `ActionRef.CodePointTotalOrder` | src/core/action-ref.ts:57-75 | Code-point order is a total order, equal only for identical strings |
| `ActionRef.CompareCodePoints` | src/core/action-ref.ts:64-75 | The sign of the result is the lexicographic order of the decoded code points; zero only for identical strings |
| `ActionRef.CanonicalizeScopeRequired` | src/core/action-ref.ts:95-108 | Rejects exactly the lists with two equal normalized scopes; otherwise returns them strictly ascending in code-point order, as a permutation |
| `ActionRef.SameScopeIffPermutation` | src/core/action-ref.ts:77-110 | Two accepted lists give the same output exactly when their normalized scopes are permutations |
| `ActionRef.ActionRefBinds` | src/core/action-ref.ts:142-157 | One action_ref means one agent, type, time and set of scopes, or the two hashed texts collide |
| `ActionRef.PreimageReads` | src/core/action-ref.ts:142-157 | The hashed text reads back as an object of exactly agentId, actionType, scopeRequired and timestamp, each holding its own value, scopes normalized and ascending by code point |
| `ActionRef.NoPreimageMeans` | src/core/action-ref.ts:95-157 | There is no action_ref exactly when two normalized scopes coincide, or a member holds a string that cannot be encoded or an undefined value |
| `ActionRef.SameRequestSameRef` | src/core/action-ref.ts:142-157 | The converse for every scope shape: one agent, type, time and set of normalized scopes has one action_ref, or none |
| `ActionRef.ActionRefIgnoresOrder` | src/core/action-ref.ts:142-157 | In particular, reordering the scopes as given changes neither the action_ref nor whether there is one |
| `CedarPolicy.CedarPolicyToTuples` | src/adapters/ibac-cedar.ts:22-77 | The loop yields, in order, the leftmost permit pattern of each non-blank piece between semicolons, with the constraints of its leftmost when clause |
| `CedarGrammar.PermitMeans` | src/adapters/ibac-cedar.ts:27-30 | The reader accepts exactly the texts that begin with the permit pattern, spelled out token by token with optional white space, and reads its three values |
| `CedarGrammar.FindPermitMeans` | src/adapters/ibac-cedar.ts:27-31 | The search finds the leftmost place where the pattern stands |
| `CedarGrammar.WhenMeans` | src/adapters/ibac-cedar.ts:39-39 | The reader accepts exactly the texts that begin with a when clause whose text is not empty |
| `CedarGrammar.FindWhenMeans` | src/adapters/ibac-cedar.ts:39-40 | The search finds the leftmost clause |
| `CedarGrammar.PieceMeans` | src/adapters/ibac-cedar.ts:24-73 | What one piece between semicolons contributes |
| `CedarGrammar.ConstraintsMean` | src/adapters/ibac-cedar.ts:40-71 | The constraints are those set by the comma-separated pairs of the clause, if any pair sets one |
| `CedarPolicy.PermitsAreTuples` | src/adapters/ibac-cedar.ts:22-36 | Constraints aside, the result is the sequence of tuples that the round-trip theorems speak about |
| `CedarPolicy.FindOperator` | src/adapters/ibac-cedar.ts:49-58 | The search over five operators finds the first place where any stands and the longest one there |
| `CedarGrammar.BindingMeans` | src/adapters/ibac-cedar.ts:49-67 | A pair binds exactly when it is a word, the first operator taken as long as possible, and something not blank; and the value it binds |
| `CedarGrammar.SettingMeans` | src/adapters/ibac-cedar.ts:64-66 | A pair sets a key when it binds it, except `__proto__` |
| `CedarGrammar.WordUnits` | src/adapters/ibac-cedar.ts:62-62 | The characters of a key |
| `CedarGrammar.WithoutQuotesMeans` | src/adapters/ibac-cedar.ts:63-63 | Dropping quotes keeps everything else, in order |
| `CedarGrammar.TrimMeans` | src/adapters/ibac-cedar.ts:24-24 | Trimming cuts exactly the white space off both ends |
| `CedarGrammar.SpaceUnits` | src/adapters/ibac-cedar.ts:28-29 | The 25 units that count as white space |
| `CedarPolicy.LastPairWins` | src/adapters/ibac-cedar.ts:43-67 | A key is constrained exactly when some pair binds it, and then to the value of the last such pair |
| `CedarPolicy.NoBraceNoConstraints` | src/adapters/ibac-cedar.ts:38-71 | A policy without an opening brace gives no tuple a constraint |
| `Cedar.StatementReads` | src/adapters/ibac-cedar.ts:27-36 | The permit pattern reads back the three values of a printed statement |
| `CedarGrammar.StatementText` | src/adapters/ibac-cedar.ts:102-102 | One printed statement, spelled out |
| `CedarGrammar.PolicyText` | src/adapters/ibac-cedar.ts:83-105 | The printed policy: one statement per scope in order, each ended by a semicolon, blank lines between |
| `Cedar.PolicyIsJoined` | src/adapters/ibac-cedar.ts:102-105 | Where the printed policy is cut by its semicolons |
| `Cedar.ScopeReads` | src/adapters/ibac-cedar.ts:85-100 | The action and resource printed for an intent's scope map back to that scope |
| `Cedar.ShortScopes` | src/adapters/ibac-cedar.ts:90-99 | Scopes with one colon or none get a wildcard resource |
| `CedarGrammar.ScopeParts` | src/adapters/ibac-cedar.ts:87-100 | The action and resource of scopes with two or more colons, one, and none |
| `CedarGrammar.VerbPrefixes` | src/adapters/ibac.ts:55-75 | The table of verb prefixes, and the prefix of every other verb |
| `CedarGrammar.ScopeTexts` | src/adapters/ibac.ts:69-92 | The scopes of actions and of tuples, spelled out |
| `CedarGrammar.MappedInOrder` | src/adapters/ibac.ts:69-92 | Actions and tuples are mapped one by one, in order |
| `Cedar.RoundTrip` | src/adapters/ibac-cedar.ts:22-106 | Printing an intent's scopes, parsing and mapping back gives the same scopes in the same order |
| `Cedar.NoTupleForEmpty` | src/adapters/ibac.ts:88-92 | No parsed tuple maps to the scope of an action with an empty resource |
| `Cedar.RoundTripExactly` | src/adapters/ibac-cedar.ts:22-106 | Given texts without quote, semicolon or (in verbs) colon, the round trip holds exactly when no resource is empty |
| `CedarPolicy.FullRoundTrip` | src/adapters/ibac-cedar.ts:22-106 | Parsing the printed policy of an intent without braces gives its scopes in order and no tuple a constraint |
| `EpochLimit.Limiter.Begin` | src/adapters/gonka.ts:137-169 | Everything before the await: the decision and the new counters as functions of the old ones |
| `EpochLimit.Replay` | src/adapters/gonka.ts:137-172 | Any interleaving of calls on the real counter map reaches the state that the theorems speak about |
| `EpochLimit.KeysAreDistinct` | src/adapters/gonka.ts:101-103 | Two (agent, epoch) pairs share a counter key only if they are the same pair |
| `EpochLimit.KeyTexts` | src/adapters/gonka.ts:101-103 | The counter keys, spelled out |
| `EpochLimit.CounterIsStarted` | src/adapters/gonka.ts:155-169 | In every interleaving a pair's counter is the number of limited executions started for it |
| `EpochLimit.DecisionMeans` | src/adapters/gonka.ts:137-169 | After any interleaving, which of the three decisions a call gets, in terms of the executions started |
| `EpochLimit.NeverAboveLargestLimit` | src/adapters/gonka.ts:155-169 | That number never exceeds the largest limit used for the pair |
| `EpochLimit.ExactUnderOneLimit` | src/adapters/gonka.ts:155-169 | With one limit for the pair, exactly the first that many attempts start |
| `EpochLimit.InFlightWithinCounter` | src/adapters/gonka.ts:155-172 | At no moment are more limited executions in flight for a pair than its counter |
| `EpochLimit.RunningMeans` | src/adapters/gonka.ts:137-172 | In flight means: started and not completed since |
| `X402.Adapter.FindDelegation` | integrations/x402-adapter/x402-governance.ts:247-266 | The index of the first delegation that covers scope, network, time and budget |
| `X402.Adapter.EvaluatePayment` | integrations/x402-adapter/x402-governance.ts:105-160 | The four gates in order on the real objects: the new spends and the one new receipt |
| `X402.Adapter.EvaluateAll` | integrations/x402-adapter/x402-governance.ts:105-160 | Calls made in sequence on the real objects, aliased or not, make exactly the run that `X402.BudgetRun` speaks about |
| `X402.OneCall` | integrations/x402-adapter/x402-governance.ts:105-160 | One receipt per call, spend added equals price authorized, no limit newly broken, never the spend gate |
| `X402.BudgetRun` | integrations/x402-adapter/x402-governance.ts:105-160 | Over every sequence of calls: a receipt each, total spend added equals total authorized price, delegations within their limit stay so, remaining budgets are non-negative, the spend gate never fires |
| `X402.FirstCoveringDecides` | integrations/x402-adapter/x402-governance.ts:111-135 | A payment is authorized exactly when the first covering delegation has not lapsed and approves the merchant |
| `X402.DeniedForIdentity` | integrations/x402-adapter/x402-governance.ts:111-115 | Without an agent key: denied for identity, nothing charged |
| `X402.DeniedForDelegation` | integrations/x402-adapter/x402-governance.ts:117-123 | Without a delegation that fits scope, network, time and budget: denied for delegation, nothing charged |
| `X402.FirstFitDecides` | integrations/x402-adapter/x402-governance.ts:117-160 | Otherwise the first that fits decides by lapse and merchant; when authorized it alone is charged, and the receipt shows what is left after the payment |

## Left out

- Floating-point numbers, -0, NaN, BigInt, Date, getters and Proxies in the serializers: numbers are integers printed in full, as JavaScript does up to 2^53; beyond that JavaScript holds only some integers and prints the shortest digits that identify them, with an exponent from 10^21 on.
- The paths in the serializers' error messages, and which of several defects a write reports: only the kind of error is modelled.
- CanonicalJcs.PayloadCheck: the fields of the in-toto statement are not modelled; the statement is any JSON value.
- JsonText.RoundTrip: the parser reads integers only, no fractions or exponents.
- ActionRef.CanonicalizeScopeRequired: Unicode normalization is an arbitrary function; the method takes the array shape, and the other shapes appear in `ActionRef.ScopeValue`.
- PathGlob.ResolveTermsForPath: terms are flat records of strings; nested usage terms would behave alike, since only whole fields are overlaid.
- Charter.VerifyCharter: what checkArtifactCitations answers is a parameter, and so is whether a signature verifies; a verification that throws is one that fails.
- CedarPolicy.CedarPolicyToTuples: whether JavaScript reads a text as a number is a parameter, and a numeric constraint stands as that text.
- Cedar.RoundTrip: `VERB_PREFIX` is read as a plain finite map, without the names every JavaScript object inherits.
- EpochLimit.Limiter.Begin: the host checks are one boolean, epoch numbers are integers, and receipts and callbacks are not modelled.
- X402.Adapter.EvaluatePayment: amounts are exact reals, prices are already parsed, the search reads the clock once, and receipt ids, reason texts and `getSpendSummary` are not modelled.
- The report texts of `verifyChainedBlock`: only its two verdicts are modelled.
- SHA-256, Ed25519, uuid and key formats; RFC 3339 parsing and formatting.
- The Python serializers, chain selection, delegation and revocation stores, receipts and the mutual-authentication handshake.
- Office transfers, registries and lookups, dissolution grace, beneficiary tracing, attestation grades, commerce gates, agora and behavioural records: facts that one branch settles.
- Enforcement modes and risk scores of aps.txt, HTTP headers, fetch code, command line, scripts and fuzzing.
