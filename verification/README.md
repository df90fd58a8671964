# Browser 2030B: a verified model of the policy, IPC, sync, redaction and UI cores

This project models the self-contained cores of the browser and proves properties of them that hold for
every input, every run or every interleaving. Where the source changes state step by step, the model is a
class or a method with a loop, proved against a function; the properties are then lemmas about that function.

| file | what it models |
|---|---|
| `Fnv.dfy`, `Merkle.dfy`, `AuditLog.dfy` | the tamper-evident audit log: FNV leaf hashes under a Merkle root |
| `Capability.dfy`, `BrokerRuns.dfy` | capabilities, the broker, and the broker under any interleaving of calls |
| `E2ee.dfy`, `SyncStore.dfy`, `SyncRuns.dfy` | the keystream stand-in, the versioned store, and several devices around one server |
| `Luhn.dfy`, `Text.dfy`, `Redaction.dfy`, `Detection.dfy` | the card checksum, whitespace tokens, detectors and rewriter, and what is recognised and replaced |
| `Sorting.dfy`, `Fuzzy.dfy` | stable sorting (every sort the sources call is stable), the fuzzy matcher and its ranking |
| `Precedence.dfy`, `SecurityPolicy.dfy` | the keep-all resolver and the winner-only mobile policies |
| `Sites.dfy`, `SiteIsolation.dfy` | site derivation in the two engines and their process maps |
| `Compositor.dfy` | display-list batching |
| `Moves.dfy`, `TabStrip.dfy`, `Dashboard.dfy`, `TabModel.dfy` | list moves, the tab strip, the dashboard, the iOS tabs |
| `Provenance.dfy`, `LogLine.dfy` | decision spans, and which of them can be read back from their log line |
| `Examples.dfy` | cases from the repository's own tests, worked out on the model |
| `Ints.dfy`, `Wrappers.dfy` | fixed-width integers with explicit wrap-around, and option and result types |

Seven claims of the source's documentation do not hold everywhere. For each there is the exact condition under which it
holds, for all inputs, and an input for which it does not:

- "Any modification to a past entry changes the root" (audit.rs:3-5) holds exactly for histories of equal length, unless
  two entries or two nodes in the same place collide (`Audit.TamperEvidence`). Colliding texts exist: one can replace the
  other anywhere in any log (`Audit.ForgedTextKeepsRoot`). Between any two non-empty histories
  `Audit.HistoriesAgreeExactly` says which ones share a root unless a node collides. Two kinds do so without any collision.
  Leaves and inner nodes are hashed alike, so every log of two or more entries has the root of a log half as long
  (`Audit.SpelledLogKeepsRoot`; `Audit.TwoTextLogsWithOneRoot` is a case in plain text). And an odd last node is paired with
  itself, so some appended entries do not show (`Audit.AppendKeepsRootExactly`).
- The counters wrap, so ids are unique for exactly 2^64 mints and sites are isolated for exactly 2^32 sites
  (`BrokerRuns.IdsUniqueExactly`, `SiteIsolation.IsolatesExactly`); runs that go further are `BrokerRuns.UniquenessEnds` and
  `SiteIsolation.IsolationEnds`. Registered ids stay below the counter until the (2^64 - 1)st mint, which sets it to 0
  (`BrokerRuns.RegisteredBelowCounter`).
- The two engines' "same" site derivation (fission.rs:11) differs when a `?` or `#` comes first;
  `Sites.EnginesAgreeExactly` says when they still agree, and on `a.b?x` they do not (`Sites.EnginesDisagreeExample`).
- Last-writer-wins converges exactly when the highest version of each key carries one blob (`Sync.ConvergesExactly`), and
  devices see the same plaintexts exactly when it carries one plaintext (`SyncRuns.ReplicasAgreeExactly`), because equal
  versions are accepted in arrival order (`Sync.EqualVersionsDiverge`, `SyncRuns.ReplicasDisagree`).
- "Must never contain a detected secret verbatim" (redaction.rs:2-3 of the fuzz targets) holds of the tokens of the output
  (`Redaction.OutputTokens`). As a substring a detected token survives exactly inside undetected tokens
  (`Redaction.OccursInOutputExactly`), as in `sk- task-` (`Redaction.OccursInOutputExample`).
- Items "grouped by (layer, kind)" (compositor.rs:41-42) get one batch for each exactly when no tag comes back after a
  different one (`Compositor.OneBatchForEachExactly`, `Compositor.RectanglesApart`).
- "Prefer shorter targets when scores tie" (fuzzy.ts:48) holds exactly below forty units, for a non-empty query
  (`Fuzzy.ShorterWinsTieExactly`, `Fuzzy.LongTargetsTie`).

Conventions. Integers of the Rust code wrap as in the release profile, which does not enable overflow checks; `u64` hash
words are `bv64`. The hash's starting state is the code's own constant, which is not the published FNV offset basis.
Clocks are arguments. Strings are sequences of characters; the
byte lengths that the redaction code compares agree with character counts wherever they decide anything, because
the compared tokens are then ASCII or the compared position holds an ASCII character. JavaScript strings are sequences of UTF-16
code units; lower-casing is a parameter, any function on strings, so that it may change lengths or depend on neighbouring
letters. Library sorts are `Sorting.Sort`; `Sorting.AnyStableSortIsSort`
justifies this by showing that a stable sort has one possible outcome.

## Model

| member | source | states |
|---|---|---|
| Fnv.StepIsBijection | admin/policy-engine/src/audit.rs:11-14 | for every input byte or word, one hash round is onto and one-to-one on the 64-bit states |
| Fnv.AbsorbInjectiveInState | admin/policy-engine/src/audit.rs:9-16 | absorbing a fixed string keeps different states different |
| Fnv.CommonSuffixCancels | admin/policy-engine/src/audit.rs:9-16 | two strings hash alike if and only if they do so with any common suffix added |
| Fnv.SingleByteChangeDetected | admin/policy-engine/src/audit.rs:9-16 | replacing one byte keeps the hash if and only if the byte is the same |
| Fnv.AbsorbAll | admin/policy-engine/src/audit.rs:10-15 | the hashing loop, from any starting state, computes the recursive hash |
| Fnv.LowOfAbsorb | sync/e2ee/src/lib.rs:50-57 | the low byte of the hash equals the same computation done in 8-bit arithmetic |
| Merkle.CeilLog2IsLeast | admin/policy-engine/src/audit.rs:47-60 | the number of rounds is the least h with n <= 2^h |
| Merkle.FoldOfNextLevel | admin/policy-engine/src/audit.rs:47-60 | one pass of the outer loop removes the bottom level of the top-down tree, for any pair hash |
| Merkle.ReduceIsFoldOfTree | admin/policy-engine/src/audit.rs:42-62 | the bottom-up reduction equals the recursive tree of height ceil(log2 n) in which a lone subtree is paired with itself, for any pair hash |
| Merkle.TreeOfIsPerfect | admin/policy-engine/src/audit.rs:53-56 | every leaf of that tree lies at the same depth |
| Merkle.FoldsAgree | admin/policy-engine/src/audit.rs:3-5 | two perfect trees with no colliding node have equal roots if and only if they are equal |
| Merkle.RootsAgreeExactly | admin/policy-engine/src/audit.rs:42-62 | for logs of equal height and no colliding node, equal roots mean equal written-out trees, and conversely |
| Merkle.TreeOfInjective | admin/policy-engine/src/audit.rs:42-62 | at equal length the tree determines the leaves |
| Merkle.TreesAgreeExactly | admin/policy-engine/src/audit.rs:42-62 | two lists under one height give the same tree if and only if the leaves agree at each of the 2^h padded positions, read off by an index function; the shorter list is then a prefix of the longer |
| Merkle.EqualLengthRootsAgree | admin/policy-engine/src/audit.rs:3-5 | at equal length and with no colliding node, roots agree if and only if the leaves do |
| Merkle.PaddedRootsAgree | admin/policy-engine/src/audit.rs:42-62 | at equal height and with no colliding node, roots agree if and only if the lists agree at every padded position |
| Merkle.LevelKeepsRoot | admin/policy-engine/src/audit.rs:46-61 | every level of the reduction has the root of the whole, and its height is what remains |
| Merkle.RepeatedTailKeepsRoot | admin/policy-engine/src/audit.rs:54-55 | a list whose length is an odd multiple (three or more) of 2^k keeps its root when its last 2^k leaves are repeated |
| Merkle.AppendedLeafKeepsTree | admin/policy-engine/src/audit.rs:54-55 | inside the tree's capacity one more leaf leaves the tree alone if and only if it equals each of the last 2^k leaves, 2^k the largest power of two dividing the length |
| Audit.BeBytesRoundTrip | admin/policy-engine/src/audit.rs:20-21 | the big-endian encoding under the pair hash can be decoded again |
| Audit.ComputeHashBytes | admin/policy-engine/src/audit.rs:9-16 | the method computes the hash function the lemmas speak of |
| Audit.ComputeHashPair | admin/policy-engine/src/audit.rs:18-23 | filling the sixteen-byte buffer and hashing it is hashing the two encodings in order |
| Audit.AuditLog.Append | admin/policy-engine/src/audit.rs:37-39 | one entry is added at the end, and its hash at the end of the leaves |
| Audit.AuditLog.ComputeNextLevel | admin/policy-engine/src/audit.rs:48-58 | the inner loop pairs neighbours and duplicates an odd last node |
| Audit.AuditLog.Root | admin/policy-engine/src/audit.rs:42-62 | the nested loops return the root of the recursive tree over all entries (0 if none) after exactly ceil(log2 n) rounds |
| Audit.TamperEvidence | admin/policy-engine/src/audit.rs:3-5 | histories of equal length have equal roots if and only if they are equal, unless two different entries at one position, or two different pairs at one tree position, collide |
| Audit.ByteTamperEvidence | admin/policy-engine/src/audit.rs:3-5 | after changing one byte of one past entry an equal root exhibits a pair-hash collision inside the trees |
| Audit.ForgedTextKeepsRoot | admin/policy-engine/src/audit.rs:9-16 | in every log, at any position, the text "kbmjfcbfdkfcmegi" can be replaced by "midgindnljgooila" without changing the root; the two hash alike |
| Audit.HistoriesAgreeExactly | admin/policy-engine/src/audit.rs:3-5 | any two non-empty histories have equal roots if and only if the entry hashes of the lower one agree, at every padded position, with the nodes of the other at that height, unless a node collides |
| Audit.EqualRootsExtend | admin/policy-engine/src/audit.rs:42-62 | at equal height, with no colliding node, an equal root means that one history's entry hashes begin the other's |
| Audit.SpelledLogKeepsRoot | admin/policy-engine/src/audit.rs:18-23 | every log of n >= 2 entries has the root of a log of ceil(n/2) entries, which spell out the bytes of its pairs of entry hashes; no node of the two trees collides |
| Audit.SpelledPairKeepsRoot | admin/policy-engine/src/audit.rs:18-23 | for two entries that log is the one entry that spells out their hashes |
| Audit.TwoTextLogsWithOneRoot | admin/policy-engine/src/audit.rs:9-23 | the logs of the texts "entry 16101", "entry 16102" and of the one text "iG<[fXh<iG?[fXmU" have one root |
| Audit.AppendKeepsRootExactly | admin/policy-engine/src/audit.rs:42-62 | appending to a non-empty log: if the length is a power of two, the old root is paired with the tree of the new entry alone; otherwise the root is kept exactly when the entry hashes like each of the last 2^k entries (or a node collides) |
| Audit.RepeatedLastEntryKeepsRoot | admin/policy-engine/src/audit.rs:54-55 | an odd log of three or more entries has the same root as with its last entry repeated |
| Ipc.Capability.Attenuate | engine/ipc/src/lib.rs:113-132 | a successful attenuation has what was asked for and is nowhere wider; a refused one would have been wider |
| Ipc.ChainIsOneAttenuation | engine/ipc/src/lib.rs:113-132 | a successful chain of attenuations never widens and equals one direct attenuation of the root with the last request |
| Ipc.ChildVouchesForParent | engine/ipc/src/lib.rs:174-195 | if an attenuated capability verifies, so does the one it came from, at that instant |
| Ipc.FreshCapabilityVerifies | engine/ipc/src/lib.rs:163-195 | a fresh capability verifies in its own second if and only if the authority was asked for, the lifetime is positive and now + ttl does not overflow |
| Ipc.LifetimeIsExact | engine/ipc/src/lib.rs:163-195 | at every instant a registered fresh capability is accepted exactly for its origin, its authorities and while now + ttl, reduced to 64 bits, lies ahead |
| Ipc.Broker.TakeId | engine/ipc/src/lib.rs:159 | fetch-add: returns the counter and steps it, wrapping |
| Ipc.Broker.Mint | engine/ipc/src/lib.rs:158-170 | takes the next id, registers it under the origin, and returns a capability whose acceptance at that instant is characterised |
| Ipc.Broker.Verify | engine/ipc/src/lib.rs:174-195 | answers forged, expired, origin mismatch, unauthorized or accepted, in that order; anything but forged means that this very id is registered for this very origin |
| Ipc.Broker.Revoke | engine/ipc/src/lib.rs:198-203 | afterwards every capability with that id is refused as forged |
| BrokerRuns.StepKeepsInv | engine/ipc/src/lib.rs:158-203 | every atomic step of every call, interleaved anyhow, keeps the relation between counter, registry, calls in flight, capabilities in circulation and revocations |
| BrokerRuns.IdsUniqueExactly | engine/ipc/src/lib.rs:159 | in every interleaving the ids drawn are pairwise different if and only if at most 2^64 were drawn |
| BrokerRuns.RegisteredBelowCounter | engine/ipc/src/lib.rs:158-163 | registered ids lie between 1 and the counter until the counter wraps, which happens at the (2^64 - 1)st mint |
| BrokerRuns.RevokedStaysRevoked | engine/ipc/src/lib.rs:198-203 | an id once revoked is in no later registry of the run |
| BrokerRuns.VerifyIsExact | engine/ipc/src/lib.rs:174-195 | in every reachable state, for every capability in circulation, each answer of verify is given exactly under its condition, and a finished mint with the same id and origin, at least the authorities and expiry stands behind it |
| BrokerRuns.VerifyAnyIsExact | engine/ipc/src/lib.rs:174-195 | in every reachable state and for every capability whatever, held or made up or from another broker: forged exactly when no registered, unrevoked mint of the run has both its id and its origin, and every other answer exactly under its condition |
| BrokerRuns.MintCirculates | engine/ipc/src/lib.rs:158-170 | after any run a mint puts exactly one more capability into circulation and registers its id, which was neither registered nor revoked, for its origin |
| BrokerRuns.AttenuationCirculates | engine/ipc/src/lib.rs:113-132 | attenuating a capability in circulation adds the narrower one, and nothing if it would be wider anywhere |
| BrokerRuns.AcceptedMeansMinted | engine/ipc/src/lib.rs:135-139 | an accepted capability goes back to an unrevoked mint for that origin that was asked for that authority and expires no earlier |
| BrokerRuns.RevocationReachesDescendants | engine/ipc/src/lib.rs:198-203 | revoking one capability refuses everything derived from the same mint for the rest of the run |
| BrokerRuns.UniquenessEnds | engine/ipc/src/lib.rs:158-170 | a run of 2^64 + 1 mints for two origins in which the last draws the first id again and a capability that was never revoked is refused as forged |
| E2ee.Derive | sync/e2ee/src/lib.rs:24-35 | byte i of the key is the low byte of the hash started at the basis xor i, computed in 8-bit arithmetic, and no two bytes of a key are equal |
| E2ee.DerivedInBytes | sync/e2ee/src/lib.rs:26-33 | the derived key can be computed in 8-bit arithmetic |
| E2ee.DerivedBytesDiffer | sync/e2ee/src/lib.rs:26-33 | the 32 bytes of a derived key are pairwise different, whatever the passphrase and salt |
| E2ee.KeystreamXor | sync/e2ee/src/lib.rs:45-60 | the nested loops xor each byte with the hash of key, nonce and position |
| E2ee.KeystreamRepeatsExactly | sync/e2ee/src/lib.rs:45-60 | two keystream bytes are equal if and only if their positions agree modulo 256 |
| E2ee.OpenAndSealAreInverse | sync/e2ee/src/lib.rs:63-73 | open after seal and seal after open are the identity for every key, nonce and length |
| E2ee.FastFormAgrees | sync/e2ee/src/lib.rs:45-60 | hashing key and nonce once and doing one 8-bit round per byte gives the ciphertext of the nested loops |
| Sync.SyncStore.Put | sync/server/src/lib.rs:41-49 | refuses a put exactly when an earlier put of that key, refused or not, carried a higher version, and then changes nothing; anything else replaces the record |
| Sync.SyncStore.Get | sync/server/src/lib.rs:52-54 | returns nothing exactly when the key was never put, and otherwise the last of its puts of maximal version in the store's history |
| Sync.SyncStore.List | sync/server/src/lib.rs:57-63 | in whatever order keys are visited, lists each record id of the account and collection that was ever put exactly once and nothing else |
| Sync.WinnerIsStored | sync/server/src/lib.rs:41-49 | after any sequence of puts a key holds the last-arriving blob among those of maximal version |
| Sync.VersionsNeverDecrease | sync/server/src/lib.rs:41-49 | the version under a key never goes down |
| Sync.ConvergesExactly | sync/server/src/lib.rs:41-49 | all orders and repetitions of the same puts end in one store if and only if the highest version of each key carries one blob |
| Sync.EqualVersionsDiverge | sync/server/src/lib.rs:41-49 | two blobs with one key and version leave two servers with different records, depending on the order of arrival |
| SyncRuns.DownloadIsCurrentPlaintext | sync/client/src/lib.rs:32-47 | in every run a download is missing exactly when nothing arrived for the record, and otherwise there is a last arrival of maximal version whose plaintext it is |
| SyncRuns.UploadIsExact | sync/client/src/lib.rs:32-47 | a prepared upload carries its type and nonce, has a ciphertext as long as the plaintext, and opens to it |
| SyncRuns.WireIsExact | sync/client/src/lib.rs:32-42 | what reaches the server is the key, the version, the nonce and the keystream-xored content |
| SyncRuns.SeenVersionsNeverDecrease | sync/server/src/lib.rs:41-49 | versions seen for a record never decrease along a run |
| SyncRuns.ListingNamesArrivals | sync/server/src/lib.rs:57-63 | in every run a listing names exactly the records for which an upload arrived |
| SyncRuns.ReplicasAgreeExactly | sync/server/src/lib.rs:41-49 | all runs in which the same uploads arrived, in any order and however often, serve the same plaintexts if and only if the highest version of each record carries one plaintext |
| SyncRuns.ReplicasHoldTheSame | sync/server/src/lib.rs:41-49 | if the highest versions agree in nonce and plaintext, those servers hold the same records |
| SyncRuns.ReplicasDisagree | sync/server/src/lib.rs:41-49 | two runs with the same arrivals that serve different plaintexts |
| Luhn.WrappedSum | ai/redaction/src/lib.rs:59-72 | the right-to-left loop computes the weighted sum modulo 2^32 |
| Luhn.Check | ai/redaction/src/lib.rs:59-74 | for up to 19 characters the sum is at most 171 and the answer is whether the positional sum, with doubled digits added up, is a multiple of ten |
| Luhn.WeightIsDigitSum | ai/redaction/src/lib.rs:64-69 | a doubled place adds the decimal digits of the double, any other place the digit |
| Luhn.SumByPosition | ai/redaction/src/lib.rs:59-72 | the sum from the right with an alternating flag is the sum over positions, doubled an odd number of places from the right |
| Luhn.TestCardIsValid | ai/redaction/src/lib.rs:139-144 | 4111111111111111 has the sum 30 and is valid |
| Luhn.SumOfConcat | ai/redaction/src/lib.rs:62-72 | the sum splits at any position, with the parity of the right part choosing the doubled places of the left |
| Luhn.SingleDigitChangeDetected | ai/redaction/src/lib.rs:58-74 | a valid number stays valid under a one-digit change only if the digit is unchanged |
| Luhn.TranspositionDetectedExactly | ai/redaction/src/lib.rs:58-74 | swapping neighbours of a valid number goes undetected exactly for equal digits and for 0 with 9 |
| Luhn.ExactlyOneCheckDigit | ai/redaction/src/lib.rs:58-74 | exactly one digit completes a number, whatever precedes it |
| Luhn.LeadingZerosDoNotMatter | ai/redaction/src/lib.rs:58-74 | zeros in front do not change validity |
| Text.SplitOfConcat | ai/redaction/src/lib.rs:92-93 | splitting distributes over a whitespace character |
| Text.SplitOfJoin | ai/redaction/src/lib.rs:92-111 | splitting a join of words gives the words back |
| Text.WhitespaceIs | ai/redaction/src/lib.rs:92-93 | the whitespace characters are the 25 of Unicode's White_Space property |
| Redaction.ComputeLooksLikeCard | ai/redaction/src/lib.rs:53-56 | the card test, with its redundant digit count, is 13 to 19 digits with a valid checksum |
| Redaction.Redact | ai/redaction/src/lib.rs:90-114 | the token loop computes the rewritten text and the findings in order |
| Detection.EmailExactly | ai/redaction/src/lib.rs:41-47 | a token is an address if and only if it is a non-empty part without at signs, an at sign, and a part with a dot |
| Detection.CardLengthExactly | ai/redaction/src/lib.rs:53-56 | of the numbers of zeros, all of valid checksum, exactly those of 13 to 19 digits are cards |
| Detection.CardWithSeparator | ai/redaction/src/lib.rs:53-56 | anything but digits between the digits makes no difference |
| Detection.KeyByPrefix | ai/redaction/src/lib.rs:76-81 | each of the five prefixes makes a key of whatever follows |
| Detection.KeyByLength | ai/redaction/src/lib.rs:82-86 | without a prefix a token is a key if and only if it has 32 or more characters, all of them letters, digits, underscores or hyphens |
| Detection.DetectExactly | ai/redaction/src/lib.rs:94-105 | each finding is reported exactly under its toggle and its detector, address before card before key |
| Detection.DetectedIsReplaced | ai/redaction/src/lib.rs:88-114 | a detected token between whitespace is replaced by its placeholder in its place, and its finding stands in its place among the findings |
| Detection.EmailIsRedacted | ai/redaction/src/lib.rs:94-97 | with personal data to be redacted, the text around any address has [REDACTED_EMAIL] and the finding |
| Detection.CardNumberIsRedacted | ai/redaction/src/lib.rs:98-101 | likewise for every valid number of 13 to 19 digits |
| Detection.KeyIsRedacted | ai/redaction/src/lib.rs:102-105 | likewise for every token starting with sk- that is neither address nor card |
| Examples.RedactsEmail | ai/redaction/src/lib.rs:120-128 | alice@example.com in its sentence |
| Examples.RedactsTestCard | ai/redaction/src/lib.rs:139-144 | the test card between any whitespace |
| Examples.RespectsDisabledToggles | ai/redaction/src/lib.rs:153-161 | with both toggles off every text keeps its tokens and yields no finding |
| Redaction.PlaceholderIsClean | ai/redaction/src/lib.rs:97-105 | every placeholder is one token that no detector recognises |
| Redaction.OutputTokens | ai/redaction/src/lib.rs:88-114 | one output token per input token, unchanged or replaced, and none of them detected any more |
| Redaction.OccursInOutputExactly | tools/fuzz/fuzz_targets/redaction.rs:2-3 | a detected token occurs in the output as a substring if and only if some undetected token of the input contains it |
| Redaction.OccursInOutputExample | tools/fuzz/fuzz_targets/redaction.rs:2-3 | `sk-` is detected and is still a substring of what `sk- task-` is redacted to |
| Redaction.RedactIsIdempotent | tools/fuzz/fuzz_targets/redaction.rs:10-12 | under every configuration a second pass changes nothing and finds nothing |
| Redaction.RedactChangesExactly | ai/redaction/src/lib.rs:88-114 | the text is left alone exactly when nothing is found and it was already joined by single spaces |
| Redaction.RedactDistributes | ai/redaction/src/lib.rs:90-114 | redaction distributes over whitespace, tokens and findings in order |
| Sorting.AnyStableSortIsSort | ui/command-palette/src/fuzzy.ts:66 | sorted with every class of ties in input order characterises exactly one result |
| Sorting.SortIsCanonical | admin/policy-engine/src/provenance.rs:35 | without ties, two lists sort alike if and only if they have the same elements |
| Fuzzy.LeftmostOfIsLeftmost | ui/command-palette/src/fuzzy.ts:13-50 | a leftmost embedding exists exactly for subsequences and is pointwise least among all embeddings |
| Fuzzy.LongerQueryExtends | ui/command-palette/src/fuzzy.ts:24-45 | in lower case, a longer query matches only where its prefix does, and extends the prefix's index list |
| Fuzzy.Scan | ui/command-palette/src/fuzzy.ts:24-43 | the greedy pass over the lower-cased strings matches a prefix leftmost, and scores each index by adjacency and by the word boundary it finds in the target as given |
| Fuzzy.Match | ui/command-palette/src/fuzzy.ts:18-50 | for any lower-casing, succeeds if and only if the query is empty or a subsequence in lower case, with the leftmost indices and their score |
| Fuzzy.ScoreOfPrefix | ui/command-palette/src/fuzzy.ts:29-49 | a target that begins with the query scores four points, five more for each further unit, and the length bonus, if no separator lies among them |
| Fuzzy.ScoreOfOne | ui/command-palette/src/fuzzy.ts:34-40 | a single unit scores four points at the start and after a space, hyphen or slash, and one elsewhere, with the length bonus |
| Fuzzy.LengthBonusIs | ui/command-palette/src/fuzzy.ts:48-49 | a quarter point for every unit below forty |
| Fuzzy.ShorterWinsTieExactly | ui/command-palette/src/fuzzy.ts:48-49 | of two matching targets with equal bonuses the shorter scores higher if and only if it is shorter than forty units and the query is not empty, and never lower |
| Fuzzy.LongTargetsTie | ui/command-palette/src/fuzzy.ts:48-49 | targets of forty units or more that begin with the one letter sought score alike |
| Fuzzy.RankIsStableSort | ui/command-palette/src/fuzzy.ts:61-68 | a list is the stable descending sort by score of exactly the matching items if and only if it is what rank returns |
| Fuzzy.RankDescends | ui/command-palette/src/fuzzy.ts:66 | no item scores higher than one ranked before it |
| Fuzzy.EmptyQueryKeepsAll | ui/command-palette/src/fuzzy.ts:19 | the empty query matches everything for one point and leaves every list as it is |
| Fuzzy.RankShrinks | ui/command-palette/src/fuzzy.ts:57-68 | for items of any kind, extending the query only removes items, if lower-casing keeps what was typed as a subsequence |
| Fuzzy.RankShrinksExactly | ui/command-palette/src/fuzzy.ts:57-68 | over all lists to be searched, extending the query only removes items if and only if lower-casing keeps what was typed as a subsequence |
| Fuzzy.SigmaComesBack | ui/command-palette/src/fuzzy.ts:21-22 | a third letter typed after a capital sigma brings back an item that two letters had removed |
| Precedence.TraceHoldsLatest | admin/policy-engine/src/precedence.rs:63-73 | after any run of sets the trace is strictly ascending and holds exactly the latest value of each layer |
| Precedence.TraceByLayer | admin/policy-engine/src/precedence.rs:63-73 | after any run of sets the trace lists the latest default, user, local admin and enterprise values that exist, in this order |
| Precedence.WinnerDecides | admin/policy-engine/src/precedence.rs:83-84 | the last entry of the trace is the latest set of the highest layer |
| Precedence.KeysAreIndependent | admin/policy-engine/src/precedence.rs:63-73 | a key's trace depends only on the sets of that key |
| Precedence.Resolver.Set | admin/policy-engine/src/precedence.rs:63-73 | the key's trace has that layer replaced and is sorted; other keys are untouched |
| Precedence.Resolver.Resolve | admin/policy-engine/src/precedence.rs:75-92 | after any run of sets: nothing for a key never set; else its latest enterprise value, failing that local admin, user, default, with layer, lock and trace |
| Precedence.ResolveFollowsPrecedence | admin/policy-engine/src/precedence.rs:75-92 | in every run a key resolves if and only if it was set, and then some set of it is the latest of the highest layer and gives value, layer and lock; the trace ascends |
| Precedence.ResolvesByLayer | admin/policy-engine/src/precedence.rs:1-15 | in every run a key resolves to its latest enterprise set if it has one, else local admin, else user, else default |
| Examples.EnterpriseOverridesUser | admin/policy-engine/src/precedence.rs:100-136 | an enterprise setting stands with its lock against a user's, whichever was made first |
| SecurityPolicy.AndroidSecurityPolicy.Set | mobile/android/src/main/kotlin/ai/b2030b/android/SecurityPolicy.kt:38-43 | a grant from an equal or higher layer replaces the stored one; a lower one changes nothing |
| SecurityPolicy.AndroidSecurityPolicy.IsAllowed | mobile/android/src/main/kotlin/ai/b2030b/android/SecurityPolicy.kt:46-50 | after any run: exactly when the latest enterprise grant since the last revocation, failing that local admin, user, default, is an allow that has not lapsed |
| SecurityPolicy.IosSecurityPolicy.Set | mobile/ios/Sources/Browser2030BCore/SecurityPolicy.swift:57-62 | the same new state, through the Swift form of the test |
| SecurityPolicy.IosSecurityPolicy.IsAllowed | mobile/ios/Sources/Browser2030BCore/SecurityPolicy.swift:65-69 | the same, through the Swift form of the tests |
| SecurityPolicy.WinnerAfterSet | mobile/android/src/main/kotlin/ai/b2030b/android/SecurityPolicy.kt:38-43 | the keep-all winner moves under a set exactly as the stored grant does |
| SecurityPolicy.StoredIsWinner | mobile/ios/README.md:17-20 | in every run the winner-only store holds the grant that the resolver's precedence picks among all grants since the last revocation, and nothing if there are none |
| SecurityPolicy.StoredByLayer | mobile/android/src/main/kotlin/ai/b2030b/android/SecurityPolicy.kt:38-43 | in every run the store holds the latest enterprise grant since the last revocation, else local admin, else user, else default |
| SecurityPolicy.SinceRevokeExactly | mobile/android/src/main/kotlin/ai/b2030b/android/SecurityPolicy.kt:52-54 | what counts since the last revocation is exactly what was granted for that capability afterwards, in order |
| SecurityPolicy.AllowedByLayer | mobile/android/src/main/kotlin/ai/b2030b/android/SecurityPolicy.kt:45-50 | a deny denies, an allow permits strictly before it lapses, and without a grant nothing is permitted |
| Examples.HonorsAllowGrantAndExpiry | mobile/android/src/test/kotlin/ai/b2030b/android/SecurityPolicyTest.kt:17-23 | a grant lapsing at 1000 permits at 999 and not at 1000 |
| Examples.EnterpriseDenyStands | mobile/android/src/test/kotlin/ai/b2030b/android/SecurityPolicyTest.kt:25-39 | an enterprise deny stands against a user allow in either order |
| SecurityPolicy.AllowedExactly | mobile/ios/Sources/Browser2030BCore/SecurityPolicy.swift:64-69 | in every run a capability is allowed if and only if the latest grant of the highest layer since its last revocation is an unexpired allow |
| SecurityPolicy.EditionsAgreeExactly | mobile/ios/README.md:17-20 | over any set of times, the two mobile editions answer every query alike after every history whose expiries and queries lie in the set if and only if the conversion between their clocks keeps the order of these times |
| SecurityPolicy.EditionsAgreeWhenRounded | mobile/ios/Sources/Browser2030BCore/SecurityPolicy.swift:64-69 | a clock in seconds since any epoch that rounds by less than half a millisecond at those times makes them agree |
| Sites.SiteOfUrl | engine/blink-integration/src/site_isolation.rs:9-25 | the site of scheme://sub.a.b followed by any port, path, query or fragment is scheme://a.b, with or without the subdomain |
| Sites.BlinkSite | engine/blink-integration/src/site_isolation.rs:9-25 | for Blink a slash, colon, question mark or hash ends the host and nothing else does |
| Sites.GeckoSite | engine/gecko-integration/src/fission.rs:10-27 | for Gecko a slash or a colon does and nothing else |
| Sites.SiteOfOneLabel | engine/blink-integration/src/site_isolation.rs:14-24 | a host of one label is its own site, and a missing scheme is https |
| Sites.SiteIsIdempotent | engine/blink-integration/src/site_isolation.rs:9-25 | deriving the site of a site gives it back, on every string and for either engine's stop characters |
| Sites.LastTwoIsStable | engine/blink-integration/src/site_isolation.rs:13-18 | keeping the last two labels uses only characters of the host and is idempotent |
| Sites.EnginesAgreeExactly | engine/gecko-integration/src/fission.rs:10-27 | the engines derive the same site exactly when no `?` or `#` precedes the first `/` or `:`, or when the part they disagree about has three labels and ends in the same two |
| Sites.EnginesDisagreeOnQuery | engine/gecko-integration/src/fission.rs:10-27 | every URL without a scheme or path whose two-label host is followed by a query without dots gets two different sites |
| Sites.EnginesDisagreeExample | engine/gecko-integration/src/fission.rs:10-27 | `a.b?x` is such a URL |
| SiteIsolation.IsolationMap.ProcessFor | engine/blink-integration/src/site_isolation.rs:44-53 | a known site returns its pid, a new one gets the next; no assigned pid changes |
| SiteIsolation.FissionMap.ProcessForFrame | engine/gecko-integration/src/fission.rs:46-55 | the same for Gecko's principals |
| SiteIsolation.IsolatesExactly | engine/blink-integration/src/site_isolation.rs:42-53 | in every run different sites have different pids if and only if at most 2^32 sites were requested |
| SiteIsolation.SameProcessIffSameSite | engine/blink-integration/src/site_isolation.rs:42-53 | two requests of a run, whenever made, got one pid if and only if their URLs have one site, for either engine |
| SiteIsolation.PidsAreStable | engine/gecko-integration/src/fission.rs:46-55 | a pid once assigned is never reassigned |
| SiteIsolation.PidsByNumber | engine/blink-integration/src/site_isolation.rs:36-53 | the i-th new site gets 1001 + i from Blink and 2001 + i from Gecko |
| SiteIsolation.IsolationEnds | engine/blink-integration/src/site_isolation.rs:44-53 | a run of 2^32 + 1 URLs of different sites in which the first and the last are given one process, in either engine (`EnginesKeepNumbered`) |
| Compositor.MakeBatches | engine/gpu/src/compositor.rs:43-61 | the loop that extends the last batch in place or pushes a new one computes the reduction |
| Compositor.BatchesAreCanonical | engine/gpu/src/compositor.rs:41-61 | drawing the batches draws the items in order, counts add up, no list drawing the same is shorter, and it is the only one without empty or mergeable batches |
| Compositor.TagIsExact | engine/gpu/src/compositor.rs:16-39 | two items have one tag exactly when layer and kind agree; the kinds are rect, text and image |
| Examples.ConsecutiveItemsCoalesce | engine/gpu/src/compositor.rs:69-79 | two rectangles and a text of one layer take a batch of two and a batch of one |
| Compositor.OneBatchForEachExactly | engine/gpu/src/compositor.rs:41-61 | every layer and kind gets a single batch if and only if none comes back in the display list after a different one |
| Compositor.RectanglesApart | engine/gpu/src/compositor.rs:41-61 | a rectangle, a text and a rectangle of one layer take three batches, two of them alike |
| Moves.MoveIsExact | ui/shell-desktop/src/tabs/groups.ts:56-62 | a move permutes, lands at its index and leaves the others in order |
| Tabs.TabStrip.CloseTab | ui/shell-desktop/src/tabs/groups.ts:47-53 | the loop over the groups removes the id from each of them, and from table and order |
| Tabs.TabStrip.MoveTab | ui/shell-desktop/src/tabs/groups.ts:56-62 | the two splices move an open tab to the clamped index and ignore an unknown one |
| Tabs.CloseTabIsExact | ui/shell-desktop/src/tabs/groups.ts:47-53 | every other tab keeps its record and its place, and every group everything but that member |
| Tabs.CloseTabInGroup | ui/shell-desktop/src/tabs/groups.ts:50-52 | the remaining members of a group keep their order |
| Tabs.CloseUndoesAdd | ui/shell-desktop/src/tabs/groups.ts:42-53 | a new tab stands last, and closing it restores the strip |
| Tabs.CreateGroupIsExact | ui/shell-desktop/src/tabs/groups.ts:64-66 | the group has the members given, in order, and nothing else changes |
| Tabs.ToggleIsExact | ui/shell-desktop/src/tabs/groups.ts:68-71 | toggling flips one group's flag, touches nothing else and undoes itself |
| Tabs.SetMutedIsExact | ui/shell-desktop/src/tabs/groups.ts:73-76 | muting is remembered for that tab, whatever was set before, and touches nothing else |
| Tabs.StepKeepsConsistencyExactly | ui/shell-desktop/src/tabs/groups.ts:42-76 | order lists each open tab once and groups name open tabs only, after an operation if and only if a new tab's id was new and a new group's tabs were open |
| Tabs.RunKeepsConsistency | ui/shell-desktop/src/tabs/groups.ts:37-76 | and therefore over every such run |
| Tabs.MoveTabIsExact | ui/shell-desktop/src/tabs/groups.ts:55-62 | dragging permutes the order, lands at the clamped index, keeps the others' order and touches nothing else |
| Tabs.MoveTabUndoneExactly | ui/shell-desktop/src/tabs/groups.ts:55-62 | a second drag undoes the first exactly when its clamped target is the old index |
| Dashboard.Reorder | ui/shell-desktop/src/dashboard.ts:69-78 | the splices on a sorted copy compute the reordered, renumbered cards, or return the input |
| Dashboard.ReorderShifts | ui/shell-desktop/src/dashboard.ts:69-78 | the arrangement of all cards, hidden ones included, has afterwards one card at its clamped place, and nothing but order fields changes |
| Dashboard.ReorderNumbers | ui/shell-desktop/src/dashboard.ts:77 | a reorder that changes anything numbers the cards from zero on |
| Dashboard.ShiftIsExact | ui/shell-desktop/src/dashboard.ts:73-76 | that shift permutes, hits its target and keeps the others' order |
| Dashboard.ReorderUndoneExactly | ui/shell-desktop/src/dashboard.ts:69-78 | moving back by the opposite amount restores the arrangement, hidden cards included, exactly when the move was not clamped or crossed the whole list |
| Dashboard.ReorderKeepsLayoutExactly | ui/shell-desktop/src/dashboard.ts:63-78 | a reorder leaves the displayed layout as it is exactly when the card is hidden or passes no visible card other than copies of itself |
| Dashboard.LayoutRestoredExactly | ui/shell-desktop/src/dashboard.ts:63-78 | moving back by the opposite amount restores the displayed layout exactly when the card is hidden or no visible card lies between its old place and where the two moves leave it |
| Dashboard.HiddenCardsHideMoves | ui/shell-desktop/src/dashboard.ts:63-78 | with one visible card between two hidden ones, a move by one, and a move by five and back, change the arrangement and not the layout |
| Dashboard.LayoutIsVisiblePartOfOrder | ui/shell-desktop/src/dashboard.ts:63-66 | the layout is the whole dashboard in order with the hidden cards left out |
| TabModels.SortIsPinnedFirst | mobile/ios/Sources/Browser2030BCore/TabModel.swift:39-49 | the comparator sort over offsets is the pinned tabs followed by the others, each in order |
| TabModels.TabModel.Add | mobile/ios/Sources/Browser2030BCore/TabModel.swift:24-27 | the tab is appended and the pinned tabs are put first |
| TabModels.AddIsExact | mobile/ios/Sources/Browser2030BCore/TabModel.swift:24-27 | a pinned tab goes behind the pinned ones, any other to the end |
| TabModels.CloseIsExact | mobile/ios/Sources/Browser2030BCore/TabModel.swift:29-31 | closing takes out that tab and leaves the others in place |
| TabModels.TabModel.Pin | mobile/ios/Sources/Browser2030BCore/TabModel.swift:33-37 | only the first tab with that id changes its flag, and the pinned tabs are put first |
| TabModels.ReachableIsSorted | mobile/ios/Sources/Browser2030BCore/TabModel.swift:24-49 | in every reachable state no unpinned tab precedes a pinned one, and sorting again changes nothing |
| Provenance.WithAllSorts | admin/policy-engine/src/provenance.rs:32-37 | sorting after each of any number of pushes is sorting once |
| Provenance.InputsByKey | admin/policy-engine/src/provenance.rs:32-37 | inputs stand by key, whatever their values, and by value under one key |
| Provenance.StringLeExactly | admin/policy-engine/src/provenance.rs:35 | a string precedes its extensions, and otherwise the first different character decides |
| Provenance.AttachmentOrderIsIrrelevant | admin/policy-engine/src/provenance.rs:33-55 | two attachment orders give the same span if and only if they attach the same inputs, and then the same log line |
| LogLines.LogLineDeterminesSpan | admin/policy-engine/src/provenance.rs:39-55 | two spans without spaces in their fields, commas in their inputs or equals signs in their input keys are equal if and only if their log lines are |
| LogLines.LineIs | admin/policy-engine/src/provenance.rs:46-54 | the line, label by label |
| LogLines.NamesAre | admin/policy-engine/src/precedence.rs:18-25 | the names of the four layers |
| LogLines.InputsReadBackExactly | admin/policy-engine/src/provenance.rs:40-53 | among all sorted inputs, those that no other inputs are joined like are exactly the empty list and a single input without further equals signs |
| LogLines.LineOfOneInput | admin/policy-engine/src/provenance.rs:40-53 | every span with inputs has the log line of the same span with one input |
| LogLines.ReadsBackExactly | admin/policy-engine/src/provenance.rs:39-55 | among all spans with sorted inputs, no other has the log line of a given one if and only if its inputs can be read back, no field contains the name of the field before or after it as a mark, and the rule does not spell a source and the start of inputs |
| LogLines.LogLineHidesComma | admin/policy-engine/src/provenance.rs:39-55 | the inputs a = `1,b=2` and a = `1`, b = `2` give one log line |

## Left out

- BrokerRuns.VerifyIsExact: covers the capabilities of one broker and at most 2^64 mints; ids are unique only within a broker, so capabilities from another broker can share an id and are not modelled.
- Audit.HistoriesAgreeExactly: does not cover the empty log, whose root is the constant 0; a non-empty log with root 0 would agree with it, and whether one exists is not settled.
- Debug builds, in which the counter and expiry additions panic instead of wrapping; poisoned locks; the message framing of the IPC crate.
- Aliasing: tab and group objects of the tab strip are values in the model, so a caller that keeps a reference to an object it added and edits it later is not captured.
- Fractional or not-a-number indices and order fields, which JavaScript numbers allow: indices are integers and order fields are reals.
- The tables of Unicode lower-casing, of which only the two strings with a capital sigma are named, and UTF-8 encoding itself.
- Binary floating point: scores and iOS times are exact reals; that a conversion of times to doubles rounds by less than half a millisecond is a hypothesis of `SecurityPolicy.EditionsAgreeWhenRounded`.
- The strength of the cipher and hash stand-ins, and key rotation: all devices of a run share one key.
- `toggleCard`, which flips the `visible` field of the cards with one id and copies everything else; the shipped default cards.
- Style classes, name strings and other constant tables, which map one enumeration to another.
- View, storage, worker, command-line and build code, which connects these cores to the platform; the engine's other heuristics, which score with floating point; and the TLS and throttling choices, which are lookup tables over a few enumerated cases.
