# VITO, modelled and proved

VITO is a governed execution platform: agents ask to act on files, commands, networks and repositories,
and the platform decides, claims, executes, redacts, cancels and releases. This project models the parts
that carry state, protocol or text-processing logic and proves what they promise. `dafny verify
dfyconfig.toml` checks everything.

| file | models |
|---|---|
| `Strings.dfy`, `Sets.dfy`, `Governance.dfy` | JavaScript strings as far as they are used; set sizes; profiles, actions, statuses |
| `IdentityKeys.dfy` | the length-prefixed logical operation key and invocation fingerprint, with a decoder |
| `ShellScanners.dfy`, `CommandPolicy.dfy` | the chain splitter, the redirection scan, the tokenizer, the command classifier |
| `ShellChains.dfy`, `ShellWords.dfy` | the laws of splitting a chained command and of tokenizing a spelled line |
| `PathNames.dfy`, `PathPolicy.dfy` | paths as segment lists, canonicalisation, containment, the path decision |
| `PathLaws.dfy` | what canonicalisation, resolution and denied patterns mean, on file systems with links |
| `ExecutionPolicy.dfy` | the policy decision, action by action, and the human gate |
| `GovernedInvocation.dfy` | many invocation attempts interleaved against one idempotency store |
| `Redaction.dfy`, `Leakage.dfy` | secret redaction of texts and of nested metadata at the output boundary |
| `SecretShapes.dfy`, `BoundaryShapes.dfy`, `BoundaryMetadata.dfy` | the eight secret patterns and their global replacement; what of shapes, references and metadata leaves the boundary |
| `Approvals.dfy` | single-use approvals with dispatch |
| `RequestFingerprint.dfy`, `OperatorBridge.dfy` | the canonical JSON bytes of an operator request; idempotent task submission |
| `Cancellation.dfy`, `CancellationRegistry.dfy` | the cancellation registry: specification with runs, and the object proved against it |
| `CancellationLaws.dfy` | how long the registry remembers and executions are active, and what it reports |
| `CancellationReentrancy.dfy` | the same registry when callbacks call back into it |
| `Workflow.dfy` | the engineering workflow, human-ordered corrections, whole runs |
| `Hierarchy.dfy`, `Departments.dfy`, `OrgChart.dfy` | parent graphs, the department service, the tree builder |
| `Prompt.dfy` | UTF-16, UTF-8 (section 3 of RFC 3629), prompt enrichment, the memory budget |

Protocols are state machines: `Step` is the effect of one event (an event that is not enabled changes
nothing), `Run` folds it over a list of events, and a result over every run is a lemma over every list.
Reads and writes of one call are separate events, store calls may fail before or after they took effect,
and a call may crash anywhere. In-place code is a method with loops, or a class, that is proved against a
specification function; the results are about that function.

## What turned out not to hold

Each of these is stated with a counterexample and with the exact condition under which the promise holds.

- A credential escapes the output boundary exactly when the adapter may return functions, or the marker
  `REDACTED` spells it, or it occurs in the numeral of a possible index: up to fifteen digits, or sixteen
  without a leading zero below 2^53 - 1 (`Leakage.NormalizationExact`, `Leakage.IndexedExactly`; the escapes
  are `Leakage.MarkerWordEscapes`, `Leakage.NumericEscapes`, `Leakage.OwnMapEscapes`,
  `Leakage.CallableEscapes`).
- A secret shape is shown after redaction exactly when the text is too long even with everything masked and
  the length bound cuts a longer word just where its first part has the shape
  (`SecretShapes.ShapeShownExactly`, `SecretShapes.TruncationExposes`).
- The three shell scanners agree on quoting exactly when no backslash hides a quote
  (`ShellScanners.ScannersAgreeExactly`); `a \";` is accepted with an operator that the tokenizer sees
  unquoted (`CommandPolicy.EscapedQuoteHidesOperator`).
- A command made of separators, blanks included, is accepted without any segment having been classified,
  exactly when no line break is left in it (`CommandPolicy.SeparatorOnlyCommandsExactly`).
- A branch deletion is refused exactly when one flag is a bare `-d` or `-D` and `--show-current` is absent
  (`CommandPolicy.BranchDeletionRefusedExactly`); `git branch --delete main` and `git branch -rd main` are
  accepted (`CommandPolicy.SpelledOutDeletionPasses`).
- An approval can end up consumed and revoked, although `revoke` refuses a consumed one: its update repeats
  none of the conditions it read (`Approvals.ClashExactly`, `Approvals.RevokeRace`).
- The AL4 check lets two equal reviewer families through exactly when both are the empty string
  (`Workflow.FamiliesDifferExactly`, `Workflow.EmptyFamiliesPass`).
- The comment of its step 7 speaks of all reviewer families, but only the first is compared with the
  builder's: the reviewers behind a pass, or behind VERIFY in an AL4 run, are all apart from the builder
  exactly when the builder's family is not among those after the first (`Workflow.ReviewersApartExactly`,
  `Workflow.VerifiedApartExactly`; the counterexamples are `Workflow.SharedFamilyPasses` and
  `Workflow.SharedFamilyVerified`).
- Keys joined with colons are ambiguous. Two workflows share a key exactly when a colon shifts between their
  parts, and then cancelling one signals executions of the other (`Cancellation.KeysClashExactly`,
  `Cancellation.SharedKeyConfuses`); two executions share a key exactly when their ids cut at colons give the
  same pieces, and then the second is refused as a duplicate (`Cancellation.ExecutionKeysClashExactly`,
  `Cancellation.OtherExecutionRefused`).
- The tree builder terminates on every list, cyclic or not, but silently omits what does not hang below a
  root (`OrgChart.LoneLoopVanishes`, `OrgChart.SelfParentOmitted`); it conserves the list exactly when the
  graph is acyclic and closed (`OrgChart.TreeConserves`).

## Model

| member | source | states |
|---|---|---|
| `IdentityKeys.AppendLengthPrefixed` | packages/contracts/src/engineering/invocation.ts:802-805 | the parts pushed so far join to the encoding of the fields so far; an undefined value pushes nothing, an empty one does |
| `IdentityKeys.BuildLogicalOperationKey` | packages/contracts/src/engineering/invocation.ts:905-925 | the pushed and joined key is the specified encoding of the action-aware field list |
| `IdentityKeys.BuildInvocationFingerprint` | packages/contracts/src/engineering/invocation.ts:861-889 | the same for the fingerprint of the full governed context |
| `IdentityKeys.DecodeInvertsEncode` | packages/contracts/src/engineering/invocation.ts:802-805 | decoding returns exactly the encoded fields, whatever characters the values contain |
| `IdentityKeys.LogicalOperationKeyInjective` | packages/contracts/src/engineering/invocation.ts:807-925 | two keys are equal iff organization, run, step, capability, action, input and the authoritative target are equal, undefined distinct from empty |
| `IdentityKeys.InvocationFingerprintInjective` | packages/contracts/src/engineering/invocation.ts:861-889 | two fingerprints are equal iff every field is |
| `Redaction.SplitPieces` | apps/api/src/modules/governed-invocation/governed-invocation.service.ts:908-924 | splitting at a secret yields secret-free pieces that join back to the text |
| `Redaction.RedactExactSecretValues` | apps/api/src/modules/governed-invocation/governed-invocation.service.ts:908-924 | the loop over the secrets computes their successive redaction |
| `Redaction.RedactAllFree` | apps/api/src/modules/governed-invocation/governed-invocation.service.ts:908-924 | none of many secrets survives, and no later redaction brings an earlier one back |
| `Redaction.RedactionExact` | apps/api/src/modules/governed-invocation/governed-invocation.service.ts:908-924 | a secret survives in no text iff the marker's word does not contain it |
| `Redaction.RedactSecretMaterial` | apps/api/src/modules/governed-invocation/governed-invocation.service.ts:964-982 | the loop redacts exact values, then replaces each pattern's matches in turn, then truncates; what this achieves is stated by the next rows |
| `Redaction.RedactTextFree` | apps/api/src/modules/governed-invocation/governed-invocation.service.ts:964-982 | neither pattern replacement nor truncation can bring the secret back |
| `Redaction.GapsAndDrops` | apps/api/src/modules/governed-invocation/governed-invocation.service.ts:969-971 | what a replacement keeps and what it drops together are the text, in order |
| `Redaction.MaskReplaces` | apps/api/src/modules/governed-invocation/governed-invocation.service.ts:969-971 | a replacement writes one marker for each match and keeps everything between |
| `Redaction.PatternTextFree` | apps/api/src/modules/governed-invocation/governed-invocation.service.ts:964-982 | what one of the patterns cuts out of every text is not in the redacted text, whichever patterns come before or after and whatever the secrets are |
| `Redaction.PlainTextPasses` | apps/api/src/modules/governed-invocation/governed-invocation.service.ts:964-982 | every redacted text is within the bound, and a text without secret and match passes unchanged up to it |
| `SecretShapes.CutsExactly` | apps/api/src/modules/governed-invocation/governed-invocation.service.ts:880-889 | each of the eight patterns cuts something iff the text shows its shape |
| `SecretShapes.DropsAreMatches` | apps/api/src/modules/governed-invocation/governed-invocation.service.ts:880-971 | a global replacement drops matches and nothing else; only a private key extends beyond its token, to its footer or the end |
| `SecretShapes.ReplacementHides` | apps/api/src/modules/governed-invocation/governed-invocation.service.ts:880-971 | a replacement leaves no match of its own pattern and brings no other shape to light |
| `SecretShapes.NoShapeLeft` | apps/api/src/modules/governed-invocation/governed-invocation.service.ts:880-971 | after all eight replacements in turn no text shows any of the shapes |
| `SecretShapes.ShapesRedacted` | apps/api/src/modules/governed-invocation/governed-invocation.service.ts:880-982 | a match in a redacted text can only end where the length bound cut a longer word; private keys and JSON web tokens never show |
| `SecretShapes.ShapeShownExactly` | apps/api/src/modules/governed-invocation/governed-invocation.service.ts:880-982 | a shape is shown iff the bound cuts inside a word whose first part is a token |
| `SecretShapes.TruncationExposes` | apps/api/src/modules/governed-invocation/governed-invocation.service.ts:972-975 | a text without any shape whose truncation shows an access key |
| `SecretShapes.ShapelessPasses` | apps/api/src/modules/governed-invocation/governed-invocation.service.ts:964-982 | text that shows no shape and holds no secret passes unchanged, up to the bound |
| `BoundaryShapes.ReferencesExactly` | apps/api/src/modules/governed-invocation/governed-invocation.service.ts:984-1015 | of a list of references exactly the governed ones are kept, in order: gov://, at most 512 characters, the reference alphabet, no secret, no shape |
| `BoundaryShapes.BoundaryHidesShapes` | apps/api/src/modules/governed-invocation/governed-invocation.service.ts:470-567 | error message, file and command lists and destinations of every normalised result show no shape but one cut at the bound, and exactly the governed references pass |
| `Leakage.SanitizeEstablishes` | packages/contracts/src/engineering/invocation.ts:932-1001 | at every depth only the marker stands under a secret-looking key and no secret-looking text remains |
| `Leakage.SanitizeKeeps` | packages/contracts/src/engineering/invocation.ts:932-1001 | sanitised metadata passes unchanged, so sanitising is idempotent |
| `Leakage.RedactTrustedSecretsDeep` | apps/api/src/modules/governed-invocation/governed-invocation.service.ts:931-962 | the loops over arrays and object entries compute the recursive redaction, first key wins |
| `Leakage.RedactDeepFree` | apps/api/src/modules/governed-invocation/governed-invocation.service.ts:931-962 | after redaction no string and no key of plain data contains the secret, at any depth |
| `Leakage.RedactDeepIdentity` | apps/api/src/modules/governed-invocation/governed-invocation.service.ts:931-962 | a value without the secret passes unchanged |
| `Leakage.NormalizedResultFree` | apps/api/src/modules/governed-invocation/governed-invocation.service.ts:470-567 | for all plain data no adapter-controlled string or key of the normalised result contains a redactable credential |
| `Leakage.IndexedExactly` | apps/api/src/modules/governed-invocation/governed-invocation.service.ts:527-532 | which credentials occur in a possible index: digits only, at most fifteen, or sixteen that are an index themselves |
| `Leakage.MarkerWordEscapes` | apps/api/src/modules/governed-invocation/governed-invocation.service.ts:908-962 | every credential inside the marker's word escapes |
| `Leakage.NumericEscapes` | apps/api/src/modules/governed-invocation/governed-invocation.service.ts:527-532 | every credential that occurs in a possible index escapes as a key of a spread string |
| `Leakage.OwnMapEscapes` | apps/api/src/modules/governed-invocation/governed-invocation.service.ts:1017-1025 | a side effect list that brings its own `map` function puts the credential into the result |
| `Leakage.CallableEscapes` | apps/api/src/modules/governed-invocation/governed-invocation.service.ts:931-962 | a function passes both filters with its properties, which carry any credential |
| `Leakage.NormalizationExact` | apps/api/src/modules/governed-invocation/governed-invocation.service.ts:470-567 | a credential never escapes iff adapters return plain data, the marker does not spell it and no index does |
| `BoundaryMetadata.SanitizeStaysFree` | packages/contracts/src/engineering/invocation.ts:932-1001 | sanitising brings no secret in and keeps keys distinct, at every depth |
| `BoundaryMetadata.EffectsAreListed` | apps/api/src/modules/governed-invocation/governed-invocation.service.ts:505-540 | each side effect list holds the redacted text of every item of the list of that name, in order |
| `BoundaryMetadata.ForeignResultPasses` | apps/api/src/modules/governed-invocation/governed-invocation.service.ts:470-567 | where the credential does not occur, metadata, usage and error metadata pass sanitised entry by entry, side effects leave the metadata and are listed in full, and the error keeps its redacted message |
| `ShellScanners.TrimIsTrimmed` | packages/contracts/src/engineering/execution-policy.ts:462-463 | trimming yields a trimmed text, leaves trimmed text alone, and empties exactly blank text |
| `ShellScanners.SplitShellChains` | packages/contracts/src/engineering/execution-policy.ts:462-523 | the scan with two quote flags and a buffer computes the segments between unquoted operators, none lost or merged by the laws below |
| `ShellScanners.SegmentsAreFixedPoints` | packages/contracts/src/engineering/execution-policy.ts:462-523 | every segment is trimmed, non-empty and splits into itself alone |
| `ShellChains.ChainLaw` | packages/contracts/src/engineering/execution-policy.ts:462-523 | a command chained with any operator set off by blanks, whose left side ends outside quotes, splits into the segments of the left side followed by those of the right side |
| `ShellChains.SingleLaw` | packages/contracts/src/engineering/execution-policy.ts:462-523 | a text that is not blank and has no unquoted operator splits into its trimmed self |
| `ShellScanners.NoSegmentsExactly` | packages/contracts/src/engineering/execution-policy.ts:462-523 | a command has no segments iff it is made of whitespace and operators |
| `ShellScanners.ScanRedirection` | packages/contracts/src/engineering/execution-policy.ts:422-449 | the loop finds a redirection iff an unquoted `<` or `>` exists |
| `ShellScanners.TokenizeCommand` | packages/contracts/src/engineering/execution-policy.ts:368-415 | the loop with quote and escape flags computes the tokens |
| `ShellScanners.TokenizeInvertsQuoting` | packages/contracts/src/engineering/execution-policy.ts:368-415 | tokenizing undoes single-quoting of any arguments without a single quote |
| `ShellWords.TokenizeInvertsSpelling` | packages/contracts/src/engineering/execution-policy.ts:368-415 | however words are spelled from plain, escaped and quoted pieces, tokenizing the line reads exactly these words |
| `ShellScanners.ScannersAgreeExactly` | packages/contracts/src/engineering/execution-policy.ts:368-523 | tokenizer and quote-only scanners agree at every position iff no backslash hides a quote |
| `ShellScanners.BackslashFreeAgrees` | packages/contracts/src/engineering/execution-policy.ts:368-523 | in particular on every text without a backslash |
| `ShellScanners.OperatorsQuoted` | packages/contracts/src/engineering/execution-policy.ts:422-523 | in an unchained text without redirection or lone ampersand every `; \| & < >` is quoted |
| `CommandPolicy.ClassifyCommand` | packages/contracts/src/engineering/execution-policy.ts:745-811 | the loop over the segments returns the first refusal, or acceptance |
| `CommandPolicy.AcceptedExactlyBySegments` | packages/contracts/src/engineering/execution-policy.ts:745-811 | outside the alias path a command is accepted iff the whole shows no dangerous shape and every segment is accepted |
| `CommandPolicy.CommandDecidedExactly` | packages/contracts/src/engineering/execution-policy.ts:548-811 | a command is accepted iff no dangerous shape is left and it is an alias of the profile, or the words of every segment are unbarred and granted or listed |
| `CommandPolicy.ChainedAcceptedExactly` | packages/contracts/src/engineering/execution-policy.ts:745-811 | a chained command is accepted iff the whole is presentable and every segment of either side is accepted |
| `CommandPolicy.BothSidesSuffice` | packages/contracts/src/engineering/execution-policy.ts:745-811 | a presentable chain of two accepted commands is accepted |
| `CommandPolicy.AcceptedShapes` | packages/contracts/src/engineering/execution-policy.ts:422-458 | no command is accepted, by an alias or otherwise, that redirects, substitutes, breaks the line or runs in the background |
| `CommandPolicy.ShellsRefused` | packages/contracts/src/engineering/execution-policy.ts:745-811 | a shell called with `-c` is refused under every policy and profile |
| `CommandPolicy.SegmentAcceptedAlone` | packages/contracts/src/engineering/execution-policy.ts:596-811 | each segment of an accepted command is accepted when submitted alone |
| `CommandPolicy.OperatorsOfAcceptedAreQuoted` | packages/contracts/src/engineering/execution-policy.ts:368-811 | every operator character left in a segment of an accepted command is quoted, for the tokenizer too unless a backslash hides a quote |
| `CommandPolicy.AllowListDecides` | packages/contracts/src/engineering/execution-policy.ts:548-741 | a token list is accepted under every allow list iff granted, under none iff barred, otherwise iff listed |
| `CommandPolicy.SomeListAcceptsExactly` | packages/contracts/src/engineering/execution-policy.ts:548-811 | some allow list accepts a command iff whole and segments are presentable and no segment is barred |
| `CommandPolicy.EveryListAcceptsExactly` | packages/contracts/src/engineering/execution-policy.ts:548-811 | every allow list accepts a command iff whole and segments are presentable and every segment is granted |
| `CommandPolicy.RunnersAreListed` | packages/contracts/src/engineering/execution-policy.ts:596-675 | other runners and interpreters are left to the list, and moving branches is always granted |
| `CommandPolicy.WordsClassified` | packages/contracts/src/engineering/execution-policy.ts:368-811 | a command line of plain quoted words is classified by exactly these words |
| `CommandPolicy.BranchDeletionRefusedExactly` | packages/contracts/src/engineering/execution-policy.ts:185-811 | for all words: a command line that deletes a branch, however spelled, is refused iff it has a bare `-d` or `-D` and no `--show-current` |
| `CommandPolicy.SpelledOutDeletionPasses` | packages/contracts/src/engineering/execution-policy.ts:696-708 | `--delete` and bundled flags delete and are accepted |
| `CommandPolicy.SeparatorOnlyCommandsExactly` | packages/contracts/src/engineering/execution-policy.ts:745-811 | a command made of separators, blanks included, is accepted iff no line break is left in it |
| `CommandPolicy.AcceptedHasSegmentExactly` | packages/contracts/src/engineering/execution-policy.ts:745-811 | a command has a segment to classify iff it is not made of separators |
| `CommandPolicy.EscapedQuoteHidesOperator` | packages/contracts/src/engineering/execution-policy.ts:368-811 | an accepted command whose `;` the tokenizer sees unquoted |
| `PathNames.SegmentsInvertRender` | packages/contracts/src/engineering/execution-policy.ts:237-262 | splitting a rendered path gives its segments back |
| `PathNames.InsideExactly` | packages/contracts/src/engineering/execution-policy.ts:318-338 | the string comparison with the root decides exactly containment of segment lists |
| `PathNames.RelativeIsSuffix` | packages/contracts/src/engineering/execution-policy.ts:1180-1200 | the relative path of something inside the root is the joined rest of its segments |
| `PathPolicy.DecodeInvertsEncode` | packages/contracts/src/engineering/execution-policy.ts:223-231 | percent decoding (section 2.1 of RFC 3986) undoes percent encoding |
| `PathPolicy.CanonicalizePath` | packages/contracts/src/engineering/execution-policy.ts:237-262 | the loop over segments resolves links step by step, keeps missing tails, and fails when a link cannot be resolved; what it computes is stated by the next rows |
| `PathLaws.CanonicalExactly` | packages/contracts/src/engineering/execution-policy.ts:237-262 | the canonical path is where the longest present prefix really leads, followed by the missing rest |
| `PathLaws.CanonicalIsLinkFree` | packages/contracts/src/engineering/execution-policy.ts:237-262 | no present prefix of a canonical path is a link |
| `PathLaws.ResolveConcat` | packages/contracts/src/engineering/execution-policy.ts:303-312 | resolving a joined path is resolving its parts one after the other |
| `PathLaws.ResolveSteps` | packages/contracts/src/engineering/execution-policy.ts:303-312 | a dot stays, two dots go up, a name goes down |
| `PathLaws.ResolveAbsolute` | packages/contracts/src/engineering/execution-policy.ts:303-312 | an absolute path in normal form resolves to itself, whatever the base |
| `PathLaws.ScreenedExactly` | packages/contracts/src/engineering/execution-policy.ts:269-302 | a request passes the screens iff its decoded text has no control character, it has no `%0`, and in all it goes up no more often than down |
| `PathPolicy.NormalizePath` | packages/contracts/src/engineering/execution-policy.ts:269-338 | the textual screens, the depth counter, resolution, canonicalisation and both containment checks |
| `PathPolicy.NormalizedInsideExactly` | packages/contracts/src/engineering/execution-policy.ts:269-338 | inside iff resolved and canonical path extend resolved and canonical root, on segment lists |
| `PathPolicy.PathDecisionExactly` | packages/contracts/src/engineering/execution-policy.ts:1131-1339 | for every file system and request, allowed iff contained and permitted |
| `PathPolicy.AllowedPathIsContained` | packages/contracts/src/engineering/execution-policy.ts:1131-1383 | an allowed path extends both roots, matches no denied pattern, and is written only by the builder |
| `PathLaws.AllowedPathIsReal` | packages/contracts/src/engineering/execution-policy.ts:1131-1339 | the path of an allowed action holds no link: it is where the longest present prefix of the request really leads |
| `PathLaws.AllowedPathAvoids` | packages/contracts/src/engineering/execution-policy.ts:1160-1193 | no allowed action touches a secret path, the home directory or a sensitive place below it |
| `PathLaws.GlobLiteral` | packages/contracts/src/engineering/execution-policy.ts:1366-1383 | a pattern without a star matches itself only |
| `PathLaws.GlobConcat` | packages/contracts/src/engineering/execution-policy.ts:1366-1383 | literal text in front of a pattern must be there, and the rest must match the rest |
| `PathLaws.GlobStar` | packages/contracts/src/engineering/execution-policy.ts:1366-1383 | a star stands for any run of characters without a slash, and for nothing else |
| `PathLaws.DeniesExactly` | packages/contracts/src/engineering/execution-policy.ts:1366-1383 | a denied directory, plain, with a slash or with a slash and a star, denies exactly itself and what lies below it |
| `ExecutionPolicy.DecisionExactly` | packages/contracts/src/engineering/execution-policy.ts:1000-1125 | one condition per action, allowed iff it holds: network and git switches, profile and gate, cleared command, cleared path; each refusal names its action |
| `GovernedInvocation.StepKeeps` | apps/api/src/modules/governed-invocation/governed-invocation.service.ts:1035-1365 | every event keeps the invariant, and keeps every claim and its owner |
| `GovernedInvocation.AtMostOnce` | apps/api/src/modules/governed-invocation/governed-invocation.service.ts:1124-1286 | in every run the adapter is called at most once for the same work that does more than read, field by field |
| `GovernedInvocation.KeysExactly` | packages/contracts/src/engineering/invocation.ts:905-925 | two requests claim the same key iff they ask for the same work |
| `GovernedInvocation.FingerprintsExactly` | packages/contracts/src/engineering/invocation.ts:861-889 | two claims carry the same fingerprint iff request context, provider and profile agree |
| `GovernedInvocation.ClaimsNeverFreed` | packages/contracts/src/engineering/invocation.ts:762-794 | a claim is never freed or re-owned, and a terminal state is final |
| `GovernedInvocation.MarkedOnceByClaimant` | apps/api/src/modules/governed-runtime/persistence/prisma-governed-idempotency.store.ts:98-115 | the terminal state is written at most once, by the attempt that claimed |
| `GovernedInvocation.MarksAreTruthful` | apps/api/src/modules/governed-invocation/governed-invocation.service.ts:710-719 | a claim is marked only after its adapter call, completed only after a successful return, unknown-after-timeout iff the attempt timed out |
| `GovernedInvocation.ExecutionsAuthorised` | apps/api/src/modules/governed-invocation/governed-invocation.service.ts:1035-1122 | every execution of every run had a well-formed request, an eligible provider within budget, the trusted profile, the policy's leave for its action, resolved credentials, and for a commit or push an unexpired approval of exactly that release |
| `GovernedInvocation.ClearedExactly` | apps/api/src/modules/governed-invocation/governed-invocation.service.ts:1035-1122 | a request is cleared for the adapter iff it is authorised, spelled out without the deciding code, and then under the trusted profile and the resolved provider |
| `GovernedInvocation.ExecutedPathIsContained` | apps/api/src/modules/governed-invocation/governed-invocation.service.ts:1064-1102 | every executed file action goes where its request leads, inside both roots, undenied, free of links, and mutates only as the builder |
| `GovernedInvocation.HintIsNotAuthority` | apps/api/src/modules/governed-invocation/governed-invocation.service.ts:1055-1075 | runs that differ only in valid profile hints make the same decisions, claims, marks and adapter calls |
| `GovernedInvocation.ExecutesExactlyWhenUnclaimed` | apps/api/src/modules/governed-runtime/persistence/prisma-governed-idempotency.store.ts:53-96 | an undisturbed authorised request executes iff its key is unclaimed and its invocation id unused, and then the new claim names its id, fingerprint and state |
| `GovernedInvocation.ReadsExecute` | apps/api/src/modules/governed-invocation/governed-invocation.service.ts:1104-1160 | an undisturbed authorised read executes without a claim |
| `GovernedInvocation.RejectionExactly` | apps/api/src/modules/governed-runtime/persistence/prisma-governed-idempotency.store.ts:53-96 | a refused claim ends as a conflict iff another operation holds the invocation id, else as a duplicate, and nothing changes |
| `GovernedInvocation.CompletesTruthfully` | apps/api/src/modules/governed-invocation/governed-invocation.service.ts:1160-1365 | an execution left to finish ends with the adapter's answer, a failure for illegal statuses and throws, and its claim gets exactly the state that explains it |
| `GovernedInvocation.SomeRequestIsCleared` | apps/api/src/modules/governed-invocation/governed-invocation.service.ts:1035-1102 | some consequential request is cleared, so the results above are not empty |
| `Approvals.InvocationsApproved` | apps/api/src/modules/agent-workforce/agent-workforce.service.ts:117-206 | every code build invocation was authorised by a claim of its own call on an unused, unrevoked, unexpired approval for exactly its organization and scope, in the one repository and on a feature branch |
| `Approvals.RowsAreCreated` | apps/api/src/modules/engineering-release/code-build-approval.service.ts:30-44 | every approval of any run was created by a human owner or administrator, to expire later, with the content it still has |
| `Approvals.HumanBehindInvocation` | apps/api/src/modules/engineering-release/code-build-approval.service.ts:20-44 | behind every code build invocation a human created the approval it used, for its organization and scope, unexpired at use |
| `Approvals.OneApprovalPerKey` | apps/api/src/modules/engineering-release/code-build-approval.service.ts:35-39 | an organization has at most one approval for a request key |
| `Approvals.DistinctApprovals` | apps/api/src/modules/engineering-release/code-build-approval.service.ts:172-240 | distinct code build invocations use distinct approvals and, in one organization, distinct request keys |
| `Approvals.ClaimedOnce` | apps/api/src/modules/engineering-release/code-build-approval.service.ts:172-260 | no approval is consumed twice, by whichever operation |
| `Approvals.NoUseAfterRevocation` | apps/api/src/modules/engineering-release/code-build-approval.service.ts:46-57 | after revocation or use, no continuation uses the approval |
| `Approvals.PublicUseNeverInvokes` | apps/api/src/modules/engineering-release/code-build-approval.service.ts:242-260 | an approval taken by the public consume, replayed or not, never authorises an invocation |
| `Approvals.InvokesExactlyWhenApproved` | apps/api/src/modules/agent-workforce/agent-workforce.service.ts:117-206 | an undisturbed dispatch invokes iff a bridge machine asks, the approval covers the demand and the key is unspent; then the approval is used up for exactly this target |
| `Approvals.RevokesExactly` | apps/api/src/modules/engineering-release/code-build-approval.service.ts:46-57 | an undisturbed revocation takes effect iff a human of the organization revokes an unconsumed approval |
| `Approvals.ConsumesExactly` | apps/api/src/modules/engineering-release/code-build-approval.service.ts:242-260 | an undisturbed consumption takes effect iff available and in scope; a used approval is returned iff the call repeats the use exactly |
| `Approvals.ClashExactly` | apps/api/src/modules/engineering-release/code-build-approval.service.ts:46-57 | a run leaves an approval both consumed and revoked iff a revocation commits behind a consumption it did not read |
| `Approvals.RevokeRace` | apps/api/src/modules/engineering-release/code-build-approval.service.ts:46-57 | a five-event run that does so, for every approval |
| `Approvals.AtomicRevocationsNeverClash` | apps/api/src/modules/engineering-release/code-build-approval.service.ts:46-57 | with atomic revocations no run does |
| `OperatorBridge.OneRow` | apps/api/src/modules/operator-bridge/operator-bridge.service.ts:147-188 | at most one task per organization and request id |
| `OperatorBridge.OneDispatch` | apps/api/src/modules/operator-bridge/operator-bridge.service.ts:129-230 | at most one dispatch per organization and request id |
| `OperatorBridge.OneTerminalWrite` | apps/api/src/modules/operator-bridge/operator-bridge.service.ts:350-457 | at most one terminal write, by the call that created the task, and it is final |
| `OperatorBridge.SameTask` | apps/api/src/modules/operator-bridge/operator-bridge.service.ts:189-230 | all accepted callers get the same task and asked for the same content |
| `OperatorBridge.OtherFingerprintRejected` | apps/api/src/modules/operator-bridge/operator-bridge.service.ts:240-245 | a caller with another fingerprint is never accepted and never dispatches |
| `OperatorBridge.ErasedStaysErased` | apps/api/src/modules/operator-bridge/operator-bridge.service.ts:350-425 | a payload deleted before the terminal write is never written back |
| `RequestFingerprint.ReadInvertsQuote` | apps/api/src/modules/operator-bridge/idempotency.ts:16-27 | reading undoes JSON quoting of every text of code units, whatever follows |
| `RequestFingerprint.CanonicalInjective` | apps/api/src/modules/operator-bridge/idempotency.ts:15-27 | the canonical JSON text determines what is asked for |
| `RequestFingerprint.CanonicalPaired` | apps/api/src/modules/operator-bridge/idempotency.ts:15-29 | the canonical text has no unpaired surrogate, whatever the request had |
| `RequestFingerprint.FingerprintExactly` | apps/api/src/modules/operator-bridge/idempotency.ts:15-30 | the hashed bytes of two requests are equal iff they ask for the same, an absent budget being one without limits |
| `OperatorBridge.DispatchesExactlyWhenFree` | apps/api/src/modules/operator-bridge/operator-bridge.service.ts:129-245 | an undisturbed call dispatches iff the request id is free, with the request on record in full, else is answered or refused by fingerprint |
| `OperatorBridge.DispatchIsRecorded` | apps/api/src/modules/operator-bridge/operator-bridge.service.ts:275-425 | a dispatch left to end is stored as it ended: completed on success, human gate on a policy block, failed otherwise or on a throw, with its output unless the payload is gone |
| `OperatorBridge.WritesAreTruthful` | apps/api/src/modules/operator-bridge/operator-bridge.service.ts:275-425 | in every run each stored status has a dispatch end of its own call that means it |
| `Cancellation.EvictDropsEarliest` | apps/api/src/modules/execution-cancellation/execution-cancellation.registry.ts:136-142 | what eviction drops expires no later than anything it keeps |
| `Cancellation.TableBounded` | apps/api/src/modules/execution-cancellation/execution-cancellation.registry.ts:59-142 | after every call at most 1000 tombstones, in expiry order, and no callback called twice |
| `Cancellation.ActiveAreCancelled` | apps/api/src/modules/execution-cancellation/execution-cancellation.registry.ts:59-108 | every execution active at the cancellation is called back exactly once over the whole run |
| `Cancellation.LateRegistrationIsCancelled` | apps/api/src/modules/execution-cancellation/execution-cancellation.registry.ts:34-142 | so is every execution registered before expiry with fewer than 1000 other keys cancelled in between |
| `Cancellation.ThousandOthersForget` | apps/api/src/modules/execution-cancellation/execution-cancellation.registry.ts:34-142 | after 1000 other distinct keys, from any reachable table, a registration is not signalled |
| `Cancellation.ThousandIsTight` | apps/api/src/modules/execution-cancellation/execution-cancellation.registry.ts:34-142 | a run with exactly 1000 other keys in which the registration is accepted and not signalled |
| `Cancellation.OnlyCancelledAreSignalled` | apps/api/src/modules/execution-cancellation/execution-cancellation.registry.ts:110-150 | without colons in organization ids only executions of cancelled workflows are called back |
| `Cancellation.KeysClashExactly` | apps/api/src/modules/execution-cancellation/execution-cancellation.registry.ts:148-150 | two workflows share a key iff they are one or a colon shifts between their parts |
| `Cancellation.SharedKeyConfuses` | apps/api/src/modules/execution-cancellation/execution-cancellation.registry.ts:34-57 | cancelling one workflow signals a registering execution iff the keys are equal |
| `Cancellation.ExecutionKeysClashExactly` | apps/api/src/modules/execution-cancellation/execution-cancellation.registry.ts:144-150 | two executions share a key iff their ids cut at colons give the same pieces |
| `Cancellation.NoColonNoDuplicate` | apps/api/src/modules/execution-cancellation/execution-cancellation.registry.ts:144-150 | without colons in the first three ids equal keys mean equal ids |
| `Cancellation.DuplicateExactly` | apps/api/src/modules/execution-cancellation/execution-cancellation.registry.ts:38-41 | a valid registration is refused as a duplicate iff an active execution has the same pieces |
| `Cancellation.OtherExecutionRefused` | apps/api/src/modules/execution-cancellation/execution-cancellation.registry.ts:38-41 | a shifted colon makes another execution a duplicate |
| `Cancellation.ReportAccepted` | apps/control-center/lib/workflows/contracts.ts:55-64 | failures <= attempts <= matches, ids = min(100, attempts - failures), and the client's checks pass |
| `CancellationLaws.LateCallInTime` | apps/api/src/modules/execution-cancellation/execution-cancellation.registry.ts:34-142 | in every run an execution is cancelled as it registers only if a workflow of its key was cancelled less than an hour before |
| `CancellationLaws.AskPrunes` | apps/api/src/modules/execution-cancellation/execution-cancellation.registry.ts:110-134 | asking leaves exactly the unexpired tombstones |
| `CancellationLaws.RegisterPrunes` | apps/api/src/modules/execution-cancellation/execution-cancellation.registry.ts:34-57 | registering leaves exactly the tombstones unexpired at its last pruning |
| `CancellationLaws.ActiveExactlyUntilClosed` | apps/api/src/modules/execution-cancellation/execution-cancellation.registry.ts:34-57 | in every run an accepted registration is active iff it has not been closed |
| `CancellationLaws.OutcomeExactly` | apps/api/src/modules/execution-cancellation/execution-cancellation.registry.ts:34-41 | a registration is invalid iff callback or an id is missing or too long, a duplicate iff an active execution has the same pieces |
| `CancellationLaws.ReportExactly` | apps/api/src/modules/execution-cancellation/execution-cancellation.registry.ts:75-108 | a report counts the active executions of the workflow, the callbacks called and those that threw, and names up to a hundred called in peace |
| `CancellationRegistry.ExecutionCancellationRegistry.PruneExpiredTombstones` | apps/api/src/modules/execution-cancellation/execution-cancellation.registry.ts:129-134 | deleting while iterating leaves exactly the unexpired tombstones in order |
| `CancellationRegistry.ExecutionCancellationRegistry.EnforceTombstoneBound` | apps/api/src/modules/execution-cancellation/execution-cancellation.registry.ts:136-142 | the loop evicts from the front down to the bound |
| `CancellationRegistry.ExecutionCancellationRegistry.SignalEntry` | apps/api/src/modules/execution-cancellation/execution-cancellation.registry.ts:118-127 | marks the entry and calls its callback unless that was done before |
| `CancellationRegistry.ExecutionCancellationRegistry.RegisterExecution` | apps/api/src/modules/execution-cancellation/execution-cancellation.registry.ts:34-57 | takes the specified registration step and keeps the invariant |
| `CancellationRegistry.ExecutionCancellationRegistry.CancelAll` | apps/api/src/modules/execution-cancellation/execution-cancellation.registry.ts:77-98 | the loop over the matches marks exactly them, calls exactly the unsignalled, and counts correctly |
| `CancellationRegistry.ExecutionCancellationRegistry.CancelWorkflowRun` | apps/api/src/modules/execution-cancellation/execution-cancellation.registry.ts:59-108 | takes the specified cancellation step, reports it, and keeps the invariant |
| `CancellationRegistry.ExecutionCancellationRegistry.CloseExecution` | apps/api/src/modules/execution-cancellation/execution-cancellation.registry.ts:50-56 | removes the entry of this registration and no other, however often it is called |
| `CancellationReentrancy.CalledOnceEach` | apps/api/src/modules/execution-cancellation/execution-cancellation.registry.ts:75-127 | however callbacks call back, no callback is called twice, and a finished loop has called all of its snapshot |
| `CancellationReentrancy.SnapshotExactly` | apps/api/src/modules/execution-cancellation/execution-cancellation.registry.ts:75-79 | the snapshot is exactly the active executions of the workflow |
| `CancellationReentrancy.PathAlike` | apps/api/src/modules/execution-cancellation/execution-cancellation.registry.ts:34-142 | tombstones, clock and active executions are those of the run without re-entrancy |
| `CancellationReentrancy.LateEntryIsCalled` | apps/api/src/modules/execution-cancellation/execution-cancellation.registry.ts:34-142 | deferred cancellation holds whatever callbacks do in between |
| `Workflow.ResolvedDecides` | packages/contracts/src/engineering/review.ts:84-102 | a verdict is resolved iff all reviews carry it, or it is the sole verdict without reviews |
| `Workflow.Al4Exactly` | packages/contracts/src/engineering/state-machine.ts:116-170 | the enforced requirements hold iff the evidence does, and iff the stand-alone check passes with distinct executions and two providers |
| `Workflow.FamiliesDifferExactly` | packages/contracts/src/engineering/state-machine.ts:358-386 | passing families differ iff not both are empty |
| `Workflow.EmptyFamiliesPass` | packages/contracts/src/engineering/state-machine.ts:358-386 | two empty families pass |
| `Workflow.ReviewersApartExactly` | packages/contracts/src/engineering/state-machine.ts:152-167 | no reviewer family of a passing context is the builder's iff the builder's is not among those after the first |
| `Workflow.SharedFamilyPasses` | packages/contracts/src/engineering/state-machine.ts:116-170 | a second reviewer of the builder's family passes |
| `Workflow.RunsAreBounded` | packages/contracts/src/engineering/state-machine.ts:196-341 | every run makes at most M corrections and has at most 5M + 10 steps, human-ordered corrections included |
| `Workflow.BoundIsTight` | packages/contracts/src/engineering/state-machine.ts:196-341 | for every M some completed run reaches both bounds |
| `Workflow.ReleaseHistory` | packages/contracts/src/engineering/state-machine.ts:196-341 | before every RELEASE_EXECUTION stand a BUILD or CORRECTION and the six checks, each entered on success with no blocked provider, with verdict A or B and human approval |
| `Workflow.EntriesEarned` | packages/contracts/src/engineering/state-machine.ts:196-341 | every step of every run was entered on success with no blocked provider, except a correction after a failed test or a human order and a release that a human approved |
| `Workflow.CompletedHasReleased` | packages/contracts/src/engineering/state-machine.ts:318-341 | a completed run has released, the release succeeded, and so did the verification at the remote that completed it |
| `Workflow.Al4Verified` | packages/contracts/src/engineering/state-machine.ts:253-286 | an AL4 run enters VERIFY only on full evidence with one common verdict A or B |
| `Workflow.VerifiedApartExactly` | packages/contracts/src/engineering/state-machine.ts:253-286 | behind VERIFY in an AL4 run all reviewers are apart from the builder iff its family is not among those after the first |
| `Workflow.SharedFamilyVerified` | packages/contracts/src/engineering/state-machine.ts:253-286 | an AL4 run that enters VERIFY with a reviewer of the builder's family |
| `Workflow.EntersVerifyExactly` | packages/contracts/src/engineering/state-machine.ts:253-286 | a report enters VERIFY iff it is an actionable A or B at PARSE_VERDICT |
| `Workflow.EntersCorrectionExactly` | packages/contracts/src/engineering/human-decision.ts:17-33 | CORRECTION is entered iff loops remain and a test failed, an actionable C was given, or a human ordered it after D |
| `Workflow.EntersReleaseExactly` | packages/contracts/src/engineering/state-machine.ts:312-321 | RELEASE_EXECUTION is entered iff the gate reports human approval and no blocked provider |
| `Workflow.GoesOnExactly` | packages/contracts/src/engineering/state-machine.ts:196-341 | elsewhere success enters the next step or completes, failure stops the run except after a test, a blocked provider makes it wait |
| `Workflow.ReviewHolds` | packages/contracts/src/engineering/state-machine.ts:253-294 | a review that is not actionable enters nothing: failed it stops the run, disagreeing or without evidence it waits for that |
| `Workflow.VerdictDWaits` | packages/contracts/src/engineering/state-machine.ts:288-294 | an actionable D stops the run until a human decides |
| `Workflow.OutcomeIgnoresReviewOrder` | packages/contracts/src/engineering/state-machine.ts:68-99 | permuting the review results changes no outcome, up to the order of listed verdicts |
| `Departments.AssertNoCycle` | apps/api/src/modules/departments/departments.service.ts:176-195 | the walk terminates on every table and finds the department iff the candidate's ancestors reach it, an existing cycle iff the walk never ends |
| `Departments.DepartmentsService.Create` | apps/api/src/modules/departments/departments.service.ts:15-34 | accepted iff workforce, parent, manager, keys and code are in order; adds exactly one row, with the fields that were asked for |
| `Departments.DepartmentsService.UpdateDepartment` | apps/api/src/modules/departments/departments.service.ts:81-122 | accepted iff the new parent is of the same workforce, not below the department and grounded; rewrites in exactly that row exactly the fields that are named |
| `Departments.HierarchyKept` | apps/api/src/modules/departments/departments.service.ts:15-122 | every sequence of atomic creations and updates keeps the graph acyclic and within one workforce |
| `Departments.WrittenByEvents` | apps/api/src/modules/departments/departments.service.ts:15-122 | in every history a department keeps the organization, workforce and code it was founded with, and has a parent some event gave it and a manager employed in its workforce |
| `Departments.CodesKept` | apps/api/src/modules/departments/departments.service.ts:24-55 | no two departments of a workforce ever have the same code |
| `Departments.MoveAcceptedExactly` | apps/api/src/modules/departments/departments.service.ts:81-92 | on a sound hierarchy a move is accepted iff the result is acyclic |
| `Hierarchy.AcyclicExactly` | apps/api/src/modules/departments/departments.service.ts:176-195 | a finite parent graph is acyclic iff every ancestor walk ends |
| `OrgChart.GroupByParent` | apps/api/src/modules/organization-chart/organization-chart.service.ts:91-98 | the loop groups exactly the children of every key, in list order |
| `OrgChart.TreePlaces` | apps/api/src/modules/organization-chart/organization-chart.service.ts:86-127 | for every list with distinct ids exactly the records below a root are placed, once, under their own parent |
| `OrgChart.TreeConserves` | apps/api/src/modules/organization-chart/organization-chart.service.ts:86-145 | the flattened tree is a permutation of the list iff the graph is acyclic and closed |
| `OrgChart.TreeKeepsOrder` | apps/api/src/modules/organization-chart/organization-chart.service.ts:86-127 | at every depth siblings stand in the order of the list |
| `OrgChart.SelfParentOmitted` | apps/api/src/modules/organization-chart/organization-chart.service.ts:86-127 | a record that is its own parent is in no tree |
| `OrgChart.LoneLoopVanishes` | apps/api/src/modules/organization-chart/organization-chart.service.ts:86-127 | the tree of a single such record is empty |
| `OrgChart.ChartIsComplete` | apps/api/src/modules/organization-chart/organization-chart.service.ts:65-127 | after any history of creations and updates the tree of each workforce shows every department exactly once |
| `Prompt.Utf8RoundTrip` | apps/api/src/modules/agent-workforce/agent-workforce.service.ts:401 | the UTF-8 encoding loses no code point |
| `Prompt.Subadditive` | apps/api/src/modules/agent-workforce/agent-workforce.service.ts:401-418 | joining texts never costs bytes, even across a split surrogate pair |
| `Prompt.AtMostThree` | apps/api/src/modules/agent-workforce/agent-workforce.service.ts:412-418 | no code unit costs more than three bytes, cut surrogate pairs included |
| `Prompt.PromptWithinBudget` | apps/api/src/modules/agent-workforce/agent-workforce.service.ts:395-465 | the enriched prompt has at most 524288 bytes, starts with the original, and holds after it exactly what each context contributes: nothing without room, else the separator and as much as limit and room allow |
| `Prompt.BoundMemoryContext` | apps/api/src/modules/agent-workforce/agent-workforce.service.ts:369-393 | keeps excerpts of at most the first eight items, each cut exactly as far as its limits and the budget of 12000 demand, and stops early only without room |

## Left out

- Controllers, DTO validation, guards, user interface, login, process spawning, audit writes and logging: wiring and effects without state of interest here.
- A `char` stands for one UTF-16 code unit; only `Prompt.dfy` looks into surrogates.
- SHA-256 is taken as injective; clocks, fresh ids, file systems and resolver answers are parameters.
- The regular expressions of secret keys, metadata values and secret paths are arbitrary predicates; the eight secret text patterns are modelled in `SecretShapes` by what they match, not by a regular expression engine.
- PathLaws.CanonicalIsLinkFree: for file systems whose answers belong to a tree with links: what is present resolves to a link-free place, nothing is below a missing path, and names below a link are looked up where it leads.
- Leakage.NormalizedResultFree: holds of plain data, because functions do escape; of functions the model has properties and the answer of a call, while accessors, proxies and arrays with methods of their own are not modelled.
- Leakage.NumericEscapes: the limits on arrays and strings are those of ECMAScript; engines that allow less have fewer possible indices.
- JavaScript objects are entry lists in enumeration order: integer-like keys moved to the front and the special key `__proto__` are not modelled.
- PathPolicy.AllowedPathIsContained: a denied pattern with a star and other regular expression syntax is matched by an arbitrary function, the engine's own semantics not being modelled.
- A human-gate resolver that throws, and the audit call that may throw between decision and execution, end an attempt as a crash does.
- The two reads that tell a duplicate from a conflict after a refused claim are one step; no outcome of them executes anything.
- Approvals.InvocationsApproved: `create` is one step, because its unique index makes a race end like the losing order; workflow dispatch status and approval resolution only read.
- Approval rows and operator tasks are values in a map, and each database call is one step of a state machine: row objects that are updated in place, and transactions that stay open across steps, are not modelled.
- RequestFingerprint.FingerprintExactly: numbers are integers, and the keys of submitted approval evidence come in the declared order.
- OperatorBridge.DispatchIsRecorded: of the terminal fields the model has status and output; error texts, timings and ids are copied.
- CancellationRegistry.ExecutionCancellationRegistry.CancelAll: here a callback only returns or throws; callbacks that call back are covered by `CancellationReentrancy`, which has no reports.
- Cancellation.ReportAccepted: assumes fewer active executions than the largest safe integer, and checks the registry's part of the parsed object.
- Workflow recovery services that resume a blocked run are not modelled; a blocked run may report again or receive a human correction order.
- Workflow.ResolvedDecides: verdicts outside A to D, which the type excludes, are not modelled.
- Departments.HierarchyKept: each operation is atomic; the source runs the cycle check outside its write transaction, so concurrent updates are not covered. Deletions by the database are not modelled.
- Teams and positions inside department nodes, and all other fields of chart nodes: easy projections.
- The rendering of learning, mission and memory items into text blocks: the bound is proved for every block.
- Learning, memory retrieval, provisioning, imports, planners, the command bus and the smaller parsers: mostly one-branch checks.
