# Verified model of a multi-tenant accounting application

The repository is a web application for bookkeeping: a ledger with periods, invoices and
bills, organization-held encryption keys, and the operator scripts around them. This
project states the behaviour of its self-contained cores in Dafny and proves what they are
for. Strings are sequences of UTF-16 code units throughout (`Text.dfy`), JSON text is
printed and read by `Json.dfy` with its laws in `NumberRoundTrip.dfy`, `JsonRoundTrip.dfy` and
`JsonClean.dfy`,
and bytes are UTF-8 of such strings (`Utf8.dfy`).

| Subject | Files |
|---|---|
| Canonical command text and fingerprints | `Sorting`, `Canonical`, `CanonicalTrees`, `CanonicalMeaning`, `Fingerprint` |
| Exact money, rounding and printing | `Money`, `MoneyText`, `JournalAmounts` |
| Secrets, bound contexts and envelopes | `Base64`, `Contexts`, `Sealing`, `ColonEnvelopes`, `JsonEnvelopes`, `DerivedUuid` |
| Restore verification | `Paging`, `Restore`, `RestoreDrill` |
| Transactions on a shared pool, operator command | `TenantTransactions`, `TenantCall`, `OperatorWrites` |
| Hierarchy and draft editing, idempotent forms | `Hierarchy`, `DraftFx`, `TaxFields`, `Keys`, `JournalForm`, `Periods`, `TransitionForm`, `CreationForm` |
| Scanner stream and SQL text | `Scanner`, `SqlSeed` |

How the main results hang together:

- The serialiser is a method over a heap of cells with a mutable ancestor set. It equals a
  function, the function equals the printed normal form of the unfolded tree, the printed
  text reads back by RFC 8259, numbers in all the forms ECMA-262 prints them in, and normal
  forms are equal exactly when the values agree as data, a relation defined without texts
  or sorting.
- A decimal is a coefficient and a scale. Rounding is characterised as nearest, ties away
  from zero; sums are true, and free of their order, exactly up to 50 digits. The balance
  gate of the journal form is right exactly while amounts have at most 38 integer digits;
  a concrete journal shows the 39th.
- Ciphers are parameters. A hypothesis says what one sealing promised of one box, and the
  round trips through base64, colons and JSON are proved exactly: when the text comes back,
  and which error otherwise.
- The restore drill is proved from its queries up: paging finds every row once, a row passes
  exactly when its own key opens it in its own place, and the whole drill is verified
  exactly when the restored store is sound throughout.
- What goes out is read back by readers written for the receiver: a request body is parsed
  and says, field by field, what the form showed; a database session holds what the caller
  passed; a stored record has its fields under their own names. What a form shows is in turn
  what was last typed or chosen in the run.
- Protocols are state machines with arbitrary failures, and their results hold in every
  state of every run. The control flow of one transaction call is a method proved against
  the steps of that machine, interleaved with other calls.
- Where a wished-for property is false of the code, the exact condition is proved and a
  witness given: `Contexts.UniqueExactlyWithoutBar`, `ColonEnvelopes.ColonRoundTrip`,
  `JournalAmounts.GateTrueExactlyTo38Digits`, `Hierarchy.RunsForestExactly`,
  `TaxFields.UneditedLineUnchangedExactly`, `TaxFields.SavingSettlesExactly`,
  `Scanner.SplitIrrelevantExactly`, `Money.SumsTrueExactlyTo50Digits`,
  `Money.OrderFreeExactlyTo50Digits`.

The note under the exchange-rate choice says that keeping evidence is available only while
currency and accounting date are unchanged. It holds in every run, given what storage
guarantees: the unique index over organization, source type, number and version
(src/db/schema/journals.ts:87-92), with document kinds one to one with source types
(src/modules/subledger/document-model.ts:41-59). The comparison itself finds a document by
kind, number and version; what it would do over a workspace without that index is stated
separately (`DraftFx.PreserveSafeExactly`).

Where the code and its own notes differ, the model follows the code. The base64 pattern is
called canonical, but the pattern alone lets unused bits through; the comparison after it
does not (`Base64.ReencodingChecksTail`).

## Model

| member | source | states |
|---|---|---|
| `Canonical.SerializeCanonicalValue` | src/kernel/command-fingerprint.ts:14-58 | terminates on every finite graph, shared or cyclic, returns or throws what the specification says, and leaves the ancestor set as it found it on either exit |
| `Canonical.SerializeSlots` | src/kernel/command-fingerprint.ts:36-42 | the array branch: items in order, absent ones null, first throw wins, ancestors restored |
| `Canonical.SerializeProps` | src/kernel/command-fingerprint.ts:48-54 | the object branch: keys in code-unit order, absent fields dropped, first throw wins, ancestors restored |
| `CanonicalTrees.UnfoldingUnique` | src/kernel/command-fingerprint.ts:14-58 | a value has at most one unfolding, so sharing cannot be told from copying |
| `CanonicalTrees.PrintsUnfolding` | src/kernel/command-fingerprint.ts:14-58 | a value with an unfolding serialises to the printed normal form of it, whatever non-enclosing ancestors are set |
| `CanonicalTrees.SerializesExactlyUnfoldings` | src/kernel/command-fingerprint.ts:14-58 | it returns normally exactly when the value unfolds to a finite tree, and then the text is that tree's |
| `CanonicalTrees.ThrowsExactlyOnBadWalks` | src/kernel/command-fingerprint.ts:24-32 | it throws exactly when a walk from the value ends in a bigint, a non-plain object or an object met before, and the fault names the kind |
| `CanonicalTrees.Blame` | src/kernel/command-fingerprint.ts:24-47 | every throw comes with such a walk of its kind |
| `CanonicalTrees.DropSort` | src/kernel/command-fingerprint.ts:48-53 | dropping absent fields and sorting commute |
| `CanonicalMeaning.SameAmountExactly` | src/kernel/command-fingerprint.ts:21-23 | two finite numbers are equal exactly when they have one normal form, minus zero being zero |
| `CanonicalMeaning.SameNorm` | src/kernel/command-fingerprint.ts:36-54 | normal forms are equal exactly when two trees agree slot by slot and field by field, with absent fields ignored and absent slots and non-finite numbers null |
| `CanonicalMeaning.SameTextExactlySame` | src/kernel/command-fingerprint.ts:14-58 | two values that serialise have the same text exactly when they agree as data |
| `CanonicalMeaning.NormIsNormal` | src/kernel/command-fingerprint.ts:48-54 | a normal form has its keys in code-unit order, each before the next at their first difference, at every depth |
| `CanonicalMeaning.TextKeysAscend` | src/kernel/command-fingerprint.ts:48-54 | whatever serialises, the text reads back as a value with its keys in code-unit order, decided by the first difference, at every depth |
| `CanonicalMeaning.CanonicalTextIsFixed` | src/kernel/command-fingerprint.ts:60-71 | a canonical text can be read, and the serialiser gives it again for any value of any graph that unfolds to what was read |
| `NumberRoundTrip.FloatReadsBack` | src/kernel/command-fingerprint.ts:21-23 | a number printed with a point, leading zeros or an exponent reads back to the same digits and power of ten |
| `NumberRoundTrip.FloatNotation` | src/kernel/command-fingerprint.ts:21-23 | an exponent is printed exactly for sizes of at least 10^21 or below 10^-6 |
| `JsonRoundTrip.PrintReadsBack` | src/kernel/command-fingerprint.ts:18-23 | every printed JSON value reads back to itself under the grammar of RFC 8259 |
| `JsonRoundTrip.ReadsBackAround` | src/kernel/command-fingerprint.ts:18-23 | white space around a printed value changes nothing, and anything else behind it is refused |
| `JsonRoundTrip.PrintInjective` | src/kernel/command-fingerprint.ts:18-23 | different values have different texts |
| `JsonClean.PrintClean` | src/kernel/command-fingerprint.ts:51-52 | printed text has no control characters and only paired surrogates |
| `Sorting.LessExactly` | src/kernel/command-fingerprint.ts:8-12 | one key is before another exactly when, after a common beginning, it ends or has the smaller code unit |
| `Sorting.SortOrdered` | src/kernel/command-fingerprint.ts:8-12 | sorting gives the keys in code-unit order: any two of them differ first where the earlier one ends or has the smaller unit |
| `Sorting.OrderedUnique` | src/kernel/command-fingerprint.ts:8-12 | ascending lists with the same members are the same list, so key order is forgotten |
| `Fingerprint.CanonicalCommandSerialization` | src/kernel/command-fingerprint.ts:65-71 | starts from an empty ancestor set, gives the specified text, and refuses a throwing or an absent payload, saying which |
| `Fingerprint.ComponentExactly` | src/kernel/command-fingerprint.ts:6 | a component is one to 128 of the letters, digits and four signs, and starts with no sign |
| `Fingerprint.CreateCommandFingerprint` | src/kernel/command-fingerprint.ts:73-91 | which inputs are refused and why, and that the digest is taken of the four-line preimage |
| `Fingerprint.FourLines` | src/kernel/command-fingerprint.ts:84-89 | the preimage always splits into exactly namespace, version, domain and payload |
| `Fingerprint.BytesDetermineParts` | src/kernel/command-fingerprint.ts:84-90 | the hashed bytes determine version, domain and payload text |
| `Fingerprint.SameBytesExactlySameCommand` | src/kernel/command-fingerprint.ts:73-91 | two accepted commands are hashed over the same bytes exactly when version, domain and payload data agree |
| `Utf8.RoundTripExactlyPaired` | src/security/organization-encryption.ts:131-164 | text survives the way to UTF-8 bytes and back exactly when its surrogates are paired |
| `Utf8.EncodeInjective` | src/kernel/command-fingerprint.ts:90 | paired texts with equal bytes are equal |
| `Utf8.LoneSurrogatesCollide` | src/kernel/command-fingerprint.ts:90 | without pairing two texts can have the same bytes |
| `Money.QuantizeNearest` | src/kernel/money.ts:43-45 | the quantized amount is the nearest multiple of the currency unit, ties away from zero |
| `Money.NearestUnique` | src/kernel/money.ts:43-45 | there is only one such multiple, so this determines the result |
| `Money.QuantizeMonotone` | src/kernel/money.ts:43-45 | larger amounts never quantize to smaller ones |
| `Money.QuantizeOdd` | src/kernel/money.ts:43-45 | negating before or after quantizing is the same |
| `Money.QuantizeIdempotent` | src/kernel/money.ts:43-45 | quantizing twice is quantizing once |
| `Money.QuantizeRespectsValue` | src/kernel/money.ts:43-45 | the result depends on the number, not on its representation |
| `Money.QuantizedExactlyMultiples` | src/kernel/money.ts:47-50 | an amount counts as quantized exactly when it is a whole number of minor units |
| `Money.PlusRounded` | src/kernel/money.ts:3-8 | a sum is exact if it has at most 50 significant digits, and otherwise the nearest multiple of the last place kept, ties away from zero |
| `Money.SumIsTrue` | src/kernel/money.ts:52-54 | the running sum is the true sum whenever the sizes together fit 50 digits |
| `Money.ColumnSumsAreTrue` | src/kernel/money.ts:52-54 | up to 10^12 values of numeric(38, 9) sum exactly, in every order |
| `Money.SumsTrueExactlyTo50Digits` | src/kernel/money.ts:3-8 | at every scale, all lists whose sizes together have at most so many digits sum truly if and only if that is at most 50 |
| `Money.OrderFreeExactlyTo50Digits` | src/kernel/money.ts:3-8 | at every scale, all such lists sum alike in every order if and only if that is at most 50 |
| `Money.OrderCanMatter` | src/kernel/money.ts:52-54 | at every scale three values with 51 digits together whose sums in two orders differ |
| `MoneyText.RegroupJoinsGroups` | src/kernel/money.ts:63 | the replacement puts commas exactly between groups counted from the right |
| `MoneyText.GroupSizes` | src/kernel/money.ts:63 | the first group has one to three digits, every other exactly three, and together they are the number |
| `MoneyText.StripsToFixed` | src/kernel/money.ts:56-65 | without its commas the text is the fixed-point text |
| `MoneyText.FixedReadsBack` | src/kernel/money.ts:59 | the fixed-point text reads back as the rounded amount |
| `MoneyText.PrintedAmountShape` | src/kernel/money.ts:60-64 | sign, groups and decimals of the printed text; a minus exactly for a negative rounded amount |
| `MoneyText.FormatShowsQuantized` | src/kernel/money.ts:56-65 | printing, stripping commas and reading gives the quantized value; what rounds to zero shows no minus |
| `MoneyText.AcceptedCodes` | src/kernel/money.ts:33-41 | an amount is formatted exactly when its currency spells a registered code in any mixture of cases |
| `MoneyText.FormatMoneyShape` | src/kernel/money.ts:67-73 | the text is a minus exactly for a negative rounded amount, the code in capitals, one space, and the amount without sign |
| `MoneyText.FormatMoneyDistinguishes` | src/kernel/money.ts:67-73 | a text is refused exactly when upper-casing gives no registered code, and two formatted amounts are equal exactly when upper-case code and rounded amount are |
| `JournalAmounts.AmountExactly` | src/app/_components/real-journal-draft-form.client.tsx:32-40 | what is accepted as an amount is a whole part and up to nine decimals, blank being zero, with exactly that value |
| `JournalAmounts.GateIsTrue` | src/app/_components/real-journal-draft-form.client.tsx:140-143 | up to 200 lines and 38 integer digits the balance gate passes exactly the journals that truly balance |
| `JournalAmounts.GateFooled` | src/app/_components/real-journal-draft-form.client.tsx:86-92 | a journal with 39-digit amounts that passes the gate without balancing |
| `JournalAmounts.GateTrueExactlyTo38Digits` | src/app/_components/real-journal-draft-form.client.tsx:135-143 | the gate judges all journals rightly if and only if amounts have at most 38 integer digits |
| `Text.TrimExactly` | src/security/root-secret.ts:14 | trimming gives the one text without white ends that stands between white space in the whole |
| `Base64.EncodingsReadBack` | src/security/identity-secret.ts:96 | both base64 writers are undone by the one lenient reader, for all bytes |
| `Base64.EncodingsInjective` | src/security/identity-secret.ts:96 | different bytes have different encodings |
| `Base64.UrlFormOf` | src/security/identity-secret.ts:96 | the one writer gives what the other does in the alphabet for addresses and without padding |
| `Base64.SecretExactlyCanonical` | src/security/identity-secret.ts:12-22 | a secret is accepted, with its value, exactly when the text is the canonical encoding of a value of the required size, with any white space before and after |
| `Base64.PatternForcesShape` | src/security/root-secret.ts:16-22 | pattern and length alone force whole groups with the padding that fits |
| `Base64.ReencodingChecksTail` | src/security/root-secret.ts:25 | writing the value back rejects exactly the texts of that shape whose unused bits are not zero |
| `Base64.SecretRefusals` | src/security/root-secret.ts:13-30 | with any white space around it, a text is refused for its shape exactly when it has not that shape, and otherwise for its length or its unused bits |
| `Base64.SecretLengths` | src/security/root-secret.ts:3 | 64 and 32 bytes take 88 and 44 units |
| `DerivedUuid.Stamp` | src/security/identity-secret.ts:80-81 | the two assignments stamp version and variant and leave the other bytes |
| `DerivedUuid.SameUuidExactly` | src/security/identity-secret.ts:76-83 | two digests give one identifier exactly when they agree outside the six stamped bits |
| `DerivedUuid.UuidShape` | src/security/identity-secret.ts:80-83 | the text has the layout of a version 4, variant 1 UUID |
| `Contexts.FamiliesNeverOverlap` | src/security/organization-encryption.ts:53-70 | organization-key, field, identity and authentication data never coincide, whatever the parts hold |
| `Contexts.AadListsParts` | src/security/organization-encryption.ts:53-70 | split at its separators, the data lists application, family and the parts, each in its own place |
| `Contexts.AadDeterminesContext` | src/security/organization-encryption.ts:57-70 | the bytes of a context without separators in its field parts belong to no other context of any family |
| `Contexts.BarShifts` | src/security/organization-encryption.ts:57-70 | a context with a separator in a part shares its bytes with another |
| `Contexts.UniqueExactlyWithoutBar` | src/security/organization-encryption.ts:53-70 | a context is bound uniquely if and only if its field parts hold no separator |
| `ColonEnvelopes.ColonsAcceptExactly` | src/security/identity-secret.ts:105-106 | which texts parse as colon envelopes, and to what, including the ignored tail |
| `ColonEnvelopes.ColonsReadBack` | src/security/identity-secret.ts:86-106 | a written envelope parses under its own prefix unless the ciphertext is empty, and never under another |
| `ColonEnvelopes.ColonRoundTrip` | src/security/identity-secret.ts:86-145 | encrypt, join, split, decrypt: the text comes back exactly when it is non-empty and paired; other prefix, context or key is refused, and how |
| `JsonEnvelopes.RecordReadsBack` | src/security/organization-encryption.ts:171-223 | a record comes back from its JSON text exactly when its version is a safe integer and its algorithm the one supported, and never as the other kind |
| `JsonEnvelopes.RecordLaidOut` | src/security/organization-encryption.ts:171-200 | parsed by RFC 8259, a stored record has its format and each of its fields under its own name |
| `JsonEnvelopes.FieldRoundTrip` | src/security/organization-encryption.ts:121-165 | encrypt, store as JSON, read, decrypt: the text comes back for its own context and key, and every other outcome is named |
| `JsonEnvelopes.WrappedKeyRoundTrip` | src/security/organization-encryption.ts:79-113 | a wrapped key comes back for its own organization under its own root key and for no other, and is refused unless it has 32 bytes |
| `Paging.BeforeTotal` | scripts/operations/restored-banking-secrets.ts:108-109 | the key order is total and strict |
| `Paging.ListingRight` | scripts/operations/restored-master-data-secrets.ts:53-62 | the listing is in key order and holds each eligible row once and nothing else |
| `Paging.PageFollows` | scripts/operations/restored-banking-secrets.ts:107-110 | any answer allowed by the query is a stretch of the listing |
| `Paging.PageIsNextStretch` | scripts/operations/restored-banking-secrets.ts:107-110 | it is the next stretch after the cursor, and short only at the end |
| `Paging.VerifiedExactly` | scripts/operations/restored-banking-secrets.ts:168-198 | a pass succeeds exactly when every row passes, and counts them |
| `Paging.VerifyPage` | scripts/operations/restored-banking-secrets.ts:168-198 | the loop over one answer stops at the first bad row and otherwise counts all |
| `Paging.VerifyTable` | scripts/operations/verify-restored-secrets.ts:225-242 | for any table and any batch size the cursor loop ends and does what one pass over the whole listing would |
| `Restore.MapKeyInjective` | scripts/operations/restored-banking-secrets.ts:113-115 | organization and version are determined by the joined key, whatever the id holds |
| `Restore.LoadKeys` | scripts/operations/verify-restored-secrets.ts:156-172 | stops at the first faulty key row with its fault, and otherwise files exactly one key for each row |
| `Restore.OnlyRepeatsRefused` | scripts/operations/verify-restored-secrets.ts:165-168 | with rows sound in themselves, refused are exactly the tables that repeat a pair |
| `Restore.PassesExactlyRecoverable` | scripts/operations/restored-banking-secrets.ts:173-196 | a row passes exactly when the key of its own organization and version opens it, bound to its own place, to a text of its kind |
| `Restore.WrittenPassesExactly` | scripts/operations/restored-banking-secrets.ts:173-196 | a field encrypted for one place passes exactly in the row of that place, under the key it was encrypted with, if its text is of the kind |
| `Restore.FaultsExactly` | scripts/operations/restored-banking-secrets.ts:173-196 | why a row fails: version, missing key, no envelope, an envelope that does not open, or its text, whichever comes first |
| `Restore.VerifyColumns` | scripts/operations/verify-restored-secrets.ts:223-266 | over all columns the loops pass exactly when every eligible row is recoverable, and then count the eligible rows of each column |
| `RestoreDrill.EncryptedExactlyReadable` | scripts/operations/restored-identity-secrets.ts:36-60 | a user row counts as encrypted exactly when its email and any display name open as this user's own to proper text; the prefix tests refuse nothing more |
| `RestoreDrill.DemoMarkerExactly` | scripts/operations/restored-identity-secrets.ts:4 | the demo markers are the public one and one for each sandbox numbered from one |
| `RestoreDrill.WrittenReadableExactly` | scripts/operations/restored-identity-secrets.ts:49-59 | what was encrypted for one user's field passes exactly for that user, that field and that key, if its text is proper |
| `RestoreDrill.VerifyIdentities` | scripts/operations/restored-identity-secrets.ts:29-64 | stops at the first faulty user row with its fault, and otherwise counts every row as encrypted or synthetic |
| `RestoreDrill.CoverageRefusesExactly` | scripts/operations/verify-restored-secrets.ts:174-212 | once all rows are recoverable the coverage query refuses nothing more, except an address under a key version of ten digits or more |
| `RestoreDrill.MissingExactly` | scripts/operations/verify-restored-secrets.ts:271-281 | the kinds found missing, from the store itself: identity exactly when no user has email and any display name readable as its own, a party name or address exactly when no row of its table has a ciphertext |
| `RestoreDrill.VerifyRestore` | scripts/operations/verify-restored-secrets.ts:140-296 | verified exactly when key rows are sound, references covered, users known, all registered columns recoverable and, unless waived, a key and a row of each kind are there; so without the waiver a readable identity, an encrypted party name and an encrypted address exist; a refusal names the kinds that are missing; the report counts what is stored |
| `TenantTransactions.ValidatedExactly` | src/db/transaction.ts:22-62 | which contexts are accepted: demo mode with demo sign-in, a named demo session, write authorization only there |
| `TenantTransactions.AcceptedExactly` | src/db/transaction.ts:8-50 | acceptance part by part of the raw context: identifiers, lengths after trimming, the five surfaces, and how mode, sign-in, session and write authorization go together |
| `TenantTransactions.DemoAuthExactly` | src/modules/identity/auth-provenance.ts:1-8 | sign-in counts as demo exactly when it is one of the two words in any mixture of cases |
| `TenantTransactions.ScriptPrepares` | src/db/transaction.ts:142-179 | the statements before the work leave an open block with exactly the ten wanted settings, isolation, timeout and, in demo mode, the lease |
| `TenantTransactions.SettingsServed` | src/db/transaction.ts:149-162 | each setting keeps its text once set |
| `TenantTransactions.SoundKept` | src/db/transaction.ts:138-196 | every step of every call, failures included, keeps the pool invariant |
| `TenantTransactions.ClientsExclusive` | src/db/transaction.ts:138 | two unfinished calls never share a client |
| `TenantTransactions.RunsSafe` | src/db/transaction.ts:132-197 | in every state of every interleaving: pooled clients are clean, work runs only on the settings of its own validated context and lease, a finished call released its client once, a result means COMMIT returned and says when it committed |
| `TenantTransactions.RunsReady` | src/db/transaction.ts:141-179 | in every state of every interleaving, when the work of a call is about to run, its own client holds what the caller passed: organization, actor, session or blank, surface and connection as given, request, sign-in and reason trimmed, demo mode exactly for demo sign-in, write authorization exactly when asked for, in a block of the wanted isolation |
| `TenantTransactions.ReleasedExactly` | src/db/transaction.ts:183-196 | in every run a released client is in the pool again, and discarded exactly when a ROLLBACK of its call failed |
| `TenantCall.Pool.WithTenantTransaction` | src/db/transaction.ts:132-197 | one call with any failures and any interference ends, released once, with a result exactly when the context is accepted, the pool has a client for it after what the others did, and every statement and the work go well; and its work began only on a connection holding exactly what the caller passed; its client is back in the pool unless ROLLBACK failed |
| `TenantCall.Pool.Statements` | src/db/transaction.ts:141-182 | the try block runs the statements in order, stops at the first failure, and commits exactly when every answer is good |
| `TenantCall.AcceptedHere` | src/db/transaction.ts:142-182 | the server never refuses a statement of the script because of an aborted block |
| `OperatorWrites.Database.Attempt` | scripts/organization-writes-command.ts:131-155 | what the try block returns, notes and changes under every schedule of failures and of unusable rows, and that it has an output exactly when all five interactions are answered, the row is taken, and a change has a UUID and reached its aim |
| `OperatorWrites.Database.ExecuteCommand` | scripts/organization-writes-command.ts:124-166 | rollback once exactly after a failure behind BEGIN; a failure carries the request id exactly when a changing mutation was answered by a row that is taken, and what is stored in each case |
| `OperatorWrites.Database.Execute` | scripts/organization-writes-command.ts:178-201 | over the whole run client released and pool ended once, the request id and what is stored as above, and a printed result exactly when everything was answered, the row is taken and the change reached its aim; what is printed is true of what is stored, with the word for the command and for whether anything changed |
| `OperatorWrites.OutputTruthful` | scripts/organization-writes-command.ts:98-121 | of a state that reached its aim, the printed words and flags are true: enabled only of a stored time on an active real organization, disabled only without, effective exactly when gated too |
| `Hierarchy.CloneIds` | src/app/_components/accounting-settings.client.tsx:80-89 | the ids of a clone are the fresh ones in order, hence distinct |
| `Hierarchy.CloneParent` | src/app/_components/accounting-settings.client.tsx:87 | a parent pointer leads to the clone of where it led, or nowhere |
| `Hierarchy.CloneSamePaths` | src/app/_components/accounting-settings.client.tsx:80-89 | every node of a clone has the same ancestors, position by position, and the same contents |
| `Hierarchy.RemoveCutsChains` | src/app/_components/accounting-settings.client.tsx:433-437 | removing a node cuts every remaining chain exactly there |
| `Hierarchy.RemoveKeepsAcyclic` | src/app/_components/accounting-settings.client.tsx:433-437 | removing keeps a forest a forest |
| `Hierarchy.MoveKeepsAcyclicExactly` | src/app/_components/accounting-settings.client.tsx:811 | moving keeps a forest a forest exactly when the new parent is not the node or below it |
| `Hierarchy.MoveBelowCloses` | src/app/_components/accounting-settings.client.tsx:811 | moving a node below itself closes a loop |
| `Hierarchy.EditShows` | src/app/_components/accounting-settings.client.tsx:424-445 | what the hierarchy holds after each edit, node by node: the change asked for, and the other nodes as they were |
| `Hierarchy.EditKeeps` | src/app/_components/accounting-settings.client.tsx:424-445 | every offered edit keeps ids distinct and parents groups of the hierarchy other than the node |
| `Hierarchy.RunsWellParented` | src/app/_components/accounting-settings.client.tsx:769-802 | so in every state of every run of edits |
| `Hierarchy.EditKeepsForestExactly` | src/app/_components/accounting-settings.client.tsx:424-445 | an offered edit leaves a forest a forest exactly when it is not a move to the node or below it and opens, copied or not, a forest |
| `Hierarchy.RunsForestExactly` | src/app/_components/accounting-settings.client.tsx:769-811 | a run passes through forests only if and only if all its edits are such |
| `Hierarchy.RunsCanLoop` | src/app/_components/accounting-settings.client.tsx:811 | a run of offered edits that closes a loop |
| `Hierarchy.EarlierParentsAcyclic` | src/app/_components/accounting-settings.client.tsx:91-168 | nodes whose parents come earlier form a forest |
| `Hierarchy.DefaultsSound` | src/app/_components/accounting-settings.client.tsx:96-138 | a default account hierarchy is well parented and a forest |
| `Hierarchy.DefaultsComplete` | src/app/_components/accounting-settings.client.tsx:91-138 | the defaults hold every class at the top, every group under its class, and every account under its group, else its class, else at the top |
| `DraftFx.EnteredShows` | src/app/_components/ar-ap-workspace.client.tsx:943-1057 | after each edit the draft shows what was entered or chosen |
| `DraftFx.OthersStay` | src/app/_components/ar-ap-workspace.client.tsx:943-1057 | each field changes only by its own events and those that reset it |
| `DraftFx.Resuggested` | src/app/_components/ar-ap-workspace.client.tsx:943-1050 | where entity, currency or date changed and evidence is not explicit, mode is automatic and the evidence the suggestion for what is now shown |
| `DraftFx.EntityBrings` | src/app/_components/ar-ap-workspace.client.tsx:943-984 | a new entity brings its first party, its currency, its first day and its line account |
| `DraftFx.PartyBrings` | src/app/_components/ar-ap-workspace.client.tsx:986-1008 | a party with a currency of its own brings that currency, another leaves it |
| `DraftFx.OpenedShows` | src/app/_components/ar-ap-workspace.client.tsx:368-392 | an opened document is shown field by field, its evidence preserved |
| `DraftFx.LinesFollow` | src/app/_components/ar-ap-workspace.client.tsx:1052-1057 | an edit of a line does what it says to that line alone; lines come last and go alone |
| `DraftFx.KeepsALine` | src/app/_components/ar-ap-workspace.client.tsx:1618 | with a key of its own for each line no edit takes the last line away |
| `DraftFx.EvidenceOffered` | src/app/_components/ar-ap-workspace.client.tsx:1423-1489 | evidence is typed in explicit mode only, and a rate only for a foreign currency |
| `DraftFx.PreserveKept` | src/app/_components/ar-ap-workspace.client.tsx:943-1050 | every edit keeps preserved evidence tied to a stored document with the draft's currency and date |
| `DraftFx.PreservedMeansUnchanged` | src/app/_components/ar-ap-workspace.client.tsx:243-262 | in every run preserved evidence goes with the loaded currency and accounting date, given the unique index storage keeps |
| `DraftFx.LookAlikeMisleads` | src/app/_components/ar-ap-workspace.client.tsx:251-255 | the comparison alone, over a workspace without the index: a misleading twin of a document, and a run that ends with changed currency or date |
| `DraftFx.PreserveSafeExactly` | src/app/_components/ar-ap-workspace.client.tsx:243-262 | the comparison alone, over a workspace without the index: safe exactly when the twin found first agrees, or its entity, currency and the party rule out being found |
| `DraftFx.ExplicitEvidenceStays` | src/app/_components/ar-ap-workspace.client.tsx:1426-1489 | explicit evidence changes only by direct edit, chosen suggestion, or change of mode, entity or currency |
| `DraftFx.ReviewOutlives` | src/app/_components/ar-ap-workspace.client.tsx:1052-1057 | a flag set after a step was set before it, on the same line, party, entity, currency and dates |
| `DraftFx.ReviewedMeansUnchanged` | src/app/_components/ar-ap-workspace.client.tsx:986-1057 | over whole runs a set flag means nothing it rests on changed since it was ticked or loaded |
| `DraftFx.SwitchesExclusive` | src/app/_components/ar-ap-workspace.client.tsx:1573-1589 | rounding and override are never both on, if no stored document has them so |
| `DraftFx.KeepNamesItsDocument` | src/app/_components/ar-ap-workspace.client.tsx:128-157 | a request to keep evidence names the version of a stored document with its currency and date; evidence is sent exactly when explicit |
| `TaxFields.UneditedLineUnchangedExactly` | src/app/_components/ar-ap-workspace.client.tsx:264-327 | saving a line unedited sends back exactly the stored facts if and only if a checkable condition on blanks, recoverable percentage and agreement holds |
| `TaxFields.SavingSettlesExactly` | src/app/_components/ar-ap-workspace.client.tsx:264-327 | what was sent once is sent again unchanged if and only if it is not a bill with a stored blank percentage |
| `Keys.AppliedOnce` | src/app/_components/real-journal-draft-form.client.tsx:144-158 | whatever arrives, each key takes effect at most once and is the request every arrival with it was |
| `JournalForm.StepKeeps` | src/app/_components/real-journal-draft-form.client.tsx:94-198 | every edit, submission and answer keeps the retained key tied to one request and the lines between two and two hundred |
| `JournalForm.KeysNeverReused` | src/app/_components/real-journal-draft-form.client.tsx:94-198 | in every run requests with one key are one request |
| `JournalForm.RetrySame` | src/app/_components/real-journal-draft-form.client.tsx:144-145 | an unedited retry after a refused or lost answer sends the same request |
| `JournalForm.BodyReadsBack` | src/app/_components/real-journal-draft-form.client.tsx:146-172 | the lines read off a request body have the accounts and amounts of the form, functional and transaction alike |
| `JournalForm.JournalReadsBack` | src/app/_components/real-journal-draft-form.client.tsx:148-172 | parsed by RFC 8259, a body says what the form showed: ledger, entity, period, date, purpose, trimmed description, key, and of each line account, amounts on both sides, currency, rate and memo |
| `JournalForm.ShownExactly` | src/app/_components/real-journal-draft-form.client.tsx:67-80 | the entity shown is the chosen one, without it the preferred one, and without that the first |
| `JournalForm.ShowsTyped` | src/app/_components/real-journal-draft-form.client.tsx:94-126 | in every state of every run each field and each cell of each line shows what was last typed into it |
| `JournalForm.LinesFollow` | src/app/_components/real-journal-draft-form.client.tsx:106-126 | a new line is blank and last and at most the two hundredth, a removed one is gone and takes no other with it |
| `JournalForm.SentAsTyped` | src/app/_components/real-journal-draft-form.client.tsx:128-172 | each request went out of a submission, for the form as it had been typed until then |
| `JournalForm.SentJournalsBalance` | src/app/_components/real-journal-draft-form.client.tsx:128-172 | every request any run sends says, read back, what a form that passed the gates showed, and the lines read off its body are two to two hundred and, up to 38 integer digits, truly balance |
| `Periods.OfferedExactly` | src/app/_components/period-transition-form.client.tsx:11-26 | a transition is offered exactly when it closes by one step, reopens a state that is not sealed, or seals a hard close, each with its permission |
| `Periods.OfferedInOrder` | src/app/_components/period-transition-form.client.tsx:11-26 | closing is offered before reopening by one step, by two, and sealing, each at most once |
| `Periods.PrivilegedExactlyReopensOrSeals` | src/app/_components/period-transition-form.client.tsx:11-31 | a permitted transition is privileged exactly when it reopens or seals, with the permission it takes |
| `Periods.SealedIsFinal` | src/app/_components/period-transition-form.client.tsx:19-26 | in every history sealing follows a hard close and is the last step |
| `Periods.UnprivilegedStretchTightens` | src/app/_components/period-transition-form.client.tsx:11-31 | a stretch without a privileged step tightens step by step and has at most two transitions |
| `TransitionForm.StepKeeps` | src/app/_components/period-transition-form.client.tsx:52-144 | every event keeps the key tied to one request and the target permitted |
| `TransitionForm.RequestTells` | src/app/_components/period-transition-form.client.tsx:108-117 | address and body of a request tell its period, version, target and reason |
| `TransitionForm.RequestReadsBack` | src/app/_components/period-transition-form.client.tsx:108-117 | parsed by RFC 8259, the body says the target in the server's word for it, the version shown, the trimmed reason and the key; the address holds the id of the period |
| `TransitionForm.FirstTargetExactly` | src/app/_components/period-transition-form.client.tsx:56-64 | proposed is the offered transition that stands first, if any is offered |
| `TransitionForm.ShowsChosen` | src/app/_components/period-transition-form.client.tsx:48-64 | in every state of every run the form shows what was last chosen and typed |
| `TransitionForm.ChangedShown` | src/app/_components/period-transition-form.client.tsx:118-134 | after an answer the period shows the state and version it came with, the others are as they were |
| `TransitionForm.StagesFollow` | src/app/_components/period-transition-form.client.tsx:68-144 | when an event sends a request, and where it leaves step-up, key and submission |
| `TransitionForm.RequestsSafe` | src/app/_components/period-transition-form.client.tsx:65-117 | in every run: one request per key, each saying, read back, the period, version, target and reason the form showed in the state in which it went out, a permitted target, a privileged one only confirmed from the start or by a granted step before, a close only without unposted journals |
| `TransitionForm.RetrySame` | src/app/_components/period-transition-form.client.tsx:106-107 | an unedited retry sends the same request |
| `CreationForm.FingerprintInjective` | src/app/_components/period-creation-form.client.tsx:63-70 | different commands have different fingerprints |
| `CreationForm.RequestReadsBack` | src/app/_components/period-creation-form.client.tsx:63-78 | parsed by RFC 8259, a request says ledger, year, monthly pattern, open state, trimmed reason and key |
| `CreationForm.PeriodCreationForm.Create` | src/app/_components/period-creation-form.client.tsx:36-79 | a submission under way, or one that fails a check, sends nothing; otherwise exactly the entered command goes out under the key tied to it |
| `CreationForm.PeriodCreationForm.Send` | src/app/_components/period-creation-form.client.tsx:70-78 | the key is kept for the command it was made for and replaced for another; requests with one key stay one request |
| `CreationForm.PeriodCreationForm.StepUpAnswered` | src/app/_components/period-creation-form.client.tsx:53-62 | a refused confirmation sends nothing and frees the latch; a granted one sends the command captured before it |
| `CreationForm.PeriodCreationForm.Answered` | src/app/_components/period-creation-form.client.tsx:79-108 | any answer frees the latch and keeps key and command |
| `CreationForm.RetryAfterLostAnswer` | src/app/_components/period-creation-form.client.tsx:25-27 | an unedited retry sends the same request |
| `Scanner.FramedReadsBack` | src/security/evidence-scanner.ts:38-45 | reading the frame recovers the bytes, in chunks of 1 to 65536, and stops where the frame stops |
| `Scanner.OnConnect` | src/security/evidence-scanner.ts:34-47 | the loop over offsets writes exactly the command and the frame |
| `Scanner.CommandReads` | src/security/evidence-scanner.ts:35 | read up to its zero byte, a command is the letter and its name |
| `Scanner.Exchange.Finish` | src/security/evidence-scanner.ts:18-24 | the latch: only the first settlement counts |
| `Scanner.Exchange.Handle` | src/security/evidence-scanner.ts:25-33 | what each event does to text and reply |
| `Scanner.Exchange.Listen` | src/security/evidence-scanner.ts:14-33 | over any events the promise settles at most once, by the first event that settles |
| `Scanner.SplitIrrelevantExactly` | src/security/evidence-scanner.ts:28-33 | the result is independent of how the reply is split if and only if the reply is within 2048 characters or its first zero is not among the first 2048 |
| `SqlSeed.LiteralReadsBack` | scripts/operations/tax-filing-template-seed-contract.ts:31-33 | a rendered string followed by anything but a quote reads as that string and the rest |
| `SqlSeed.StatementReadsBack` | scripts/operations/tax-filing-template-seed-contract.ts:44-59 | the statement tokenises to the fixed header, each value as one literal with fixed text between, and a line feed |
| `SqlSeed.StatementCarriesFields` | scripts/operations/tax-filing-template-seed-contract.ts:48-57 | its literals are exactly the template's strings in order |
| `SqlSeed.OneSkeleton` | scripts/operations/tax-filing-template-seed-contract.ts:44-59 | whatever the strings hold, the skeleton depends only on the version number and the presence of an end date |

## Left out

- Canonical.SerializeCanonicalValue: a finite number is the shortest decimal ECMA-262 prints it as, any such decimal being allowed; getters and proxies are not modelled.
- JsonRoundTrip.PrintReadsBack: the reader keeps every decimal exactly and does not round it to binary64, and an integer of more than 21 digits reads as that integer.
- Utf8.RoundTripExactlyPaired: malformed bytes end the reading instead of becoming replacement characters; the bytes it is used on are never malformed.
- Base64.EncodingsReadBack: an equals sign inside a text is passed over, which some runtimes treat as the end; no result depends on it.
- JsonEnvelopes.FieldRoundTrip: AES-GCM itself is a hypothesis on one sealed box, and the lengths of vector and tag enter only as that hypothesis states them.
- Contexts.AadDeterminesContext: parts must have paired surrogates, without which UTF-8 loses text; key versions print as plain integers.
- Paging.VerifyTable: PostgreSQL is the promise about its answers; identifiers compare as canonical UUID text.
- Restore.PassesExactlyRecoverable: `JSON.parse` to an object, the URL check and the synthetic marker are parameters; the lookup of a specification by `table.column` is not modelled because each query writes its own specification's names into its rows.
- RestoreDrill.VerifyRestore: the evidence file, the environment and the zeroing of keys are not modelled; an address's version text is the plain decimal of its version.
- TenantTransactions.RunsSafe: `work` is assumed not to end the transaction or change its settings; the pool's size, timeouts and configuration are not modelled.
- TenantTransactions.ValidatedExactly: the UUID validator is a parameter; lower-casing is modelled as far as it can yield ASCII letters.
- OperatorWrites.Database.Execute: argument parsing is not modelled, nor the database function beyond the promise that an unchanged answer changed nothing; which rows come back unusable, and why, is a parameter.
- Hierarchy.RunsWellParented: the list of groups is taken from the current state, not from an earlier rendering; labels, statement classes and the single-root defaults of other dimensions are not modelled.
- DraftFx.PreservedMeansUnchanged: suggestions, matching periods and preferred accounts are parameters; a refreshed workspace under an open draft is not modelled.
- JournalForm.KeysNeverReused: fields are disabled while a request is under way, and the page's options do not change.
- CreationForm.PeriodCreationForm.Create: the conversion of the year text to an integer is a parameter.
- Scanner.OnConnect: host, port, deadlines' lengths and the interpretation of version and verdict are not modelled; reply chunks are given as text.
- SqlSeed.StatementReadsBack: the publication schema and the digest are not modelled; the digest is one of the literals.
- MoneyText.FormatMoneyDistinguishes: upper-casing is modelled as far as it can yield a capital letter of a code.
- Hashes, key derivation, random bytes, blind indexes and Unicode normalisation are foreign code.
- Rendering, navigation and network calls of the components are input and output.
- The settlement and void drafts and the bank match form would add easy members only.
- Ledger posting, tax engines and the close checklist are not part of this model.
