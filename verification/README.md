# Sagitta Control: verified models

Dafny 4.11 models of the parts of Sagitta Control whose correctness rests on careful text,
state or protocol handling, each with proofs that hold for all inputs, all runs or all
interleavings.

| files | models |
|---|---|
| `Text.dfy`, `Sorting.dfy` | Python string primitives and `sorted`, shared by the others |
| `Json.dfy`, `JsonRoundTrip.dfy`, `JsonGrammar.dfy`, `JsonCanonical.dfy` | `json.dumps` and the JSON decoder (RFC 8259, sections 2 to 7), in every layout; the decoder against the grammar; canonical text |
| `Mongo.dfy` | the MongoDB write-command parser and its dispatch |
| `Base64Url.dfy` | unpadded base64url (RFC 4648, sections 3.2, 4 and 5) |
| `Manifest.dfy`, `ManifestProofs.dfy` | the signed integrity manifest: signer and start-up verifier |
| `Ledger.dfy`, `LedgerRuns.dfy` | the license authority's store, as a class, and its runs |
| `Net.dfy`, `Limiter.dfy` | client address recovery; the sliding-window limiter over a Redis sorted set |
| `Cql.dfy`, `CqlProofs.dfy` | the Cassandra read-only gate: scanner, checker, rewriter, literal escaping |
| `Pgsql.dfy`, `PgsqlProofs.dfy` | named parameters rewritten to positional ones |
| `OracleInit.dfy` | one-time client initialisation under any interleaving of threads |
| `OracleCapacity.dfy` | which fallback query's rows are shown as table capacity |
| `Elastic.dfy` | mapping flattening and the longest running tasks |
| `Matrix.dfy` | the customer acceptance matrix against the exit code |

`dafny verify dfyconfig.toml` checks everything.

## Conventions

- Text is `seq<char>`. Whitespace is the exact set of `str.isspace`. What `\w` matches beyond
  ASCII is a parameter (`Text.Words`), so results hold for every Unicode table that agrees
  with ASCII.
- Clocks, freshly drawn ids, the signing key's presence, driver answers, Redis failures,
  directory enumeration order, the SHA-256 function and the signature scheme are parameters.
  Nothing is assumed of the digest but its shape; where file contents are compared, the only
  hypothesis is that no file of the tree clashes with the content released under its own
  path. The signature is ideal: what verifies was signed, as a manifest or as a license.
- Where a stated property is false of the code, the model keeps the code, a lemma shows an
  input, and another gives the exact condition under which the property holds.

## What the proofs found

- A word LIMIT inside a quoted literal counts for the CQL rewriter: `select 'limit' from t`
  is sent without a LIMIT clause (`QuotedLimitSlipsThrough`; exact condition in
  `LimitIsLive`).
- For the scanner of the gate, which has a backslash escape of its own, doubling quotes keeps
  a spliced literal closed exactly when no quote and no end of the value follows an active
  backslash (`LiteralIntact`, `LooseEscapeBreaksOut`).
- `%(a)s0` becomes `$10`: the positional rewrite keeps the meaning exactly when no parameter
  is directly before a digit and the text has no `$digit` of its own (`DigitAfterParameter`;
  exact condition in `RewriteKeepsMeaning`).
- HTTP `renew` saves before it signs: without a key the caller gets an error and the expiry
  has moved (`RefusedRenewMovesExpiry`; exact condition in `RefusalChangesNothing`).
- A license id left behind by a replaced activation still refreshes its code, exactly when
  the request names the replacement's customer and does not contradict its fingerprint
  (`ReplacedStillRefreshes`; exact condition for every id on record in `RefreshDecides`).
- An exception that no handler catches, for example one raised while the handler turns the
  caught exception into its message, leaves the Oracle attempt marked without an error, so in
  thick mode the next thread returns normally (`InterruptedLooksDone`; exact condition in
  `ReturnMeansInitialised`).

## Model

| member | source | states |
|---|---|---|
| JsonRoundTrip.DecodePrint | backend/app/engines/mongo.py:147-154 | `raw_decode` at a value printed in any layout returns that value and stops exactly at the text after it, which must not go on with the number when the value is one |
| JsonRoundTrip.DecodeSuffix | backend/app/engines/mongo.py:154-156 | the index the decoder hands back is a place in the same text: the unread text is a suffix |
| JsonGrammar.DecodeDecides | backend/app/engines/mongo.py:147-154 | the decoder decides the grammar: it reads a text of a value as that value, and nothing else as it |
| JsonGrammar.EscapeReads | backend/app/engines/mongo.py:154 | each escape is read as its character: short ones, four hexadecimal digits in either case, surrogate pairs |
| JsonGrammar.LastPairWins | backend/app/core/integrity.py:73-76 | of a repeated key the last value counts, and no other key is touched |
| Mongo.ReadArg | backend/app/engines/mongo.py:152-158 | one loop turn reads one argument, skips the blanks around it and strictly advances the index |
| Mongo.ParseArgs | backend/app/engines/mongo.py:148-164 | the argument loop terminates and returns the arguments, or the error of the first bad turn, that reading the text in order gives |
| Mongo.ArgsDecide | backend/app/engines/mongo.py:148-164 | the loop returns arguments exactly for JSON texts of theirs with whitespace around them and commas between, one more after the last or none |
| Mongo.MatchCallDecides | backend/app/engines/mongo.py:239-246 | the regular expression's groups are the only way to read a text as `db.<word>.<word>(<args>)`, and exist iff there is one |
| Mongo.ParseWrite | backend/app/engines/mongo.py:234-293 | a command is returned iff the text is an accepted write command; each kind of error iff or only if its own check is the one that fails |
| Mongo.AcceptsDecides | backend/app/engines/mongo.py:239-293 | accepted iff free of `;`, `\|` and backticks and a call, by the operation's name, with the number and kinds of JSON arguments that name asks for |
| Mongo.AcceptsOne | backend/app/engines/mongo.py:239-293 | a text is at most one command |
| Mongo.WriteRoundTrip | backend/app/engines/mongo.py:138-293 | every well-shaped command, printed with any JSON layout, blanks and optional trailing comma and free of `;`, `\|` and backticks, is accepted as exactly that command |
| Mongo.Execute | backend/app/engines/mongo.py:383-447 | the driver gets exactly one call, of the method whose name is the called one in snake case, with the collection and arguments, iff the text is accepted and the server reached; exactly one review row either way |
| JsonRoundTrip.LoadsPrint | tools/sign_manifest.py:96 | reading a written document gives back the value, in every layout |
| JsonGrammar.LoadsDecides | backend/app/core/integrity.py:73-76 | a text loads as a value iff it is, with blanks around it, a text of that value |
| JsonCanonical.CanonDecides | tools/sign_manifest.py:24-25 | sorting the keys at every level makes two values identical iff they are equal up to the order of object members |
| JsonCanonical.CanonicalTextDecides | tools/sign_manifest.py:24-25 | two payloads have the same canonical text iff they are equal up to the order of object members |
| JsonCanonical.CanonIncreases | tools/sign_manifest.py:24-25 | in the canonical form the keys of every object increase |
| JsonCanonical.CompactShortest | tools/sign_manifest.py:24-25 | no layout is shorter than the canonical one |
| JsonCanonical.RereadCanonical | backend/app/core/integrity.py:73-85 | re-reading an indented, key-sorted document and canonicalising it gives the text that was canonical before storage |
| JsonCanonical.LoadsWellFormed | backend/app/core/integrity.py:73-76 | whatever the text, each object read from it has each key once |
| Base64Url.UnpaddedRoundTrip | tools/sign_manifest.py:20-21 | exactly the padding is stripped, `-len % 4` restores it, decoding returns the bytes, and the stripped length is never 1 modulo 4 |
| Base64Url.DecodesUnlessOneOver | backend/app/core/integrity.py:25-27 | a value in the alphabet decodes iff its length is not 1 modulo 4 |
| Manifest.IterFiles | tools/sign_manifest.py:51-66 | the selection succeeds iff every argument names something below the root; it is then the strictly sorted list of exactly the files at or below an argument that are neither compiled nor in a cache directory |
| Manifest.IgnoredDecides | tools/sign_manifest.py:69-71 | ignored are exactly files in a `__pycache__` and names of more than `.pyc` or `.pyo` that end so |
| Manifest.SortedSet | tools/sign_manifest.py:66 | `sorted(set(...))` is strictly increasing with the same elements |
| Manifest.SelectionUnique | tools/sign_manifest.py:51-66 | arguments that take the same files give the same list |
| Manifest.SameArgumentsSameList | tools/sign_manifest.py:51-66 | repeating or reordering the arguments, or enumerating the tree in another order, gives the same list |
| Manifest.OverlapSameList | tools/sign_manifest.py:51-66 | one more argument at or below a directory already named changes nothing |
| ManifestProofs.SafePathJoin | backend/app/core/integrity.py:46-54 | the verifier resolves a recorded path to the file it was recorded for, below any root |
| ManifestProofs.SafePathStaysInside | backend/app/core/integrity.py:46-54 | whatever its text, an accepted path is left with no `.`, `..` or empty part, lies below the root, and written out again names the same file |
| ManifestProofs.ForwardPathAccepted | backend/app/core/integrity.py:46-54 | a relative path without `..` is accepted below every root, as the parts that name something |
| ManifestProofs.ParentUndoes | backend/app/core/integrity.py:49 | a `..` takes back the name before it, wherever it stands |
| ManifestProofs.LeavingRootRefused | backend/app/core/integrity.py:46-54 | a path that starts with `..` is accepted iff it comes back into the root |
| Manifest.VerifyFiles | backend/app/core/integrity.py:94-106 | the file loop passes iff no entry is at fault, and otherwise reports the first entry at fault |
| Manifest.VerifyStartup | backend/app/core/integrity.py:57-108 | verified iff required, present and every check passes; skipped iff not required; missing iff required and absent |
| ManifestProofs.EntryFaultless | backend/app/core/integrity.py:94-106 | an entry is faultless iff its path leads to a file of the tree with its digest, in whatever case |
| ManifestProofs.FaultOfSigned | backend/app/core/integrity.py:94-106 | an entry equal to a signed one is faultless iff the file is there with the signed digest |
| ManifestProofs.ReadBack | tools/sign_manifest.py:74-96 | what the verifier reads in the written file is the canonical form of the signed payload, and the signature |
| ManifestProofs.SignerAccepted | tools/sign_manifest.py:74-96 | the verifier accepts what the signer wrote on exactly the trees that have every listed file with its signing-time digest |
| ManifestProofs.AcceptedExactly | backend/app/core/integrity.py:94-106 | a manifest signed for a release is accepted on exactly the trees that have every listed file with its signing-time digest |
| ManifestProofs.LicenseIsNoManifest | backend/app/core/integrity.py:90-92 | a license payload, signed with the same key, is never accepted as a manifest |
| ManifestProofs.AcceptedIsSigned | backend/app/core/integrity.py:73-106 | if any text is accepted on any tree, some release of the signer lists files that are all there with their signing-time digest, even when licenses are signed with the same key |
| ManifestProofs.IdealSchemeExists | tools/sign_manifest.py:28-39 | the hypotheses on the signature scheme can be met together, for any releases and licenses |
| ManifestProofs.AcceptedContentIsSigned | backend/app/core/integrity.py:94-106 | they have their signing-time content, when no file of the tree clashes with the content released under its path |
| Ledger.Authority.HandleActivate | tools/license_authority.py:247-272 | the file and the answer after the request are those of the specified operation |
| Ledger.Authority.IssueFor | tools/license_authority.py:201-241 | issues, records and saves; without a key the file is as before |
| Ledger.Authority.FindByActivationId | tools/license_authority.py:284-291 | the search finds the owner of the id, whatever the iteration order |
| Ledger.OwnerUnique | tools/license_authority.py:284-291 | at most one activation carries an activation id |
| Ledger.Authority.HandleRefresh | tools/license_authority.py:274-308 | the file and the answer after the request are those of the specified operation |
| Ledger.Authority.HandleSetStatus | tools/license_authority.py:327-344 | the file and the answer after the request or command are those of the specified operation |
| Ledger.Authority.HandleRenew | tools/license_authority.py:346-373 | the file and the answer after the request are those of the specified operation, saved before issuing |
| Ledger.Authority.RunCreate | tools/license_authority.py:391-414 | the file and the answer after the command are those of the specified operation |
| Ledger.Authority.RunRenew | tools/license_authority.py:444-465 | the file and the answer after the command are those of the specified operation, nothing issued |
| LedgerRuns.StepKeeps | tools/license_authority.py:201-465 | every operation keeps the ledger invariant |
| LedgerRuns.InvariantOverRuns | tools/license_authority.py:201-465 | the invariant holds after every run of operations that starts with it, ids being fresh when drawn |
| LedgerRuns.Reachable | tools/license_authority.py:201-465 | in every state reached from the empty file an activation stores its own code, has both ids or none, and its license record points back to it and agrees on ids, customer and status; each license record names a code still there; entry i of the log has id i+1; issue entries and license records correspond |
| LedgerRuns.Serve | tools/license_authority.py:247-465 | any request or command served leaves the file and the answer of the specified operation, and a consistent file |
| LedgerRuns.NoSharedIds | tools/license_authority.py:201-241 | no two codes share a license id or an activation id |
| LedgerRuns.AuditStep | tools/license_authority.py:94-103 | the log grows at its end only; an issue adds two entries ending in `issue_license`, anything else at most one other entry |
| LedgerRuns.AuditOverRuns | tools/license_authority.py:225-235 | over a run the log grows by a suffix, with exactly one `issue_license` for each license issued |
| LedgerRuns.ListsNewestFirst | tools/license_authority.py:320-325 | the newest entries in reverse order, as many as asked for; a negative limit drops the oldest |
| LedgerRuns.RefusalChangesNothing | tools/license_authority.py:247-373 | a refusal leaves licenses alone and adds at most one entry; activations are unchanged iff no renewal that asks for something new was saved before signing failed; a renewal was saved iff there is a `renew` entry |
| LedgerRuns.IssuedDocument | tools/license_authority.py:132-241 | the document handed out is the stored one, with the activation's fingerprint, expiry and status; activate and refresh issue only while active and keep the expiry |
| LedgerRuns.IssuedDescribes | tools/license_authority.py:132-241 | every issued document says what the activation stored with it says, under its old ids or newly drawn ones |
| LedgerRuns.UnauthorizedRefused | tools/license_authority.py:189-194 | every HTTP operation refuses an unauthorized caller and changes nothing |
| LedgerRuns.ProjectDecides | tools/license_authority.py:196-199 | a given project must be this one, blanks and case aside; else the product decides |
| LedgerRuns.ActivateDecides | tools/license_authority.py:247-272 | activate issues iff authorized, the key loads, and project, code, customer, active status and deployment fit; it binds an unbound deployment and touches no other activation |
| LedgerRuns.RefreshIssues | tools/license_authority.py:274-308 | refresh issues for a code iff all checks pass against it and the request names it, by a license id on record or else by activation id |
| LedgerRuns.RenewDecides | tools/license_authority.py:346-373 | HTTP renew issues iff authorized, the code is known, the date readable and the key loads |
| LedgerRuns.StatusTakesEffect | tools/license_authority.py:327-344 | a status is set iff it is one of three and the code known, by an authorized caller or the command line; it stands in the activation and its record, and nothing else changes |
| LedgerRuns.CreateTakesEffect | tools/license_authority.py:391-414 | the command line creates an active activation with the terms given and no ids, and changes no other |
| LedgerRuns.CliRenewTakesEffect | tools/license_authority.py:444-465 | what the command line gives replaces what was there, the rest stays |
| LedgerRuns.FingerprintForGood | tools/license_authority.py:247-308 | once bound, a fingerprint stays over every run of HTTP operations and every later document for that code carries it |
| LedgerRuns.TermsStay | tools/license_authority.py:201-465 | over any run that neither renews nor recreates a code, its expiry, features and limits stay, and every document issued for it carries them |
| LedgerRuns.NothingWhileSuspended | tools/license_authority.py:201-465 | a suspended or revoked code gets no license from any run of operations that do not set it active, renew it or recreate it |
| LedgerRuns.RenewTakesEffect | tools/license_authority.py:346-373 | the renewed expiry, features and limits reach the issued document and every later one until the code is renewed or recreated; no other activation changes |
| LedgerRuns.RenewIgnoresStatus | tools/license_authority.py:346-373 | HTTP renew issues whatever the status; the next refresh is blocked iff the status is not active |
| LedgerRuns.RefreshDecides | tools/license_authority.py:274-308 | a refresh naming a license id on record issues iff it is authorized, the key loads, the project matches, and the activation its code has now is active, has that customer and does not contradict the fingerprint |
| LedgerRuns.ReplacedStillRefreshes | tools/license_authority.py:278-308 | a license id of a replaced activation refreshes its code, iff customer and fingerprint suit the replacement, under a new id with its terms; the old record keeps its status |
| Net.ForwardAddsOne | backend/app/core/net.py:26 | a proxy adds exactly one entry after whatever the header held, commas and blanks included |
| Net.BlankEntryIgnored | backend/app/core/net.py:26 | a blank entry does not count, however many and wherever |
| Net.ProxyRecovery | backend/app/core/net.py:14-33 | after N trusted proxies the result is the address the outermost saw, for every client header |
| Net.UntrustedPrefixIgnored | backend/app/core/net.py:14-33 | proxies beyond the trusted ones do not change the result |
| Net.TooFewEntries | backend/app/core/net.py:21-32 | with fewer entries than trusted proxies, or none trusted, the socket peer is the result |
| Limiter.Redis.SlidingWindowAllow | backend/app/core/rate_limit.py:21-33 | the stored set is what was visible and later than now minus the window, plus this request; the answer compares its size with the limit; other keys are untouched |
| Limiter.CheckRefines | backend/app/core/rate_limit.py:21-33 | after each check the pruned, expiring set is the filtered history and its size the count over the whole history |
| Limiter.ExpiryDropsNothing | backend/app/core/rate_limit.py:28-31 | what key expiry drops, pruning would have dropped |
| Limiter.WindowBound | backend/app/core/rate_limit.py:21-33 | in every window of every run at most `limit` checks are admitted |
| Limiter.AuthLimiter.Enforce | backend/app/core/rate_limit.py:36-51 | one more check on that key's history, refused iff over the limit; fail-open otherwise; the invariant is kept |
| Limiter.AuthLimiter.EnforceAuth | backend/app/core/rate_limit.py:54-81 | refused iff one of the two checks is; a request refused on its address leaves the account's history as it was; no other address or account is touched |
| Limiter.AuthLimiter.OneKeyEach | backend/app/core/rate_limit.py:66-81 | two addresses have two keys, and so have two accounts |
| Limiter.AuthLimiter.BoundedPerAddressAndAccount | backend/app/core/rate_limit.py:54-81 | in every window, at most the address limit for each address and the account limit for each account |
| Limiter.AuthLimiter.KeyOfOutermost | backend/app/core/rate_limit.py:66-69 | behind trusted proxies two clients are counted under one key iff the outermost proxy saw the same address, whatever headers they send |
| Cql.HasExtraStatement | backend/app/engines/cassandra.py:667-689 | true iff a `;` outside quotes and escapes has more than blanks after it |
| Cql.QueryCheck | backend/app/engines/cassandra.py:327-359 | no message iff the text passes; empty and multi-statement messages iff their conditions |
| Cql.Query | backend/app/engines/cassandra.py:371-383 | the driver gets the rewritten text iff the text passes |
| CqlProofs.LiveOnlyLast | backend/app/engines/cassandra.py:687-689 | in a text that passed the scan a live `;` is the last character |
| CqlProofs.QuotedTextInert | backend/app/engines/cassandra.py:667-689 | text between two quotes of one kind leaves the scanner where it was, and no `;` in it counts |
| CqlProofs.UnquotedSemiCounts | backend/app/engines/cassandra.py:687-689 | a `;` outside quotes with anything visible after it makes more than one statement |
| CqlProofs.SingleLimitedStatement | backend/app/engines/cassandra.py:327-383 | what reaches the driver starts with `select`, has no live `;`, and has the whole word LIMIT for a positive limit |
| CqlProofs.LimitAskedFor | backend/app/engines/cassandra.py:361-369 | what is added is nothing, or a LIMIT clause with the number asked for, iff the limit is positive and the text has no word LIMIT |
| CqlProofs.IntoRefused | backend/app/engines/cassandra.py:348-351 | SELECT ... INTO is refused in whatever case |
| CqlProofs.LockRefused | backend/app/engines/cassandra.py:352-355 | FOR UPDATE is refused in whatever case and with any blanks between |
| CqlProofs.IntoStandsAlone | backend/app/engines/cassandra.py:348-351 | INTO after SELECT counts only where both words stand alone |
| CqlProofs.LockStandsAlone | backend/app/engines/cassandra.py:352-355 | FOR UPDATE counts only where both words stand alone |
| CqlProofs.FromStandsAlone | backend/app/engines/cassandra.py:356-358 | FROM counts only where it stands alone, before a blank |
| CqlProofs.PlainSelectPasses | backend/app/engines/cassandra.py:327-359 | a plain SELECT of columns from a table passes |
| CqlProofs.LimitIsLive | backend/app/engines/cassandra.py:361-369 | it has a live LIMIT iff the text had one, or had no word LIMIT and ends outside quotes |
| CqlProofs.QuotedLimitSlipsThrough | backend/app/engines/cassandra.py:361-369 | a passing text sent without a live LIMIT |
| CqlProofs.LiteralIntact | backend/app/engines/cassandra.py:127-128 | a spliced literal stays inside its quotes and closes them iff the value has no loose escape |
| CqlProofs.BackslashFree | backend/app/engines/cassandra.py:127-128 | a backslash-free value has no loose escape |
| CqlProofs.LooseEscapeBreaksOut | backend/app/engines/cassandra.py:127-128 | a value that swallows its closing quote |
| CqlProofs.SpliceVerdict | backend/app/engines/cassandra.py:667-689 | at an unquoted point, the verdict with a spliced literal is that of the text around it, whatever the value |
| Pgsql.ConvertParams | backend/app/engines/pgsql.py:333-349 | the text and the arguments in key order; a missing key iff one is missing; unchanged without parameters |
| PgsqlProofs.ParamAtDecides | backend/app/engines/pgsql.py:347 | a parameter starts a text iff the text is `%(`, a non-empty run of word characters, `)s` and anything |
| PgsqlProofs.ParameterFound | backend/app/engines/pgsql.py:339-347 | a parameter written after any text without `%` is found there and its key is in the key list |
| PgsqlProofs.KeysGrow | backend/app/engines/pgsql.py:339-344 | the key list only grows at its end, without repetition, and holds exactly the keys met |
| PgsqlProofs.NumberStays | backend/app/engines/pgsql.py:341-345 | a number handed out never changes |
| PgsqlProofs.NumbersExact | backend/app/engines/pgsql.py:341-348 | the numbers used are exactly 1 to n |
| PgsqlProofs.RewriteRenders | backend/app/engines/pgsql.py:341-347 | the text written while the list grows is the text the final list gives |
| PgsqlProofs.RewriteKeepsMeaning | backend/app/engines/pgsql.py:333-349 | binding by position means the same as binding by name iff no own `$digit` and no parameter directly before a digit |
| PgsqlProofs.DigitAfterParameter | backend/app/engines/pgsql.py:341-347 | `%(a)s0` is rewritten to `$10`, which names no argument, though by name it is the value and a 0 |
| OracleInit.StepKeeps | backend/app/engines/oracle.py:59-102 | every atomic step of any thread keeps the lock, call and thread invariant |
| OracleInit.OneTimeInitialisation | backend/app/engines/oracle.py:59-102 | at most one call, with one outcome; none in thin mode; in thick mode nobody returns normally before the call succeeded or the attempt was broken off; otherwise nobody gets the stored error; at most one thread breaks it off |
| OracleInit.ReturnMeansInitialised | backend/app/engines/oracle.py:59-102 | in thick mode, all threads done: a normal return means an initialised client iff the attempt was not broken off or there was only one thread |
| OracleInit.AllDoneOutcome | backend/app/engines/oracle.py:59-102 | once all are done outside thin mode: one outcome, of one call unless broken off; the stored error reaches every thread in thick mode and none in auto mode; all but the thread that broke it off return |
| OracleInit.NoDeadlock | backend/app/engines/oracle.py:66-102 | some thread can go on until all are done |
| OracleInit.RunsEnd | backend/app/engines/oracle.py:59-102 | every run ends within six steps a thread |
| OracleInit.InterruptedLooksDone | backend/app/engines/oracle.py:72-96 | a run in which a thread returns normally although the only call was broken off |
| OracleCapacity.TablesMetas | backend/app/engines/oracle.py:311-333 | the rows of the first candidate with a size, which ends the search; without one, the first rows at all; else none |
| OracleCapacity.LaterColumnWins | backend/app/engines/oracle.py:319-320 | a record holds each lower-cased name with a partner, under the value of its last column, and nothing else |
| OracleCapacity.RecordNames | backend/app/engines/oracle.py:319-320 | a record has a name iff some column of that lower-cased name has a value in the row |
| OracleCapacity.SizedDecides | backend/app/engines/oracle.py:321 | sized iff some row has a non-zero value in the last of its columns named `total_size`, in whatever case |
| Elastic.Rows.FlattenProperties | backend/app/engines/elasticsearch.py:150-164 | appends the preorder rows of the mapping after the old rows |
| Elastic.OneRowEach | backend/app/engines/elasticsearch.py:158-164 | one row for each mapping node |
| Elastic.EveryFieldListed | backend/app/engines/elasticsearch.py:158-164 | every field has a row with its name, path and type, `object` when it has none; a nesting one also the rows of the fields below it |
| Elastic.ParentsFirst | backend/app/engines/elasticsearch.py:158-164 | whatever the names, every row is a top field or nests in a row before it |
| Elastic.DistinctPaths | backend/app/engines/elasticsearch.py:158-164 | with non-empty dot-free names all paths are distinct |
| Elastic.ActivityRows | backend/app/engines/elasticsearch.py:551-585 | the qualifying tasks of all nodes, sorted and cut |
| Elastic.QualifiesDecides | backend/app/engines/elasticsearch.py:564-566 | a task qualifies iff it has run the minimum, in nanoseconds |
| Elastic.QualifyingDecides | backend/app/engines/elasticsearch.py:560-583 | the rows selected from are exactly the qualifying tasks with their durations |
| Elastic.DurationShown | backend/app/engines/elasticsearch.py:564 | whole milliseconds, rounded toward zero |
| Elastic.LongestTasks | backend/app/engines/elasticsearch.py:564-585 | as many rows as asked for or qualify, longest first, and nothing left out is longer |
| Elastic.TiesKeepOrder | backend/app/engines/elasticsearch.py:584 | equal durations keep their order |
| Matrix.SummarizeMatrix | scripts/customer-engine-validation.py:601-627 | one row for each target and domain met, in order, counting exactly the results of that target and that domain |
| Matrix.CountsAddUp | scripts/customer-engine-validation.py:601-627 | over covering keys each count adds up to the count over all results |
| Matrix.MatrixAddsUp | scripts/customer-engine-validation.py:747-750 | the rows add up to the totals of `main` and to the number of results |
| Matrix.GateAgrees | scripts/customer-engine-validation.py:755-759 | exit code 0 iff every row is PASS when strict, iff no row is FAIL otherwise |

## Left out

- A JSON float is kept as the literal it is written as: its rounding to a double, and the spelling Python writes back, are not modelled.
- Escaped lone surrogates in JSON, Python's limits on recursion depth and integer length.
- UTF-8 encoding of canonical text before it is signed; the encoding is injective.
- Ed25519, SHA-256, key loading and formats: ideal functions and parameters.
- Symbolic links, a root that is itself a file, and file-list entries whose path is a float or a non-empty list or object.
- The MongoDB query parser: malformed JSON silently becomes an empty filter, so there is no round trip.
- How affected-row counts are read from driver results.
- Legacy ledger files with missing fields, concurrent requests to the authority, `export-license`, date parsing and overflow; one clock reading per request; the code given to `create-activation` is the given or the generated one.
- Redis replication and rounding of scores; a Redis failure is a step with or without effect and is not an admitted check.
- SQL comments and CQL's own grammar: the scanner does not treat comments specially.
- `has_star` of the CQL checker.
- PostgreSQL quoting and `$$`: the rewrite and its meaning are textual.
- The LIMIT clause that the PostgreSQL engine appends after the rewrite.
- Lower-casing beyond ASCII (`Text.Lower` keeps every other character but the Kelvin sign, and the length): non-ASCII column names, statement words and digests keep their case.
- The capacity SQL itself and the names of its candidates.
- Password-change token revocation and password expiry: single-branch claims only.
- Task times are integers of nanoseconds; durations computed through floating point agree below 2^53.
- Drivers, HTTP and task plumbing, the front end, deployment files and migrations.
