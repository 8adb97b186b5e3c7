# Verified model of the Vyuu gateway's API layer

A Dafny model of the stateful and arithmetic parts of the gateway's API layer, with proofs of what they guarantee.
`dafny verify dfyconfig.toml` checks the whole project.

| file | models |
|---|---|
| `Utf8.dfy`, `Redaction.dfy`, `PayloadLimits.dfy`, `PayloadLimitProperties.dfy`, `PayloadContents.dfy`, `CappingTwice.dfy` | redaction and the transit cap on tool results (`api/payload_limits.py`) |
| `EmaRedemption.dfy`, `EmaReplay.dfy`, `EmaRace.dfy`, `EmaSteps.dfy`, `EmaMail.dfy`, `JwksCache.dfy`, `EmaResource.dfy` | single-use ID-JAG grants, the signing-key cache and resource identifiers (`api/ema_oauth.py`, migration 0016) |
| `AuthCodeFlow.dfy`, `AuthCodeOutcomes.dfy`, `ConnectFallback.dfy`, `ConnectOutcomes.dfy` | the OAuth authorization-code flow and the fallback from CIMD to DCR (`api/oauth_authcode.py`) |
| `RowSecurity.dfy`, `RowSecurityEffects.dfy`, `RowSecurityInterleaved.dfy`, `RowSecurityLocks.dfy` | the row-level-security policies of migrations 0014 and 0019, under serial and under overlapping transactions |
| `SessionRegistry.dfy`, `InboundMcp.dfy` | MCP sessions and the dispatch between two protocol eras (`sessions/registry.py`, `api/inbound_mcp.py`) |
| `InflightGate.dfy` | the per-tenant admission gate (`api/inflight_gate.py`) |
| `NhiMap.dfy`, `NhiNodes.dfy` | the weighted graph of callers and upstreams (`api/nhi_map.py`) |
| `AdminAudit.dfy`, `AdminAuditTies.dfy` | filters and paging of the audit log (`api/admin_audit.py`) |
| `Options.dfy`, `Text.dfy`, `Sequences.dfy` | shared helpers |

Loops, dictionaries that are updated in place and objects with mutable fields are methods and classes, proved against
functions; the results are lemmas about those functions. Concurrent protocols are step functions over an explicit
state, and their results hold after every finite sequence of steps, that is, in every interleaving. What lies outside
the modelled code enters as a parameter of a step or as a field of a configuration: the clock, the network, signature
checks, regular expressions, identity and grant lookups.

## Where code and documentation differ

The model follows the code. Each point below is a proved statement.

- *The size cap is not exact.* Measured as the code measures, a result may leave with up to 2 bytes more than the
  limit, because a cut inside a character is decoded to U+FFFD. `WithinLimitExactly` says when the limit is met,
  `BoundIsTight` that 2 is reached. The measure counts text and binary data only: an embedded resource counts 0, so the
  size on the wire is not bounded.
- *The first text that does not fit is cut, not the last*, and everything after it is dropped (`TruncateIsGreedy`,
  `LaterTextIsDropped`). It is the last text exactly when every earlier text fits (`CutIsLastTextExactly`).
- *The sentinel is not always there.* It is there exactly when some text exceeds the cap
  (`SentinelExactlyWhenTextOverflows`); a result that only its structured copy made too large is truncated without a
  word to the client (`SilentTruncation`).
- *Redaction can push a result over the limit.* With redaction on and no content blocks, the size is not taken again
  after redaction. `WithinLimitExactly` covers every result and `StructuredOnlyExactly` these; `StaleTotal` is an
  object that leaves too large and not marked as truncated.
- *Redaction does not reach every text.* A block that has a `text` attribute without being a `TextContent` is scanned
  and counted but handed on as it was (`RedactionReaches`, `TextLikeLeaks`).
- *A redemption that loses is not always rejected cleanly.* The new user is flushed outside the `try`, so a conflict
  there is an uncaught server error. In every run that is how an attempt ends exactly when its lookup found no user row
  and its flush meets a taken jti, subject or e-mail address (`ServerErrorExactly`); an attempt that found a row is
  always answered cleanly (`FoundRowIsClean`). A fresh ID-JAG suffers it too when its e-mail address belongs to another
  user of the tenant. Of two racing redemptions exactly one mints, and the other is rejected cleanly exactly when it
  looked for the user after the winner's commit (`ExactlyOneMints`, `LoserEndsEitherWay`).
- *Single use depends on speed.* It holds in every interleaving if and only if at most 240 s pass between decoding and
  commit (`SafeDelayExactly`).
- *Identity is not looked up on every call.* The dispatch of legacy lists and calls never consults it; the session stands
  in for the caller (`IdentityConsultedExactly`).
- *The issuer check does not bind the endpoint.* With static credentials the code is posted to the token endpoint
  configured last, so a server that is reconfigured in between gets a code that another authorization server issued
  (`CodeGoesWhereConfiguredLast`, `ReconfiguredServerGetsCode`).
- *The CIMD marker can be lost.* When two Connects overlap and one callback runs after the first refusal was recorded,
  the later refusal is taken for an eviction and deletes the marker (`MarkerSurvivesExactly`, `OverlapCanStarve`).
- *The gate admits no extra request.* The comment allows one beyond the limit; there is none, since nothing suspends
  between the check and the acquire (`Arrive`, `InflightNeverExceeds`).
- *Nodes without edges exist.* The model class promises only nodes that edges refer to; with `sanctioned_only` a user
  whose every call is filtered out still has a node (`NodesReferencedExactly`).
- *The promotion of unsanctioned nodes never happens*, since the flag is determined by the identifier
  (`FirstMentionWins`).
- *`action_prefix` is a LIKE pattern*, and a starts-with match exactly for prefixes without `%`, `_` and backslash
  (`PrefixMatchExactly`).
- *A shared source mixes keys.* When one directory's `ema_jwks_uri` equals the issuer of another one that has none, the
  second can be handed a key that its own document never had. All answers are sound exactly when no two directories
  stand like this (`FreshExactly`, `SharedSourceMixesKeys`).
- *Offset paging is not always complete.* On a growing log rows are repeated exactly when the number of newer rows is
  positive and below the next offset plus the limit (`NewRowsRepeatExactly`). On a fixed log the query orders by
  timestamp alone, and every row is shown exactly once, in whatever order ties come, if and only if no tie lies across a
  page boundary (`CompleteInAnyOrderExactly`).

## Model

| member | source | states |
|---|---|---|
| Utf8.DecodeCut | src/vyuu_gateway/api/payload_limits.py:285-287 | cutting encoded text after any number of bytes and decoding with replacement gives exactly the characters wholly inside the cut, and one U+FFFD if the cut falls inside a character |
| Utf8.WholeCharsFit | src/vyuu_gateway/api/payload_limits.py:285-287 | that number of characters is the largest that fits |
| Utf8.CutSize | src/vyuu_gateway/api/payload_limits.py:285-292 | such a cut is 0, 1 or 2 bytes larger when encoded again, and which it is |
| Utf8.DecodeStepOfCut | src/vyuu_gateway/api/payload_limits.py:287 | a truncated character is one ill-formed piece, never several |
| Utf8.DecodesEncodingsOnly | src/vyuu_gateway/api/payload_limits.py:287 | on any bytes, decoding makes a character of nothing but its encoding, and U+FFFD of a place where no encoding stands |
| Utf8.PieceIsBeginning | src/vyuu_gateway/api/payload_limits.py:287 | an ill-formed piece of several bytes is the beginning of some encoding |
| Utf8.RoundTrip | src/vyuu_gateway/api/payload_limits.py:279-287 | decoding undoes encoding |
| Redaction.RedactSecrets | src/vyuu_gateway/api/payload_limits.py:66-79 | the loop computes `RedactText`, of which the next rows say what it is: every pattern in order, each on what the earlier ones left |
| Redaction.PatternsInTurn | src/vyuu_gateway/api/payload_limits.py:73-78 | redacting with two lists of patterns in a row is redacting with the second what the first left; counts of the second replace those of the same kind |
| Redaction.CountsTurns | src/vyuu_gateway/api/payload_limits.py:73-78 | the count of a kind is the number of replacements its pattern made in the text that the earlier patterns left |
| Redaction.NothingMatchesAfterwards | src/vyuu_gateway/api/payload_limits.py:66-79 | what redaction is for: if each pattern leaves nothing it matches and no later one makes an earlier one match, no pattern matches the redacted text, and redacting again finds nothing |
| Redaction.LaterPatternUndoes | src/vyuu_gateway/api/payload_limits.py:73-78 | the second condition is needed: two patterns of which the later brings the secret back |
| Redaction.NoCountsMeansNoMatch | src/vyuu_gateway/api/payload_limits.py:66-79 | no count if and only if no pattern matches the original text, and then the text is unchanged |
| Redaction.RedactionCounts.Add | src/vyuu_gateway/api/payload_limits.py:160-161 | the shared dict grows by the found counts, kind by kind |
| Redaction.RedactStructured | src/vyuu_gateway/api/payload_limits.py:151-167 | every string value is redacted, and the shared dict ends as its initial value plus the hits of all string values |
| Redaction.RedactItems | src/vyuu_gateway/api/payload_limits.py:165-166 | the same for a list: same length, element by element |
| Redaction.RedactMembers | src/vyuu_gateway/api/payload_limits.py:163-164 | the same for an object: same keys in the same order |
| Redaction.RedactionKeepsShape | src/vyuu_gateway/api/payload_limits.py:151-167 | at every path a redacted document has the same kind, length, keys and non-string value as the original, and a string there is its redaction |
| Redaction.LabelsDetermine | src/vyuu_gateway/api/payload_limits.py:151-167 | that is all there is to know: a document is determined by kind, length, keys and scalar value at every path |
| Redaction.NothingMatchesInDocument | src/vyuu_gateway/api/payload_limits.py:151-167 | under the same conditions no string value of a redacted document matches a pattern |
| Redaction.NoHitsUnchanged | src/vyuu_gateway/api/payload_limits.py:222-226 | a document in which nothing was counted comes back equal |
| Redaction.HitsAppend | src/vyuu_gateway/api/payload_limits.py:234-236 | counts of texts handled one after the other add up |
| Redaction.HitsAreSums | src/vyuu_gateway/api/payload_limits.py:160-161 | the hits of a kind are the sum of the counts of all texts |
| PayloadLimits.MeasureResponseBytes | src/vyuu_gateway/api/payload_limits.py:170-185 | the loop computes the number of bytes of all texts and elements of all data that the blocks carry |
| PayloadLimits.MeasureIsPayload | src/vyuu_gateway/api/payload_limits.py:170-185 | the measure is the length of everything the blocks carry, put together |
| PayloadLimits.RedactContent | src/vyuu_gateway/api/payload_limits.py:227-242 | every text block is replaced by its redaction, the hits of all texts are added, and the change flag is exact |
| PayloadLimits.TruncateBlocks | src/vyuu_gateway/api/payload_limits.py:261-295 | the walk with its early exit computes `Truncate`; all but the cut block measures at most the cap |
| PayloadLimits.CapCallToolResult | src/vyuu_gateway/api/payload_limits.py:188-304 | the whole operation computes `Capped` and reports exactly what it did |
| PayloadLimits.TruncateSize | src/vyuu_gateway/api/payload_limits.py:266-295 | the exact number of bytes the walk emits |
| PayloadLimitProperties.TruncateIsGreedy | src/vyuu_gateway/api/payload_limits.py:258-304 | the output is the greedy selection, verbatim and in order, followed by at most one block: a proper prefix of the first text that does not fit, and the sentinel |
| PayloadLimitProperties.GreedyIsUnique | src/vyuu_gateway/api/payload_limits.py:258-304 | only one selection is greedy, so the statement above fixes the output; a binary block is dropped only when it would exceed the cap at that point |
| PayloadLimitProperties.SentinelExactlyWhenTextOverflows | src/vyuu_gateway/api/payload_limits.py:279-295 | the output is the kept blocks and one more whose text ends in the sentinel if and only if some text exceeds the cap beside the blocks kept before it; otherwise it is just the kept blocks |
| PayloadLimitProperties.CutIsLastTextExactly | src/vyuu_gateway/api/payload_limits.py:205-207 | the block that is cut is the last text, as documented, if and only if every earlier text fits beside the blocks kept before it |
| PayloadLimitProperties.LaterTextIsDropped | src/vyuu_gateway/api/payload_limits.py:266-295 | a result of two texts of which the first does not fit leaves as the cut first one, whatever the size of the second |
| PayloadLimitProperties.TruncatedSize | src/vyuu_gateway/api/payload_limits.py:258-304 | exact size of a truncated result, structured copy included |
| PayloadLimitProperties.SizeBound | src/vyuu_gateway/api/payload_limits.py:244-304 | every result leaves with at most max(limit, sentinel) + 2 bytes, except exactly those whose structured content redaction makes larger than that after the comparison; a truncated one always does |
| PayloadLimitProperties.WithinLimitExactly | src/vyuu_gateway/api/payload_limits.py:203-207 | for every result, when the documented cap is met: it passed the comparison and redaction did not outgrow it, or nothing had to be cut, or the sentinel fits and the cut did not grow |
| PayloadLimitProperties.StructuredOnlyExactly | src/vyuu_gateway/api/payload_limits.py:218-243 | the same for results without blocks under redaction, in terms of the structured content before and after |
| PayloadLimitProperties.AsciiWithinLimit | src/vyuu_gateway/api/payload_limits.py:203-207 | for ASCII texts and a limit that holds the sentinel, only redaction after the comparison exceeds the limit |
| PayloadLimitProperties.BoundIsTight | src/vyuu_gateway/api/payload_limits.py:285-291 | limit + 2 is reached |
| PayloadLimitProperties.StaleTotal | src/vyuu_gateway/api/payload_limits.py:218-243 | such a result: an object with one secret, under any length function that puts its redaction over the limit, leaves too large and not marked as truncated |
| PayloadLimitProperties.NothingToCut | src/vyuu_gateway/api/payload_limits.py:297-304 | content that fits is passed whole and without sentinel, although the result is reported as truncated |
| PayloadLimitProperties.SilentTruncation | src/vyuu_gateway/api/payload_limits.py:252-304 | a result whose blocks fit beside the sentinel and whose structured copy makes it too large loses the copy and nothing else, marked in the metadata alone |
| PayloadLimitProperties.RedactionReaches | src/vyuu_gateway/api/payload_limits.py:230-241 | every text leaves redacted if and only if no text-like block has anything to redact |
| PayloadLimitProperties.TextLikeLeaks | src/vyuu_gateway/api/payload_limits.py:230-241 | such a block: its secret is counted and leaves unchanged |
| PayloadContents.TruncatedPayloadBound | src/vyuu_gateway/api/payload_limits.py:258-304 | all text bytes and data that leave in a truncated result number at most max(limit, sentinel) + 2 |
| PayloadContents.BinaryPayloadBound | src/vyuu_gateway/api/payload_limits.py:269-278 | without texts at most what the limit leaves beside the sentinel |
| PayloadContents.DataLeavesWhole | src/vyuu_gateway/api/payload_limits.py:269-278 | data is never cut: a binary block that leaves came in like that and fits |
| PayloadContents.RedactedBlocksExactly | src/vyuu_gateway/api/payload_limits.py:230-241 | a block that redaction changes is a text block and keeps nothing but its new text; every other block is untouched |
| PayloadContents.MetadataIsTrue | src/vyuu_gateway/api/payload_limits.py:245-304 | the metadata describes the result that leaves: size, truncation and a dropped structured copy are reported exactly, nothing reported means nothing changed, and the error flag and the result's own metadata are kept |
| CappingTwice.SecondPassTruncates | src/vyuu_gateway/api/payload_limits.py:209-256 | without redaction a result within the limit is unchanged, and a second pass truncates if and only if the first one missed the limit |
| CappingTwice.CappingTwiceExactly | src/vyuu_gateway/api/payload_limits.py:209-304 | capping twice is capping once if and only if the first pass met the limit, had no text to cut, or left just the size that its sentinel states |
| CappingTwice.OneSentinel | src/vyuu_gateway/api/payload_limits.py:119-122 | a text ends in at most one sentinel, so the size that it states can be read back |
| CappingTwice.SentinelStatesSize | src/vyuu_gateway/api/payload_limits.py:119-122 | that size is the size of the whole result, in decimal |
| CappingTwice.CutAgain | src/vyuu_gateway/api/payload_limits.py:285-287 | cutting a cut text at the same byte gives it back, whatever has been appended |
| EmaRedemption.RedeemedAtMostOnce | src/vyuu_gateway/api/ema_oauth.py:384-410 | in every interleaving of redemptions, prunes and user edits an ID-JAG is redeemed at most once, and only if decoded before exp + 60 s |
| EmaRedemption.SafeDelayExactly | src/vyuu_gateway/api/ema_oauth.py:84-296 | at-most-once holds for all runs if and only if at most 240 s may pass between decoding and commit |
| EmaRedemption.SlowRedemptionBreaksIt | src/vyuu_gateway/idp/sweeper.py:137-147 | beyond that a prune can overtake a slow redemption: a concrete run redeems one grant twice |
| EmaRedemption.FreeKeyMeansUnredeemed | migrations/versions/20260825_0016_ema_idp_jag.py:85-107 | within the delay a free primary key means that the grant was never redeemed |
| EmaRedemption.RedemptionIsAtomic | src/vyuu_gateway/api/ema_oauth.py:388-410 | an attempt mints, reserves the free key and creates at most its own user, or it leaves both tables unchanged; a disabled or losing attempt is of the second kind |
| EmaRedemption.MailsStayUnique | src/vyuu_gateway/db/models.py:611-628 | in every run no two users of a tenant share an e-mail address |
| EmaRedemption.UncontendedAnswer | src/vyuu_gateway/api/ema_oauth.py:384-410 | the answer when no other attempt holds uncommitted rows and nothing comes in between: for an absent subject a mint, or a server error if jti, subject or e-mail is taken; for a known one a mint or a clean rejection |
| EmaReplay.OutcomeExactly | src/vyuu_gateway/api/ema_oauth.py:384-410 | in every run an attempt has ended in some way if and only if the run contains the one step that ends it so, for each of the four outcomes |
| EmaReplay.ServerErrorExactly | src/vyuu_gateway/idp/service.py:374-396 | in every run an attempt ends in a server error if and only if its lookup found no user row and its flush met a taken jti, subject or e-mail address |
| EmaReplay.FoundRowIsClean | src/vyuu_gateway/api/ema_oauth.py:399-410 | an attempt that found its user's row never ends in a server error, whatever else happens |
| EmaRace.ExactlyOneMints | src/vyuu_gateway/api/ema_oauth.py:381-410 | in every run of two redemptions of one grant of an absent subject, with time and prunes in between, in which both end: exactly one mints, and the other is rejected cleanly if and only if its lookup came after the winner's commit, else it ends in a server error |
| EmaRace.LoserEndsEitherWay | src/vyuu_gateway/api/ema_oauth.py:381-410 | both endings happen: a loser that looked up early ends in a server error although the subject has a user row by then |
| EmaSteps.FlushWaitsExactly | src/vyuu_gateway/idp/service.py:394-395 | a flush waits if and only if another attempt has inserted and not committed the same jti, subject or address, and it shows nothing to others |
| EmaSteps.CommitWaitsExactly | src/vyuu_gateway/api/ema_oauth.py:384-410 | the commit of an attempt that found its user waits if and only if another has inserted the same jti |
| EmaSteps.SetUserExactly | src/vyuu_gateway/db/models.py:611-628 | an administrator's edit takes effect if and only if its address and its user are neither taken nor about to be |
| EmaSteps.OtherStepsExactly | src/vyuu_gateway/idp/sweeper.py:137-147 | a prune removes exactly the reservations that have run out |
| EmaMail.NewMail | src/vyuu_gateway/idp/service.py:386 | the address of a created user, told by characters: no upper-case letter, no white space at either end, and the grant's address up to case and outer white space |
| EmaMail.MailIsDetermined | src/vyuu_gateway/idp/service.py:386 | there is only one such address |
| EmaMail.MailTakenExactly | src/vyuu_gateway/db/models.py:611-628 | when all addresses have that form, a new user's is taken if and only if some user of the tenant has the grant's address up to case and outer white space |
| EmaMail.AnswerExactly | src/vyuu_gateway/api/ema_oauth.py:384-410 | so an uncontended attempt of an absent subject ends in a server error if and only if the jti is redeemed or there is such a user |
| EmaMail.StepCreates | src/vyuu_gateway/idp/service.py:374-396 | users change only by an administrator's edit or by the commit of an attempt that found none, which does create one, enabled, of the grant's tenant and subject, with that address |
| EmaMail.UsersAreCreated | src/vyuu_gateway/idp/service.py:374-396 | the same for every user in every run |
| EmaMail.NoTwinsEver | src/vyuu_gateway/db/models.py:611-628 | if addresses set elsewhere have that form, in every run no two users of a tenant have addresses that differ in case only |
| EmaMail.OtherFormsAreNotRecognized | src/vyuu_gateway/idp/service.py:386 | otherwise there can be: an address in another form is never recognized, and the redemption adds a twin |
| JwksCache.IndexKeys | src/vyuu_gateway/api/ema_oauth.py:163-167 | the loop builds the key table of a document |
| JwksCache.LastKeyWins | src/vyuu_gateway/api/ema_oauth.py:163-167 | a kid is found if and only if a usable element carries it, and the last such element counts |
| JwksCache.EmaJwksFetcher.Lookup | src/vyuu_gateway/api/ema_oauth.py:124-130 | answers from the cache only for a fresh entry that has the kid; changes nothing |
| JwksCache.EmaJwksFetcher.Store | src/vyuu_gateway/api/ema_oauth.py:131-136 | replaces the source's entry and no other, and answers from the new keys |
| JwksCache.AnswersAreFresh | src/vyuu_gateway/api/ema_oauth.py:118-136 | with fetches overlapping freely, every key handed out was in that source's document at most 300 s plus one fetch ago, and a kid reported missing was missing during the call |
| JwksCache.StalenessIsReached | src/vyuu_gateway/api/ema_oauth.py:118-136 | that bound is reached: a run hands out a key 300 s and one fetch after every source withdrew it |
| JwksCache.PublishedKidIsFound | src/vyuu_gateway/api/ema_oauth.py:127-136 | a kid published throughout a call is always found, however stale the cache |
| JwksCache.AnsweredFromCacheExactly | src/vyuu_gateway/api/ema_oauth.py:124-130 | a call is answered without a fetch if and only if its source was fetched at most 300 s ago with that kid |
| JwksCache.FetchServesForAWhile | src/vyuu_gateway/api/ema_oauth.py:124-136 | for 300 s after a fetch every kid of the fetched document is answered from it for every directory of that source, and no longer |
| JwksCache.FetchEndsExactly | src/vyuu_gateway/api/ema_oauth.py:118-136 | a fetch under way is ended by its own outcome only; an explicit but empty URI is never fetched |
| JwksCache.SharedSourceMixesKeys | src/vyuu_gateway/api/ema_oauth.py:124-132 | a run over a web in which one directory is handed a key that its own document never had, because another one's explicit URI is its issuer |
| JwksCache.FreshExactly | src/vyuu_gateway/api/ema_oauth.py:124-136 | every answer of every run over every web is fresh if and only if no explicit URI of one directory is the issuer of another that is looked up by issuer |
| EmaResource.ParsesExactly | src/vyuu_gateway/api/ema_oauth.py:454-472 | a resource parses to a name if and only if it is the one published for that name and the name is valid |
| EmaResource.RoundTripExactly | src/vyuu_gateway/api/ema_oauth.py:196-207 | parsing a published resource gives the name back, and nothing for a name that is empty or has a slash |
| EmaResource.NoAliases | src/vyuu_gateway/api/ema_oauth.py:196-207 | equal identifiers have equal origins, tenants and names |
| EmaResource.ResourceUnderIssuer | src/vyuu_gateway/api/ema_oauth.py:192-207 | the resource lies under the published authorization server; trailing slashes of the base URL do not matter |
| AuthCodeFlow.OriginsAgreeExactly | src/vyuu_gateway/api/oauth_authcode.py:119-155 | two printed origins are equal if and only if schemes and hosts are, up to case |
| AuthCodeFlow.IssuerAcceptedExactly | src/vyuu_gateway/api/oauth_authcode.py:166-215 | section 2.4 of RFC 9207: accepted if and only if `iss` is absent, nothing was expected, or the origins are equal |
| AuthCodeFlow.CodeSentExactly | src/vyuu_gateway/api/oauth_authcode.py:813-934 | a callback posts the code if and only if state, age, issuer, configuration and credentials all pass; the verifier it posts hashes to the challenge that went out with that state, and a state from before PKCE posts none |
| AuthCodeFlow.CodeGoesWhereConfiguredLast | src/vyuu_gateway/api/oauth_authcode.py:855-934 | with static credentials the code is posted to the token endpoint that the server's last configuration names, so to the one of the initiate call if and only if these agree; in DCR mode to the one of the client row found at the callback |
| AuthCodeFlow.ReconfiguredServerGetsCode | src/vyuu_gateway/api/oauth_authcode.py:855-934 | a server reconfigured in between is posted a code although the issuer check passed for another authorization server |
| AuthCodeFlow.TokenProvenance | src/vyuu_gateway/api/oauth_authcode.py:813-1095 | in every run each token row was obtained for its own tenant, user and server, from a code posted after every check for a state minted at most 600 s before; no two rows share a key |
| AuthCodeFlow.RowNeedsInitiate | src/vyuu_gateway/api/oauth_authcode.py:491-545 | no row is stored for a user and server for which no Connect was initiated |
| AuthCodeFlow.StepGrows | src/vyuu_gateway/api/oauth_authcode.py:218-258 | no state is minted twice, history is never lost, and a row keeps its key |
| AuthCodeFlow.StepMintsWell | src/vyuu_gateway/api/oauth_authcode.py:536-545 | every state carries the verifier behind the challenge sent with it and the origin of the URL the user was sent to |
| AuthCodeFlow.OtherRowsUnchanged | src/vyuu_gateway/api/oauth_authcode.py:962-1171 | the rows of a key change only by a write for that key, its user's disconnect, or the loss of that tenant's registration with that server |
| AuthCodeFlow.ConnectSucceedsExactly | src/vyuu_gateway/api/oauth_authcode.py:491-1095 | an undisturbed Connect stores the token if and only if the callback comes within 600 s of the whole second of minting and the issuer passes; it updates the key's row or adds one, and otherwise changes none |
| AuthCodeOutcomes.CallbackEndsExactly | src/vyuu_gateway/api/oauth_authcode.py:813-890 | when a callback ends with 400, 404, 409 or 500, and otherwise what it posts |
| AuthCodeOutcomes.CallMovesOn | src/vyuu_gateway/api/oauth_authcode.py:813-1095 | a call goes through callback, answer and write once each and stays ended |
| AuthCodeOutcomes.AnswerEndsExactly | src/vyuu_gateway/api/oauth_authcode.py:930-1035 | an answer ends the call with 409 exactly for a lost registration, goes on to the write exactly with a token, and ends with 502 otherwise |
| AuthCodeOutcomes.WriteEndsExactly | src/vyuu_gateway/api/oauth_authcode.py:1055-1095 | the write succeeds if and only if the row it read is still there, or it read none and there is none; the key's one row then holds the token |
| AuthCodeOutcomes.RemovedExactly | src/vyuu_gateway/api/oauth_authcode.py:982-1171 | a row goes if and only if its own user disconnects or the registration with that tenant's server is lost |
| AuthCodeOutcomes.NothingLeft | src/vyuu_gateway/api/oauth_authcode.py:982-1171 | after a disconnect the key has no row, after a lost registration that tenant's server has none |
| AuthCodeOutcomes.RowsAreWritten | src/vyuu_gateway/api/oauth_authcode.py:1055-1095 | in every run each row was there at the start or holds the token of a write of the run for its key |
| AuthCodeOutcomes.DisconnectHolds | src/vyuu_gateway/api/oauth_authcode.py:1164-1171 | after a disconnect the key has a row again only when a call for it has written one since |
| ConnectFallback.ConnectTable | src/vyuu_gateway/api/oauth_authcode.py:328-443 | the outcome of a Connect and the row it leaves, for every row and server |
| ConnectFallback.RunKeepsSound | src/vyuu_gateway/api/oauth_authcode.py:328-988 | whatever steps have run, overlapping or not, the row they leave is one the following results cover |
| ConnectFallback.NoTwoRefusalsInARow | src/vyuu_gateway/api/oauth_authcode.py:954-988 | two Connects in a row never both end in a CIMD refusal, on any server and with any evictions in between |
| ConnectFallback.FailureLowersRank | src/vyuu_gateway/api/oauth_authcode.py:360-443 | a failed Connect brings the row nearer to a working registration |
| ConnectFallback.FallbackTerminates | src/vyuu_gateway/api/oauth_authcode.py:962-974 | the documented fallback: from every row that steps can leave, once as many Connects have run as the rank says every further one succeeds |
| ConnectFallback.ThirdConnectSucceeds | src/vyuu_gateway/api/oauth_authcode.py:962-974 | the third Connect at the latest succeeds, and so does every later one |
| ConnectFallback.FailedRegistrationKeepsMarker | src/vyuu_gateway/api/oauth_authcode.py:361-407 | a registration that fails keeps the marker |
| ConnectFallback.MarkerSurvivesExactly | src/vyuu_gateway/api/oauth_authcode.py:887-988 | for every interleaving of two Connects that both start before the first reply, from no row or a CIMD row and with any evictions in between: the marker survives if and only if both callbacks read the row before the first refusal was recorded; who is told what |
| ConnectFallback.OverlapCanStarve | src/vyuu_gateway/api/oauth_authcode.py:887-988 | so without non-overlap there is no termination: after any number of rounds of two Connects all of them have been refused and the next round finds things as the first one did |
| ConnectOutcomes.ConnectEndsExactly | src/vyuu_gateway/api/oauth_authcode.py:360-1027 | whatever other Connects and evictions come between its steps, a Connect succeeds if and only if the row names its own client when the browser comes back and the server knows that client when it replies; each other ending has its exact condition |
| ConnectOutcomes.ReplyChangesRow | src/vyuu_gateway/api/oauth_authcode.py:962-988 | a refused CIMD client is marked, an evicted registration is dropped, and any other ending leaves the row alone |
| ConnectOutcomes.ReplacedClientFails | src/vyuu_gateway/api/oauth_authcode.py:885-934 | a run in which a Connect is sent away with one client and posts its code as another |
| RowSecurity.AllowedWhenBound | migrations/versions/20260504_0014_idp_directories_and_admin_audit.py:132-141 | for a bound session every policy question comes down to the tenant column |
| RowSecurity.ReachWhenBound | migrations/versions/20260504_0014_idp_directories_and_admin_audit.py:132-141 | a bound session reaches all of its own matching rows and no others |
| RowSecurity.ExecIsLocal | migrations/versions/20260504_0014_idp_directories_and_admin_audit.py:227-236 | a statement of a tenant's session does and tells the same as on that tenant's rows alone, and leaves other tenants' rows alone |
| RowSecurity.AllowedWhenUnbound | migrations/versions/20260825_0019_scim_bootstrap_rls_policy.py:68-79 | an unbound session may read directories while the bootstrap flag is on, and nothing else |
| RowSecurity.ExecUnbound | migrations/versions/20260825_0019_scim_bootstrap_rls_policy.py:40-54 | no statement of an unbound session changes a row; with the flag on a select on directories does see every matching row |
| RowSecurity.UnboundSeesAndWritesNothing | migrations/versions/20260825_0019_scim_bootstrap_rls_policy.py:40-54 | a transaction of an unbound session writes nothing and sees nothing, except the directories it selects after it switched the flag on itself |
| RowSecurity.PoolStaysClean | src/vyuu_gateway/db/session.py:28-59 | neither a tenant binding nor the bootstrap flag outlives its transaction on a pooled connection |
| RowSecurity.NonInterference | migrations/versions/20260504_0014_idp_directories_and_admin_audit.py:132-236 | over whole runs a tenant's rows and everything its sessions are told are the same as when its transactions run alone on its own rows |
| RowSecurityEffects.SelectShows | migrations/versions/20260504_0014_idp_directories_and_admin_audit.py:132-141 | a bound session is shown every row of its own that the condition picks |
| RowSecurityEffects.InsertAdds | migrations/versions/20260504_0014_idp_directories_and_admin_audit.py:132-141 | its insert adds the row if and only if that is its own and the id is free |
| RowSecurityEffects.UpdateChanges | migrations/versions/20260504_0014_idp_directories_and_admin_audit.py:132-141 | its update changes all its own matching rows and no others, and fails if and only if one of them would change hands |
| RowSecurityEffects.DeleteRemoves | migrations/versions/20260504_0014_idp_directories_and_admin_audit.py:132-141 | its delete removes all its own matching rows and no others |
| RowSecurityEffects.BodyExactly | src/vyuu_gateway/db/session.py:28-59 | statements are told what they are told one after the other up to the first failure, and fail from there on |
| RowSecurityEffects.TransactionIsAtomic | src/vyuu_gateway/db/session.py:28-59 | a transaction leaves what all its statements leave if it commits and none fails, and nothing otherwise |
| RowSecurityEffects.RunsInOrder | src/vyuu_gateway/db/session.py:28-59 | transactions of a run work each on what the earlier ones left |
| RowSecurityEffects.SettingsReadBack | migrations/versions/20260825_0019_scim_bootstrap_rls_policy.py:40-79 | in every run a connection reads an empty text, not NULL, between transactions exactly when it has been bound, or given the flag, before; hence the NULLIF of the policies |
| RowSecurityInterleaved.InterleavedNonInterference | migrations/versions/20260504_0014_idp_directories_and_admin_audit.py:132-236 | the same for overlapping transactions: in every interleaving of statements a tenant's committed rows, everything its sessions are told and where they wait are the same as when they run alone |
| RowSecurityInterleaved.ObservedInOrder | src/vyuu_gateway/db/session.py:28-59 | a session is told what its steps are answered, each after all the steps before it |
| RowSecurityInterleaved.UnboundSessionIsHarmless | migrations/versions/20260825_0019_scim_bootstrap_rls_policy.py:40-79 | after any interleaved run a session bound to no tenant writes nothing and never waits, and is told nothing but the directories it selects while a flag set in this very transaction is on |
| RowSecurityInterleaved.RunKeepsGood | src/vyuu_gateway/db/session.py:28-59 | in every interleaving bound sessions have written rows of their own tenant only, and no idle connection carries a tenant or the flag |
| RowSecurityInterleaved.UninterruptedIsPerform | src/vyuu_gateway/db/session.py:28-59 | a transaction that runs without interruption does and tells what the serial model says, and leaves its connection as that says |
| RowSecurityLocks.WaitsExactly | src/vyuu_gateway/db/session.py:28-59 | a statement waits if and only if it would write a row that another open transaction has written |
| RowSecurityLocks.RunKeepsOneWriter | src/vyuu_gateway/db/session.py:28-59 | in every interleaving no row has been written by two open transactions |
| RowSecurityLocks.HeldRowsStay | src/vyuu_gateway/db/session.py:28-59 | no update is lost: whatever others do, a row that a transaction has written stays as committed until that transaction commits, and is then as it wrote it |
| SessionRegistry.InMemorySessionRegistry.CreateSession | src/vyuu_gateway/sessions/registry.py:77-78 | stores the session under its own tenant and id |
| SessionRegistry.InMemorySessionRegistry.GetSession | src/vyuu_gateway/sessions/registry.py:80-89 | finds a live session; an expired one is dropped and not found; nothing else changes |
| SessionRegistry.InMemorySessionRegistry.DeleteSession | src/vyuu_gateway/sessions/registry.py:91-92 | removes that key and no other |
| InboundMcp.IsoOrder | src/vyuu_gateway/api/inbound_mcp.py:473-478 | on dates in ISO form the string comparison is calendar order |
| InboundMcp.LessExactly | src/vyuu_gateway/api/inbound_mcp.py:473-478 | the comparison is the order by code points: the texts part where the second goes on with a greater character or just goes on |
| InboundMcp.DatedRequestIsModernExactly | src/vyuu_gateway/api/inbound_mcp.py:281-311 | a dated request is modern exactly from 2026-07-28 on; the handshake is always legacy, `server/discover` never |
| InboundMcp.ModernLeavesNoTrace | src/vyuu_gateway/api/inbound_mcp.py:497-643 | deleting all modern requests from any run leaves the same sessions, so every legacy request and delete is answered alike |
| InboundMcp.ModernCallExactly | src/vyuu_gateway/api/inbound_mcp.py:522-637 | which modern request becomes a tool call, a list, a discovery or an acknowledged notification, one if-and-only-if each: version, agreeing method header and full access, and what a call runs as |
| InboundMcp.ModernErrorsExactly | src/vyuu_gateway/api/inbound_mcp.py:522-643 | which modern request gets which error, one if-and-only-if each |
| InboundMcp.DeclaredExactly | src/vyuu_gateway/api/inbound_mcp.py:464-471 | the version a request declares is the one in `_meta`, or else the one in the header; empty ones do not count |
| InboundMcp.LegacyDispatchExactly | src/vyuu_gateway/api/inbound_mcp.py:313-366 | a legacy `tools/call` runs, and a legacy `tools/list` lists, if and only if the request names a live session of the same tenant and virtual server, in that session; when a handshake opens a session |
| InboundMcp.LegacyErrorsExactly | src/vyuu_gateway/api/inbound_mcp.py:244-366 | which legacy request gets which error, one if-and-only-if each |
| InboundMcp.OnlyExpiredEntriesGo | src/vyuu_gateway/api/inbound_mcp.py:326-366 | a legacy request outside the handshake changes nothing in the registry but that an expired entry it names goes |
| InboundMcp.IdentityConsultedExactly | src/vyuu_gateway/api/inbound_mcp.py:244-366 | the answer to a post is the same whoever calls, for exactly the requests outside the handshake and the served modern ones; legacy lists and calls are among them |
| InboundMcp.HandlePost | src/vyuu_gateway/api/inbound_mcp.py:244-366 | the endpoint answers and changes the registry as `Post` says |
| InboundMcp.HandleDelete | src/vyuu_gateway/api/inbound_mcp.py:370-441 | the endpoint answers and changes the registry as `Delete` says |
| InboundMcp.DeleteTellsNothing | src/vyuu_gateway/api/inbound_mcp.py:390-441 | the answer to a delete, exactly, does not depend on the registry; it removes exactly the named session when that is the caller's own or has expired |
| InboundMcp.SessionsAreMinted | src/vyuu_gateway/api/inbound_mcp.py:761-797 | in every run each stored session was minted by an initialize call whose bearer resolved to its principal and passed the grant check for its virtual server |
| InboundMcp.LegacyCallsAreBacked | src/vyuu_gateway/api/inbound_mcp.py:313-360 | in every run a served legacy list or call is backed by such an initialize less than the session lifetime ago |
| InboundMcp.MintStores | src/vyuu_gateway/api/inbound_mcp.py:761-797 | a session that was not there is stored by a step if and only if that step is the initialize call that mints it |
| InboundMcp.HandshakeServesForItsLifetime | src/vyuu_gateway/api/inbound_mcp.py:326-366 | whoever initializes is served in that session until the session lifetime is over, and no longer |
| InboundMcp.StepKeepsSession | src/vyuu_gateway/api/inbound_mcp.py:400-441 | one step ends a live session exactly when it is its own principal's delete |
| InboundMcp.SessionSurvives | src/vyuu_gateway/api/inbound_mcp.py:400-441 | over any run a session lives until it expires or its own principal deletes it in its own virtual server |
| InboundMcp.MintedSessionSurvives | src/vyuu_gateway/api/inbound_mcp.py:400-441 | whoever initializes keeps that session over any run until it expires or its own principal deletes it |
| InflightGate.Semaphore.Acquire | src/vyuu_gateway/api/inflight_gate.py:125 | takes a slot at once unless the semaphore is locked, and queues otherwise |
| InflightGate.Semaphore.Release | src/vyuu_gateway/api/inflight_gate.py:129 | hands the slot to a waiter or frees it |
| InflightGate.PerTenantInflightGate.SemaphoreFor | src/vyuu_gateway/api/inflight_gate.py:108-111 | one semaphore a tenant, never shared, made with the full limit |
| InflightGate.PerTenantInflightGate.Arrive | src/vyuu_gateway/api/inflight_gate.py:86-125 | a request gets a 503 if and only if its own tenant holds as many calls as the limit; the acquire never waits; free and held slots add up to the limit |
| InflightGate.PerTenantInflightGate.Depart | src/vyuu_gateway/api/inflight_gate.py:126-129 | the end of a call, however it ends, frees exactly its tenant's slot |
| InflightGate.MakeGate | src/vyuu_gateway/api/inflight_gate.py:70-84 | a limit below one is refused |
| InflightGate.GatedTenantExactly | src/vyuu_gateway/api/inflight_gate.py:89-150 | which tenant a request counts against: none on the two health paths and other protocols; the tenant in an inbound path, whatever the headers say; else the first tenant header |
| InflightGate.McpPathExactly | src/vyuu_gateway/api/inflight_gate.py:45-47 | the paths that match are `/v/`, 36 hexadecimal digits or dashes, a non-empty segment and `/mcp`, with at most one slash and one newline after it |
| InflightGate.InflightNeverExceeds | src/vyuu_gateway/api/inflight_gate.py:112-129 | in every run no tenant holds more than the limit |
| InflightGate.BurstFillsTheLimit | src/vyuu_gateway/api/inflight_gate.py:112-129 | of a burst of one tenant exactly the first requests up to the limit are admitted |
| InflightGate.FreedSlotIsUsed | src/vyuu_gateway/api/inflight_gate.py:126-129 | at the limit the end of one call lets exactly one more in |
| InflightGate.TenantsAreIndependent | src/vyuu_gateway/api/inflight_gate.py:86-129 | a tenant's requests are decided as if all other requests had never arrived |
| InflightGate.DecidedInOrder | src/vyuu_gateway/api/inflight_gate.py:86-125 | every request is decided on the calls that the events before it have left running |
| NhiMap.BuildMap | src/vyuu_gateway/api/nhi_map.py:271-416 | the loop over events builds the graph `Walk` |
| NhiMap.WalkCollects | src/vyuu_gateway/api/nhi_map.py:288-406 | the graph has exactly the nodes and edges that its events mention |
| NhiMap.EdgesAreLayered | src/vyuu_gateway/api/nhi_map.py:354-406 | both ends of an edge are nodes, and edges lead from users to applications to servers to tools or risk classes; identifiers of different kinds never collide |
| NhiMap.WeightIsCount | src/vyuu_gateway/api/nhi_map.py:284-286 | the weight in any class of edges is the number of times the events mention it |
| NhiMap.UserWeight | src/vyuu_gateway/api/nhi_map.py:353-354 | the weight from users to applications is the number of events kept |
| NhiMap.AppWeight | src/vyuu_gateway/api/nhi_map.py:355-356 | the weight out of an application is the number of its kept events with an upstream |
| NhiMap.ServerConserves | src/vyuu_gateway/api/nhi_map.py:355-406 | a server passes as much on to tools as to risk classes and never more than it receives; both are equal if and only if every kept call names a tool |
| NhiMap.OrderDoesNotMatter | src/vyuu_gateway/api/nhi_map.py:288-406 | weights, edges and node identifiers do not depend on the order of events |
| NhiMap.FirstMentionWins | src/vyuu_gateway/api/nhi_map.py:275-282 | a node is never replaced, so the first event to mention it decides label and detail |
| NhiMap.NodesReferencedExactly | src/vyuu_gateway/api/nhi_map.py:104-106 | every node is referred to by an edge if and only if every principal has an event that survives the filter |
| NhiMap.ToolIdsDiffer | src/vyuu_gateway/api/nhi_map.py:368 | tools of the same name on different servers have different nodes |
| NhiNodes.ClientKindExactly | src/vyuu_gateway/api/nhi_map.py:136-160 | an attested client id decides first, then a known user agent; only the rest is unknown and not sanctioned |
| NhiNodes.UnknownName | src/vyuu_gateway/api/nhi_map.py:158-160 | the name of an unknown client has at most 48 characters, without blanks and upper-case letters |
| NhiNodes.NodeIsFirstMention | src/vyuu_gateway/api/nhi_map.py:275-416 | each node is what the first event to mention it makes of it; its column, and for servers, tools and risk classes the caption and detail, go with its identifier |
| NhiNodes.UserShows | src/vyuu_gateway/api/nhi_map.py:288-318 | column, kind and caption of a user come from its first event, the caption from the e-mail table when that has one |
| NhiNodes.RiskEdgesExactly | src/vyuu_gateway/api/nhi_map.py:395-406 | a server has an edge to a risk class if and only if a kept call of one of its tools has that risk, "unknown" when none is known |
| AdminAudit.PrefixMatchExactly | src/vyuu_gateway/api/admin_audit.py:81-84 | `action_prefix` is a starts-with match on all actions if and only if it has no `%`, `_` or backslash |
| AdminAudit.SpecialEnds | src/vyuu_gateway/api/admin_audit.py:92-93 | a prefix that ends in a backslash matches one action only, and one that ends in an underscore asks for one more character of any kind |
| AdminAudit.Where | src/vyuu_gateway/api/admin_audit.py:87-97 | the conditions put together one by one hold of a row if and only if the row meets every filter given |
| AdminAudit.ListAdminAudit | src/vyuu_gateway/api/admin_audit.py:69-122 | the endpoint returns the page at the offset; the count is there on the first page only, and agrees with the rows although both are queried separately |
| AdminAudit.MatchingExactly | src/vyuu_gateway/api/admin_audit.py:87-97 | the rows that match are the wanted ones, each as often as in the table |
| AdminAudit.FiltersCompose | src/vyuu_gateway/api/admin_audit.py:78-97 | filters are composed by AND: each narrows what the others leave by its own field, and without any the whole log of the tenant matches |
| AdminAudit.MatchingNewestFirst | src/vyuu_gateway/api/admin_audit.py:99 | they are in order, newest first |
| AdminAudit.PagingIsComplete | src/vyuu_gateway/api/admin_audit.py:99-122 | following `next_offset` from 0 visits every matching row once and in order, in floor(n / limit) + 1 pages; the first announces n, and the last is empty if and only if the limit divides n |
| AdminAudit.NewRowsRepeatExactly | src/vyuu_gateway/api/admin_audit.py:12-15 | on a log that has grown by k rows between two requests the next page repeats a row if and only if 1 <= k < next offset + limit, and which rows |
| AdminAuditTies.CompleteInAnyOrderExactly | src/vyuu_gateway/api/admin_audit.py:99-122 | following `next_offset` shows every row exactly once, in whatever order each request returns rows of equal timestamp, if and only if no tie lies across a page boundary |
| AdminAuditTies.SameUpTo | src/vyuu_gateway/api/admin_audit.py:99 | up to a point where the timestamp drops every order by timestamp holds the same rows |

## Left out

- Redaction patterns: a pattern is any substitution with a count; the regular expressions and their order are not modelled.
- Lone surrogates in text: a Dafny `char` is a Unicode scalar value, while the source's strict encoding would raise on them.
- PayloadLimits.CapCallToolResult: sizes are the ones that the code measures; other wire fields and embedded resources count 0 there.
- The length of the JSON text of structured content is an arbitrary function; its error fallback to 0 is one such function.
- Rebuilding a result through the SDK's models is taken to change nothing but the fields named; returning the very same object is not distinguished from returning an equal one.
- Signature, audience, issuer, resource and allowlist checks of the EMA endpoint are given: an attempt that fails one is aborted. The minting of the access token is not modelled.
- EmaRedemption.RedeemedAtMostOnce: a grant is identified by tenant, jti and exp, and the clock of decoder and sweeper is one and monotone. A flush is one step: it waits for all rows that it collides with, and then inserts both rows or neither.
- JwksCache.AnswersAreFresh: assumes that no directory's explicit URI is another one's issuer string; `FreshExactly` shows that this is exactly what it takes.
- AuthCodeFlow.CodeGoesWhereConfiguredLast: in DCR mode the token endpoint in the client row is an input of the callback step; the row's own life is modelled in `ConnectFallback`.
- Signatures of states and S256 are ideal: only a minted state verifies, and a challenge determines its verifier. Random nonces and identifiers never repeat.
- AuthCodeFlow.TokenProvenance: splitting a URL is given; token refresh and its deletions (`upstream/oauth_authcode.py`) are not steps, nor are sealing of tokens, refresh tokens, scopes and expiry times; deletion of users and servers is left out. Database rows are modelled on values, since the flow is a protocol of separate transactions.
- ConnectFallback.MarkerSurvivesExactly: an initiate call is one step, while the source awaits discovery or registration between reading the client row and committing it; two overlapping first calls can then collide on the primary key.
- ConnectFallback.FallbackTerminates: Connects do not overlap; a refused CIMD client shows at the token endpoint; the registration stays known between the steps of one Connect; the token-refresh path, which drops the client row whatever its mechanism, does not run. Servers with static credentials have no fallback and are left out.
- RowSecurity.NonInterference: transactions run one after another (`RowSecurityInterleaved` lifts this).
- RowSecurityInterleaved.InterleavedNonInterference: generated row ids never collide across tenants; foreign-key cascades and sessions with BYPASSRLS are left out. A statement that has waited runs again as a whole on what is committed by then, and a deadlock is a rollback at any time.
- InboundMcp.SessionsAreMinted: requests are atomic, as they are with the in-memory registry; the Redis registry is not modelled.
- The tool call itself, the contents of JSON-RPC results, request ids and audit events of the inbound endpoint.
- Reading a UUID text in the inflight gate is an arbitrary partial function; the body of the 503 is not modelled.
- Order in which the graph lists nodes and edges; label tables, client patterns and the agent heuristic are given; case folding and white space are those of ASCII.
- AdminAudit.PagingIsComplete: the table does not change between requests and rows with equal timestamps keep their order; `AdminAuditTies` drops the second assumption.
- Dashboards, health, posture, diagnostics, user interface, settings and wiring: mostly formatting and counting.
