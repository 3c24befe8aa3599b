# Caladon: verified models

Caladon is a confidential-chat stack: a client checks an enclave's quote, agrees on a session key
with it through an untrusted relay, delivers a working-memory key (WMK), and chats under that key;
around this stand a transparency log, a spend guard over several inference providers, a transcript
ratchet, file-backed stores and a handful of codecs and parsers. This project models the parts of it
whose behaviour is decided by code, and proves what that code promises.

`dafny verify dfyconfig.toml` checks everything. Cryptography is symbolic throughout: SHA-256, HKDF,
X25519, XChaCha20-Poly1305, quotes and signatures are free terms or parameters.

| file | component |
|---|---|
| `Merkle.dfy` | the inclusion check of the transparency log, against RFC 6962 |
| `SpendRuns.dfy`, `Policy.dfy`, `InferenceClient.dfy` | the spend guard as interleaved lock sections, provider choice, the failover client |
| `Symbolic.dfy`, `Sessions.dfy` | key agreement, the context binding, the enclave's per-account sessions |
| `Attestation.dfy`, `Channel.dfy`, `ChannelRuns.dfy` | the quote decision, the client's handshake and chat, and any number of clients and enclaves around a hostile relay |
| `Ratchet.dfy` | the transcript ratchet and its key ids |
| `Bits.dfy`, `SeedCodec.dfy`, `Base64.dfy`, `SeedAuth.dfy` | bit buffers in 32-bit words, the seed transcription codec, base64, the signed header |
| `StoreFiles.dfy`, `Transcripts.dfy`, `Accounts.dfy` | stores that survive failing flushes, crashes and restarts |
| `AgentIds.dfy`, `Fences.dfy`, `Der.dfy`, `Fmspc.dfy` | ephemeral agent ids, fenced code blocks, the DER walk for the FMSPC |
| `Calculator.dfy`, `ToolLoop.dfy`, `Padding.dfy` | the calculator tool, the bounded tool loop, size-hiding padding |
| `Wrappers.dfy`, `Powers.dfy`, `Text.dfy` | shared types, powers of two, decimal text and joined fields |

What the proofs found, where the code and its documentation part ways (the models follow the code):

- The inclusion check never reads the tree size, so it rejects some genuine proofs; the smallest is
  that of the last of three entries. `InclusionExact` says exactly which (index, size) pairs it gets right.
- The spend cap is called a hard ceiling. With k calls in flight spending can reach
  cap + (k-1) times the largest estimate and no more; it is hard only for one call at a time. A call
  that finds no model for its tier, or no completion function, keeps its reservation forever.
- A failed registration is answered as successful when repeated, without being written. Such an answer
  survives a restart exactly when some registration answered as created wrote the account meanwhile;
  otherwise the account can be bound to another key.
- The seed reader takes the low byte of a character, so every seed also has an accepted text without any
  ASCII character; accepted text is canonical exactly when it is ASCII.
- An agent id does not parse back for every endpoint, model and sender. `RoundTripIff` gives the exact
  condition.
- The compose-hash and workload pins do not tie the workload to the quote: the pinned measurement leaves
  rtmr3 out, and the two values are read from `info`, which no quote covers. The channel keeps its secrets
  exactly under `strict` with pins for which every TD that can report a pinned measurement runs the
  enclave's code (or for which nothing can pass).
- Policies other than `strict` give the WMK to a relay that answers with its own key.

## Model

| member | source | states |
|---|---|---|
| Merkle.VerifyInclusion | infra/transparency/rekor_api.py:80-91 | The loop over siblings computes the parity fold that the lemmas below are about. |
| Merkle.InclusionExact | infra/transparency/rekor_api.py:80-91 | For every log and index, folding the RFC 6962 audit path gives the tree root if and only if, where the paths of the entry and of the last entry meet, the common index is 0 or 2^j - 1. |
| Merkle.ParityWalksFamilies | infra/transparency/rekor_api.py:80-91 | The condition holds for every index of a full tree and for every index below the largest power of two under the size. |
| Merkle.LastOfThreeRejected | infra/transparency/rekor_api.py:80-91 | The genuine proof of the last of any three entries does not give the root. |
| Merkle.WrongNodeNeverRecovers | infra/transparency/rekor_api.py:80-91 | An audit path folded from any node but its own never gives the root, whatever index is claimed. |
| Merkle.OnlyLoggedBodies | infra/transparency/rekor_api.py:80-91 | Whatever index and siblings are supplied, a body that reaches the root is an entry of the log. |
| Merkle.FullTreePosition | infra/transparency/rekor_api.py:80-91 | In a log of 2^h entries an accepted path has length h and the body is the entry at the index modulo the size. |
| Merkle.RootDeterminesProof | infra/transparency/rekor_api.py:80-91 | For one index and path length, equal roots force equal leaves and equal siblings. |
| Merkle.LevelRootIsMth | infra/transparency/rekor_api.py:80-91 | Pairing neighbours level by level computes the recursive tree hash of RFC 6962. |
| Merkle.LevelPathIsAuditPath | infra/transparency/rekor_api.py:80-91 | The siblings met level by level are the recursive audit path of RFC 6962. |
| Merkle.CmdVerify | infra/transparency/rekor_api.py:94-136 | For every exit, exactly when it is taken, over the proof, the tree head and the two digests: no root, another root recomputed, another root in a head of the same size, another record, or none of these. |
| Merkle.AcceptedIsLogged | infra/transparency/rekor_api.py:94-136 | Acceptance under a log's root means the log has an entry for the local record. |
| Merkle.AcceptedUnderHead | infra/transparency/rekor_api.py:94-136 | Acceptance under a tree head of a log, for a proof of that size and whatever root the proof carries, means the body is an entry and logs the local record. |
| Merkle.HonestAnswer | infra/transparency/rekor_api.py:94-136 | An honest log's answer is accepted exactly when the parity walk handles its index and size, else reported as a root mismatch. |
| SpendRuns.LedgerHolds | swifty_inference/policy.py:82-106 | In every interleaving of calls with non-negative amounts, spent is the initial amount plus unreleased reservations plus recorded costs. |
| SpendRuns.FloorNeverBites | swifty_inference/policy.py:102-106 | After any such run, a release subtracts exactly the reservation: the floor at 0 is never reached. |
| SpendRuns.CapBound | swifty_inference/policy.py:92-106 | With at most k calls in flight, estimates at most E and costs within estimates, spent never exceeds cap + (k-1) E (the product written as a repeated sum, `Times`); for k = 1 the cap is hard. |
| SpendRuns.CapBoundIsTight | swifty_inference/client.py:84-108 | For every k some allowed run of k calls reaches that bound exactly, because release and record are separate lock sections. |
| Policy.SelectTier | swifty_inference/policy.py:23-31 | The frontier tier exactly when some trigger is one that escalates; the trivial tier exactly when none is and "trivial" is a trigger. |
| Policy.ChooseProvider | swifty_inference/policy.py:57-67 | The first provider of the regime that is available and, unless self-hosted, has a verified receipt; none only if there is none. |
| Policy.SpendGuard.Reserve | swifty_inference/policy.py:92-96 | Debits the estimate exactly when not refused, and is then within the cap. |
| Policy.SpendGuard.Record | swifty_inference/policy.py:98-100 | Adds the amount, with no check. |
| Policy.SpendGuard.Release | swifty_inference/policy.py:102-106 | Subtracts the amount, not below 0. |
| InferenceClients.InferenceClient.Complete | swifty_inference/client.py:73-108 | A call's answer is the first candidate whose answer passes the receipt gate, and its effect on the guard is a run of lock sections of the concurrent model. |
| InferenceClients.SectionsRun | swifty_inference/client.py:84-108 | What those lock sections leave spent, for every way a call can end. |
| InferenceClients.FailureRefunds | swifty_inference/client.py:84-108 | A failed call leaves spent as it was if and only if it did not fail between the reservation and the `try` (missing model or completion function) with a non-zero estimate. |
| InferenceClients.CandidatesAre | swifty_inference/client.py:89-91 | The candidates are the available providers of the regime in their configured order: each is tried at the turn that counts the ones configured before it. |
| InferenceClients.GateHolds | swifty_inference/client.py:93-120 | The served answer is that of the first configured provider, in configured order, whose answer came and whose receipt verified unless self-hosted; no earlier usable one passed. The model is that of the tier the triggers select. |
| InferenceClients.OtherwiseIff | swifty_inference/client.py:89-105 | For every other ending, exactly when it happens: no model for the tier, no completion function, no configured provider that passes, or a first one that passes with a failing cost. |
| Symbolic.KeyAgreement | caladon-core/src/session.rs:51-89 | Client and enclave derive the same session key, each from its own private and the other's public key. |
| Symbolic.DeriveSessionKey | caladon-core/src/session.rs:57-89 | No session key is derived exactly when the other side's public key is a low-order point. |
| Symbolic.AadReads | caladon-core/src/envelope.rs:32-38 | Which text stands where in the context: account, purpose and version, a newline between them. |
| Symbolic.AadInjective | caladon-core/src/envelope.rs:34-38 | The newline-joined context determines account, purpose and version when accounts (or purposes) hold no newline. |
| Symbolic.ContextUniqueIff | caladon-core/src/envelope.rs:32-38 | No other account, purpose and version have the same joined context if and only if neither the account nor the purpose holds a newline. |
| Sessions.SessionManager.Establish | gateway/app/session.py:112-123 | Success, exactly when the key is derivable and the sealed WMK opens, sets that account's session alone; failure changes nothing. |
| Sessions.SessionManager.OpenFor | gateway/app/session.py:134-144 | Opens under the account's own session key with the context derived anew; a missing session, a foreign context and a bad tag are told apart. |
| Sessions.SessionManager.SealFor | gateway/app/session.py:146-153 | Seals under the account's own session key and context. |
| Sessions.SessionManager.End | gateway/app/session.py:155-157 | Drops that account's session alone. |
| Sessions.LatestEstablish | gateway/app/session.py:112-157 | After any run of operations, an account's session is what its latest successful, un-ended establish set up. |
| Sessions.OpenExact | gateway/app/session.py:59-67 | After any run, a blob opens to p for an account if and only if it is p sealed under the key of that latest establish with this account, purpose and version. |
| Sessions.WmkExact | gateway/app/session.py:112-128 | After any run, the WMK held for an account is w if and only if its latest un-ended establish delivered w sealed for this account under the key derived there. |
| Sessions.NoCrossOpening | gateway/app/session.py:59-76 | What was sealed for one key, account, purpose and version opens for no other. |
| Sessions.Isolation | gateway/app/session.py:112-157 | An account's session depends on its own operations only. |
| Attestation.ReasonsAreOrdered | caladon-core/src/attestation/mod.rs:99-214 | For every reason, exactly when it is given: what failed and which earlier checks had passed; ok means all passed; the measurement flag means the pin matched. |
| Attestation.OkBindsBothKeys | caladon-core/src/attestation/mod.rs:182-203 | An accepted quote is accepted for exactly one client key and one session key; any other pair fails with the binding reason. |
| Attestation.HonestEvidencePasses | gateway/app/attestation.py:47-76 | The evidence of a pinned enclave carries its session key and passes the client's check for every client key. |
| Attestation.EvidenceIff | gateway/app/attestation.py:47-76 | Whatever the guest agent answers, evidence is returned if and only if its bundle names this challenge, and which evidence. |
| Channel.CaladonClient.GetAttestation | web-client/caladon/src/client.ts:257-267 | Only evidence for this client's own challenge is taken. |
| Channel.CaladonClient.VerifyAttestation | web-client/caladon/src/client.ts:274-319 | The policy table: skip checks nothing; otherwise quote, pins and session key must be there; strict refuses every verdict but ok. |
| Channel.ChecksIff | web-client/caladon/src/client.ts:274-319 | For each refusal and each acceptance of the policy table, exactly when it is given. |
| Channel.CaladonClient.EstablishSession | web-client/caladon/src/client.ts:334-351 | What is posted and when, and that the session key is kept only after a 200 answer. |
| Channel.CaladonClient.Handshake | web-client/caladon/src/client.ts:409-421 | The whole handshake's posts, result and new client state, for any answers of the shim. |
| Channel.PostsIff | web-client/caladon/src/client.ts:334-421 | For any answers of the shim, exactly when the sealed WMK is posted and when the handshake succeeds, and that the post goes out under the key the client keeps. |
| Channel.CaladonClient.SealPrompt | web-client/caladon/src/client.ts:358-366 | A prompt leaves only sealed under the session key, and only with an identity and a session. |
| Channel.CaladonClient.OpenDeltas | web-client/caladon/src/client.ts:383-398 | For any lines of the relay: failure exactly when some data line that follows a token or reasoning event is no sealing under this key, account, purpose and its own version; otherwise the k-th delta is the event and text of the k-th such line. |
| Channel.StreamRoundTrip | web-client/caladon/src/client.ts:383-398 | For every reply stream sealed by the enclave the client recovers exactly the deltas it shows, in order. |
| Channel.StrictPostsOnlyAttested | web-client/caladon/src/client.ts:274-351 | Under strict, the sealed WMK is posted only after an ok verdict on a quote carrying the hashes of this client key and of the session key that SK is derived from. |
| ChannelRuns.CookedIsSafe | web-client/caladon/src/client.ts:409-421 | The relay's computations never turn safe terms into a secret. |
| ChannelRuns.InvHolds | web-client/caladon/src/client.ts:409-421 | The channel invariant holds after every run of clients, hostile relay and enclaves. |
| ChannelRuns.Secrecy | web-client/caladon/src/client.ts:274-351 | In a guarded world (strict, and only measurements pinned that no TD but one running the enclave's code can report) the relay computes, in every run, no WMK, no prompt, and no client's session key. |
| ChannelRuns.SecrecyIff | caladon-core/src/attestation/mod.rs:87-202 | These secrets are kept in every run if and only if the world is guarded, a condition on the policy and the pins alone. |
| ChannelRuns.PinnedImageLeaks | caladon-core/src/attestation/mod.rs:158-180 | Under any policy, a relay whose own TD can report a pinned measurement obtains the WMK whatever compose hashes and workloads are pinned, because `info` is its to write. |
| ChannelRuns.DeliveryAgrees | gateway/app/session.py:112-123 | A delivered handshake is keyed to one genuine enclave, which derives the same session key from the post and recovers exactly that WMK. |
| ChannelRuns.SessionsAreGenuine | gateway/app/session.py:112-123 | Every session an enclave keeps under a client's key holds that client's session key, WMK and account. |
| ChannelRuns.PostsAreKept | web-client/caladon/src/client.ts:334-351 | What a delivered client posted is its own identity's WMK sealed under its own key. |
| ChannelRuns.HonestRelayDelivers | web-client/caladon/src/client.ts:409-421 | With a relay that forwards faithfully, some run ends with the enclave holding the client's WMK under the client's key. |
| ChannelRuns.OtherPoliciesLeak | web-client/caladon/src/client.ts:64-71 | Under observe or skip some run gives the relay the WMK. |
| Ratchet.MessageKeyAt | caladon-core/src/ratchet.rs:84-95 | Replay from the root gives the message key of the step; negative steps are refused. |
| Ratchet.TranscriptRatchet.Advance | caladon-core/src/ratchet.rs:116-123 | The n-th advance returns exactly n and the message key that replay gives. |
| Ratchet.ForwardSecrecy | caladon-core/src/ratchet.rs:97-123 | From the chain key after n advances exactly the message keys of steps n and later can be derived, and no message key yields another. |
| Ratchet.DerivableIffAncestor | caladon-core/src/ratchet.rs:84-123 | A key can be derived from a held key, by labels in any number and order, exactly when the held key is the key itself or one it was made from. |
| Ratchet.DeviceIndependence | caladon-core/src/ratchet.rs:37-46 | No labels applied to a device's chain give the shared root, its keys, or another device's keys. |
| Ratchet.KidRoundTrip | caladon-core/src/ratchet.rs:48-77 | Every key id printed for a step of at most 2^63 - 1 parses back to its device and step. |
| Ratchet.KidAcceptedIff | caladon-core/src/ratchet.rs:63-77 | A text is accepted with a device and a step if and only if it is `t`, the device with its separators if there is one, a colon, and digits that read as the step; any other text is a bad key id. |
| Ratchet.RefusedIff | caladon-core/src/ratchet.rs:28-61 | A device root is refused exactly for an empty device or one with a colon or slash, a key id exactly for that or a negative step. |
| SeedCodec.AlphabetTable | caladon-core/src/seed_codec.rs:36-46 | The symbol function used in proofs is the alphabet string. |
| SeedCodec.Base32Encode | caladon-core/src/seed_codec.rs:31-47 | The loop over the unmasked 32-bit buffer writes exactly the bits of the input in five-bit symbols, zero-padded. |
| SeedCodec.Base32Decode | caladon-core/src/seed_codec.rs:51-79 | The loop reads exactly the whole bytes of the symbols' bits and refuses bad characters and non-zero pad bits. |
| SeedCodec.Base32RoundTrip | caladon-core/src/seed_codec.rs:31-79 | Decoding inverts encoding on every byte string of any length, despite the bits the buffer drops. |
| SeedCodec.Encode | caladon-core/src/seed_codec.rs:82-95 | Seeds of 32 bytes, with checksum, in groups of four; any other length is refused. |
| SeedCodec.GroupShape | caladon-core/src/seed_codec.rs:82-95 | In a printed seed every fifth character is a dash and the others are the symbols in order. |
| SeedCodec.Decode | caladon-core/src/seed_codec.rs:99-114 | Cleaning, symbols, length and checksum, each with its own error, in this order. |
| SeedCodec.CleanKeeps | caladon-core/src/seed_codec.rs:100-103 | Cleaning keeps, in order, exactly the characters that are neither whitespace nor a dash. |
| SeedCodec.SeedRoundTrip | caladon-core/src/seed_codec.rs:82-114 | A printed seed reads back as itself. |
| SeedCodec.AcceptedExactly | caladon-core/src/seed_codec.rs:49-114 | An ASCII text is accepted with a seed if and only if, cleaned, upper-cased and with I, L, O read as digits, it is that seed's encoding: 55 symbols, zero pad bits. |
| SeedCodec.NonAsciiSymbol | caladon-core/src/seed_codec.rs:62-65 | Every symbol has a character outside ASCII that reads as it. |
| SeedCodec.NonAsciiAccepted | caladon-core/src/seed_codec.rs:51-114 | Every seed has an accepted text without a single ASCII character. |
| SeedCodec.CanonicalIffAscii | caladon-core/src/seed_codec.rs:62-65 | An accepted text is canonical exactly when its cleaned text is ASCII. |
| Base64.AlphabetTable | web-client/caladon/src/bytes.ts:6-6 | The symbol function used in proofs is the alphabet string. |
| Base64.ToBase64 | web-client/caladon/src/bytes.ts:17-27 | The loop over groups of three writes the six-bit symbols of the input's bits and the padding. |
| Base64.FromBase64 | web-client/caladon/src/bytes.ts:38-51 | For every text the loop over a signed 32-bit word fills the whole output with the whole bytes of the bits read; a character outside the alphabet reads as ones and sets the pending bits too. |
| Base64.StreamOfValues | web-client/caladon/src/bytes.ts:38-51 | On text of the alphabet the bits read are those of its symbols. |
| Base64.RoundTrip | web-client/caladon/src/bytes.ts:17-51 | Decoding inverts encoding on every byte string. |
| Base64.Shape | web-client/caladon/src/bytes.ts:17-27 | The text has length 4 ceil(n/3), with `=` in exactly the last 0, 1 or 2 places. |
| SeedAuth.CanonicalInjective | caladon-core/src/seed_auth.rs:34-38 | For valid accounts and newline-free methods the signed message determines all four fields, the method up to case. |
| SeedAuth.MessageUniqueIff | caladon-core/src/seed_auth.rs:34-38 | For a valid account the message determines the request among newline-free methods if and only if its method has no newline, and among all requests if and only if, besides, no newline of the path has only upper-case text before it. |
| SeedAuth.ParseAuthHeader | caladon-core/src/seed_auth.rs:75-104 | The loop over words keeps the last value of each key; which errors arise when. |
| SeedAuth.ParsedIff | caladon-core/src/seed_auth.rs:75-104 | A header is accepted as a request if and only if it has the prefix, a valid account id, and says these three fields last; the account-id error arises exactly when all but that id is right. |
| SeedAuth.CanonicalReads | caladon-core/src/seed_auth.rs:34-38 | Which text stands where in the signed message: account, timestamp, upper-cased method and path, a newline between them. |
| SeedAuth.HeaderRoundTrip | caladon-core/src/seed_auth.rs:51-104 | Parsing a built header gives back the account, the timestamp and the signature bytes. |
| StoreFiles.StoreFile.Flush | gateway/app/transcript.py:48-52 | A flush replaces the file by the whole value or leaves it as it was. |
| Transcripts.TranscriptStore.Append | gateway/app/transcript.py:54-64 | The new memory and file for every fault, and which error is raised. |
| Transcripts.TranscriptStore.List | gateway/app/transcript.py:66-75 | The tail of the tenant's own rows; bad accounts and negative limits are refused. |
| Transcripts.TailIsSuffix | gateway/app/transcript.py:72-75 | The tail is the newest rows in order, as many as there are up to the limit; limit 0 gives none. |
| Transcripts.DurableIsPrefix | gateway/app/transcript.py:38-64 | Across any failing flushes and restarts the durable rows of each account are a prefix of those in memory and only grow. |
| Transcripts.AppendSurvives | gateway/app/transcript.py:54-64 | A row whose append returned keeps its place through every later run. |
| Transcripts.RaisedAppend | gateway/app/transcript.py:54-64 | An append that raised is visible in memory and lost by a restart. |
| Transcripts.DurableIsLastFlush | gateway/app/transcript.py:48-64 | What is on disk after any run is the whole memory at its last successful flush; nothing if there was none. |
| Transcripts.TenantsAreSeparate | gateway/app/transcript.py:54-75 | In every run an account's rows, in memory and on disk, depend on its own appends, the restarts and when others' appends flushed, and on nothing else. |
| Accounts.AccountRegistry.Register | gateway/app/accounts.py:62-85 | A registration answered created records the account, both key texts and the agent of the request; memory and file change for a new account only, and the file only if the flush succeeds. |
| Accounts.AnswersIff | gateway/app/accounts.py:62-85 | For every refusal and both kinds of success, exactly which request, state and fault give it. |
| Accounts.HeldIsRegistered | gateway/app/accounts.py:47-85 | After any run, an account held in memory, and its copy on disk, is the record of the registration of that run that put it there. |
| Accounts.DurableIsKept | gateway/app/accounts.py:47-85 | No run loses or changes a durable account. |
| Accounts.CreatedSurvives | gateway/app/accounts.py:62-85 | A registration answered created=True survives every later run with its key, and another key is refused ever after. |
| Accounts.DurableIffFlushed | gateway/app/accounts.py:53-85 | After any run an account is on disk if and only if some registration of that run was answered created while the account was in memory. |
| Accounts.AnswerSurvivesIffFlushed | gateway/app/accounts.py:77-85 | An answered registration, created or repeated, survives everything that can follow if and only if such a flush happened in its history; otherwise, and only then, the account can later be bound to another key. |
| AgentIds.RoundTripIff | web-client/overlay/packages/data-provider/src/parsers.ts:485-561 | For all endpoints, models, senders and integer indices, parsing the encoded id gives them back if and only if Encodable holds, a condition on underscores, colons and leading numbers. |
| AgentIds.EncodableRoundTrips | web-client/overlay/packages/data-provider/src/parsers.ts:485-561 | The direction callers need: encodable parts are recovered. |
| AgentIds.RoundTripsOnlyIfEncodable | web-client/overlay/packages/data-provider/src/parsers.ts:527-561 | The other direction: parts that are recovered were encodable. |
| AgentIds.ParsedNeedsPair | web-client/overlay/packages/data-provider/src/parsers.ts:527-561 | Only a text with a double underscore parses, and never to an empty endpoint. |
| AgentIds.JoinOfSplit | web-client/overlay/packages/data-provider/src/parsers.ts:553-559 | Splitting at double underscores and joining with colons is the left-to-right replacement used for senders. |
| AgentIds.ParsePrintedInt | web-client/overlay/packages/data-provider/src/parsers.ts:534-540 | A printed index parses back to itself. |
| AgentIds.StripAppendIff | web-client/overlay/packages/data-provider/src/parsers.ts:580-594 | Stripping an appended index gives back every id, exactly for natural indices. |
| Fences.LongestLeadingBacktickRun | web-client/overlay/client/src/utils/artifacts.ts:534-546 | The loop over the matches finds the longest run of backticks that starts a line after at most three spaces. |
| Fences.WrapAsFencedCodeBlock | web-client/overlay/client/src/utils/artifacts.ts:565-573 | The text is fence, info string, source less one trailing line feed, and a fence longer than that run; for a plain info string the reader recovers the source from what is returned. |
| Fences.ReaderRecoversSource | web-client/overlay/client/src/utils/artifacts.ts:534-573 | For every source and every info string without backticks or line endings, a reader following section 4.5 of CommonMark 0.31 takes the whole text as one closed block with that info string, trimmed of spaces and tabs, and exactly the source's lines (one blank line for the empty source). |
| Fences.NoLineCloses | web-client/overlay/client/src/utils/artifacts.ts:534-573 | No line of the source closes the fence. |
| Der.ReadTlv | web-client/caladon/src/collateral.ts:101-111 | The index loop computes the tag, content start and 32-bit length the lemmas are about. |
| Der.ReadsDefiniteLength | web-client/caladon/src/collateral.ts:101-111 | After any definite-form length (section 8.1.3 of X.690) the content starts right behind it and the length read is the encoded one truncated to a signed 32-bit word. |
| Der.LengthReadBackIff | web-client/caladon/src/collateral.ts:101-111 | The encoded length is read back if and only if it is below 2^31. |
| Der.EncodeLengthIsDefinite | web-client/caladon/src/collateral.ts:101-111 | Every length below 2^31 has a definite form of this kind. |
| Der.ArcStack | web-client/caladon/src/collateral.ts:119-125 | The inner loop writes one arc in seven-bit groups, from the back. |
| Der.OidToDer | web-client/caladon/src/collateral.ts:114-128 | The loop writes the first octet and then every later arc. |
| Der.OidDecodesIff | web-client/caladon/src/collateral.ts:114-128 | Decoding by section 8.19 of X.690 gives back the object identifier if and only if its first two arcs combine below 128 and every later arc is below 2^31. |
| Der.OidsDecode | web-client/caladon/src/collateral.ts:29-31 | Both identifiers the walk looks for are encoded faithfully. |
| Fmspc.OidConstants | web-client/caladon/src/collateral.ts:141-142 | The encoded identifiers the walk compares with are these nine and ten octets. |
| Fmspc.FindOidValueOctetString | web-client/caladon/src/collateral.ts:160-172 | The value after the first match followed by an octet string; none only if there is no match. |
| Fmspc.ExtractFmspc | web-client/caladon/src/collateral.ts:140-152 | Which of the two errors or which text is returned, by the first matches in the certificate and inside the extension's value. |
| Fmspc.ExtractsFmspc | web-client/caladon/src/collateral.ts:140-172 | Whenever the SGX extension and, inside its value, the FMSPC attribute are the first matches, the result is the upper-case hex of exactly the attribute's octets. |
| Fmspc.HexDenotes | web-client/caladon/src/bytes.ts:55-59 | Two hex digits a byte, high half first. |
| Calculator.EvalIsCorrectAndBounded | gateway/app/mcp_broker.py:67-87 | An integer result is the expression's mathematical value and, with constants at most M >= 2 and depth d, at most M^(64^d) in absolute value. |
| Calculator.EvalSucceedsIff | gateway/app/mcp_broker.py:67-87 | An expression with a mathematical value evaluates to it if and only if no exponent in it exceeds 64. |
| Calculator.ExponentCheckedFirst | gateway/app/mcp_broker.py:67-87 | A power is refused for its exponent exactly when the exponent exceeds 64 in absolute value, whatever the base evaluates to, or when the base itself is refused for an exponent. |
| Calculator.MeansUnique | gateway/app/mcp_broker.py:67-87 | An expression has at most one mathematical value. |
| Calculator.FloorDivMeaning | gateway/app/mcp_broker.py:55-63 | Floor division and remainder satisfy their defining equation for every sign. |
| ToolLoop.ExecuteCalls | gateway/app/inference_backend.py:149-169 | The inner loop adds the assistant turn, then one log entry and one result per call, in order. |
| ToolLoop.CompleteWithTools | gateway/app/inference_backend.py:128-171 | The requests made and how the loop ends, for any provider, argument parser and tools. |
| ToolLoop.RequestsAreWellFormed | gateway/app/inference_backend.py:128-171 | At most max_steps requests, the first with the given messages, every later one strictly extending all earlier ones by assistant turns answered call by call: the k-th tool message carries the id and name of the k-th call and the text executing it gave, with its arguments as the source reads them. |
| ToolLoop.AnswerIsGenuine | gateway/app/inference_backend.py:142-169 | A returned answer is the provider's own and not blank, and the k-th entry of the step log is name, arguments and result text of the k-th call of the conversation: what executing it gave, or "tool error: " and the error raised. |
| ToolLoop.OutcomeIff | gateway/app/inference_backend.py:128-171 | For every way the loop can end, exactly which last reply of the provider it was. |
| ToolLoop.StepsExceededIff | gateway/app/inference_backend.py:128-171 | The step limit is reported exactly when each of the first max_steps replies called tools. |
| Padding.Bucket | caladon-core/src/padding.rs:15-23 | The least allowed size (six buckets, then multiples of the largest) that fits, and below four times the length or at most 256. |
| Padding.Pad | caladon-core/src/padding.rs:26-36 | Length prefix that is the plaintext's length as a big-endian number, plaintext, zeros up to the least allowed size; too long a plaintext is refused. |
| Padding.RoundTrip | caladon-core/src/padding.rs:26-48 | Unpadding a padded buffer gives back the plaintext, up to 2^32 - 1 bytes. |
| Padding.UnpadRefusesIff | caladon-core/src/padding.rs:39-48 | Exactly which buffers each error of unpadding is for. |
| Padding.LeastAllowedMonotone | caladon-core/src/padding.rs:15-23 | Longer plaintexts never pad shorter. |

## Left out

- Routes, event-stream formatting, process and network I/O, the user interface, configuration, generated code: their answers are parameters of the models.
- The Python twins of the Rust core: the same algorithms a second time.
- Key-length and nonce-length errors of the cryptographic calls: terms are always well-sized.
- Replaying the RTMR3 event log against the quote: the source does not do it, so `info` is whatever the relay sends.
- Challenges that are not 64 hex digits, and the onboarding, collateral and clock calls of the handshake: they can only end it earlier.
- The reply direction inside `ChannelRuns`: replies are in `StreamRoundTrip` only. The leak check of `chat` on the raw response text is not modelled.
- Spend amounts as floating point: they are real numbers, so rounding is not covered.
- Policy.ChooseProvider: the receipt check is a function of the provider; a check that raises is not modelled here.
- The platform's own base64 encoder and decoder, used when present.
- SeedAuth.CanonicalInjective: upper-casing a method is ASCII only; Unicode case mapping is not modelled.
- SeedAuth.MessageUniqueIff: the same.
- JSON: store files are taken to read back as written; unreadable or wrongly shaped files, which raise on load, and several store instances over one file are not modelled.
- AgentIds.RoundTripIff: indices are integers; numbers that JavaScript prints with a fraction or an exponent are not modelled.
- Der.OidToDer: takes the arcs, not the dotted text; the two dotted constants are given as arcs.
- Der.ReadTlv: a byte past the end of the array reads as 0, where JavaScript yields undefined; the spans selected are the same.
- The calculator's floats, true division, negative exponents and complex results, and its parser: such expressions leave the integer fragment.
- ToolLoop.CompleteWithTools: results are text; replies that are not objects count as failed requests.
- `extractCa`, collateral fetching, and the other artifact routing tables: string search and lookups.
