# QuietHop, modelled and proved in Dafny

QuietHop is a three-hop onion router. A client builds a circuit guard → middle → exit one hop at a
time, seals fixed-size cells in one Noise layer per hop, and pays the guard with a blind-signed
token. An authority publishes one signed registry document per hour; clients and relays verify it,
remember the highest version they accepted, and pick or admit relays by it.

The project models that core and proves what it is for:

- **The tunnel.** A client, `n` relays and the byte links between them as a step system, in every
  interleaving, with arbitrary read boundaries, links that break at any byte and parties that fail
  at any moment (`Tunnel`, `Circuits`). Safety: each end sees a prefix of what the other end wrote,
  every counter matches the frames under way, and no honest party ever meets a frame it cannot
  decrypt (`CircuitFacts`). Routing: every relay dials exactly what the client asked of it
  (`Routes`). Progress: as long as nothing has failed no state is stuck, and any circuit can be built
  and delivers any bytes (`Delivery`). The code runs it with `n = 3`.
- **Each receiver under attack.** A network that drops, replays, reorders and alters frames at will
  can only cut a session short: for every relay (`RelayCircuit`) and for the client with one session
  per hop (`ClientUnderAttack`), where it is also proved exactly when the user's bytes are the exit's.
- **Framing and layers.** Cells, the cancel-safe frame reader, sealing and peeling, as imperative
  methods proved against value-level specifications (`Cells`, `Framing`, `Noise`, `Layer`).
- **The registry.** Signature thresholds, the validity window, timestamps and the civil calendar,
  rollback and equivocation over whole runs with restarts, and concurrent publishers that never
  publish two documents for one hour and whose every response clients accept exactly when they should
  (`Registry`, `RegistryCache`, `Publisher`, `Civil`, `Rfc3339`).
- **Tokens.** Blind RSA from Fermat's little theorem up: an issued token is accepted, the blinded
  value says nothing about the message, and a token spends once per window (`NumberTheory`, `Blind`,
  `Tokens`, `Replay`).
- **Paths and roles.** Selection is a bijection between draws and valid paths, and what a client
  selects the relays admit (`Paths`, `RelayRoles`).
- **The login limiter** with concurrent logins, with its exact bound (`RateLimit`).

Abstracted as parameters: the AEAD (`Noise.Suite`: opening inverts sealing at the same key and
counter), JSON and base64 codecs and signature checks (`Registry.Codec`), SHA-256 (any function
with 32-byte results), clocks, random draws, and the success or failure of every read, write and
dial. The subset types that state their laws carry a witness, so the laws can be met; the assumption
under attack, that frames are not forged, is met by `Noise.TAGGED_SUITE`, and what publication
assumes of encoders and codecs by `PlainCodec`.

`dafny verify dfyconfig.toml` checks the whole project.

## Model

| member | source | states |
|---|---|---|
| `Cells.BodyIsInnerLink` | quiethop-crypto/src/cell.rs:41-54 | at every depth the body of a layer is exactly the next link's frame, each hop costs a disposition byte and a tag, the innermost body is one cell, and the three links carry 564, 547 and 530 bytes |
| `Cells.TypeOf` | quiethop-crypto/src/cell.rs:68-80 | a type byte is accepted exactly if some cell type encodes to it, and then to that type |
| `Cells.EncodeInto` | quiethop-crypto/src/cell.rs:115-132 | writes exactly the 513 bytes of the cell into the caller's slice whatever was there before, leaves the rest of the buffer alone, and on either error changes nothing |
| `Cells.DecodeInvertsEncode` | quiethop-crypto/src/cell.rs:115-156 | decoding an encoded cell returns the cell, for every type and every payload that fits |
| `Cells.EncodeInvertsDecode` | quiethop-crypto/src/cell.rs:134-156 | encoding a decoded buffer returns the buffer if and only if its in-cell padding is zero; decode itself does not check that |
| `Cells.DirtyPaddingDecodes` | quiethop-crypto/src/cell.rs:134-156 | the inputs where it fails: any cell with any one padding byte dirty decodes to that cell and encodes back to other bytes |
| `Cells.OfV6InvertsToV6` | quiethop-crypto/src/registry.rs:149-156 | carrying an address as IPv6 and reducing it gives its canonical form, which has the same IPv6 spelling |
| `Cells.SameHost` | quiethop-crypto/src/registry.rs:149-156 | two addresses are canonically equal exactly if they have one IPv6 spelling; canonical form is idempotent |
| `Cells.ExtendDecodeAfterEncode` | quiethop-crypto/src/cell.rs:173-207 | an EXTEND round-trips with the address canonicalised and the handshake message intact |
| `Cells.ExtendEncodeAfterDecode` | quiethop-crypto/src/cell.rs:173-207 | every 66-byte EXTEND payload survives decode and encode unchanged |
| `Cells.ParseExtendBackward` | quiethop-crypto/src/cell.rs:210-223 | a reply is accepted exactly at the handshake message length, and yields its own bytes |
| `Cells.ConnectDecodeAfterEncode` | quiethop-crypto/src/cell.rs:238-269 | every destination whose host fits encodes and decodes back |
| `Cells.ConnectEncodeAfterDecode` | quiethop-crypto/src/cell.rs:238-269 | a decoded CONNECT encodes back to its bytes if and only if they fit one cell |
| `Cells.Utf8Exactly` | quiethop-crypto/src/cell.rs:251-269 | the check on a host name accepts exactly the encodings of sequences of Unicode scalar values |
| `Noise.Transport.Encrypt` | quiethop-crypto/src/noise.rs:134-150 | seals at the current counter and advances it, or on a wrong output size changes neither buffer nor counter |
| `Noise.Transport.Decrypt` | quiethop-crypto/src/noise.rs:157-179 | succeeds exactly if sizes match and the frame opens at the current counter; the counter advances only then |
| `Framing.FrameAccumulator.Push` | quiethop-crypto/src/layer.rs:47-50 | appends the bytes |
| `Framing.FrameAccumulator.NextFrame` | quiethop-crypto/src/layer.rs:52-65 | splits off the oldest full frame, or leaves a partial one alone |
| `Framing.FrameReader.Fill` | quiethop-crypto/src/layer.rs:112-135 | one read moves bytes from the stream to the accumulator without loss, never asking past the current frame |
| `Framing.FrameReader.NextFrame` | quiethop-crypto/src/layer.rs:102-149 | frame, cancellation or error, the yielded frames followed by the pending bytes are exactly the bytes consumed; a cancelled call keeps its partial frame and yields nothing |
| `Framing.YieldsAreConsecutiveSlices` | quiethop-crypto/src/layer.rs:102-135 | the k-th yielded frame is the k-th slice of the stream, whatever the read boundaries and cancellations were |
| `Framing.RoomIsInsideFrame` | quiethop-crypto/src/layer.rs:112-135 | the room offered to a read never reaches past the frame being assembled |
| `Layer.PeelToMe` | quiethop-crypto/src/layer.rs:180-250 | at every depth, peeling what was sealed for a hop finds that cell |
| `Layer.PeelForward` | quiethop-crypto/src/layer.rs:197-250 | at every depth from two, peeling a wrapped frame finds that frame |
| `Layer.PeelExactly` | quiethop-crypto/src/layer.rs:217-250 | exactly which plaintexts peel, at every depth: to a cell those with its header and payload, anything in the rest of the cell and zeros after it; to a forwarded frame those that hold it verbatim, from depth two |
| `Layer.ForwardedBlobFitsNextLink` | quiethop-crypto/src/layer.rs:217-250 | any frame that peels to a forward, honest or not, came from depth two or more and holds exactly one frame of the next link |
| `Layer.SealToMe` | quiethop-crypto/src/layer.rs:180-190 | produces one sealed frame of the link's size, or the size error with the counter unmoved |
| `Layer.SealForward` | quiethop-crypto/src/layer.rs:197-211 | wraps a blob of exactly the adjacent link's size, and refuses any other with the counter unmoved |
| `Layer.Peel` | quiethop-crypto/src/layer.rs:217-250 | the outcome and the new counter agree with the value-level peel in every case, including its order of errors |
| `Layer.OnionRoundTrip` | client/src/dial.rs:51-74 | for any number of layers, counters and target hop, peeling an onion returns the cell and the layer it was sealed for |
| `Layer.OpensIsPeelDown` | client/src/dial.rs:60-73 | at any depth, peeling finds a cell exactly if the innermost plaintext that authenticates holds one, and at that depth; the layers that authenticate are the ones whose counters move |
| `Layer.Layers.SealForExit` | client/src/dial.rs:53-57 | builds the three-layer onion for the exit and moves each counter by one; a cell that does not fit moves none |
| `Layer.Layers.PeelInbound` | client/src/dial.rs:60-73 | returns exactly what the layered peel returns, cell or error, and advances exactly the sessions whose layer authenticated, on an error too |
| `Tunnel.SendCore` | client/src/dial.rs:51-57 | sealing for any hop keeps every layer's stream, counter and link in step |
| `Tunnel.TakePeels` | relay/src/main.rs:687-722 | a relay with a full frame decrypts it to the next item the client sealed for that relay |
| `Tunnel.TakeAndForwardCore` | relay/src/main.rs:713-722 | forwarding a frame verbatim keeps the next link carrying exactly that layer's frames |
| `Tunnel.ReturnCore` | relay/src/main.rs:687-844 | wrapping the next hop's frame keeps the return streams nested in order |
| `Tunnel.ClientPeels` | client/src/dial.rs:60-73 | the client peels every return frame down to the hop that sealed the cell, at that hop's counter |
| `Tunnel.DeliverCore` | quiethop-crypto/src/layer.rs:112-135 | any split of the bytes into reads keeps every stream in step |
| `Tunnel.SeverCore` | relay/src/main.rs:687-844 | so does a link breaking at any byte |
| `Circuits.ForwardInv` | relay/src/main.rs:713-722 | a frame to be forwarded always finds an open next link, so the relay stays up |
| `Circuits.ExtendInv` | relay/src/main.rs:723-741 | the only cell an intermediate hop ever gets is its EXTEND, once; it stays up exactly if the dial succeeds |
| `Circuits.ExitInv` | relay/src/main.rs:743-797 | the exit stays up unless the client closes, the destination has closed, or its own dial or write fails |
| `Circuits.ReturnInv` | relay/src/main.rs:687-844 | returned frames never overtake the dial |
| `Circuits.DestDataInv` | relay/src/main.rs:687-844 | cutting what the destination sent into cells, even if a write fails midway, keeps the byte streams |
| `Circuits.UserDataInv` | client/src/dial.rs:180-259 | cutting what the user sent into cells, even if a write fails midway, keeps the byte streams |
| `Circuits.ReplyInv` | client/src/dial.rs:133-173 | while dialling, the frame that arrives is the awaited reply and the circuit gets exactly one hop longer |
| `Circuits.CellInv` | client/src/dial.rs:180-259 | while data flows, each DATA cell reaches the user whole and in order |
| `Circuits.TeardownInv` | client/src/dial.rs:180-259 | the best-effort CLOSE_REQUEST keeps everything in step |
| `Circuits.StepInv` | relay/src/main.rs:687-844 | every step of every party and of the network keeps the invariant |
| `Circuits.ReachableInv` | client/src/dial.rs:76-259 | so it holds in every state any run reaches, for any number of hops |
| `CircuitFacts.PrefixSafety` | client/src/dial.rs:180-259 | in every reachable state the destination has a prefix of what the user wrote and the user a prefix of what the destination wrote |
| `CircuitFacts.NoDecryptionFails` | quiethop-crypto/src/noise.rs:131-180 | every frame an honest relay or the client has read in full decrypts |
| `CircuitFacts.RelaySurvives` | relay/src/main.rs:687-844 | no relay ends its circuit on a frame unless its own dial or write failed or a side has closed |
| `CircuitFacts.SurvivesIff` | relay/src/main.rs:723-797 | a cell leaves a relay's circuit up if and only if it is legal for the role and the moment, well formed, and the dial or write it asks for succeeds |
| `CircuitFacts.ClosingAsksTheExit` | client/src/dial.rs:249-259 | unless it just fails, a client with data flowing ends its circuit with a CLOSE_REQUEST to the exit |
| `CircuitFacts.ExitAnswersClose` | relay/src/main.rs:779-792 | and the exit answers it with a CLOSE_ACK, writes nothing and ends |
| `CircuitFacts.CountersMatchFramesUnderWay` | quiethop-crypto/src/noise.rs:131-180 | at every hop and in both directions, sent minus received is exactly the number of that layer's frames not yet received, on any link, nested to any depth, or lost on a link that broke; and an unbroken link holds exactly its frames' bytes |
| `CircuitFacts.DrainedMeansDelivered` | client/src/dial.rs:180-259 | once unbroken links have drained and both ends are up, every byte has arrived |
| `Delivery.StepOrderly` | relay/src/main.rs:687-844 | no party closes and goes on, and a hop is up once the hop before it has extended |
| `Routes.DialsAreTheClients` | client/src/dial.rs:76-173 | in every run, for every hop: the client's request for that hop, read off the run's events, is the first cell sealed for it, and what the relay sets out to open is exactly that request, next address, handshake message, host and port, once and nothing else |
| `Routes.ReplyIsTheNextHops` | relay/src/main.rs:723-741 | in every run, the reply the client reads while dialling holds the handshake message of the very dial the deepest hop made |
| `Delivery.RelayTakes` | relay/src/main.rs:687-844 | while nothing has failed, a relay with a full frame can act on it, consumes just that frame, and nothing fails |
| `Delivery.ClientTakes` | client/src/dial.rs:133-259 | likewise the client, dialling or running |
| `Delivery.NeverStuck` | client/src/dial.rs:76-259 | from every reachable state in which nothing has failed, some continuation that reads nothing new empties every link, leaves no reply outstanding and delivers every byte both ways |
| `Delivery.EverythingGetsThrough` | client/src/dial.rs:76-126 | for every number of hops, next-hop addresses, destination and bytes on either side, some run builds the circuit, each relay having dialled exactly the address asked of it and the exit exactly that host and port, and delivers exactly those bytes |
| `RelayCircuit.Circuit.Activate` | relay/src/circuit.rs:71-80 | only a pending circuit becomes active |
| `RelayCircuit.Circuit.Close` | relay/src/circuit.rs:83-94 | a pending or active circuit closes; an ended one is refused unchanged |
| `RelayCircuit.Circuit.Fail` | relay/src/circuit.rs:99-113 | anything but a closed circuit becomes failed, and no transition leaves an end state |
| `RelayCircuit.AcceptsOnlyTheNextFrame` | quiethop-crypto/src/noise.rs:157-179 | against unforgeable frames, peeling succeeds if and only if the frame is the next one sealed, and then yields its item |
| `RelayCircuit.SealedFramesAreUnforged` | quiethop-crypto/src/noise.rs:131-180 | the assumption under attack can be met: under a lawful cipher the frames a peer sealed open at their own counters only |
| `RelayCircuit.AcceptedIsPrefix` | relay/src/main.rs:595-651 | whatever the network delivers and however dials and writes go, what a relay accepts is a prefix of what was sealed, and its memory is the fold over that prefix |
| `RelayCircuit.EndIsFinal` | relay/src/main.rs:595-651 | after a circuit ends no event changes anything |
| `RelayCircuit.FirstRejectionIsFinal` | relay/src/main.rs:595-651 | the first replayed, reordered, altered or missing frame fails the circuit for good |
| `RelayCircuit.ExitWritesPrefixUnderAttack` | relay/src/main.rs:687-844 | under any such network, and with dials and writes that fail at any point and may put out part of a payload, the destination receives a prefix of the client's DATA bytes |
| `RelayCircuit.ExitActIsAct` | relay/src/main.rs:743-797 | the exit's dispatch used there is the one of the circuit model, output, destination and end alike, failing dials and writes included |
| `RelayCircuit.Serve` | relay/src/main.rs:595-722 | the serving loop, with the role's dispatch: what it accepts is the leading genuine frames, what it did is the fold over them, and the circuit ends as the dispatch says or fails at the first other frame |
| `ClientUnderAttack.OpensTheNext` | client/src/dial.rs:60-73 | whatever bytes arrive, each plaintext the client opens is the next one the hop of that layer sealed |
| `ClientUnderAttack.OnlyTheNextFrameOpens` | client/src/dial.rs:60-73 | a frame opens at all exactly if it is the guard's next one, of the link's size |
| `ClientUnderAttack.ClientAcceptsPrefixes` | client/src/dial.rs:133-259 | for any number of hops, over any run of hostile deliveries, dialling and after, what each of the client's sessions accepts is a prefix of what its hop sealed, even if hops seal arbitrary plaintexts |
| `ClientUnderAttack.FirstFailureIsFinal` | client/src/dial.rs:223-246 | the first delivery in which no cell is found ends the circuit for good and writes nothing |
| `ClientUnderAttack.ClientSurvivesIff` | client/src/dial.rs:155-246 | a delivery leaves the client's circuit up if and only if it holds the awaited hop's own EXTEND reply of the right length with a handshake that completes, or, once data flows, DATA that the user's side takes |
| `ClientUnderAttack.GrowsByExitBytesIff` | client/src/dial.rs:223-246 | a delivery extends the user's bytes by exactly what the exit's session accepted if and only if the cell was found at the exit's layer or carries no data |
| `ClientUnderAttack.UserHasExitBytesIff` | client/src/dial.rs:180-259 | over any run, while the circuit is up the user has exactly the exit's bytes if and only if no other hop's data was accepted |
| `ClientUnderAttack.UserGetsPrefixOfExitBytes` | client/src/dial.rs:180-259 | if no hop but the exit seals application bytes, the user gets a prefix of the exit's, whatever the network does |
| `ClientUnderAttack.UserGetsPrefixOfExitData` | client/src/dial.rs:180-259 | the same in cells: with hops that seal as the code does, a prefix of the bytes of the exit's DATA cells |
| `ClientUnderAttack.GuardsDataReachesUser` | client/src/dial.rs:60-73 | the input where it fails: in any state with data flowing, a DATA cell the guard seals itself reaches the user, and the exit has sealed nothing more |
| `ClientUnderAttack.GuardsDataReachesCircuitUser` | client/src/dial.rs:223-246 | the same input in the circuit model |
| `ClientUnderAttack.SealedFramesAreAllowed` | client/src/dial.rs:60-73 | that input is an allowed delivery under a lawful cipher |
| `ClientUnderAttack.MirrorsClientFrame` | client/src/dial.rs:133-259 | this client and the one of the circuit model do the same on every frame, dialling and after |
| `RateLimit.PruneInPlace` | authority/internal/handlers/auth.go:61-81 | filtering a slice over its own storage keeps exactly the attempts after the cutoff, in order |
| `RateLimit.RateLimiter.Check` | authority/internal/handlers/auth.go:61-81 | allowed exactly if fewer than the limit of all failures ever recorded fall in the last window, although old ones were pruned |
| `RateLimit.RateLimiter.Record` | authority/internal/handlers/auth.go:83-87 | appends the failure to what is kept and to the history |
| `RateLimit.NoWindowOverflows` | authority/internal/handlers/auth.go:102-134 | with at most k logins between check and record at once, no window of the configured length holds more than limit + k - 1 failures, in any interleaving |
| `RateLimit.BoundIsAttained` | authority/internal/handlers/auth.go:102-134 | that bound is exact: some run fills a window with limit + k - 1 failures |
| `RateLimit.ClosedWindowBound` | authority/internal/handlers/auth.go:61-81 | counting both end points of a window the bound is twice that |
| `RateLimit.ClosedWindowBoundIsAttained` | authority/internal/handlers/auth.go:61-81 | and that is exact at every limit, so the single bound fails there: failures exactly one window old no longer count |
| `RateLimit.ClosedIsWindowAndLeftEnd` | authority/internal/handlers/auth.go:61-81 | a closed window holds exactly what the half-open one holds and the failures at its left end point |
| `RateLimit.ClosedOverflowNeedsLeftEnd` | authority/internal/handlers/auth.go:61-81 | so over any run a closed window keeps the single bound exactly if the failures at its left end point fit in what the half-open window leaves, and always if there are none |
| `Civil.Leap` | quiethop-crypto/src/registry.rs:437-439 | the truncating-remainder test is the Gregorian rule, for negative years too |
| `Civil.EraIsFloor` | quiethop-crypto/src/registry.rs:453-461 | the shifted truncating division is the floor, for negative years too |
| `Civil.DaysFromCivilCountsPages` | quiethop-crypto/src/registry.rs:442-461 | the closed formula is the number of days since 1970-01-01 on a calendar that turns one page a day, forward and backward, and no other number is |
| `Civil.CivilIsRealDate` | relay/src/integration_test.rs:275-297 | the formatter's date is a real date with that day number, for every integer |
| `Civil.CivilInvertsDayNumber` | quiethop-crypto/src/registry.rs:453-461 | and it returns every real date from its day number |
| `Civil.DayNumberIsMonotone` | quiethop-crypto/src/registry.rs:453-461 | dates are ordered exactly as their day numbers |
| `Rfc3339.ParseInvertsFormat` | quiethop-crypto/src/registry.rs:402-433 | formatting and parsing an instant returns it if and only if its year is in -999..9999; outside, the text is refused |
| `Rfc3339.FormatInvertsParse` | quiethop-crypto/src/registry.rs:402-433 | an accepted text is the formatter's own spelling exactly if it is canonical: the year padded as the formatter pads it, digits in every other field and a second below 60 |
| `Rfc3339.OddSpellingsParse` | quiethop-crypto/src/registry.rs:402-433 | inputs where it fails: a second of 60, a second of "+0" and an hour of "-1" on 1970-01-01 are accepted, as 60, 0 and -3600, and none of them is how that instant is formatted |
| `Rfc3339.ParseKeepsOrder` | quiethop-crypto/src/registry.rs:402-433 | accepted all-digit stamps are ordered as text exactly as their instants are ordered |
| `Registry.MessageDeterminesParts` | quiethop-crypto/src/registry.rs:130-136 | label and document can be read off any labelled message |
| `Registry.DomainIsSeparate` | quiethop-crypto/src/registry.rs:130-136 | no message under another label is a registry message |
| `Registry.FindPin` | quiethop-crypto/src/registry.rs:247-312 | finds a pinned key of that id, and none exactly if there is none |
| `Registry.CollectVouchers` | quiethop-crypto/src/registry.rs:247-312 | the loop collects exactly the pinned key ids with a valid signature, each once |
| `Registry.VouchesMeansSigned` | quiethop-crypto/src/registry.rs:271-295 | an entry counts if and only if it decodes to 64 bytes that verify over the message under the first pinned key of its id |
| `Registry.VouchersIgnoreNoise` | quiethop-crypto/src/registry.rs:247-312 | order, repeats, unknown keys and bad signatures never change the outcome |
| `Registry.ThresholdMeansDistinctVouchers` | quiethop-crypto/src/registry.rs:247-312 | the threshold is met exactly if that many different pinned keys signed |
| `Registry.CanBeMetIff` | quiethop-crypto/src/registry.rs:247-312 | some signatures reach a threshold if and only if that many different key ids are pinned |
| `Registry.Verify` | quiethop-crypto/src/registry.rs:247-312 | the checks in the code's order, each with its own error |
| `Registry.UnsignedIsNeverParsed` | quiethop-crypto/src/registry.rs:247-312 | bytes too few pinned keys signed are never parsed: whatever the document parser does, the outcome is the same |
| `Registry.TooFewMeans` | quiethop-crypto/src/registry.rs:247-312 | and that is the outcome exactly if the envelope can be read and fewer than the threshold signed |
| `Registry.ValidityIsWindow` | quiethop-crypto/src/registry.rs:228-353 | a document is current exactly if its stamps parse in order, its version is its hour and now lies in its window; it is usable exactly between its two stamps, from a minute early, and an error exactly if one does not parse |
| `Registry.AcceptedMeans` | quiethop-crypto/src/registry.rs:247-381 | a body is accepted if and only if enough pinned keys signed it, it is in its window and it does not go back behind the stored state; and what is returned is what was signed |
| `Registry.AcceptedIsSigned` | quiethop-crypto/src/registry.rs:247-381 | the same condition down to the signatures: at least the threshold of different pinned ids, each with 64 bytes that verify over the label, a zero byte and exactly the document's bytes |
| `Registry.UnverifiedIsRefused` | quiethop-crypto/src/registry.rs:247-312 | if no key verifies anything over a document's message, no envelope with that document is accepted, whatever else holds |
| `Registry.AlarmsMean` | quiethop-crypto/src/registry.rs:355-381 | for a signed, current document: equivocation is reported exactly if it has the stored version and other bytes, and rollback exactly if its version is lower |
| `Registry.VersionsOrderAsHours` | quiethop-crypto/src/registry.rs:314-381 | among valid documents versions are ordered and equal exactly as their hours |
| `RegistryCache.Cache.Check` | quiethop-crypto/src/registry_cache.rs:47-76 | a configuration is accepted exactly if there is a pinned key and the threshold is between one and the length of the list, repeats included |
| `RegistryCache.CheckAgreesIff` | quiethop-crypto/src/registry_cache.rs:47-76 | the check agrees with which thresholds can be met if and only if no key id is pinned twice |
| `RegistryCache.RepeatedKeyNeverEnough` | quiethop-crypto/src/registry_cache.rs:47-76 | the input where it does not: one key pinned twice with threshold two passes the check, and then every body is refused |
| `RegistryCache.Cache.AcceptBody` | quiethop-crypto/src/registry_cache.rs:81-93 | a refused body, or a failed read or write, changes neither memory nor disk; an accepted one is in its window and not ahead of what the file records |
| `RegistryCache.Cache.ReuseStored` | quiethop-crypto/src/registry_cache.rs:150-166 | what is reused is in its window and still fresh, and is the document a coherent file records |
| `RegistryCache.Cache.Prime` | quiethop-crypto/src/registry_cache.rs:96-103 | on success there is a document in its window and a file; on failure nothing has changed |
| `RegistryCache.Cache.RefreshIfStale` | quiethop-crypto/src/registry_cache.rs:110-119 | nothing is fetched exactly if the document held is fresh; only a successful refresh changes anything, and then to a document in its window |
| `RegistryCache.AcceptedOkIff` | quiethop-crypto/src/registry_cache.rs:81-93 | a body is taken if and only if the file can be read both times, the body verifies against it, and it can be written or need not be; then memory holds the document and the file records it, its signers and its envelope, or keeps that version |
| `RegistryCache.ReuseIff` | quiethop-crypto/src/registry_cache.rs:96-166 | a restart reuses a coherent file if and only if it can be read and its document is still signed by enough pinned keys, in its window and fresh; then nothing is fetched and the file is left alone |
| `RegistryCache.AcceptMovesForward` | quiethop-crypto/src/registry.rs:355-395 | accepting leaves the file as it was or moves it to a higher version, and memory matches disk |
| `RegistryCache.CacheNeverGoesBack` | quiethop-crypto/src/registry_cache.rs:81-119 | over any run of bodies, refreshes, restarts and failed writes, the accepted versions never fall, one version always has the same bytes, and what is held is what the file records |
| `RegistryCache.HonestRun` | quiethop-crypto/src/registry.rs:355-381 | if every body is some authority's one document for its version, no run ever reports equivocation |
| `Publisher.HourFacts` | authority/internal/registry/document.go:46-54 | the hour of an instant starts at most an hour before it and is 3600 times its version |
| `Publisher.OneKeyPerHour` | authority/migrations/008_registry_documents.up.sql:19-42 | under the table's constraints the two unique keys, hour and version, determine each other |
| `Publisher.StepInv` | authority/internal/registry/publish.go:45-132 | every step of every concurrent request keeps the invariant, and rows are write-once |
| `Publisher.ServedIsTheRow` | authority/internal/registry/publish.go:45-181 | every response of every process, racing, restarting or falling back, is the one stored row of its hour, document and signatures, and not expired |
| `Publisher.NoEquivocation` | authority/internal/registry/publish.go:45-132 | a verifier fed any mix of those responses, in any order and with restarts, never reports equivocation |
| `Publisher.PublishedDocumentIsValid` | authority/internal/registry/document.go:8-58 | what the authority builds passes the verifier's checks exactly from the skew allowance before its hour until its window ends |
| `Publisher.ServedIsAcceptedIff` | quiethop-crypto/src/registry.rs:247-381 | any response any process ever serves, signed by enough pinned keys, is accepted by a client whose file was written from the same table exactly within the document's window and exactly if no later version is recorded |
| `Publisher.ServedIsHeldIff` | quiethop-crypto/src/registry_cache.rs:81-93 | and a cache with such a file and a working disk then holds exactly the served document, under the same condition |
| `Publisher.PublishedSays` | authority/internal/registry/publish.go:76-115 | the document for an hour lists exactly the relays given, carries the hour's version, and is fresh for one hour and valid for six |
| `Publisher.ServedRelaysWereActive` | authority/internal/registry/publish.go:76-115 | in every run, every response lists exactly the relays some request of the run found active, with the signatures made for them |
| `Publisher.RequestCanFinish` | authority/internal/registry/publish.go:45-132 | with the database up, a request at any stage before falling back, a lost insert race included, can be served its hour's row |
| `Publisher.FallbackIsServed` | authority/internal/registry/publish.go:45-72 | with the database down, an instance that still holds a valid copy serves it |
| `Publisher.RequestIsServed` | authority/internal/registry/publish.go:45-132 | from every state, with the database up, a new request is served its hour's row, and publishes it if there is none |
| `Publisher.AskingNowIsAnswered` | authority/internal/registry/publish.go:45-115 | so after any history a client that asks now can get this hour's document, fresh for the hour, with the active relays if it is the first to ask, and accepts it if enough pinned keys signed it and it has recorded nothing later |
| `PlainCodec.ReaderReadsBack` | quiethop-crypto/src/registry.rs:247-312 | the laws on encoders and codecs that publication is proved under can be met together |
| `Paths.Candidates` | client/src/path.rs:183-209 | one malformed entry refuses the whole document; otherwise every entry becomes a candidate, in order |
| `Paths.ByRole` | client/src/path.rs:211-213 | exactly the candidates of that role |
| `Paths.ByRoleKeepsOrder` | client/src/path.rs:211-213 | with their order and repeats: they are the entries at the increasing positions of that role, all of them |
| `Paths.RulesMean` | client/src/path.rs:235-276 | the pairwise tests say exactly: three ids, three hosts, three networks, and three operators when required |
| `Paths.CountValid` | client/src/path.rs:215-232 | the nested loops count exactly the valid triples |
| `Paths.Walk` | client/src/path.rs:121-172 | the second pass stops at exactly the wanted valid triple |
| `Paths.IndexIsBijection` | client/src/path.rs:121-172 | draws 0..total correspond one to one with the valid triples, so a uniform draw is a uniform path |
| `Paths.TotalIsBounded` | client/src/path.rs:121-172 | with at most 256 relays there are at most 621350 valid paths, the maximum of a three-way split, so the counters cannot overflow |
| `Paths.OperatorSpan` | client/src/path.rs:278-286 | sort and dedup give the number of different operators |
| `Paths.Choose` | client/src/path.rs:121-172 | no path exactly if no triple is valid; otherwise the drawn valid one |
| `Paths.SelectWith` | client/src/path.rs:121-172 | the refusals in the code's order, and otherwise the drawn valid path with its operator span |
| `Paths.PathExistsIff` | client/src/path.rs:121-172 | there is a path if and only if the document is usable, holds at most 256 well-formed entries and three of them in the three roles are allowed together; too few relays, or no allowed triple, is reported exactly when that is what is missing |
| `Paths.SelectedIsAllowed` | client/src/path.rs:121-172 | what is selected is three entries of the document in the three roles, allowed together, with the number of their operators |
| `RelayRoles.LinkEndsAgree` | relay/src/main.rs:655-674 | the two role tables are each other's inverse, step one rank, and the frame sizes at the two ends of every link agree |
| `RelayRoles.EligibleIsDialable` | quiethop-crypto/src/registry.rs:158-204 | every entry the client accepts has a canonical address with the entry's own host and port, and a key that spells the entry's hex in lower case |
| `RelayRoles.EligibleIff` | client/src/path.rs:183-209 | the client accepts exactly the entries that name a role, can be dialled and leave no text empty |
| `RelayRoles.TargetIndex` | relay/src/registry.rs:109-119 | the first entry of that role, address and port, and none exactly if there is none |
| `RelayRoles.TargetMeans` | relay/src/registry.rs:109-119 | an entry is what an EXTEND names exactly if role and port are equal and the two addresses have one IPv6 spelling |
| `RelayRoles.AdmitsExactly` | relay/src/registry.rs:90-102 | a peer is admitted if and only if the registry lists a relay one rank before at the peer's address, however either is spelled; every other peer is refused |
| `RelayRoles.SelectedPathWorks` | relay/src/registry.rs:90-119 | every hop of every path a client can select is found by the relay before it and admits that relay |
| `RelayRoles.HopAdmitted` | relay/src/registry.rs:90-102 | every eligible relay is admitted by every relay one rank on |
| `RelayRoles.ChainsAreShort` | relay/src/registry.rs:69-102 | admitted connections climb one rank at a time, so no chain of relays is longer than three and none loops |
| `RelayRoles.MappedIsRespelled` | quiethop-crypto/src/registry.rs:149-191 | spelling every IPv4 address of a registry as an IPv4-mapped one is a respelling in the sense of the next two rows |
| `RelayRoles.RespellingKeepsSelection` | quiethop-crypto/src/registry.rs:149-191 | writing addresses in mapped or plain form changes neither the refusals nor the valid paths |
| `RelayRoles.RespellingKeepsAdmission` | relay/src/registry.rs:90-119 | nor which peers are admitted, nor which target an EXTEND names |
| `NumberTheory.Fermat` | authority/internal/blind/blind.go:138-150 | Fermat's little theorem, for the signing exponent |
| `NumberTheory.ExponentsCancel` | authority/internal/blind/blind.go:138-150 | for two distinct primes, raising to e·d is the identity modulo the product, for every residue, units or not |
| `Blind.ModInverse` | client/src/blind.rs:23-46 | the extended Euclidean inverse exists exactly for units, and is one |
| `Blind.BlindMessage` | client/src/blind.rs:23-46 | the retry loop returns a request built from the message and one of the draws, and gives up exactly if none of them is acceptable |
| `Blind.AcceptedIsUnitAboveOne` | client/src/blind.rs:23-46 | the accepted factors are exactly the units above one |
| `Blind.ModPowInverse` | authority/internal/blind/blind.go:138-150 | signing and verifying undo each other on every residue |
| `Blind.UnblindedIsSignature` | client/src/blind.rs:48-63 | for every message and accepted factor, unblinding the authority's signature passes the client's check and is the message's own signature |
| `Blind.UnblindedIsVerified` | client/src/blind.rs:48-63 | whatever the authority answers, the client keeps only a residue whose e-th power is the message |
| `Blind.OneAnswerIsAccepted` | client/src/blind.rs:48-63 | for a valid key and any accepted factor exactly one answer is accepted, the authority's signature on the blinded value, and it leads to the message's own signature |
| `Blind.BlindingIsPerfect` | client/src/blind.rs:23-46 | for every unit message, each unit other than the message itself is its blinding under exactly one accepted factor, and the message itself under none: the blinded value singles out no message |
| `Tokens.ModulusSizeIsByteLength` | authority/internal/blind/blind.go:134-136 | the rounded-up bit length is the number of bytes of the big-endian form |
| `Tokens.HexLower` | client/src/tokens.rs:76-91 | the loop spells every byte as two lower-case digits |
| `Tokens.HexDecode` | client/src/tokens.rs:93-116 | the loop decodes exactly the even-length strings of hex digits, of either case |
| `Tokens.HexRoundTrip` | client/src/tokens.rs:76-116 | decoding the spelling of any bytes returns them |
| `Tokens.Sign` | authority/internal/blind/blind.go:138-150 | signs exactly the non-empty inputs strictly between zero and the modulus; the result has the modulus size and reads back as the input raised to d |
| `Tokens.TokenToWire` | client/src/blind.rs:66-74 | pads on the left to the modulus size |
| `Tokens.PaddedResidue` | client/src/blind.rs:66-74 | a residue padded to the modulus size has that size and reads back as itself |
| `Tokens.AuthoritySigns` | authority/internal/handlers/tokens.go:83-120 | for every non-zero message and accepted factor, the authority accepts the hex request and its reply decodes to the signature |
| `Tokens.IssueReplyIff` | authority/internal/handlers/tokens.go:83-120 | the authority answers exactly the hex strings of at most the modulus size that spell a number strictly between zero and the modulus, with that number raised to d |
| `Tokens.IssuedTokenIsAccepted` | client/src/tokens.rs:37-74 | end to end through both hex codecs: the client obtains a full-size token, and the guard's signature check accepts it if and only if the hash is below the modulus, which every modulus over 256 bits ensures |
| `Tokens.RedeemedIsTheToken` | client/src/tokens.rs:37-74 | whatever reply it gets, a client that takes a token from it has the message's own token |
| `Tokens.AcceptedTokensExactly` | relay/src/token.rs:75-122 | for a valid key the signature check accepts exactly the zero-padded spellings of the message's own token, and only if the hash is below the modulus |
| `Tokens.SmallModulusRefused` | relay/src/token.rs:75-122 | the input where the guard refuses: with the valid key 3 · 11 and a hash of value 34, issuing succeeds and the signature check refuses the token |
| `Tokens.OneTokenPerMessage` | relay/src/token.rs:75-122 | two accepted tokens for one message are equal exactly if they have the same length |
| `Tokens.LongerSpellingPasses` | relay/src/token.rs:75-122 | why length matters: the check bounds the token's length from below only, so a zero byte in front keeps it valid |
| `Replay.ReplayWindow.Verify` | relay/src/token.rs:75-122 | under the pinned key: signature failures change nothing; otherwise a token is refused exactly if it was accepted less than one lifetime ago; and everything ever accepted passed the signature check |
| `Replay.EvictionAgrees` | relay/src/token.rs:46-66 | after eviction the map knows exactly the tokens accepted within the lifetime |
| `Replay.OneMessageOncePerWindow` | relay/src/token.rs:75-122 | of everything a window with a valid key has accepted, two presentations of one message with tokens of one length are at least a lifetime apart |

## Findings

Properties one would expect that the code does not have, each with an input and the exact condition.

- The user's bytes are not always the exit's. `peel_inbound` returns the cell and drops the layer it was found at (client/src/dial.rs:60-73), and `circuit_task` writes any DATA cell to the user (client/src/dial.rs:223-246), so a DATA cell sealed by the guard or the middle is written too: `ClientUnderAttack.GuardsDataReachesUser`. Each delivery is right exactly if the cell is found at the exit's layer or carries no data (`GrowsByExitBytesIff`); over a run, exactly if no other hop's data was accepted (`UserHasExitBytesIff`).
- The threshold check does not mean the threshold can be met. It compares with the length of the pinned list (quiethop-crypto/src/registry_cache.rs:63), and the lists are read without removing repeats (quiethop-client/src/main.rs:206-221, relay/src/config.rs:230-259): `RegistryCache.RepeatedKeyNeverEnough`. It is right exactly if no key id is pinned twice (`CheckAgreesIff`).
- One message can have several accepted tokens. The length is bounded from below only (relay/src/token.rs:82-84): `Tokens.LongerSpellingPasses`. Two are equal exactly if they have one length (`OneTokenPerMessage`), which the presentation format fixes.
- A login window with both end points counted can hold twice the bound: `RateLimit.ClosedWindowBoundIsAttained`. It holds what the half-open window holds and the failures exactly at its left end point (`ClosedIsWindowAndLeftEnd`), so it keeps the bound exactly if those fit in what the half-open window leaves, and always if there are none (`ClosedOverflowNeedsLeftEnd`).
- Encoding a decoded cell need not give the bytes back: `Cells.DirtyPaddingDecodes`. It does exactly if the in-cell padding is zero (`EncodeInvertsDecode`). The layer around it checks only the padding after the cell.
- An accepted timestamp need not be its formatter's spelling: `Rfc3339.OddSpellingsParse` has a second of 60, a signed second and a negative hour. It is exactly if it is canonical (`FormatInvertsParse`).
- An issued token need not be accepted by the guard: `Tokens.SmallModulusRefused`. It is exactly if the message's hash is below the modulus (`IssuedTokenIsAccepted`), which every modulus over 256 bits ensures. The authority loads only 2048-bit keys (authority/internal/blind/blind.go:82), so the case needs a key from elsewhere.

## Left out

- TLS, TCP, SOCKS5, HTTP and ACME: links are reliable ordered byte streams until they break.
- Cryptographic strength: the AEAD is a function with an inverse, unforgeability is a hypothesis on the delivered frames, and the Noise handshake is one step that yields fresh keys.
- Noise.Transport.Encrypt: does not model the library's own failures, the 64 KiB message limit and an exhausted counter; every frame of three layers is far below the one and a circuit would need 2^64 frames for the other.
- JSON, base64 and textual IP parsing: abstract functions; a relay entry holds the parsed address.
- `dial`, `circuit_task`, `run_circuit_io`, `open_next_link` and the publisher's methods are steps on values instead of methods on objects, because their interleaving is what is proved; timeouts and shutdown are steps that may happen at any time.
- Fairness: `NeverStuck` shows a continuation exists, not that the scheduler takes it.
- Replay.ReplayWindow.Verify: assumes that no two tokens presented in a run share a SHA-256 digest and that the clock does not run backward.
- Tokens.IssuedTokenIsAccepted: excludes a hash that is zero modulo the key, which the authority refuses to sign.
- RateLimit.NoWindowOverflows: windows are half-open, as in the code; `ClosedWindowBound` is the bound with both ends counted.
- Publisher.PublishedDocumentIsValid: for hours whose stamps have a four-character year, the only ones the parser accepts.
- Publisher.ServedIsAcceptedIff: for the same hours.
- `usable`, `is_stale`, the registry handle, redaction and display code: easy members.
- The authority's other handlers, subscriptions, sessions, SQL execution, key files, metrics, configuration and the dashboard.
