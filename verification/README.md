# Verified model of the VPN tunnel

A Dafny model of a WireGuard-style VPN daemon written in C and of the self-contained hard code shipped
with it: the anti-replay filter, the peer table and event loop, the Noise-IK-style handshake, the wire
format and cryptographic routing of the daemon; a second replay window, a longest-prefix match and a
streaming SHA-256 from its exercises; and Argon2 memory filling, secretstream, Base64, Argon2 hash
strings and padding from the bundled libsodium.

`dafny verify dfyconfig.toml` checks the whole project.

## How it is built

Code that computes a value is a function.  Code that changes things step by step is a class or a method
with loops, proved equal to such a function or to a stated property; lemmas then say what the function
means.  Each main result relates two independent descriptions:

- **Replay** (`Replay`, `RingWindow`): the 2048-bit shifting bitmap and the ring buffer are both windows
  onto one object, the set of committed counters.  The verdict, order independence and the bisimulation
  of the two implementations follow.
- **Daemon** (`Peers`, `Daemon`, `DaemonRuns`, `Sessions`, `Erasure`, `Roaming`, `Freshness`, `Delivery`,
  `Tunnel`, `EventLoop`): the poll loop is a state machine whose events carry clock, randomness and source
  endpoint, and whose outputs, issued indices, committed counters and encryptions go to a trace.  An invariant
  of every run gives uniqueness of indices, counters and nonces with their exact limits (2^32 and 2^64),
  erasability of rejected events, authorised TUN output, roaming, and when a copied initiation is taken again.
  `Delivery` follows one session through arbitrary runs of two daemons, from the current slot to the previous
  one and with any other traffic, and says exactly which packets come out, each once.  `Tunnel` puts handshake,
  wire format and data path together: no key or index is assumed to match beforehand.  `EventLoop` is the same
  loop on a table updated in place.  Session serial numbers, the issue count and the origin of a data packet
  are history variables that no branch reads.
- **Handshake** (`Handshake`, `Noise`, `SymbolicSuite`, `PlainSuite`, `Kdf`): the four operations are proved, step by
  step, to compute a key chain and a transcript hash, and separately to be the two messages of the Noise pattern IK,
  read and written token by token.  Completeness needs only that honest encryption decrypts and Diffie-Hellman
  commutes; agreement needs that nothing collides and only sealed values open.  The laws are preconditions; a term
  algebra satisfies all of them together (`SymbolicSuite.TermsAreIdeal`), in which the messages are also written
  out, and plain byte strings satisfy those of completeness and delivery with all field lengths
  (`PlainSuite.PlainIsLawful`).
- **Wire format** (`LittleEndian`, `Wire`) and **CIDR blocks** (`Routing`): printers and parsers undo each
  other; mask tests are interval tests.
- **Argon2** (`Argon2`, `Argon2Equations`, `Argon2Schedule`, `Argon2Loops`): what a block may refer to, and from that,
  that memory is never read before it is written and that the lanes of a slice can run in any order, segment by
  segment.  All lanes share one buffer of address words; a block-by-block interleaving is right exactly when no
  lane overwrites it while another still fills from it.  The sequential loops over the flat array compute the same
  memory, and `Argon2Equations` describes that memory without any order of computation: it is the one solution of
  the block equations of RFC 9106.
- **secretstream** (`SecretStream`, `SecretStreamLoops`), **Base64** (`Base64`, `Base64Loops`), **Argon2
  strings** (`Argon2String`, `Argon2StringLoops`), **padding** (`Pad`), **SHA-256** (`Sha256`).
- `Words` has the unsigned C words as ranges of integers and the C operators on them; wrap-around is
  written out wherever the code can wrap.

## Where code and documentation differ

The model follows the code.

- README.md:77 names RFC 6479; the code shifts the whole bitmap, like the receive window of section 3.4.3
  of RFC 4303.
- README.md:101 says that a failing MAC1 drops an initiation; MAC1 is computed but never compared.
- The data printer accepts any payload that fits its buffer; the parser stops at 1440 bytes.  The round
  trip holds exactly up to there (`Wire.DataRoundTrip`).
- Where `char` is signed, the Base64 decoder reads every character outside 7-bit ASCII as digit 63, so
  encoding after decoding gives the text back exactly for ASCII (`Base64.EncodeDecode`,
  `Base64.HighCharactersDoNotReprint`).
- The secretstream padding after the ciphertext is `mlen % 16` bytes, not the number that would complete
  a 16-byte block; what is authenticated can still be read back unambiguously
  (`SecretStream.MacInputInjective`).
- argon2-core.h:89-93 describes the instance as what each thread works from; its buffer of address words is shared by
  all lanes, so the lanes of a data-independent slice can be interleaved only between segments
  (`Argon2Schedule.InterleavingIsExact`, `Argon2Schedule.GenerateFirstFails`).
- The handshake log calls an initiation replayed when its stamp is not newer than the last handshake; that time
  is read from the responder's clock, so a copy is taken again while the initiator's clock is ahead
  (`Freshness.CopyAtOnce`, `Tunnel.CopiesReplace`).
- `sodium_pad` takes any block size; beyond 2^56 bytes of padding its masks before the barrier are no longer all
  zero (`Pad.MasksAreExact`).
- A digit in the Base64 ignore string is not ignored among the digits (`Base64.IgnoringIsStripping`).
- The Argon2 string encoder reports a fixed piece that does not fit as an error, but aborts the program when
  a Base64 field does not fit (`Argon2String.EncodeString`).

## Model

| member | source | states |
|---|---|---|
| `Replay.ReachableRepresents` | src/replay.c:106-152 | after every sequence of updates the bitmap is the window onto the set of committed counters: fresh iff none, `last_counter` is the maximum, bit k is set iff `last_counter` - k was committed |
| `Replay.ReachableVerdict` | src/replay.c:68-93 | in every reachable state the check accepts c iff nothing was committed, or c exceeds the maximum, or c is unseen and less than 2048 behind it |
| `Replay.AdmitsDecides` | src/replay.c:68-93 | for any filter that represents a set, the check decides acceptability, and accepts no committed counter |
| `Replay.CommitAdds` | src/replay.c:106-152 | an update adds its counter to the represented set in all four cases: first packet, slide, jump reset, out of order or stale |
| `Replay.OrderIndependent` | src/replay.c:106-152 | two update sequences with the same set of counters, in any order and with repeats, end in the same counter and the same 32 words |
| `Replay.Canonical` | src/replay.c:106-152 | a committed set has exactly one filter state |
| `Replay.CommitChanges` | src/replay.c:68-152 | committing an accepted counter never leaves the filter unchanged |
| `Replay.MarkedAfterShift` | src/replay.c:119-135 | the two-word shift moves bit k - diff to bit k and fills with zeros, for every word and bit offset |
| `Replay.ReplayFilter.constructor` | src/replay.c:43-47 | a new filter is the fresh one |
| `Replay.ReplayFilter.Clear` | src/replay.c:43-47 | clears counter and all words in place |
| `Replay.ReplayFilter.Check` | src/replay.c:68-93 | the word and bit test returns the verdict and decides acceptability for every set the filter represents |
| `Replay.ReplayFilter.Update` | src/replay.c:106-152 | updates in place as the value function says, and so adds the counter to every set the filter represents |
| `Replay.ReplayFilter.Slide` | src/replay.c:119-135 | the word loop through a second bitmap computes the shifted bitmap |
| `Replay.ReplayFilter.Advance` | src/replay.c:116-142 | a new highest counter slides or resets the window and sets bit 0 |
| `RingWindow.ReceiveCommits` | exercises/Replaywindow.c:22-46 | one received counter is accepted iff it is new and inside the window of any size, and exactly accepted counters join the represented set |
| `RingWindow.SameVerdicts` | exercises/Replaywindow.c:22-46 | with window 2048 the ring and the shifting bitmap give the same verdict at every step of every counter sequence |
| `RingWindow.SameVerdictsFrom` | exercises/Replaywindow.c:22-46 | the bisimulation: from any two states that represent the same set |
| `RingWindow.ClearedSlot` | exercises/Replaywindow.c:22-34 | the clearing loop forgets exactly the counters that leave the window |
| `RingWindow.Window.constructor` | exercises/Replaywindow.c:8-17 | an empty ring of the given size |
| `RingWindow.Window.Recv` | exercises/Replaywindow.c:19-46 | the in-place receive step equals the value function and keeps the ring the window onto what was accepted |
| `DaemonRuns.StepKeeps` | src/main.c:151-264 | every event keeps the invariant tying sessions, filters, counters and indices to the trace |
| `DaemonRuns.RunKeeps` | src/main.c:140-265 | every run from a configured table satisfies the invariant |
| `DaemonRuns.RunKeepsFrom` | src/main.c:140-265 | so does every run from any state that satisfies it, with the trace continued |
| `DaemonRuns.IndicesRepeatOnlyAfterWrap` | src/main.c:168-168 | issued local indices are pairwise different iff at most 2^32 were issued |
| `DaemonRuns.LookupIsUnique` | src/peer.c:110-130 | up to 2^32 issued indices, a session with a nonzero index is found by that index, so it is the only one |
| `DaemonRuns.LookupFinds` | src/peer.c:110-130 | the same in any state that satisfies the invariant, for a session in either slot |
| `DaemonRuns.NoPairCommittedTwice` | src/main.c:189-207 | up to 2^32 issued indices, no (local index, counter) pair is committed twice in a run, also after the session became the previous one |
| `DaemonRuns.CounterRepeatsOnlyAfterWrap` | src/main.c:246-252 | a session repeats no sending counter iff it encrypts at most 2^64 times |
| `DaemonRuns.NonceRepeatsOnlyAfterWrap` | src/main.c:246-262 | in every run a session repeats no 12-byte nonce iff it encrypts at most 2^64 times, failed and oversized sends included |
| `DaemonRuns.RotateKeeps` | src/peer.c:163-187 | moving a session to the previous slot and installing a fresh one keeps the invariant |
| `DaemonRuns.DataKeeps` | src/main.c:189-228 | accepting a data packet keeps the invariant |
| `DaemonRuns.InitKeeps` | src/main.c:158-187 | accepting an initiation keeps the invariant, whether or not a response can be built |
| `DaemonRuns.TunKeeps` | src/main.c:235-264 | sending keeps the invariant, whatever happens to the encrypted packet |
| `Daemon.SourceIp` | src/main.c:211-214 | bytes 12 to 15 of the packet are the big-endian form of the address |
| `Daemon.DestIp` | src/main.c:239-242 | bytes 16 to 19 are |
| `LittleEndian.BEUnique` | src/main.c:211-242 | and those of no other address |
| `Sessions.StepKeepsIdentity` | src/peer.c:163-187 | no event changes the peer, the two indices or the two keys of a session, also when it moves to the previous slot |
| `Sessions.RunKeepsIdentity` | src/main.c:140-265 | nor does any run |
| `Sessions.CameFrom` | src/peer.c:163-187 | a session in the table after an event was there before, in one of the two slots of its peer, unless the event opened it |
| `Erasure.RejectedAreErasable` | src/main.c:151-230 | deleting every rejected event from any run leaves the final table and the whole output trace unchanged |
| `Erasure.IdleIffRejected` | src/main.c:151-264 | in a reachable state an event changes the state iff it is not rejected |
| `Erasure.OtherTypesRejected` | src/main.c:155-189 | handshake responses and unknown types are always rejected |
| `Erasure.TunWriteIsAuthorised` | src/main.c:197-218 | a TUN write decrypted under a session of the named peer and its source is in that peer's AllowedIPs |
| `Erasure.RunWritesAuthorised` | src/main.c:209-218 | over every run, the address in bytes 12 to 15 of every packet written to TUN is in the AllowedIPs its peer was configured with |
| `Erasure.RunWritesInBlocks` | src/main.c:209-218 | with registered peers: it lies in the interval of one of the blocks configured for its peer |
| `Erasure.TunGoesByDestination` | src/main.c:235-250 | a packet from TUN is encrypted for the session of the first peer with a block around the address in its bytes 16 to 19, and goes nowhere if there is none or it has no session |
| `Erasure.PolicyKept` | src/main.c:140-265 | no run changes a peer's key or AllowedIPs |
| `Roaming.StepRoams` | src/main.c:180-207 | an event moves a peer's endpoint to its source iff it authenticates that peer |
| `Roaming.EndpointFollows` | src/peer.c:145-161 | after every run each endpoint is the source of the last datagram that authenticated its peer, or the configured one |
| `Roaming.SendsGoToLastSeen` | src/main.c:179-260 | responses go to the source of the answered initiation, data to where the routed peer was last seen |
| `Delivery.SenderEmits` | src/main.c:235-264 | over every run of the sender, whatever else it receives, answers, sends or rotates: a datagram goes out with number n on a session iff it is the carrier of the n-th packet put on that session, counted on from where it stood |
| `Delivery.CarrierArrives` | src/main.c:189-228 | a carrier for a session in either slot is committed, and written iff its source is allowed, when its counter is acceptable; otherwise it is rejected |
| `Delivery.ReceiverDelivers` | src/main.c:151-264 | over every run of the receiver in which the session commits nothing but carriers, with any other traffic, handshakes and rotation in between and from any committed set on, the TUN output of the session is exactly the packets of the delivered counters, in order |
| `Delivery.DeliveredIsInTime` | src/replay.c:68-152 | the delivered counters are exactly the first arrivals less than 2048 behind every counter committed or arrived before |
| `Delivery.TimelyIsExactlyOnce` | src/replay.c:68-152 | every counter that arrives is delivered exactly once, at its first arrival, iff no first arrival is 2048 or more behind an earlier counter |
| `Delivery.FirstArrivalsAre` | src/replay.c:68-152 | the first arrivals are exactly the counters that arrived and were not committed before, each once |
| `Delivery.EndToEnd` | src/main.c:151-264 | from TUN to TUN between two sessions with crosswise keys and indices, in the middle of whatever else both daemons do: the receiving session writes exactly the packets whose first arrival is in time, each once and byte for byte, and that is all that arrive iff the arrivals are timely |
| `EventLoop.VpnDaemon.Poll` | src/main.c:140-265 | the loop on the table updated in place does what the step function says, for every event sequence |
| `EventLoop.VpnDaemon.OnUdp` | src/main.c:151-230 | the inbound branch as one step |
| `EventLoop.VpnDaemon.OnHandshakeInit` | src/main.c:158-187 | the initiation branch |
| `EventLoop.VpnDaemon.FindByStatic` | src/handshake.c:194-198 | the table's search by key is the lookup the handshake is specified with |
| `EventLoop.VpnDaemon.Respond` | src/main.c:167-186 | index, response, session, endpoint and send in the order of the code |
| `EventLoop.VpnDaemon.OnTransport` | src/main.c:189-228 | the data and keepalive branch |
| `EventLoop.VpnDaemon.OnTunReadable` | src/main.c:235-264 | the outbound branch |
| `Tunnel.OpeningAccepted` | src/main.c:158-166 | an initiation as the handshake code sends it, through the wire format, is accepted with the initiator's chaining key and hash |
| `Tunnel.DaemonAnswers` | src/main.c:158-187 | the daemon answers it to its source, and the initiator reads from the answer the new session's index and its keys crosswise |
| `Tunnel.AnswerLayout` | src/main.c:167-186 | the bytes of the answer: type 2, the new index, the index answered, the computed fields and an empty second MAC |
| `Tunnel.SessionOpens` | src/main.c:158-193 | in every run with indices left, the daemon then finds that session, and only it, under that index; nothing is committed or sent on it, and its keys match crosswise |
| `Tunnel.TunnelDelivers` | src/main.c:151-264 | after the handshake, over every run in which the session commits nothing but carriers, other peers, replies and rekeys included: TUN gets exactly the initiator's packets whose first arrival is in time, each once, and all that arrive iff the arrivals are timely; no key or index is assumed to match |
| `Tunnel.TunnelAnswers` | src/main.c:235-264 | in the other direction, over every run: the session's data packets are exactly those put on it from TUN, numbered from 0, under the key and index the initiator expects |
| `Freshness.LaterCopy` | src/handshake.c:224-229 | in every later state of every run a copy of an accepted initiation is accepted iff that peer's last handshake is 0 or before its stamp |
| `Freshness.CopyAtOnce` | src/peer.c:184-184 | right after its answer a copy is accepted again iff the initiator's clock was ahead of the daemon's |
| `Freshness.NeverAgain` | src/handshake.c:224-229 | with clocks that do not run backwards, an initiation not ahead of the daemon is never accepted again, in any run |
| `Tunnel.CopiesReplace` | src/peer.c:163-187 | an honest initiation that is ahead opens a session at every copy: after three the first session has left the table |
| `Peers.FindSession` | src/peer.c:110-130 | finds an established session with the index iff there is one and the index is not 0 |
| `Peers.FindSessionFrom` | src/peer.c:113-127 | the first such session in table order, current before previous |
| `Peers.FindByDest` | src/peer.c:132-143 | the first peer whose AllowedIPs contain the address, or none iff no peer's do |
| `Peers.PeerTable.constructor` | src/peer.c:28-33 | an empty table whose next index is 1 |
| `Peers.CutName` | src/peer.c:57-57 | a name keeps its first 63 characters |
| `Peers.PeerTable.Add` | src/peer.c:35-66 | appends a blank peer, its name cut to the buffer, iff there is room and the key is new; keys stay pairwise different |
| `Peers.PeerTable.AddAllowedIp` | src/peer.c:68-88 | adds exactly the addresses a with a / 2^(32 - prefix) = ip / 2^(32 - prefix) to what the peer may use and changes nothing else, or refuses with the right error |
| `Peers.PeerTable.AllowsSourceIp` | src/peer.c:90-98 | true iff some allowed block contains the address |
| `Peers.PeerTable.FindByPubkey` | src/peer.c:100-108 | the first peer with the key, or none iff no peer has it |
| `Peers.PeerTable.FindByIndex` | src/peer.c:110-130 | the scanning loop computes the lookup |
| `Peers.PeerTable.FindByDestIp` | src/peer.c:132-143 | the scanning loop computes the lookup |
| `Peers.PeerTable.UpdateEndpoint` | src/peer.c:145-161 | the endpoint becomes the given one; roamed iff it was different |
| `Peers.PeerTable.InitSession` | src/peer.c:163-187 | an established session becomes the previous one, which otherwise stays; the current one has the given indices and keys, counter 0 and a filter that admits everything |
| `Peers.PeerTable.DestroySession` | src/peer.c:189-196 | blanks the session unless there is none |
| `Peers.PeerTable.IssueIndex` | src/main.c:168-168 | returns the next index and increments it with 32-bit wrap-around |
| `Handshake.CreateInitiation` | src/handshake.c:66-146 | step by step the message and state are those of the key chain over [E, dh1, dh2] and the transcript over [S_r, E, static, timestamp] |
| `Handshake.ConsumeInitiation` | src/handshake.c:148-235 | step by step the responder computes the same chain and transcript, with the error of the first failing check |
| `Handshake.CreateResponse` | src/handshake.c:237-315 | step by step the response and the transport keys from the extended chain |
| `Handshake.ConsumeResponse` | src/handshake.c:317-394 | step by step the initiator's verdict and its keys |
| `Noise.InitiationIsFirst` | src/handshake.c:49-146 | the initiation is the Noise message e, es, s, ss with the time stamp as payload, from the two start values and the responder key; it fails iff a Diffie-Hellman does |
| `Noise.ConsumedIsFirst` | src/handshake.c:148-235 | consuming it is reading that message, finding its sender and checking its clock, with the right error otherwise |
| `Noise.ResponseIsSecond` | src/handshake.c:237-315 | the response is the message e, ee, se with an empty payload, and the transport keys split its chaining key |
| `Noise.ResponseConsumedIsSecond` | src/handshake.c:317-394 | consuming it is reading that message under the own index, with the split keys the other way round |
| `SymbolicSuite.InitiationTerms` | src/handshake.c:61-146 | all fields and the state of an initiation written out as terms over the two start values |
| `SymbolicSuite.ResponseTerms` | src/handshake.c:237-315 | likewise the response and the transport keys |
| `Handshake.AsTime` | src/handshake.c:224-225 | the stamp as a signed 64-bit number |
| `Handshake.InitiationAccepted` | src/handshake.c:66-235 | an unmodified initiation is accepted iff the initiator is known and the timestamp is newer, and then both hold the same chaining key and hash |
| `Handshake.ConsumedIff` | src/handshake.c:148-235 | any initiation is accepted iff it decrypts to the key of a known peer and a stamp newer than that peer's last handshake |
| `Handshake.ResponseCompletes` | src/handshake.c:237-394 | an unmodified response is accepted, with the responder's index and crosswise keys |
| `Handshake.HandshakeCompletes` | src/handshake.c:66-394 | the whole unmodified handshake succeeds for all keys, ephemerals and indices |
| `Handshake.ResponseAgreement` | src/handshake.c:237-394 | accepting a tag that some response call produced on any inputs implies the same chaining key, transcript hash, ephemeral and crosswise keys |
| `Handshake.InitiationAgreement` | src/handshake.c:66-235 | accepting a timestamp field that some initiation call produced implies it was addressed here and all its fields and state agree |
| `Handshake.HandshakeAgreement` | src/handshake.c:66-394 | both together: same S_r, E_i, encrypted static, encrypted timestamp, E_r, the initiator's own key, and crosswise keys |
| `Handshake.ChainInjective` | src/kdf.c:75-200 | chains of equal length end in the same key only from the same start and inputs |
| `Handshake.TranscriptInjective` | src/handshake.c:49-59 | transcripts of equal length have the same hash only from the same start and items |
| `Kdf.Kdf1` | src/kdf.c:75-100 | the first output from the key's old value, also when it is written over the key |
| `Kdf.Kdf2` | src/kdf.c:125-156 | both outputs from the key's old value, whichever arrays alias the key |
| `Kdf.Kdf3` | src/kdf.c:175-200 | all three outputs, likewise |
| `Kdf.KdfIsSchedule` | src/kdf.c:75-156 | on bytes these are the two key-schedule functions of the handshake |
| `Kdf.KdfIsExpand` | src/kdf.c:75-200 | the outputs are those of extract and expand as in RFC 5869 |
| `Wire.InitFields` | src/packet.c:209-227 | 148 bytes: type 1, three zeros and every field at its offset |
| `Wire.RespFields` | src/packet.c:287-305 | 92 bytes: type 2, three zeros and every field at its offset |
| `Wire.DataFields` | src/packet.c:443-480 | type 3, or 4 without payload, three zeros and every field at its offset |
| `Wire.InitRoundTrip` | src/packet.c:154-227 | parsing a printed initiation gives it back |
| `Wire.RespRoundTrip` | src/packet.c:250-305 | parsing a printed response gives it back |
| `Wire.DataRoundTrip` | src/packet.c:351-480 | parsing a printed data message gives it back iff the payload is at most 1440 bytes, else it is refused as too long |
| `Wire.InitReprint` | src/packet.c:154-227 | accepted iff length and type fit; reprinting gives the buffer with the reserved bytes zeroed |
| `Wire.RespReprint` | src/packet.c:250-305 | likewise for responses |
| `Wire.DataReprint` | src/packet.c:351-480 | likewise for data, with the type byte made canonical by payload length |
| `Wire.SerializeInit` | src/packet.c:209-227 | writes exactly the printed bytes in place, or nothing when there is no room |
| `Wire.SerializeResp` | src/packet.c:287-305 | likewise |
| `Wire.SerializeData` | src/packet.c:443-480 | likewise, for any payload length that fits the buffer |
| `LittleEndian.FromToLE` | src/packet.h:55-89 | reading back n written bytes gives the number |
| `LittleEndian.ToFromLE` | src/packet.h:55-89 | writing back the number read gives the bytes |
| `LittleEndian.OrBytesIsFromLE` | src/packet.h:55-78 | the shift-and-or expression of the readers is the little-endian value |
| `LittleEndian.Le32Write` | src/packet.h:62-67 | stores the four bytes and no others |
| `LittleEndian.Le64Write` | src/packet.h:80-89 | stores the eight bytes and no others |
| `LittleEndian.NonceInjective` | src/crypto.c:167-179 | different counters give different nonces |
| `LittleEndian.NonceLayout` | src/crypto.c:167-179 | four zero bytes and eight that read back as the counter |
| `LittleEndian.FormatNonce` | src/crypto.c:167-179 | four zero bytes and the counter |
| `Routing.Mask` | src/routing.c:97-104 | the shifted mask is 2^32 - 2^(32 - prefix), also for prefixes 0 and 32 |
| `Routing.Parse` | src/routing.c:92-110 | refused iff the prefix is outside 0..32; otherwise a well-formed block with that prefix that matches exactly the addresses whose first bits are those of the address |
| `Routing.MatchIsInterval` | src/routing.c:119-122 | the mask test holds iff the address lies in [network, network + 2^(32 - prefix)) |
| `Routing.NestedOrDisjoint` | src/routing.c:119-122 | any two blocks are nested or disjoint |
| `Routing.LongestIsMostSpecific` | exercises/routing.c:75-85 | the first longest matching prefix is the first route inside every matching route |
| `Routing.Lookup` | exercises/routing.c:75-85 | the loop returns that route, or -1 iff no route matches |
| `Argon2.ReferencesAreSafe` | deps/libsodium/src/libsodium/crypto_pwhash/argon2/argon2-core.h:139-208 | for every position and random word the reference lies in its lane, is finished, is neither the block nor its predecessor, and in another lane is outside the current slice |
| `Argon2.AreaIs` | deps/libsodium/src/libsodium/crypto_pwhash/argon2/argon2-core.h:157-186 | the reference area is never empty and its 32-bit computation never wraps |
| `Argon2.RelativeInArea` | deps/libsodium/src/libsodium/crypto_pwhash/argon2/argon2-core.h:188-193 | the skewed 64-bit mapping stays inside the area; with x the high half of the squared word it is the high half of area * x before the last block |
| `Argon2Equations.CandidatesAre` | deps/libsodium/src/libsodium/crypto_pwhash/argon2/argon2-core.h:157-207 | area size and start position are those of the listed blocks of section 3.4.2 of RFC 9106: three finished segments, oldest first, and the own segment so far |
| `Argon2Equations.IndexAlphaPicks` | deps/libsodium/src/libsodium/crypto_pwhash/argon2/argon2-core.h:139-208 | the index is picked from that list as section 3.4.2 of RFC 9106 says |
| `Argon2Equations.PassFollows` | deps/libsodium/src/libsodium/crypto_pwhash/argon2/argon2-fill-block-ref.c:185-233 | after every pass, every block is the mix of its predecessor and the picked block of the chosen lane, from the second pass on with its old content, each taken before or after the pass |
| `Argon2Equations.PassIsSolution` | deps/libsodium/src/libsodium/crypto_pwhash/argon2/argon2-core.c:225-245 | the memory after a pass is the one solution of these equations (with the first two blocks kept in the first pass), whatever the order of computation |
| `Argon2Equations.InputWords` | deps/libsodium/src/libsodium/crypto_pwhash/argon2/argon2-fill-block-ref.c:118-131 | pass, lane, slice, size, passes, type and counter, in this order, and zeros |
| `Argon2Equations.AddressIs` | deps/libsodium/src/libsodium/crypto_pwhash/argon2/argon2-fill-block-ref.c:111-141 | address word i is word i mod 128 of that input with counter i / 128 + 1, filled twice over zeros |
| `Argon2.AloneMoves` | deps/libsodium/src/libsodium/crypto_pwhash/argon2/argon2-fill-block-ref.c:185-233 | a lane writes only its own part of the slice |
| `Argon2.AloneSees` | deps/libsodium/src/libsodium/crypto_pwhash/argon2/argon2-fill-block-ref.c:185-233 | from its own address words, what a lane computes does not depend on what other lanes do in the slice |
| `Argon2.FirstPassForgets` | deps/libsodium/src/libsodium/crypto_pwhash/argon2/argon2-core.c:225-245 | two memories that agree on the first two blocks of each lane agree on every block written so far: nothing uninitialised is read |
| `Argon2.StartIsForgotten` | deps/libsodium/src/libsodium/crypto_pwhash/argon2/argon2.c:76-78 | from the first pass on the whole memory depends on those blocks only |
| `Argon2Schedule.AfterIsMerge` | deps/libsodium/src/libsodium/crypto_pwhash/argon2/argon2-fill-block-ref.c:165-233 | with the one address buffer all lanes share: as long as every block was filled from its own lane's words, each lane is as if it had worked alone |
| `Argon2Schedule.ScheduleIndependent` | deps/libsodium/src/libsodium/crypto_pwhash/argon2/argon2-core.c:237-244 | every undisturbed block-by-block interleaving of a slice gives the same memory; in a data-dependent slice that is every interleaving |
| `Argon2Schedule.InterleavingIsExact` | deps/libsodium/src/libsodium/crypto_pwhash/argon2/argon2-fill-block-ref.c:165-205 | an interleaving gives the right memory for every mixing and every start iff no block is filled from another lane's words, except a lane's very first, which has only one block to refer to |
| `Argon2Schedule.DisturbedDiffers` | deps/libsodium/src/libsodium/crypto_pwhash/argon2/argon2-fill-block-ref.c:165-205 | any disturbed interleaving has a mixing and a memory for which it ends wrong |
| `Argon2Schedule.GenerateFirstFails` | deps/libsodium/src/libsodium/crypto_pwhash/argon2/argon2-fill-block-ref.c:165-205 | two lanes that both generate before filling are such a schedule |
| `Argon2Schedule.SegmentOrder` | deps/libsodium/src/libsodium/crypto_pwhash/argon2/argon2-core.c:237-244 | running whole segments one after the other, in any order of the lanes, gives the same memory in every slice |
| `Argon2Schedule.FillIndependent` | deps/libsodium/src/libsodium/crypto_pwhash/argon2/argon2.c:76-78 | so does every choice of undisturbed schedules over all slices of all passes |
| `Argon2Loops.FillSegment` | deps/libsodium/src/libsodium/crypto_pwhash/argon2/argon2-fill-block-ref.c:143-234 | the loop with running and rotating offsets over the flat array fills exactly the lane's segment, and leaves its words in the shared buffer |
| `Argon2Loops.FillBlock` | deps/libsodium/src/libsodium/crypto_pwhash/argon2/argon2-fill-block-ref.c:187-232 | one iteration stores the new block at its place and nothing else |
| `Argon2Loops.GenerateAddresses` | deps/libsodium/src/libsodium/crypto_pwhash/argon2/argon2-fill-block-ref.c:111-141 | the running input block with its counter leaves in entry i word i mod 128 of the block, filled twice from zero, for counter i / 128 + 1 |
| `Argon2Loops.FillSlice` | deps/libsodium/src/libsodium/crypto_pwhash/argon2/argon2-core.c:237-244 | running the lanes one after the other gives the schedule-independent slice |
| `Argon2Loops.FillMemoryBlocks` | deps/libsodium/src/libsodium/crypto_pwhash/argon2/argon2-core.c:225-245 | one pass is four slices |
| `Argon2Loops.FillMemory` | deps/libsodium/src/libsodium/crypto_pwhash/argon2/argon2.c:76-78 | the pass loop gives the schedule-independent memory |
| `Argon2Loops.Sizing` | deps/libsodium/src/libsodium/crypto_pwhash/argon2/argon2.c:44-62 | equal segments of at least two blocks, within the memory asked for and losing less than four blocks per lane, with no 32-bit overflow |
| `Argon2String.DecodePrinted` | deps/libsodium/src/libsodium/crypto_pwhash/argon2/argon2-encoding.c:93-306 | parsing a printed string recovers costs, lanes, salt and output of every valid context |
| `Argon2String.PrintIs` | deps/libsodium/src/libsodium/crypto_pwhash/argon2/argon2-encoding.c:240-306 | the printed text, literal by literal, with version 19 |
| `Argon2String.ValidateIs` | deps/libsodium/src/libsodium/crypto_pwhash/argon2/argon2-core.c:248-369 | valid iff output at least 16, salt at least 8, lanes and threads 1 to 2^24 - 1, memory at least 8 per lane and one pass |
| `Argon2String.OtherTypeRefused` | deps/libsodium/src/libsodium/crypto_pwhash/argon2/argon2-encoding.c:163-170 | a printed string is refused under the other type, though one type name is a prefix of the other |
| `Argon2String.OtherVersionRefused` | deps/libsodium/src/libsodium/crypto_pwhash/argon2/argon2-encoding.c:172-178 | a string of any version but 19 is refused as such |
| `Argon2String.AcceptedReprints` | deps/libsodium/src/libsodium/crypto_pwhash/argon2/argon2-encoding.c:93-209 | an accepted string is the print of what was parsed iff it is 7-bit ASCII |
| `Argon2String.WrittenIff` | deps/libsodium/src/libsodium/crypto_pwhash/argon2/argon2-encoding.c:240-306 | a string is written iff the context is valid and it fits with its final zero |
| `Argon2String.VerifyHashed` | deps/libsodium/src/libsodium/crypto_pwhash/argon2/argon2.c:86-271 | a password verifies against an encoded hash iff it hashes to the same output under the same costs and salt, and never under the other type; one of 2^32 bytes or more is refused |
| `Argon2String.NumberPrinted` | deps/libsodium/src/libsodium/crypto_pwhash/argon2/argon2-encoding.c:38-67 | a printed number is read back and the cursor stops behind it |
| `Argon2String.NumberIs` | deps/libsodium/src/libsodium/crypto_pwhash/argon2/argon2-encoding.c:38-67 | a number is refused iff it has no digits, a leading zero before others, or is 2^64 or more |
| `Argon2String.NumberReprints` | deps/libsodium/src/libsodium/crypto_pwhash/argon2/argon2-encoding.c:38-67 | an accepted number is in the one minimal form |
| `Argon2StringLoops.DecodeDecimal` | deps/libsodium/src/libsodium/crypto_pwhash/argon2/argon2-encoding.c:38-67 | the loop refuses exactly missing digits, leading zeros and values above ULONG_MAX |
| `Argon2StringLoops.U32ToString` | deps/libsodium/src/libsodium/crypto_pwhash/argon2/argon2-encoding.c:213-226 | the ten-character buffer filled from the end holds the whole decimal form |
| `Argon2StringLoops.EncodeContext` | deps/libsodium/src/libsodium/crypto_pwhash/argon2/argon2-encoding.c:240-306 | piece by piece into the caller's buffer against the room left: the printed string with zeros to the end of the buffer, or the right failure |
| `Argon2StringLoops.ContextStruct.Decode` | deps/libsodium/src/libsodium/crypto_pwhash/argon2/argon2-encoding.c:93-209 | the members filled in place are those of the parser, or its error code |
| `Base64.DecodeEncode` | deps/libsodium/src/libsodium/sodium/codecs.c:179-335 | decoding an encoding gives back every byte string in all four variants and finds its end, whatever follows, unless no padding ends it and another digit follows |
| `Base64.EncodeGroups` | deps/libsodium/src/libsodium/sodium/codecs.c:179-240 | one, two and three bytes written out, with = for missing digits |
| `Base64.TestVectors` | deps/libsodium/src/libsodium/sodium/codecs.c:179-240 | the first vectors of section 10 of RFC 4648 |
| `Base64.EncodeDecode` | deps/libsodium/src/libsodium/sodium/codecs.c:179-335 | encoding what was decoded gives back the text read iff that text is 7-bit ASCII |
| `Base64.HighCharactersDoNotReprint` | deps/libsodium/src/libsodium/sodium/codecs.c:126-136 | four characters outside ASCII are accepted and do not reprint |
| `Base64.IgnoringIsStripping` | deps/libsodium/src/libsodium/sodium/codecs.c:242-335 | decoding with an ignore string is, for every text, decoding what is left without the ignored characters, with the same end, iff no digit is ignored |
| `Base64.IgnoringNothing` | deps/libsodium/src/libsodium/sodium/codecs.c:267-335 | without an ignore string it is the plain decoder |
| `Base64.DecodeStrewn` | deps/libsodium/src/libsodium/sodium/codecs.c:179-335 | an encoding with ignored characters strewn in anywhere is read back and used up |
| `Base64.BytesOfDigits` | deps/libsodium/src/libsodium/sodium/codecs.c:206-230 | the six-bit digits of section 4 of RFC 4648 determine the bytes |
| `Base64.DigitsOfBytes` | deps/libsodium/src/libsodium/sodium/codecs.c:284-312 | digits with a clean tail are determined by their bytes |
| `Base64.ByteToCharIsChar` | deps/libsodium/src/libsodium/sodium/codecs.c:110-145 | the branch-free expression is the alphabet of section 4 or 5 of RFC 4648 |
| `Base64.CharToByteIsValue` | deps/libsodium/src/libsodium/sodium/codecs.c:110-157 | the branch-free inverse is exact on ASCII, and 63 on all other signed characters |
| `Base64Loops.BinToBase64` | deps/libsodium/src/libsodium/sodium/codecs.c:179-240 | the accumulator loop writes the encoding, its padding and zeros to the end of the buffer |
| `Base64Loops.Base64ToBin` | deps/libsodium/src/libsodium/sodium/codecs.c:267-335 | the accumulator loop with its ignore string stores exactly the decoded bytes and the end, or refuses exactly when the decoder does or the whole text was wanted and is not used up |
| `Base64Loops.SkipPadding` | deps/libsodium/src/libsodium/sodium/codecs.c:242-265 | the loop finds where the padding ends among ignored characters, or that it is not there |
| `Base64.PadsEndIs` | deps/libsodium/src/libsodium/sodium/codecs.c:242-265 | the padding is there iff the text without ignored characters starts with it |
| `Base64Loops.EncodedLength` | deps/libsodium/src/libsodium/sodium/codecs.c:193-202 | the length computed up front is digits plus padding |
| `SecretStream.PullPush` | deps/libsodium/src/libsodium/crypto_secretstream/xchacha20poly1305/secretstream_xchacha20poly1305.c:110-259 | pulling a pushed record returns message and tag and the same next state |
| `SecretStream.PushAdvances` | deps/libsodium/src/libsodium/crypto_secretstream/xchacha20poly1305/secretstream_xchacha20poly1305.c:135-176 | after a push: bit 1 of the tag or a counter about to wrap replaces key and inner nonce by their encryption under the next nonce and sets the counter to 1; otherwise the key stays and the nonce is the next one |
| `SecretStream.PushUsesOneStream` | deps/libsodium/src/libsodium/crypto_secretstream/xchacha20poly1305/secretstream_xchacha20poly1305.c:122-162 | a record is made from one key stream without using a byte twice: authenticator key, tag block, message |
| `SecretStream.XorBytesBits` | deps/libsodium/src/libsodium/crypto_secretstream/xchacha20poly1305/secretstream_xchacha20poly1305.c:163-164 | exclusive or, bit by bit |
| `SecretStream.Lockstep` | deps/libsodium/src/libsodium/crypto_secretstream/xchacha20poly1305/secretstream_xchacha20poly1305.c:82-259 | receiving any sequence of pushes and rekeys gives it back in order and leaves equal states |
| `SecretStream.RefusedAreErasable` | deps/libsodium/src/libsodium/crypto_secretstream/xchacha20poly1305/secretstream_xchacha20poly1305.c:178-240 | refused packets can be deleted from any input without changing result or state |
| `SecretStream.LockstepThroughNoise` | deps/libsodium/src/libsodium/crypto_secretstream/xchacha20poly1305/secretstream_xchacha20poly1305.c:82-259 | lockstep holds with refused packets in between |
| `SecretStream.NoncesAreDistinct` | deps/libsodium/src/libsodium/crypto_secretstream/xchacha20poly1305/secretstream_xchacha20poly1305.c:82-176 | over every run no key epoch uses a nonce twice, counting the one a rekey consumes, through wrap-around and explicit rekeys |
| `SecretStream.EpochsAreKeyChanges` | deps/libsodium/src/libsodium/crypto_secretstream/xchacha20poly1305/secretstream_xchacha20poly1305.c:82-176 | over every run the epochs count explicit rekeys, pushes with bit 1 of the tag, and wraps |
| `SecretStream.MacInputInjective` | deps/libsodium/src/libsodium/crypto_secretstream/xchacha20poly1305/secretstream_xchacha20poly1305.c:135-155 | additional data, tag block and ciphertext can be read back from the authenticated bytes |
| `SecretStream.MacInputLayout` | deps/libsodium/src/libsodium/crypto_secretstream/xchacha20poly1305/secretstream_xchacha20poly1305.c:135-155 | where each part, each padding and each length lies |
| `SecretStream.AcceptedIsPushed` | deps/libsodium/src/libsodium/crypto_secretstream/xchacha20poly1305/secretstream_xchacha20poly1305.c:110-259 | a packet accepted with the authenticator of a pushed record is that record, unless the authenticator collides on the two |
| `SecretStream.Init` | deps/libsodium/src/libsodium/crypto_secretstream/xchacha20poly1305/secretstream_xchacha20poly1305.c:42-80 | both ends start with the derived key, counter 1 and the last eight header bytes as inner nonce |
| `SecretStream.Rekey` | deps/libsodium/src/libsodium/crypto_secretstream/xchacha20poly1305/secretstream_xchacha20poly1305.c:82-108 | after a rekey the counter is 1 |
| `SecretStreamLoops.Increment` | deps/libsodium/src/libsodium/sodium/utils.c:266-311 | the carry loop adds one modulo 256^n and touches no other byte |
| `SecretStreamLoops.IsZero` | deps/libsodium/src/libsodium/sodium/utils.c:254-264 | true iff all bytes are zero |
| `SecretStreamLoops.StreamState.constructor` | deps/libsodium/src/libsodium/crypto_secretstream/xchacha20poly1305/secretstream_xchacha20poly1305.c:42-80 | initialisation in place |
| `SecretStreamLoops.StreamState.CounterReset` | deps/libsodium/src/libsodium/crypto_secretstream/xchacha20poly1305/secretstream_xchacha20poly1305.c:26-33 | the counter bytes become 1, 0, 0, 0 and the inner nonce stays |
| `SecretStreamLoops.StreamState.Rekey` | deps/libsodium/src/libsodium/crypto_secretstream/xchacha20poly1305/secretstream_xchacha20poly1305.c:82-108 | key and inner nonce replaced in place |
| `SecretStreamLoops.StreamState.Advance` | deps/libsodium/src/libsodium/crypto_secretstream/xchacha20poly1305/secretstream_xchacha20poly1305.c:163-171 | inner nonce, counter and rekey after a message |
| `SecretStreamLoops.StreamState.Push` | deps/libsodium/src/libsodium/crypto_secretstream/xchacha20poly1305/secretstream_xchacha20poly1305.c:110-176 | output and new state of a push |
| `SecretStreamLoops.StreamState.Pull` | deps/libsodium/src/libsodium/crypto_secretstream/xchacha20poly1305/secretstream_xchacha20poly1305.c:178-259 | the record and new state, or a refusal that changes nothing |
| `Pad.SodiumPad` | deps/libsodium/src/libsodium/sodium/utils.c:740-779 | for every block size: the padded length, or a refusal or abort exactly when it does not fit; bytes behind it stay; with up to 2^56 bytes of padding the masked loop appends 0x80 and zeros and keeps the message |
| `Pad.SodiumUnpad` | deps/libsodium/src/libsodium/sodium/utils.c:781-809 | the masked loop finds what the backward scan finds |
| `Pad.LeastMultiple` | deps/libsodium/src/libsodium/sodium/utils.c:754-763 | the padded length is the least multiple of the block size strictly above the old length |
| `Pad.UnpadPad` | deps/libsodium/src/libsodium/sodium/utils.c:740-809 | unpadding a padded buffer returns the old length, and the bytes before it are kept |
| `Pad.UnpaddedIff` | deps/libsodium/src/libsodium/sodium/utils.c:781-809 | unpadding succeeds iff the last block ends in 0x80 followed only by zeros, and says where |
| `Pad.Remainder` | deps/libsodium/src/libsodium/sodium/utils.c:754-759 | the power-of-two mask is the remainder |
| `Pad.BarrierMaskIs` | deps/libsodium/src/libsodium/sodium/utils.c:773-774 | with at most 2^56 bytes of padding the mask is full at the barrier, zero before it and below 0x80 behind it |
| `Pad.MasksAreExact` | deps/libsodium/src/libsodium/sodium/utils.c:773-774 | the masks before the barrier are zero iff the padding is at most 2^56 bytes |
| `Pad.IsBarrierBitIs` | deps/libsodium/src/libsodium/sodium/utils.c:800-801 | the barrier bit is set iff only zeros were seen and this byte is 0x80 |
| `Sha256.HashChunks` | exercises/hkdf_two_keys.c:74-135 | for every way of cutting a message into chunks the digest is that of the fold over the padded whole |
| `Sha256.PadInjective` | exercises/hkdf_two_keys.c:99-123 | below 2^64 bits different messages have different padded forms (section 5.1.1 of FIPS 180-4) |
| `Sha256.PadLayout` | exercises/hkdf_two_keys.c:99-123 | message, 0x80, zeros and the bit count most significant byte first, in the fewest blocks (section 5.1.1 of FIPS 180-4) |
| `Sha256.InitialStateIsRoots` | exercises/hkdf_two_keys.c:74-85 | the initial words are the fractions of the square roots of the first eight primes (section 5.3.3 of FIPS 180-4) |
| `Sha256.Digest` | exercises/hkdf_two_keys.c:125-134 | each state word most significant byte first |
| `Sha256.ShortTail` | exercises/hkdf_two_keys.c:102-123 | a tail below 56 bytes is padded into one block |
| `Sha256.LongTail` | exercises/hkdf_two_keys.c:106-123 | a longer tail takes a second block |
| `Sha256.Context.constructor` | exercises/hkdf_two_keys.c:74-85 | nothing fed in, initial state |
| `Sha256.Context.Update` | exercises/hkdf_two_keys.c:87-97 | the fed message grows by the chunk; state, buffer and bit count stay those of the fed message |
| `Sha256.Context.Final` | exercises/hkdf_two_keys.c:99-135 | returns the one-shot digest of everything fed in |
| `Sha256.WriteDigest` | exercises/hkdf_two_keys.c:125-134 | the eight state words, most significant byte first |
| `Sha256.HmacSha256` | exercises/hkdf_two_keys.c:139-174 | the construction of section 2 of RFC 2104, long keys included |
| `Sha256.HmacIs` | exercises/hkdf_two_keys.c:139-174 | it hashes with any blocks that differ from the padded or hashed key by 0x36 and 0x5c in every byte |

## Left out

- Sockets, the TUN device, `poll`, signals, logging and configuration files: endpoints are opaque values with
  equality, and packets are event inputs and trace outputs.
- The ciphers, hashes, Diffie-Hellman, Poly1305, the SHA-256 compression and the Argon2 block mixing: abstract
  functions with the lengths their prototypes fix; what is assumed of them is a precondition of each lemma.
- MAC1 and MAC2: no function compares them, so nothing is stated about checking them.
- Indices in handshake messages are not mixed into the transcript: index agreement is claimed for unmodified
  packets only.
- Expiry and rekey timers and session time stamps: no code reads them.
- The initiator inside the daemon: the event loop has no branch for handshake responses; the initiator is
  modelled from the handshake functions.
- Text parsing of addresses, prefixes and configuration: the model starts from the parsed numbers.
- Null checks, memory wiping, constant-time behaviour, SIMD and assembly variants.
- attacks/ and fuzz/ send or generate malformed packets against the parsers and filters modelled here; the
  remaining exercises are single formulas and table lookups (MTU, nonce layout, peer expiry, endpoint update).
- Parsers return copies where the C code hands out addresses inside the caller's buffer, so aliasing between a parsed
  message and its datagram is not captured.
- RingWindow.Window.Recv: the C counters are `int`; the model takes any non-negative counter and does not model
  overflow of `int`.
- RingWindow.SameVerdicts: for counters that are 64-bit words, the domain of the bitmap.
- DaemonRuns.LookupIsUnique: index 0, which is issued when the generator wraps, is reserved and never found.
- DaemonRuns.NoPairCommittedTwice: one direction only; after 2^32 issued indices two sessions can share an index,
  and whether a pair then repeats depends on the traffic.
- Delivery.EndToEnd: up to 2^32 issued indices and 2^64 encryptions, encryption does not fail, and no commit on the
  receiving session comes from anything but a datagram of the sending one, which is what authentication is for.
- Tunnel.TunnelDelivers: likewise.
- Handshake.HandshakeAgreement: for ideal primitives only; no computational bound is stated.
- Argon2Schedule.FillIndependent: how the first two blocks of each lane and the final output come about is not
  modelled.
- Argon2String.DecodePrinted: validation covers the members a string carries and the thread count; password,
  secret and associated data belong to the caller.
- Argon2String.VerifyHashed: allocation failures are not modelled.
- Base64Loops.Base64ToBin: a refusal is one result; its `errno` and the position it leaves are not modelled.
- SecretStream.PushUsesOneStream: that the cipher's output from block n on continues its output up to block n is a
  precondition, since the cipher is abstract.
- SecretStreamLoops.StreamState.Push: messages above the maximum abort the program and are excluded; the output
  is returned as a value.
- SecretStreamLoops.StreamState.Pull: likewise for inputs above the maximum.
- Pad.SodiumPad: with more than 2^56 bytes of padding, nothing is said about the contents of the last block.
- Sha256.PadInjective: below 2^64 bits; beyond that the code's length field wraps, which the digest theorems
  allow for.
