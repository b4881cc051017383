# Verified model of the tlsscan handshake probes

`internal/handshake` contains a hand-written TLS 1.2 client (CBC record layer, PRF, handshake driver)
and two probes that decide, from a server's reactions, whether it is a padding oracle: the CBC family
(GOLDENDOODLE, Zombie POODLE, Sleeping POODLE, CVE-2019-1559) and ROBOT; a third looks for secure
renegotiation in the ServerHello. This project models that code and proves what it sends, what it reads,
and which verdicts it can reach.

A server is an arbitrary function (`Network.Peer`): from the records written so far to the chunks it
sends next, to whether it takes a write, and to how reads fail when nothing more comes. Statements about
the probes quantify over all such peers, one per connection. Statements about what a server *makes* of
the bytes use receivers written from RFC 5246 (sections 5, 6.2.3.1, 6.2.3.2, 6.3, 7.3, 7.4.1.1, 7.4.1.2,
7.4.1.4.1, 7.4.6, 7.4.7.1, 7.4.9, 8.1 and appendix C), RFC 6066 section 3, RFC 7230 section 3, RFC 8017
section 7.2.2 and RFC 8422 sections 5.1, 5.4 and 5.7, independently of the client: they have their own
pseudo-random function, MAC header and table of suites (`Rfc5246.dfy`) and compare with literal numbers.
These receivers, like the client, bound a record by its 16-bit length field only; the protocol's limits
of 2^14 and 2^14 + 2048 bytes (RFC 5246, sections 6.2.1 and 6.2.3) are enforced by neither. A record whose
length was truncated to 16 bits is decoded up to the length it announces.

The verdict theorems take any table of sessions (`CbcOracle.Live`) or of server flights
(`Robot.FlightLink`), one entry per connection; the probe methods are proved to compute the verdict for
the tables their own driver and reader produce (`CbcOracle.Sessions`, `Robot.OpenFlights`). A decoding or
decrypting server is one whose reactions to the probe's own records are what its decoding calls for; for
CBC each connection may show the outcomes in its own way. `EndToEnd.dfy` derives those hypotheses from
servers that accept or reject the handshake and decode under keys they compute themselves.

| file | contents |
|---|---|
| `Bytes.dfy`, `Network.dfy`, `Primitives.dfy` | byte fields, connections and chunked reads, the unseen cryptography as parameters, CBC chaining |
| `Rfc5246.dfy` | the pseudo-random function, the record MAC and the suites as the RFCs define them |
| `Prf.dfy`, `RecordLayer.dfy` | P_hash, key block, records, the strict receiver, runs of sends |
| `Hello.dfy` | ClientHello builders and parser, ServerHello, Certificate and ServerKeyExchange parsers |
| `Reassembly.dfy`, `Flights.dfy` | the three readers of a server flight and their common meaning |
| `Driver.dfy`, `Session.dfy`, `Server.dfy` | the handshake driver, and the RFC server that accepts or rejects its Finished |
| `NumberTheory.dfy`, `RsaKeys.dfy` | why RSA decryption inverts encryption, and a key of 480 bits for which it does |
| `Reactions.dfy`, `CbcOracle.dfy`, `Rsa.dfy`, `Robot.dfy`, `Renegotiation.dfy` | the probes and their verdicts |
| `EndToEnd.dfy` | the CBC probe against RFC 5246 servers, from the wire to the verdict |
| `Instances.dfy`, `RobotInstances.dfy` | concrete servers that meet the theorems' hypotheses and show the broken promises |

Loops and updated fields are methods and classes proved against specification functions; the properties
are lemmas about those functions. `hide` statements only narrow what a proof may use.

## Where the code and its documentation disagree

- The comment at `internal/handshake/cbc_oracle.go:223-227` calls the 255-pad record invalid padding, and
  the header promises four falses for a server that rejects all manipulated records alike. But
  `encryptRecord` zero-fills unaligned plaintext (`internal/handshake/cbc.go:218-224`). So no stimulus that
  fits its record carries invalid padding (`RecordLayer.PaddingAlwaysPasses`): a server that distinguishes
  bad padding from a bad MAC is never noticed. And when the host name's length is 15 modulo 16 the 255-pad record is
  well formed and accepted, so a hardened server that answers it is flagged
  (`CbcOracle.HardenedServerFlagged`, for `www.example.com`; `Instances.HardenedServerReported` follows such a
  server from the dial to the verdict). `CbcOracle.VerdictExact` and `CbcOracle.UniformServer` give the exact
  condition; `CbcOracle.NoFalseVerdict` is the promise on every other host.
- `internal/handshake/cbc.go:294-298` says an alert is keyed on record type and fragment length; the code compares
  its first two bytes (`CbcOracle.AlertsCompared`). After ChangeCipherSpec these are the start of the IV
  (`CbcOracle.EncryptedAlertRead`), so the promise of four falses on a server with one encrypted alert for every
  rejected record fails exactly when its IVs agree within the vectors and not across them
  (`CbcOracle.EncryptedAlerts`; `Instances.EncryptedAlertsReported` for `example.com`), and otherwise the probe
  sees nothing.
- The driver appends every message it reads to the Finished transcript (`internal/handshake/cbc.go:446-459`),
  HelloRequest included, which RFC 5246 leaves out (sections 7.4.1.1 and 7.4.9). A server that sends one during
  its flight rejects the client's Finished unless the two verify_data values coincide
  (`Server.FinishedAccepted`). `Instances.HelloRequestRejected` is the flight ServerHello, Certificate,
  `00 00 00 00`, ServerHelloDone; `Instances.PlainFlightAccepted` is the same run without it.
- The comment at `internal/handshake/cbc.go:454-458` says "bail safe" on a CertificateRequest, and the driver
  passes over it. A client that was asked must send a Certificate message (RFC 5246, section 7.4.6), so such a
  server rejects the handshake (`Server.FinishedAccepted`; `Instances.CertificateRequestRejected`).
- The comment at `internal/handshake/robot.go:109-113` clamps the padding "to keep the function total", and
  `internal/handshake/robot.go:224-226` calls the probe fail-safe. Below 11 bytes the block's slice expressions
  are out of range and nothing recovers from the panic: the probe crashes exactly on a certificate modulus
  below 2^80 when the first crafted connection completes its flight (`Robot.CrashExact`,
  `RobotInstances.TinyKeyCrashes`).
- The comment at `internal/handshake/robot.go:278-281` promises nil "if anything is ambiguous". An unfinished
  flight yields a key exactly when the loop ends cleanly and a Certificate with an RSA key was noted
  (`Robot.UnfinishedKeyExact`), as one that stops after Certificate does (`RobotInstances.UnfinishedYieldsKey`).
- `internal/handshake/robot.go:457-463` promises no key when the server selects another suite. The reader never
  looks at the suite: a key comes back exactly when one would for an RSA suite (`Robot.OtherSuiteExact`;
  `RobotInstances.EcdheYieldsKey` for suite 0xc013).
- `internal/handshake/probes.go:287-291` says `readServerHelloMessage` reads at most a couple of records. It reads
  as many as it takes: a ServerHello of k bytes in one-byte records takes all k (`Flights.ReadsEveryRecord`).
- `internal/handshake/probes.go:251-253` promises never to call a server insecure "without a clean ServerHello". The
  message type is all that is checked, so that fails exactly when the first message is typed ServerHello, is no
  encoding of one, and the walk over it reaches no renegotiation_info (`Renegotiation.CleanExact`), as for the nine
  bytes `16 03 03 00 04 02 00 00 00` (`Renegotiation.EmptyHelloInsecure`).
- The comment at `internal/handshake/robot.go:386-387` leaves out server_name for an "empty/IP-only host"; the code does so
  for the empty host only (`Hello.ServerNameSent`).
- The comment in `encryptRecord` speaks of encrypting as many whole blocks as exist; the code pads instead.

## Model

| member | source | states |
|---|---|---|
| Network.ReadFull | internal/handshake/legacy.go:234-246 | succeeds exactly when the bytes arrive, and returns the next bytes of the stream whatever the chunking; nothing is lost on failure |
| Network.ReadRecordHeader | internal/handshake/probes.go:98-104 | the header is the first five bytes of the stream, which advances by exactly those |
| Network.UnwrapOfWrap | internal/handshake/robot.go:449-456 | a receiver reading the length field gets type and body back exactly for bodies below 2^16 bytes |
| Primitives.CbcRoundTrip | internal/handshake/cbc.go:226-228 | CBC decryption inverts CBC encryption for every key, IV and aligned plaintext, by induction over blocks |
| Primitives.CbcPrefix | internal/handshake/cbc.go:226-228 | the blocks of a ciphertext's prefix decrypt to the plaintext's prefix |
| Primitives.CbcBlocks | internal/handshake/cbc.go:226-228 | ciphertext block i is the encryption of plaintext block i combined with ciphertext block i - 1, or the IV |
| Prf.PHashSha256 | internal/handshake/cbc.go:115-129 | the loop computes P_hash of section 5 of RFC 5246, ends, and takes ceil(outLen/32) rounds |
| Prf.PHashByte | internal/handshake/cbc.go:111-114 | byte i is byte i%32 of HMAC(secret, A(i/32+1) + seed) |
| Prf.PHashPrefix | internal/handshake/cbc.go:114-129 | a shorter request is a prefix of a longer one |
| Prf.PrfIsRfc | internal/handshake/cbc.go:131-138 | the client's function is the PRF of section 5 of RFC 5246, defined on its own from the label's characters |
| Prf.ParamsAreRfc | internal/handshake/cbc.go:81-93 | on every suite number the client's lengths and key exchange are those of appendix C of RFC 5246 and RFC 4492, and none on any other |
| Prf.SliceKeyBlock | internal/handshake/cbc.go:470-479 | the running-offset slices are the ordered cut of the key block, which they cover exactly |
| Prf.PartitionUnique | internal/handshake/cbc.go:466-479 | two peers that partition the same key block in RFC order hold the same four keys |
| RecordLayer.MacInputInjective | internal/handshake/cbc.go:186-193 | a MAC input determines its sequence number, content type and content |
| RecordLayer.MacInputIsRfc | internal/handshake/cbc.go:188-197 | the bytes under the MAC are those of section 6.2.3.1 of RFC 5246, position by position |
| RecordLayer.FlipIsComplement | internal/handshake/cbc.go:152-155 | the forced MAC keeps 19 bytes and has the complement of the last |
| RecordLayer.CbcSession.ComputeMac | internal/handshake/cbc.go:188-199 | the 13-byte header filled in place gives the MAC the receiver computes from section 6.2.3.1 of RFC 5246 |
| RecordLayer.CbcSession.MacThenPad | internal/handshake/cbc.go:151-184 | content, MAC (last byte inverted if forced) and well-formed or overridden padding |
| RecordLayer.CbcSession.EncryptRecord | internal/handshake/cbc.go:208-236 | explicit IV and CBC of the zero-filled plaintext in a record; fails exactly on a bad key length or random failure |
| RecordLayer.CbcSession.SendCrafted | internal/handshake/cbc.go:242-253 | one step of the sender: on success the record sealed under the current counter is written and the counter advances, otherwise neither |
| RecordLayer.CbcSession.DecryptServerRecord | internal/handshake/cbc_lifetest_test.go:16-46 | the loose decoder, early exits included |
| RecordLayer.LooseDecodeExact | internal/handshake/cbc_lifetest_test.go:16-46 | content comes back exactly from whole blocks under a usable key, cut where the pad byte and a MAC's length put its end; nothing else is checked |
| RecordLayer.PaddedLengthIsLeast | internal/handshake/cbc.go:173-183 | a well-formed plaintext is the least block multiple strictly above content + 20 |
| RecordLayer.WellFormedAccepted | internal/handshake/cbc.go:173-183 | for every content the control record decodes to that content |
| RecordLayer.BadMacRejected | internal/handshake/cbc.go:152-155 | for every content the forced-bad-MAC record passes the padding check and fails the MAC |
| RecordLayer.ZeroPadIsBadMacIff | internal/handshake/cbc_oracle.go:228-231 | the zero-length stimulus equals the bad-MAC stimulus exactly when (content + 21) is a multiple of 16 |
| RecordLayer.ZeroPadMeaning | internal/handshake/cbc_oracle.go:228-231 | it is accepted exactly when a shifted MAC window happens to match, and otherwise is a bad MAC |
| RecordLayer.Pad255Meaning | internal/handshake/cbc_oracle.go:223-227 | the 255-pad stimulus is well formed when (content + 20) is a multiple of 16; otherwise its MAC window is filler only and it is a bad MAC unless that filler happens to be the MAC |
| RecordLayer.PaddingAlwaysPasses | internal/handshake/cbc.go:218-224 | no stimulus carries invalid padding, for any content |
| RecordLayer.LooseDecodeAgrees | internal/handshake/cbc_lifetest_test.go:16-46 | whatever the strict receiver accepts, the repository's decoder decodes alike |
| RecordLayer.RecordRoundTrip | internal/handshake/cbc.go:151-236 | every content, key and IV round-trips through both decoders |
| RecordLayer.RunSequence | internal/handshake/cbc.go:242-253 | over every run with failed sends, the records written are sealed under consecutive numbers and the counter equals the start advanced by the number sent |
| RecordLayer.SealAllAt | internal/handshake/cbc.go:242-253 | the i-th record written in a run is sealed under the start number advanced i times |
| RecordLayer.AdvanceIsAddition | internal/handshake/cbc.go:251 | n increments of the uint64 counter are addition modulo 2^64 |
| RecordLayer.ReceiverRecovers | internal/handshake/cbc.go:151-253 | a receiver with its own counter accepts any n well-formed records and recovers their contents in order |
| RecordLayer.DeliveredFragment | internal/handshake/cbc.go:226-236 | a receiver decodes the plaintext's prefix that the record's 16-bit length delimits: all of it exactly when the fragment is below 2^16 bytes |
| RecordLayer.OverlongIsContent | internal/handshake/cbc.go:226-236 | what is decoded of an overlong record is a prefix of its content, without MAC or padding |
| RecordLayer.RunReceived | internal/handshake/cbc.go:242-253 | the same for whole runs with failed sends interleaved |
| Hello.ClientHelloTls | internal/handshake/probes.go:55-94 | the builder writes the structured ClientHello record |
| Hello.ClientHelloRoundTrip | internal/handshake/probes.go:55-94 | an RFC 5246 parser that checks every nested length recovers version, random, suites and extension block exactly when the message is below 2^16 bytes |
| Hello.CbcClientHello | internal/handshake/cbc.go:620-640 | the CBC builder writes its ClientHello record |
| Hello.CbcClientHelloRoundTrip | internal/handshake/cbc.go:620-683 | parsing recovers random, suites, every extension in order and the host name, exactly for hosts up to 65433 bytes, where the 16-bit record length ends |
| Hello.CbcOffer | internal/handshake/cbc.go:620-683 | a reader that looks extensions up by number finds the four suites, the host, the groups 29, 23, 24, 25, the uncompressed format and the pairs (4,1), (5,1), (6,1), (2,1), (4,3), (5,3), (6,3), for hosts up to 65433 bytes, and nothing beyond |
| Hello.ServerNameSent | internal/handshake/robot.go:386-391 | no server_name exactly for the empty host |
| Hello.GroupsParse | internal/handshake/cbc.go:648-654 | the offered groups are exactly the curves the driver can use |
| Hello.SniExtension | internal/handshake/robot.go:388-409 | the SNI bytes are the encoded server_name extension, none for an empty host |
| Hello.ServerNameRoundTrip | internal/handshake/robot.go:393-407 | an RFC 6066 parser recovers the host name |
| Hello.ExtensionsRoundTrip | internal/handshake/cbc.go:644-683 | an extension list is recovered from its encoding |
| Hello.ServerHelloHasExtension | internal/handshake/probes.go:330-368 | total and in bounds on every byte string, ends, and computes the extension walk |
| Hello.HasExtensionExact | internal/handshake/probes.go:330-368 | on every byte string: found exactly when a chain of whole extension headers from the block's start reaches one of that type |
| Hello.ServerHelloParsers | internal/handshake/cbc.go:687-703 | on every well-formed ServerHello the extension is found exactly when it occurs, and suite and random are recovered |
| Hello.SuiteParseExact | internal/handshake/cbc.go:687-703 | on every byte string: suite and random are read exactly when version, random, a session id and a suite are there in that order |
| Hello.LeafParseExact | internal/handshake/robot.go:520-538 | on every byte string: a leaf is taken exactly out of a list announced in full that starts with a non-empty certificate |
| Hello.KeyExchangeParseExact | internal/handshake/cbc.go:710-728 | on every byte string: curve and point are read exactly out of a named curve with a whole point |
| Hello.LeafOfCertificate | internal/handshake/robot.go:520-538 | from a Certificate message the framing yields the first certificate |
| Hello.ServerKeyExchangeRoundTrip | internal/handshake/cbc.go:710-728 | curve and point are recovered whatever signature follows |
| Hello.SecretReadBack | internal/handshake/cbc.go:440-442 | a server reads the encrypted premaster back exactly when the record's 16-bit length can hold it |
| Hello.PointReadBack | internal/handshake/cbc.go:420-421 | a server reads the client's point back exactly when its 8-bit length can hold it |
| Reassembly.HsReader.Next | internal/handshake/cbc.go:580-606 | one call returns, and leaves in buffer and stream, exactly what the specification says, errors included |
| Reassembly.NextMeaning | internal/handshake/cbc.go:580-606 | a returned message is the first of buffer plus payload, what remains is neither lost nor repeated, and no message up to 196610 bytes is refused |
| Reassembly.TakeMeaning | internal/handshake/cbc.go:580-606 | k successive calls return the first k messages of the payload |
| Reassembly.TakeExact | internal/handshake/cbc.go:580-606 | k successive calls succeed exactly when the payload has k messages and each is completed by a record ending at most 2^18 bytes after the message starts |
| Reassembly.NextExact | internal/handshake/cbc.go:599-605 | one call succeeds exactly when some record completes the first message within the buffer limit |
| Reassembly.FragmentationIndependence | internal/handshake/cbc.go:577-606 | every split of a payload into non-empty records yields the same messages and leftover |
| Reassembly.MaxMessageIsTight | internal/handshake/cbc.go:602-604 | every message one byte longer is refused under some split |
| Reassembly.MessagesThenLeftover | internal/handshake/cbc.go:582-589 | messages and leftover concatenate to the payload, and the leftover holds no message |
| Reassembly.MessagesOfFlatten | internal/handshake/cbc.go:582-589 | a list of framed messages is recovered from its concatenation |
| Flights.ReadServerHelloMessage | internal/handshake/probes.go:291-325 | the loop computes the assembled first ServerHello |
| Flights.AssembleRefinesNext | internal/handshake/probes.go:291-325 | every non-nil result is the message the handshake reader would return next, and a ServerHello |
| Flights.AssembleComplete | internal/handshake/probes.go:291-325 | every first ServerHello of at most 65536 bytes is returned, for every fragmentation |
| Flights.AssembleExact | internal/handshake/probes.go:291-325 | for every stream: a message is returned exactly when the payload starts with a whole ServerHello that passes the 2^16 guard, and it is that one |
| Flights.ReadsEveryRecord | internal/handshake/probes.go:287-325 | a ServerHello of k bytes in one-byte records is returned after all k of them and after no fewer |
| Flights.ReadServerHelloAndCert | internal/handshake/robot.go:464-514 | the nested loops compute the flight specification |
| Flights.ReadFlightExact | internal/handshake/robot.go:464-514 | done exactly when, within 16 records and the 2^17 guard, the first ServerHelloDone follows a ServerHello and an RSA certificate; the key is the last such certificate's in the handshake reader's message sequence |
| Flights.ReadFlightKeyFrom | internal/handshake/robot.go:464-514 | the key returned by an unfinished flight too: the last RSA key of the messages completed, none when a wrong record or the guard ended the loop |
| Flights.StopsExists | internal/handshake/robot.go:468-512 | the loop stops at some record, so the previous statement covers every stream |
| Flights.NotesMeaning | internal/handshake/robot.go:496-502 | the running state is whether a ServerHello occurred and the last RSA key |
| Driver.UntilDoneMeaning | internal/handshake/cbc.go:446-459 | the skip loop succeeds exactly when a ServerHelloDone is among the messages that can be read, and consumes the messages through the first one |
| Driver.ReadNegotiationMeaning | internal/handshake/cbc.go:365-459 | the driver accepts exactly when the payload's message list negotiates (ServerKeyExchange right after Certificate under ECDHE) and every message is reached within the buffer limit; all it records is a function of the payload |
| Driver.BoundedFlightAccepted | internal/handshake/cbc.go:365-459 | every flight that negotiates with messages of at most 196610 bytes is accepted, however it is cut into records |
| Session.AwaitFinishedExact | internal/handshake/cbc.go:528-565 | accepted exactly when within six complete records handshake or application data follows ChangeCipherSpec with no alert before it |
| Session.ExpectServerFinished | internal/handshake/cbc.go:528-565 | the loop computes that decision and counts the server's handshake record |
| Server.PremasterAgrees | internal/handshake/cbc.go:386-443 | from the ClientKeyExchange record a server holding the key of its own messages computes the client's premaster, for ECDHE and RSA, exactly when the record's length fields are honest |
| Server.ExchangeExact | internal/handshake/cbc.go:386-443 | on a server's own messages the client's key exchange succeeds exactly on a usable curve with both computations done, or on an RSA leaf with its premaster drawn and sealed |
| Session.SkipToDone | internal/handshake/cbc.go:446-459 | extends the transcript by exactly the messages consumed |
| Session.CompleteHandshake | internal/handshake/cbc.go:461-522 | keys, three records, Finished under sequence 0, then the wait; the session's counters, keys and connection state |
| Session.EstablishCbcSession | internal/handshake/cbc.go:333-523 | returns a session exactly when the specification does, with those keys and clientSeq 1 |
| Server.FinishedAccepted | internal/handshake/cbc.go:353-511 | whenever the four records are written: a server that sent the flight derives keys exactly when its hello says TLS 1.2 without compression and ClientHello and ClientKeyExchange fit their lengths; the keys are the client's; and it accepts the client's Finished exactly when its flight asks for no certificate, and holds no HelloRequest or the verify_data values coincide |
| Server.HandshakeExact | internal/handshake/cbc.go:353-511 | a peer that takes every write gets the four records exactly when its flight negotiates within the buffer limit, the key exchange succeeds and the IV is drawn |
| Server.ServerSession | internal/handshake/cbc.go:353-523 | with a server that sends its Finished exactly when it accepts the client's: a session is established exactly under those conditions, and under the keys the server derives |
| Server.KeysUnique | internal/handshake/cbc.go:461-479 | master secret and the four keys are determined by the client's records and the server's own hello and secret |
| Server.HashedExact | internal/handshake/cbc.go:446-459 | what RFC 5246 hashes of a flight is the flight exactly when it holds no HelloRequest, and is shorter otherwise |
| Instances.HelloRequestRejected | internal/handshake/cbc.go:446-459 | a server that answers as RFC 5246 says and sends a HelloRequest holds the client's keys, rejects its Finished, and the client gets no session |
| Instances.CertificateRequestRejected | internal/handshake/cbc.go:454-458 | the same with a CertificateRequest, which the driver passes over |
| Instances.PlainFlightAccepted | internal/handshake/cbc.go:333-523 | with neither the server accepts and the client has a session, so the theorems' hypotheses can be met |
| Server.SessionOnlyAfterFinished | internal/handshake/cbc.go:513-522 | a session is returned only on an accepting answer of the server to the four records |
| Server.SessionExact | internal/handshake/cbc.go:513-522 | and on every such answer |
| CbcOracle.ReadReaction | internal/handshake/cbc.go:283-311 | the reaction is a function of the unread bytes and of how the read fails |
| CbcOracle.CbcProber.CbcExchange | internal/handshake/cbc_oracle.go:205-247 | one connection, one crafted request, its reaction |
| CbcOracle.RequestLines | internal/handshake/cbc_oracle.go:214 | a web server reads one GET for the root, the host, Connection: close and the end of the headers |
| CbcOracle.StimulusWritten | internal/handshake/cbc_oracle.go:212-236 | the bytes of each vector's record: content, the MAC of RFC 5246 under number 1 with its last byte complemented or not, and 1 to 16, 256 or one pad byte |
| CbcOracle.CbcProber.StableCbcReaction | internal/handshake/cbc_oracle.go:184-200 | a reaction exactly when all repetitions succeed and agree with the first |
| CbcOracle.CbcProber.ProbeCbcPaddingOracles | internal/handshake/cbc_oracle.go:81-125 | the probe computes its specification with at most seven connections |
| CbcOracle.ProbeExact | internal/handshake/cbc_oracle.go:81-125 | over every server: the classification of the reactions on connections 1, 3 and 5 when all records are taken and each vector repeats its reaction, four falses otherwise |
| CbcOracle.ClassifyMeaning | internal/handshake/cbc_oracle.go:134-179 | the exact condition of each flag: nothing when the three reactions are the same; zombie when bad padding gets no alert and another kind than a bad MAC; sleeping when both get alerts with different tags; golden for these two or an alert for bad padding alone; the last when zero length stands alone |
| CbcOracle.FlagExact | internal/handshake/cbc_oracle.go:81-125 | over every server, something is flagged exactly when all connections complete, every vector is reproducible and two vectors differ |
| CbcOracle.StimulusDecodes | internal/handshake/cbc_oracle.go:212-236 | what an RFC 5246 receiver makes of each vector's wire bytes, for hosts of any length, truncated record lengths included |
| CbcOracle.NoFalseVerdict | internal/handshake/cbc_oracle.go:81-125 | four falses on every decoding server whose reactions do not change, for every host whose length is not 15 modulo 16; where the 255-pad record overflows its length field the rejections must look alike |
| CbcOracle.VerdictByConnection | internal/handshake/cbc_oracle.go:81-125 | on servers that decode, with a policy of their own on each connection: the verdict is the classification of six reactions when each vector repeats its own, and four falses otherwise |
| CbcOracle.VerdictExact | internal/handshake/cbc_oracle.go:81-125 | with one policy, for hosts of any length: four falses exactly when the 255-pad record is shown like a bad MAC (by host length modulo 16 and record length) or the probe could not finish |
| CbcOracle.UniformServer | internal/handshake/cbc_oracle.go:33-43 | on a server with one reaction to every rejected record: exactly which hosts keep the promise of four falses |
| CbcOracle.ProbeCompletesExact | internal/handshake/cbc_oracle.go:81-125 | the probe finishes exactly when seven sessions are established and six of them have a usable key, draw their IV and take the record |
| CbcOracle.HardenedServerFlagged | internal/handshake/cbc_oracle.go:33-43 | the documented promise fails for the host www.example.com, whatever the rejection, if accepted requests are answered with data |
| Instances.HardenedServerReported | internal/handshake/cbc_oracle.go:33-43 | a concrete server that closes on every rejected record, from the dial to the verdict |
| CbcOracle.AlertsCompared | internal/handshake/cbc.go:283-305 | two alert records react alike exactly when their first two bytes agree, whatever their lengths |
| Reactions.EndingsApart | internal/handshake/cbc.go:312-327 | two ways of ending react alike exactly when they are the same, and never like an alert or data |
| CbcOracle.EncryptedAlertRead | internal/handshake/cbc.go:290-303 | for an encrypted alert the reaction is a function of its IV alone |
| CbcOracle.EncryptedAlerts | internal/handshake/cbc_oracle.go:33-43 | on a server with one encrypted alert for every rejected record: something is flagged exactly when the probe finishes and the IVs agree within each rejected vector and not across all of them |
| Instances.EncryptedAlertsReported | internal/handshake/cbc_oracle.go:33-43 | a concrete such server, reported for the host example.com |
| EndToEnd.SessionAgreed | internal/handshake/cbc_oracle.go:205-212 | on RFC 5246 servers a connection carries a session exactly when flight and lengths allow, and both ends hold the same keys |
| EndToEnd.RfcServersVerdict | internal/handshake/cbc_oracle.go:81-125 | the verdict on servers that decode under the keys they derive themselves |
| Instances.ToyServersAreRfc | internal/handshake/cbc_oracle.go:81-125 | the concrete servers meet all its hypotheses |
| Rsa.RsaEncrypt | internal/handshake/robot.go:193-204 | always k bytes, whose big-endian value is m^e mod N |
| Rsa.LeadingZeroBelowModulus | internal/handshake/robot.go:193-204 | every block with a leading zero byte is below N |
| Rsa.WrongStartVersusModulus | internal/handshake/robot.go:130-139 | the 0x41 0x17 block is below N when the bit length is a multiple of 8, and above N for remainders 1 to 6 |
| Rsa.DecryptsToBlock | internal/handshake/robot.go:193-204 | a server with the RSA inverse recovers every block below N |
| Rsa.DecryptsToResidue | internal/handshake/robot.go:193-204 | and every other block modulo N |
| Rsa.TwoPrimeKey | internal/handshake/robot.go:193-204 | every two-prime key whose exponents multiply to 1 modulo p - 1 and q - 1 has that inverse |
| RsaKeys.DemoKeyInverse | internal/handshake/robot.go:193-204 | so has a shown key of 480 bits with public exponent 65537 |
| Rsa.BuildPkcs1Vector | internal/handshake/robot.go:103-176 | the block filled in place is the vector's block, clamping included; none exactly when the modulus is too short for the slices |
| Rsa.BlocksDecode | internal/handshake/robot.go:121-173 | an RFC 8017 decoder returns the premaster, rejects the three badly framed blocks, and returns the wrong-version message for the last |
| Rsa.BlocksDistinct | internal/handshake/robot.go:85-93 | the five blocks are pairwise distinct |
| Rsa.VectorBytes | internal/handshake/robot.go:121-173 | the bytes of the five blocks: each malformed one departs from the first in its own way only |
| Rsa.VectorReadBack | internal/handshake/robot.go:340-341 | through encryption and decryption the server reads each vector's intended outcome, and the 0x41 0x17 block modulo N |
| Robot.RobotHelloOffersRsaOnly | internal/handshake/robot.go:382-384 | a server parses exactly the RSA-only suites and the host name |
| Robot.RobotOffer | internal/handshake/robot.go:382-384 | everything it offers: the seven RSA suites and at most a host name, for hosts up to 65467 bytes |
| Robot.KeyExchangeCarriesCipher | internal/handshake/robot.go:414-427 | a server takes the same ciphertext out of the record |
| Robot.BurstParses | internal/handshake/robot.go:430-447 | the two records after it as a server reads them |
| Robot.RobotProber.Exchange | internal/handshake/robot.go:320-365 | one connection, one vector, its signature; fails when the flight or a write does, and crashes exactly when it reaches the builder with too short a modulus |
| Robot.RobotProber.StableSignature | internal/handshake/robot.go:299-315 | a signature exactly when all repetitions succeed and agree with the first |
| Robot.RobotProber.RobotServerRsaKey | internal/handshake/robot.go:282-294 | the key of connection 0, even from an unfinished flight |
| Robot.DiscoverKeyExact | internal/handshake/robot.go:278-294 | which key an unfinished flight yields |
| Robot.UnfinishedKeyExact | internal/handshake/robot.go:278-294 | an unfinished flight yields a key exactly when the loop ends cleanly and a Certificate with an RSA key was noted |
| RobotInstances.UnfinishedYieldsKey | internal/handshake/robot.go:278-294 | a flight that stops after Certificate does |
| Robot.OtherSuiteExact | internal/handshake/robot.go:457-514 | a key comes back under another suite exactly when one is noted and the loop ends cleanly |
| RobotInstances.EcdheYieldsKey | internal/handshake/robot.go:457-514 | a done flight under suite 0xc013 yields its key |
| Robot.CrashExact | internal/handshake/robot.go:224-276 | the probe crashes exactly on a certificate modulus below 2^80 when connection 1 completes its flight |
| RobotInstances.TinyKeyCrashes | internal/handshake/robot.go:224-276 | a server with modulus 1 that crashes it |
| Robot.RobotProber.ProbeRobot | internal/handshake/robot.go:229-276 | the short-circuiting loop computes the specification with at most eleven connections |
| Robot.ProbeExact | internal/handshake/robot.go:229-276 | over every server: vulnerable exactly when connection 0 yields a key of at least 81 bits, connections 1 to 10 complete their flight and take their burst, each pair repeats its response, and pairs two to five differ from the first |
| Robot.NothingToProbe | internal/handshake/robot.go:239-243 | not vulnerable after a failed dial, a refused hello or a first record that is no handshake record |
| Robot.ReadRobotResponse | internal/handshake/robot.go:553-576 | the signature is a function of the unread bytes and of how the read fails |
| Robot.VulnerableExact | internal/handshake/robot.go:249-275 | over every server: true exactly when all ten exchanges succeed, repetitions agree, and every malformed vector differs from the well-formed one |
| Robot.MitigatedNotFlagged | internal/handshake/robot.go:256-275 | a server whose signature ignores the vector is never flagged |
| Robot.VerdictExact | internal/handshake/robot.go:229-276 | on a server that decrypts as RFC 8017 says, length and range checks included, for every modulus: true exactly when the probe completes, the modulus has 59 to 65529 bytes, and a good premaster is answered unlike bad framing, unlike a wrong version and unlike the 0x41 0x17 block reduced modulo N |
| Robot.WholeBytesVerdict | internal/handshake/robot.go:229-276 | for moduli of whole bytes the last condition is the first |
| RobotInstances.OracleFlagged | internal/handshake/robot.go:229-276 | a padding oracle is flagged from the dial on, for every key of whole bytes that fits |
| RobotInstances.DemoKeyFlagged | internal/handshake/robot.go:229-276 | with the shown key |
| Renegotiation.ProbeInsecureRenegotiation | internal/handshake/probes.go:254-285 | the probe computes its specification |
| Renegotiation.RenegotiationOffer | internal/handshake/probes.go:263-276 | the hello offers ten suites and an empty renegotiation_info, and nothing else |
| Renegotiation.InsecureExact | internal/handshake/probes.go:254-285 | over every server: insecure exactly when dial and write succeed and the first message of the answer is a ServerHello within the guard in which no chain of extension headers reaches type 0xff01 |
| Renegotiation.NothingToInspect | internal/handshake/probes.go:251-253 | not insecure after a failed dial, a refused write, another record first, or a stream that ends early |
| Renegotiation.CleanExact | internal/handshake/probes.go:251-253 | the promise that only a clean ServerHello is called insecure fails exactly on a message that is one in type only and reaches no renegotiation_info |
| Renegotiation.EmptyHelloInsecure | internal/handshake/probes.go:251-253 | nine bytes on which it fails |
| Renegotiation.VerdictExact | internal/handshake/probes.go:254-285 | whatever the fragmentation, insecure exactly when the ServerHello lacks renegotiation_info |

## Left out

- Dialling, deadlines, contexts and timeout capping: a failed dial is `None`, a deadline is the end of the stream. Error-string classification is the abstract `Network.Ending`.
- A read that returns bytes together with an error: modelled as the stream ending before those bytes, which is how every caller sees it. The chunks of a connection are finitely many.
- Writes that fail half-way: the connection is abandoned after any failed write, so only the success of each write is kept.
- AES, HMAC, SHA-1, SHA-256, ECDH, RSA sealing, X.509 parsing and randomness: parameters (`Primitives.Crypto`, `Driver.Randomness`) with fixed result lengths; the laws assumed, each where it is named, are that AES decryption inverts encryption, that the two ends of an ECDH exchange compute the same secret, that RSA sealing is inverted by the server, and that textbook RSA decryption inverts encryption, which is proved for two-prime keys.
- CbcOracle.NoFalseVerdict: assumes that no filler window happens to be the MAC of what precedes it (`NoCollisions`), nor what a truncated record leaves; the condition is exact in the record-layer lemmas.
- Robot.VerdictExact: a key exchange record beyond its 16-bit length, for moduli from 65530 bytes, counts as badly framed, where a server would read on in the ciphertext as further records.
- Server.FinishedAccepted: unsolicited ServerHello extensions that would change the key derivation or the record layer are not modelled; RFC 5246 forbids a server to send them.
- Server application data and the server's own Finished contents: the client does not check them either.
- The SSLv2, SSLv3, export, FALLBACK_SCSV and Heartbleed probes: constant messages and one-branch decisions.
- `pkg/tlsscan` (scanner, guard, ciphers, rating) and the commands: calls into the standard library and small case tables.
