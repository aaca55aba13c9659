# Metrice verification

Metrice is a peer-to-peer mesh node. It speaks its own SSH-2 transport to clients, routes messages
through onion circuits, floods channel messages by gossip, and keeps its queues and circuits in a
local store. This project models the parts of it whose correctness depends on whole runs, on several
functions together or on exact arithmetic, and proves what they keep.

How the model is laid out:

* `SshTransport`, `SshPacket`: the binary packet transport of a client connection, and the typed
  reader and writer over a growing buffer. Classes over byte buffers. The cipher is an abstract key
  stream indexed by position, the MAC an abstract function, random padding a parameter.
* `Onion`, `OnionSize`, `OnionSetup`: wrapping and peeling of cells, their length in bytes of JSON,
  and the nested packet that sets a circuit up. Encryption is a term over key, nonce and plaintext
  (`SymbolicCrypto`); nonces and encapsulation randomness are parameters.
* `Flood`, `FloodNetwork`: one node's handling of a channel message, as a class over its cache, table
  and links; and a network of such nodes in which packets are delivered in any order, or lost.
* `ReplayCache`: the nonce tracker and the message cache, with the history of what they accepted.
* `SecureChannel`: the handshake, the queue before readiness, and both ends of one connection.
* `CircuitStore`, `Outbox`, `PeerPool`, `Rendezvous`: state kept over whole runs, as classes tied to
  functions on values, with the runs as sequences of operations in any order.
* `ProxyProtocol`, `Ipv6`, `Base32`, `Address`: incremental parsing and text codecs.
* `Bytes`, `Text`, `Utf8`, `OrderedMap`: octets, strings, encodings, and Maps in insertion order.

Clock readings, random numbers, verdicts of signature and address checks, and the fate of packets and
sockets are parameters. Characters are Unicode scalar values and lengths are counted in UTF-8 octets.
Numbers are unbounded except where the code truncates them, which is written out.

What one step does is also stated without the function that computes it, for every input: for example
`SshTransport.SealedExactly`, `Onion.ExitExactly`, `Onion.ForwardExactly`, `OnionSetup.ReactExactly`,
`ProxyProtocol.V1LineJudged`, `ProxyProtocol.V2HeaderJudged`, `Outbox.VerdictSays`,
`CircuitStore.CircuitDb.TableGivesRecord` and `PeerPool.WelcomeExactly`.

Where an expected law stops holding, a lemma gives the exact condition: `SshTransport.ChunkingExact`,
`ProxyProtocol.ChunkingExact`, `SshPacket.MpintForm`, `SshPacket.ValueRoundTrip`,
`ReplayCache.PutKeepsOrder`, `Onion.RouteLeads`, `Onion.OnionArrives`, `OnionSetup.ExtendRouteLeads`,
`OnionSetup.CircuitReady`, `CircuitStore.KeysShare`, `SecureChannel.OrderExactly`,
`Outbox.LeavesExactly`, `Rendezvous.LateCloseExactly`, `Rendezvous.PerIpExactly` and
`Address.PrintedParses`. The limits on how many hops fit are `OnionSize.ThreeHopsLimit` and
`OnionSetup.FourRelaysDoNotFit`. The two `ready` listeners of the node itself
(src/core/federation.js:361 and 410) write nothing, so channels between nodes keep their order.

## Model

| member | source | states |
|---|---|---|
| SshTransport.PaddingRule | src/core/sshClientConnection.js:252-257 | the padding chosen is the one length below 20 that is at least 4 and fills whole 16-byte blocks (section 6 of RFC 4253) |
| SshTransport.CryptCancels | src/core/sshClientConnection.js:191-213 | decrypting at the sender's stream position gives the plaintext back |
| SshTransport.CryptShowsStream | src/core/sshClientConnection.js:191-213 | plaintext and ciphertext together give the key stream at that position |
| SshTransport.CryptSplits | src/core/sshClientConnection.js:191-213 | decrypting a header first and the body in a later event is decrypting the packet as a whole |
| SshTransport.StepAppend | src/core/sshClientConnection.js:139-244 | bytes that arrive later cannot change a reading step that was possible without them |
| SshTransport.ChunkingIrrelevant | src/core/sshClientConnection.js:139-244 | for arbitrary bytes, well formed or not, every cut into data events yields the same payloads, verdict and kept state, provided the identification line fits its limit and a packet without payload leaves nothing readable behind |
| SshTransport.ChunkingExact | src/core/sshClientConnection.js:139-244 | all cuts into non-empty data events agree with the whole if and only if the identification line fits its limit and, where a packet without payload throws, no further step is possible on what it leaves in the buffer |
| SshTransport.LateLineIsCut | src/core/sshClientConnection.js:140-159 | a line that ends behind the limit is accepted in one event, while cut right behind the limit the connection closes with nothing delivered, still waiting for it |
| SshTransport.StallIsSeen | src/core/sshClientConnection.js:112-306 | otherwise a packet without payload is seen: cut before its last byte, a stream whose rest could be read ends in another state than when it comes as one event |
| SshTransport.DeliveredExactly | src/core/sshClientConnection.js:173-187 | of everything the sender can frame, the peer takes exactly payloads of 1 to 65527 bytes, and a longer one closes the connection |
| SshTransport.PacketArrives | src/core/sshClientConnection.js:246-279 | one frame, clear or encrypted, hands over its payload and leaves both ends at equal sequence number and cipher position |
| SshTransport.SealedExactly | src/core/sshClientConnection.js:189-241 | after NEWKEYS any packet of any sender is taken if and only if its length is within the limits, its tag is the MAC over sequence number and plaintext, and its padding is at least four bytes and fits; any other closes the connection and nothing is handed on |
| SshTransport.ClearExactly | src/core/sshClientConnection.js:161-187 | before, exactly if the length is within the limits and the padding fits |
| SshTransport.TransportRoundTrip | src/core/sshClientConnection.js:139-279 | for every list of payloads and every cut, also across NEWKEYS, the peer hands over that list in order, with an empty buffer and both ends in step |
| SshTransport.SessionArrives | src/core/sshClientConnection.js:139-279 | the same from the first byte of a connection: identification line, clear phase, encrypted phase |
| SshTransport.SshClientConnection.OnData | src/core/sshClientConnection.js:112-115 | one data event appends to the buffer and drains it as the reading steps prescribe; a closed socket reads nothing |
| SshTransport.SshClientConnection.ProcessIncoming | src/core/sshClientConnection.js:139-244 | the loop leaves the connection in the state no further step is possible from |
| SshTransport.SshClientConnection.ReadHeader | src/core/sshClientConnection.js:190-202 | four encrypted bytes become the length kept for later events, checked against the limits |
| SshTransport.SshClientConnection.ReadBody | src/core/sshClientConnection.js:204-241 | the body is decrypted at the next position, its MAC checked over header and body, then handed on or the connection closed, as SealedExactly says of whole packets |
| SshTransport.SshClientConnection.SendPacket | src/core/sshClientConnection.js:246-279 | the bytes written, the sequence number modulo 2^32 and the cipher position are those of the framing function |
| SshTransport.SshClientConnection.FillPacket | src/core/sshClientConnection.js:256-263 | the buffer filled in place holds length, padding length, payload and padding |
| SshPacket.SshPacketWriter.constructor | src/utils/sshPacket.js:60-63 | an empty writer of any positive size |
| SshPacket.SshPacketWriter.EnsureCapacity | src/utils/sshPacket.js:65-75 | doubling ends with enough room, keeps what was written, and reallocates only when room was lacking |
| SshPacket.SshPacketWriter.WriteByte | src/utils/sshPacket.js:77-82 | appends the octet; a value that is no octet is refused and the contents stay |
| SshPacket.SshPacketWriter.WriteUInt32 | src/utils/sshPacket.js:88-93 | appends four octets, most significant first; refuses what does not fit 32 bits |
| SshPacket.SshPacketWriter.WriteBuffer | src/utils/sshPacket.js:102-108 | appends the length and the octets, whether or not the buffer had to grow |
| SshPacket.SshPacketWriter.WriteString | src/utils/sshPacket.js:110-113 | appends the length-prefixed UTF-8 text |
| SshPacket.SshPacketWriter.WriteMpint | src/utils/sshPacket.js:115-124 | appends the number with a zero octet in front when it is empty or its first bit is set |
| SshPacket.SshPacketWriter.WriteNameList | src/utils/sshPacket.js:126-128 | appends the length-prefixed, comma-joined names |
| SshPacket.SshPacketReader.ReadBuffer | src/utils/sshPacket.js:39-47 | takes exactly a length-prefixed run of octets, and reports an overrun instead |
| SshPacket.SshPacketReader.ReadNameList | src/utils/sshPacket.js:53-56 | takes a length-prefixed ASCII text split at commas, an empty one being no names |
| SshPacket.NamesRead | src/utils/sshPacket.js:53-56 | a name list survives writing and reading if and only if its names are ASCII without commas and it is not one empty name |
| SshPacket.ValueRoundTrip | src/utils/sshPacket.js:13-56 | every written value reads back, whatever follows it, exactly when it is no other name list |
| SshPacket.PacketRoundTrip | src/utils/sshPacket.js:3-133 | reading with the types written gives every value back in order and leaves what followed |
| SshPacket.MpintForm | src/utils/sshPacket.js:115-124 | the number is kept, and is in the shortest form of section 5 of RFC 4251 exactly for non-zero numbers without superfluous zeros |
| SshPacket.WritePacket | src/utils/sshPacket.js:59-133 | after any typed writes from any positive size the buffer is the concatenation of the encodings |
| SshPacket.WriteThenRead | src/utils/sshPacket.js:3-133 | writer and reader together give back the same values with nothing remaining |
| Utf8.DecodeEncode | src/utils/sshPacket.js:29-37 | every text survives UTF-8 |
| Utf8.AsciiRoundTrip | src/utils/sshPacket.js:53-56 | exactly ASCII text survives the one-octet encoding of name lists |
| Utf8.CharForm | src/utils/sshPacket.js:110-113 | every character has the form of section 3 of RFC 3629 |
| Bytes.U32Order | src/utils/sshPacket.js:88-93 | the octet of most weight comes first |
| Onion.SendOnionCell | src/core/onionRouter.js:212-264 | the loop from exit to guard builds the cell of the recursive wrapping; too long a payload or no hop fails |
| Onion.PadExact | src/core/onionRouter.js:26-44 | padding keeps circuit, nonce, tag and ciphertext, never shortens below the uniform size, and reaches it exactly when the cell fits |
| Onion.DecryptEncrypt | src/core/onionRouter.js:244-250 | a layer opens with its own key and no other |
| Onion.OpensOnlyItself | src/core/onionRouter.js:414-418 | a cell opens under a key exactly if it is what sealing that layer under that key and nonce gives: nothing altered opens |
| Onion.ShutIsDropped | src/core/onionRouter.js:401-418 | a cell of an unknown circuit, or that does not open under the stored key, makes a node do nothing |
| Onion.ExitExactly | src/core/onionRouter.js:500-533 | for every node and every cell with a delivery layer: the payload is handed to this node's user only if the layer names this node, sent only over an open tunnel of the target, and otherwise nothing happens |
| Onion.ForwardExactly | src/core/onionRouter.js:428-498 | for every node and every cell with a forwarding layer: exactly the cell inside is sent, if it is within twice the uniform size and the address a host with a usable port, over the open tunnel of that name, else the first writable relay that matches, else directly |
| Onion.HopPeels | src/core/onionRouter.js:401-535 | a hop passes on exactly the cell built for the next one, over the link it chooses for that hop's address, and the exit delivers |
| Onion.OnionArrives | src/core/onionRouter.js:212-535 | hop by hop to the delivery, if and only if all later addresses can be dialled, the first forwarded cell is within twice the uniform size, and every link chosen leads to the next hop; else the exit never opens its layer |
| Onion.ExitLacks | src/core/onionRouter.js:401-425 | without the circuit at the exit the trip ends before it, whatever the other hops do |
| Onion.ExitDelivers | src/core/onionRouter.js:500-533 | a permitted object always reaches its target, here or over an open tunnel; a text exactly if it is not empty and its quoted form is within the limit |
| Onion.RouteLeads | src/core/onionRouter.js:448-472 | a frame goes to the address meant exactly unless the first bound relay that matches merely ends with it |
| Onion.RouteCanStray | src/core/onionRouter.js:462-468 | such a relay: a frame for 1.2.3.4 goes to 11.2.3.4 |
| OnionSize.WrapBytes | src/core/onionRouter.js:222-250 | the length of a wrapped cell follows a recurrence in payload length and addresses; keys and nonces do not matter |
| OnionSize.FitsExactly | src/core/onionRouter.js:26-44 | the inverse recurrence gives the largest payload that fits any room, for any hops |
| OnionSize.UniformExactly | src/core/onionRouter.js:26-44 | the guard's frame has exactly the uniform size if and only if the payload is within that bound, and then so has every forwarded frame |
| OnionSize.JsonLength | src/core/onionRouter.js:432 | the byte counts used for texts and JSON strings are the lengths of their UTF-8, quotes, backslashes and control characters escaped |
| OnionSize.TwoHopsFit | src/core/onionRouter.js:9-44 | over one or two hops every permitted payload object fits |
| OnionSize.ThreeHopsLimit | src/core/onionRouter.js:9-44 | over three hops at most 557 bytes fit, and 530 with IPv4 addresses: less than the permitted 768 |
| OnionSize.ThreeHopsPass | src/core/onionRouter.js:427-431 | within three hops no relay drops a permitted payload object for its size |
| OnionSetup.BuildCircuit | src/core/onionRouter.js:74-117 | the two loops yield the keys and the nested packet, or the first hop without key |
| OnionSetup.HeadReacts | src/core/onionRouter.js:269-312 | a relay keeps key and neighbours and asks for the packet inside to be taken on, over the link it chooses for its successor's address, if it is within the limit |
| OnionSetup.ReactExactly | src/core/onionRouter.js:269-396 | for every packet: refused, acknowledged or taken on exactly as its identifier, mechanism, successor and sealed part say, over the successor's tunnel, else the first relay bound to it, else directly |
| OnionSetup.SetupKeyExactly | src/core/onionRouter.js:277-281 | a relay derives the initiator's key exactly from what was encapsulated for it |
| OnionSetup.SavedExactly | src/core/onionRouter.js:277-290 | for every packet: under its identifier and predecessor the relay stores that key, predecessor and successor, and changes no other entry; without a key it stores nothing |
| OnionSetup.CircuitReady | src/core/onionRouter.js:74-396 | the initiator hears circuit_ready exactly when every relay acknowledged, the first sealed packet is within the limit, and every link led to its relay, but for the last, which may have led to any relay of the same mechanism |
| OnionSetup.StrayAnswers | src/core/onionRouter.js:269-340 | a relay reached astray acknowledges an exit's packet exactly if it has the same mechanism, refuses every other, and never shares the key |
| OnionSetup.ReadyMeans | src/core/onionRouter.js:74-396 | over a circuit reported ready every relay before the exit keeps the initiator's key for it; the exit does if every link led to its relay, and else has not seen the packet |
| OnionSetup.ExtendRouteLeads | src/core/onionRouter.js:313-396 | a request to extend leads to the address meant unless, with no tunnel of that name, the first bound relay that matches merely ends with it |
| OnionSetup.RelayKeeps | src/core/onionRouter.js:269-290 | every relay reached keeps the initiator's key for its place and its successor's address, none at the exit |
| OnionSetup.ReadyCircuitDelivers | src/core/onionRouter.js:74-535 | over a circuit reported ready a wrapped cell goes as meant and is delivered if and only if every link of set-up and trip led to its relay and the cell can pass; else the exit meant never opens its layer |
| OnionSetup.ThreeRelaysFit | src/core/onionRouter.js:302-307 | up to three ML-KEM relays never trip the limit on the decrypted packet |
| OnionSetup.FourRelaysDoNotFit | src/core/onionRouter.js:302-307 | four or more always do |
| OnionSetup.OnionRouter.HandleCircuitSetup | src/core/onionRouter.js:269-340 | saves the circuit first, then refuses, asks the next relay, or acknowledges, as SavedExactly and ReactExactly say |
| OnionSetup.OnionRouter.HandleOnionCell | src/core/onionRouter.js:401-535 | peels the layer with the key stored for that predecessor and does what Onion.ExitExactly, ForwardExactly and ShutIsDropped say |
| CircuitStore.KeysShare | src/storage/database.js:741-760 | two different identifiers can share a key, and then with two non-empty predecessors, if and only if one begins with the other followed by an underscore |
| CircuitStore.HopsDiffer | src/storage/database.js:742-744 | under one identifier two previous hops share a key exactly if they are equal or both empty or missing |
| CircuitStore.PlainNeverNested | src/core/onionRouter.js:74-80 | identifiers without underscore, as the initiator draws them, never are so nested |
| CircuitStore.PairHistory | src/storage/database.js:740-820 | unless a nested circuit interferes, each pair of circuit and predecessor has the record of its own last save |
| CircuitStore.NestedSaveReplaces | src/storage/database.js:740-757 | when it does, the later save takes the earlier pair's place |
| CircuitStore.SavedFaithful | src/storage/database.js:740-757 | after a save the memory answers every key as the history of operations says |
| CircuitStore.DroppedFaithful | src/storage/database.js:795-820 | the same after deleting a key, a whole circuit or what expired |
| OrderedMap.PutOrder | src/storage/database.js:742-748 | a Map keeps present keys in their places and puts new ones last |
| OrderedMap.KeepOrder | src/storage/database.js:800-804 | deleting while looping leaves the rest in order |
| CircuitStore.CircuitDb.SaveCircuit | src/storage/database.js:740-757 | writes every field to its own column, the key sealed under the master key, leaves all other rows alone, and keeps memory and table in step and faithful to the history |
| CircuitStore.CircuitDb.TableGivesRecord | src/storage/database.js:759-793 | after any operations a row read back from the table is the record in memory; under another master key it gives no key |
| CircuitStore.CircuitDb.GetCircuit | src/storage/database.js:759-793 | the last save under that key whatever other hops share the circuit, else the record of the circuit that entered memory first; nothing exactly when the history has neither; the table is never needed |
| CircuitStore.CircuitDb.NewestRow | src/storage/database.js:782-784 | the row of the circuit with the latest creation time, if there is any |
| CircuitStore.CircuitDb.DeleteCircuit | src/storage/database.js:795-809 | drops the same entries from memory and table |
| CircuitStore.CircuitDb.DeleteExpiredCircuits | src/storage/database.js:811-820 | drops the same expired entries from memory and table |
| Flood.FloodNode.HandleMessage | src/core/federationPacketHandler.js:525-600 | answers duplicate exactly by the cache's window rule over everything it admitted; else stores and emits what is new, and passes it on exactly if it is for a channel without address and its next hop is below the limit |
| Flood.FloodNode.SendGlobal | src/core/federation.js:864-882 | an own message is remembered and broadcast with hop 0 and the default limit, and not stored here |
| Flood.FloodNode.BroadcastChannelMessage | src/core/presenceManager.js:445-507 | one copy over every link but those leading back |
| Flood.CopiesFrom | src/core/presenceManager.js:463-506 | every copy goes over a link that does not go by the excepted name |
| Flood.CopiesCount | src/core/presenceManager.js:463-506 | there are as many copies as such links |
| Flood.FloodsGlobalOnly | src/core/federationPacketHandler.js:597-600 | of all printed addresses, exactly channels without a place are flooded |
| Flood.FloodNode.SaveMessage | src/storage/database.js:348-387 | stores an identifier once and says whether it did |
| FloodNetwork.AtMostOnce | src/core/federationPacketHandler.js:588-601 | in every run each node stores, emits and passes on an identifier at most once, even when its cache forgot it |
| FloodNetwork.NextIsCopy | src/core/federationPacketHandler.js:594-599 | a copy passed on has one hop more than the one received, below its limit |
| FloodNetwork.StoresWhatWasSent | src/core/presenceManager.js:445-462 | in every run what any node stores or passes on is what the author sent, but for the hop count |
| FloodNetwork.StepDrains | src/core/federationPacketHandler.js:588-601 | every delivery and every loss lowers packets in flight plus copies still possible |
| FloodNetwork.FloodDrains | src/core/federationPacketHandler.js:588-601 | without new messages every run ends within that many steps |
| FloodNetwork.NeighboursKnow | src/core/presenceManager.js:445-507 | in a drained flood without losses every neighbour of a node that broadcast the message knows it |
| FloodNetwork.RunFree | src/core/federationPacketHandler.js:594-598 | a copy never has more hops than there are nodes storing the message, so a limit above the number of nodes stops nothing |
| FloodNetwork.EveryoneKnows | src/core/federationPacketHandler.js:525-600 | with such a limit a drained flood without losses has reached every node there is a path to |
| ReplayCache.CleanupExact | src/core/secureChannel.js:45-52 | on entries in time order the early stop deletes exactly the expired ones |
| ReplayCache.LiveHas | src/core/secureChannel.js:27-29 | what the cache still holds is what was accepted within the time window and among the last maxCapacity acceptances |
| ReplayCache.LiveGrows | src/core/secureChannel.js:30-42 | inserting and evicting is the same as the window over the longer history |
| ReplayCache.LiveDistinct | src/core/secureChannel.js:14-63 | the cache never holds a key twice, is in time order and within capacity |
| ReplayCache.StaysSpaced | src/core/secureChannel.js:21-43 | two acceptances of one key are more than the ttl or at least maxCapacity others apart |
| ReplayCache.NonceTracker.Track | src/core/secureChannel.js:21-43 | accepts exactly what is no replay by that window rule, for a clock that does not run backwards |
| ReplayCache.NonceTracker.Cleanup | src/core/secureChannel.js:45-62 | deletes expired entries from the front, then the oldest beyond capacity |
| ReplayCache.PutKeepsOrder | src/core/secureChannel.js:84-88 | adding a present identifier keeps time order if and only if everything behind it is from this moment |
| ReplayCache.RefreshedEntryHidesExpired | src/core/secureChannel.js:98-105 | otherwise an expired entry outlives the cleanup |
| ReplayCache.DropAfterLookup | src/core/secureChannel.js:73-82 | deleting one expired entry at a lookup changes nothing the next cleanup keeps |
| ReplayCache.MessageTtlCache.Lookup | src/core/secureChannel.js:73-82 | finds exactly a live entry with a time other than 0, and deletes an expired one |
| ReplayCache.MessageTtlCache.Add | src/core/secureChannel.js:84-96 | cleanup, insertion in place or at the end, eviction |
| ReplayCache.MessageTtlCache.Admit | src/core/federationPacketHandler.js:527-532 | look-up then add turns a message away exactly when the window rule calls it repeated |
| SecureChannel.SecureChannel.MarkReady | src/core/secureChannel.js:507-518 | the drain loop ends and writes the listener's payloads, then the queue in order, sealed under the session key |
| SecureChannel.SecureChannel.WritePayload | src/core/secureChannel.js:520-537 | queues before readiness, seals after |
| SecureChannel.SecureChannel.HandleFrame | src/core/secureChannel.js:264-429 | a handshake frame of the wrong direction, of another nonce or turned down by a check destroys the channel and changes nothing else; an accepted one fixes the session key of the exchange; a payload is emitted exactly if it is sealed under the session key of a ready channel |
| SecureChannel.ChannelDelivers | src/core/secureChannel.js:264-537 | in every run, what a ready listener writes included, what an end was given is, each once, what the other emitted, what is in the wire and what still waits, in order but that the listener's writes go ahead of the queue; ready ends hold the same key |
| SecureChannel.OrderExactly | src/core/secureChannel.js:507-537 | in every run with distinct payloads, once nothing is in flight both ends have emitted what the other was given in the order given, if and only if no ready listener wrote while payloads waited |
| ProxyProtocol.ProxyHandler.HandleData | src/utils/proxyProtocol.js:286-335 | one data event settles or waits as one parse of all bytes so far |
| ProxyProtocol.SettlesEarly | src/utils/proxyProtocol.js:89-234 | a verdict reached on a prefix is the verdict on the whole stream |
| ProxyProtocol.ChunkingIrrelevant | src/utils/proxyProtocol.js:247-335 | every cut gives the verdict, address, port and bytes of the whole |
| ProxyProtocol.ChunkingExact | src/utils/proxyProtocol.js:89-335 | all cuts agree if and only if the header fits its limit |
| ProxyProtocol.HandsOnTheRest | src/utils/proxyProtocol.js:286-335 | what is handed on is the stream without its header, or all of it |
| ProxyProtocol.TrustedExactly | src/utils/proxyProtocol.js:90-91 | a sender is trusted exactly if the list has its address, plainly or in IPv6-mapped form |
| ProxyProtocol.StrangerRefused | src/utils/proxyProtocol.js:104-109 | a header of either version from anyone else, however cut, is refused |
| ProxyProtocol.PlainBytesPass | src/utils/proxyProtocol.js:97-102 | bytes that begin neither signature go on whole with the peer's own address and port; those that may still become one are kept back |
| ProxyProtocol.V1LineJudged | src/utils/proxyProtocol.js:111-151 | any line of version 1 from a trusted proxy, however cut: the sender's own address for an unknown connection, else the address and port named, or the refusal that fits |
| ProxyProtocol.V1HeaderArrives | src/utils/proxyProtocol.js:113-151 | every legal version 1 header, however cut, yields client address, port and exactly what follows (section 2.1 of the PROXY protocol specification) |
| ProxyProtocol.V2HeaderArrives | src/utils/proxyProtocol.js:153-234 | the same for version 2 headers over IPv4 and IPv6 (section 2.2) |
| ProxyProtocol.V2HeaderJudged | src/utils/proxyProtocol.js:153-226 | any complete version 2 header from a trusted proxy, however cut, by its version, command, family and length |
| ProxyProtocol.DottedReads | src/utils/proxyProtocol.js:194 | the printed IPv4 address names the four octets in their order |
| Ipv6.LongestZeroRun | src/utils/addressHelper.js:88-109 | finds the leftmost longest run of zero words |
| Ipv6.FormatIPv6 | src/utils/proxyProtocol.js:43-80 | prints sixteen bytes as the words they are |
| Ipv6.CanonicalizeIPv6 | src/utils/addressHelper.js:44-117 | prints the words of any address it can read and returns everything else unchanged |
| Ipv6.FormatParses | src/utils/addressHelper.js:64-117 | printed words parse back to those words |
| Ipv6.CanonicalizeIdempotent | src/utils/addressHelper.js:44-117 | canonical text is a fixed point, for every input string |
| Ipv6.FormatInjective | src/utils/addressHelper.js:86-117 | different words never print alike |
| Ipv6.ShortensExactly | src/utils/addressHelper.js:86-117 | in the text "::" occurs exactly when two adjacent words are zero, then once, in place of the leftmost longest run, with the groups of the other words around it; else every word has its group (sections 4.2.1 to 4.2.3 of RFC 5952) |
| Ipv6.GroupsPlain | src/utils/addressHelper.js:111-117 | a group is its word's digits in lower case, at most four, with a zero in front only for the word zero (sections 4.1 and 4.3 of RFC 5952) |
| Base32.Encode | src/utils/base32.js:14-48 | the accumulator loop, overflow included, computes the bit grouping of section 6 of RFC 4648, with and without padding |
| Base32.Decode | src/utils/base32.js:50-72 | the loop computes the octets of the symbols' bits after lower-casing, skipping padding and foreign characters |
| Base32.Extract | src/utils/base32.js:22-30 | whatever lies above them in the accumulator, the pending bits come out right |
| Base32.DecodeEncode | src/utils/base32.js:14-72 | every byte string survives |
| Base32.EncodedLength | src/utils/base32.js:14-48 | ceil(8n/5) symbols, and a multiple of eight with padding |
| Base32.NodeIdIsTenBytes | src/utils/cryptoHelper.js:40-52 | a node identity is the encoding of the digest's first ten bytes, equal exactly when those are |
| PeerPool.ReportSound | src/core/peerManager.js:155-226 | a report keeps the pool within 250 distinct, admissible peers of consistent standing |
| PeerPool.ReportEffect | src/core/peerManager.js:155-226 | what a direct success, gossip and a failure do to the peer, bootstrap or not, known or not, and that of the others only the first of least score goes, only from a full pool for a new peer |
| PeerPool.RegisterEdgeEffect | src/core/peerManager.js:24-48 | registering an edge address removes the peers of that host and no others |
| PeerPool.SetPublicEffect | src/core/peerManager.js:87-106 | learning the own address removes those that become own at one of the server's ports and no others |
| PeerPool.RegisterEdgeSound | src/core/peerManager.js:24-48 | after registering an edge address no peer of that host is left |
| PeerPool.SetPublicSound | src/core/peerManager.js:87-106 | after learning the own address no own address is left |
| PeerPool.AlwaysSound | src/core/peerManager.js:24-226 | after any operations: no loopback, own or edge host; score plus five per failure is 60 or 100; fewer than ten failures, none for gossip, but for bootstrap peers |
| PeerPool.WelcomeExactly | src/core/peerManager.js:155-173 | the checks of a report admit exactly a host with a port from 1 to 65535 that is none of the loopback and broadcast names, not the server's own address at its ports, and no edge host |
| PeerPool.OthersIgnored | src/core/peerManager.js:155-226 | a report about any other address changes nothing; a direct success about an admitted one always brings it in |
| Text.AddressReads | src/core/peerManager.js:158-159 | host and port of an address are what stands before the first colon and the number behind it, whatever follows its digits; without a colon there is no port |
| PeerPool.PeersWelcome | src/core/peerManager.js:155-226 | every peer of a pool that keeps the invariant is such an address |
| PeerPool.TrustedIsDirect | src/core/peerManager.js:228-232 | the peers the sample draws from are those contacted directly and never failed since |
| PeerPool.PeerManager.AddOrUpdatePeer | src/core/peerManager.js:155-226 | refuses, makes room by evicting the first of least score, then records the report |
| PeerPool.PeerManager.FindLowest | src/core/peerManager.js:176-184 | the scan finds the first peer of least score |
| OrderedMap.DeleteOrder | src/core/peerManager.js:184 | deleting a key leaves the rest in their order |
| PeerPool.PeerManager.RegisterEdge | src/core/peerManager.js:24-48 | remembers the address and evicts its host |
| PeerPool.PeerManager.SetOwnIp | src/core/peerManager.js:87-106 | remembers the address and drops own addresses from the pool |
| PeerPool.PeerManager.GetRandomSample | src/core/peerManager.js:228-240 | at most k distinct peers, all trusted, all trusted ones if there are no more than k, for every sequence of random numbers |
| Outbox.DelayGrows | src/storage/database.js:560-561 | the first wait is 7.5 seconds, each is half as long again as the one before, never shrinks, reaches two minutes with the eighth failure, and the cap on the exponent changes nothing |
| Outbox.LeavesExactly | src/storage/database.js:426-568 | in every run a row leaves the table at an event if and only if its receiver parses to nothing a send can be tried to, the send resolved, its tries or age since its last writing ran out with a failed one or at a clean-up, or it was put back where no retry is allowed |
| Outbox.VerdictSays | src/core/federation.js:804-856 | what a pass does with a row depends on how its receiver parses and how its send ends, and on nothing else |
| Outbox.RowHistory | src/storage/database.js:426-568 | in every run a row holds the message last queued under its identifier; its counter is the number of failures since it was queued or reset, or one more than those since it was put back; its age and next try are what the history says |
| Outbox.LeavesByTries | src/storage/database.js:555-558 | a young row leaves at a failure if and only if that count reaches the maximum there |
| Outbox.NothingIsLost | src/core/federation.js:804-856 | in every run whatever was queued is still there, with the receiver and content it was queued with, or left for one of these reasons |
| Outbox.FailuresCounted | src/storage/database.js:532-568 | after k failures with no reset and no putting back the counter is k, below the maximum, and the age is that of the queueing |
| Outbox.GoneAfterMaxRetries | src/storage/database.js:555-558 | in every run, putting back and resets included, a row whose count has reached the maximum is gone |
| Outbox.PutBackForEver | src/core/federation.js:749-823 | whatever came before, a row the sender puts back starts afresh with one try and a new age, and stays if and only if the settings allow a retry at all |
| Outbox.OutboxStore.UpdateOutboxRetry | src/storage/database.js:532-568 | counts the failure and schedules the next try, or removes the row |
| Outbox.OutboxStore.QueueOutbox | src/storage/database.js:471-489 | writes the row with fresh counters |
| Outbox.OutboxStore.CleanExpiredOutbox | src/storage/database.js:430-466 | removes exactly the rows out of retries or too old |
| Outbox.OutboxStore.ProcessOutbox | src/core/federation.js:804-856 | one pass cleans up if it is time, reads rows and settles each in turn by how its send ends |
| Outbox.OutboxStore.GetPendingOutbox | src/storage/database.js:491-523 | cleans up exactly if none was for five seconds, then reads rows whose next try is due, each once and as they stand, all of them up to fifty; each holds the message queued under its identifier |
| Outbox.OutboxStore.SettleAll | src/core/federation.js:804-856 | the rows read are settled one after the other, each once |
| Outbox.OutboxStore.Attempt | src/core/federation.js:806-856 | the receiver's address decides whether a send is tried and how its end is judged: removed, counted as a failure, or put back and counted |
| Rendezvous.AlwaysSound | src/core/rendezvousManager.js:75-204 | from the start, in every interleaving of maintenance, bindings, closes, heartbeats and role changes, both collections hold the same relays, never more than allowed, and a transit node has at least two |
| Rendezvous.AdvanceExact | src/core/rendezvousManager.js:75-81 | the maintenance loop goes on to the first target not bound yet, and ends exactly at the limit or with none left |
| Rendezvous.BindEffect | src/core/rendezvousManager.js:113-154 | an answered binding is kept over its channel, which then has a close handler, and the role follows |
| Rendezvous.CloseEffect | src/core/rendezvousManager.js:146-153 | a close removes the address its handler captured and nothing else, and the role follows |
| Rendezvous.HeartbeatEffect | src/core/rendezvousManager.js:174-204 | a heartbeat keeps exactly the relays that still answer, and the role follows |
| Rendezvous.OthersChangeNothing | src/core/rendezvousManager.js:13-209 | relays neither bind nor send heartbeats, a running maintenance loop keeps others out, and an unanswered binding changes no binding and no role |
| Rendezvous.LateCloseExactly | src/core/rendezvousManager.js:144-153 | on the edge side a close leaves other channels' bindings alone exactly when the captured address is not bound through one |
| Rendezvous.LateCloseUnbinds | src/core/rendezvousManager.js:174-204 | a run in which the close of a dropped channel takes away the new binding |
| Rendezvous.RendezvousManager.MaintainRendezvousTunnels | src/core/rendezvousManager.js:13-85 | nothing while a run is under way or on a relay, else the loop up to its first wait |
| Rendezvous.RendezvousManager.BindFinished | src/core/rendezvousManager.js:113-165 | a successful answer binds the relay, checks the role and installs at most one close handler per channel |
| Rendezvous.RendezvousManager.SendRendezvousHeartbeat | src/core/rendezvousManager.js:167-209 | exactly the silent relays are dropped and the role follows |
| Rendezvous.CloseSocketExact | src/core/rendezvousManager.js:349-357 | on the relay side a socket's close removes its own tunnels and none that superseded it |
| Rendezvous.BindTunnelSound | src/core/rendezvousManager.js:291-357 | never more than maxRendezvousTunnels tunnels, each on an open socket whose close will remove it |
| Rendezvous.PerIpExactly | src/core/rendezvousManager.js:299-316 | the limit per remote address is kept exactly unless a node bound from elsewhere moves to a full address |
| Rendezvous.RendezvousRelay.HandleRendezvousBind | src/core/rendezvousManager.js:211-330 | binds exactly what the earlier checks accept and the capacities admit |
| Address.MeshReads | src/utils/addressHelper.js:120-134 | a printed node name reads back exactly if its first ".mesh" is followed by further ones only |
| Address.BracketedHostReads | src/utils/addressHelper.js:136-148 | a bracketed host reads back exactly if it holds no closing bracket |
| Address.PlainHostReads | src/utils/addressHelper.js:150-165 | a host without colon printed with its port reads back |
| Address.PrintedParses | src/utils/addressHelper.js:185-336 | for every address, the printed form parses to the same name, node, host and port if and only if it is stable: no stray bracket, no ".mesh" inside a node name, no blank behind a global channel |
| Address.FormatUserParses | src/utils/addressHelper.js:338-341 | a formatted user name parses back to that user at that node |
| Address.HostWithoutPort | src/utils/addressHelper.js:150-183 | a host written without port stands for the configured port |
| Address.BracketsWithoutPort | src/utils/addressHelper.js:136-148 | so does a bracketed one with no port behind it |
| Address.BareIpv6 | src/utils/addressHelper.js:166-183 | behind more than one colon the last part is a port exactly if it is all digits and there is a dot before it |
| Address.OneColon | src/utils/addressHelper.js:154-164 | behind one colon exactly if it is all digits; no host before it means the server's own |
| Address.NodeIdReads | src/utils/addressHelper.js:120-134 | a node identity means the same with and without ".mesh" |
| Address.KeyGivesNodeId | src/utils/addressHelper.js:6-27 | the identity made from a key is one that addresses accept |
| Address.NameAlone | src/utils/addressHelper.js:205-334 | a name alone is a global channel's or this node's own |
| Address.GlobalNames | src/utils/addressHelper.js:29-33 | the global channel goes by two names, in any case, with blanks around them, and with a second mark, and by no other |
| Address.MarkMeansUser | src/utils/addressHelper.js:185-190 | a name without mark is a user's |

## Left out

- Messages after the transport: key exchange, authentication and terminal of the SSH server; `handlePacket` only records the payload and applies NEWKEYS.
- Onion cells inside the encrypted channel: the dispatcher at src/core/federationPacketHandler.js:36 calls `handleIncomingCell`, which the router does not define; cells are composed with `handleOnionCell` directly, as clear frames reach it.
- A relay that appears twice in one circuit, or answers meant for another circuit on the same channel: the stations of a circuit are different nodes and each request gets its own answer.
- OnionSetup.CircuitReady: relay addresses are not empty, as the pool of relays guarantees; a relay reached astray is another one than the relay meant, and what it goes on to ask of others is not followed.
- Onion.OnionArrives: a frame sent over a link that does not lead to the hop meant is lost; what another node does with it is not followed.
- Channel messages to one node's channel and direct messages: only the flood of global channels is modelled; route and presence learning from senders is not.
- FloodNetwork.EveryoneKnows: needs a hop limit above the number of nodes, which the default of 5 is for up to four nodes; for larger networks FloodNetwork.NeighboursKnow holds without it.
- SecureChannel: raw bytes, keepalives and the checks of nonce, address and signature, whose verdicts are parameters.
- CircuitStore: the table read by a later process, whose keys are sealed under another master key, and keys that are not text.
- Outbox.RowHistory: an identifier names one message while an attempt is under way, as identifiers drawn afresh do; the sender and the flags of a row are part of its content.
- Outbox.OutboxStore.ProcessOutbox: a pass runs with nothing in between; the lemmas about runs allow events of any kind between its attempts.
- Outbox: which fifty rows are read when more are due, and rows of older schemas without creation time.
- PeerPool: the peer file, and discovery on the local network.
- Rendezvous: choice of candidates, announcements and route updates; an initial role of CAP_EDGE_TRANSIT from the configuration.
- ReplayCache: negative time windows and clocks that run backwards.
- Address.PrintedParses: the server's own name is a plain host name, and lower-casing touches ASCII letters, the Kelvin sign and the dotted capital I only.
- Base32.Decode: lower-casing is the same; it leaves every other letter outside the alphabet, where the code's own does too.
- Utf8: octets that are no character's encoding, which the code replaces by U+FFFD.
- Rounding of numbers beyond 2^53 in parseInt and port texts.
- AutoNAT, locales, logging, commands, configuration, SQL conversation filters and schema migrations.
