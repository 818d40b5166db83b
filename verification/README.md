# Priestly: a verified model

This project models the hand-rolled parts of the Priestly chat system in Dafny and proves what they are for:
the Huffman codec and the compression marker, the Covenant password-authenticated key exchange, the sealed
session, the relaying server with all its threads, the WebSocket frame layer, the browser's twin of the
cryptographic code, SHA-1, HKDF, and the two JSONX scanners.

`dafny verify dfyconfig.toml` checks everything.

## How the model is laid out

| file | subject |
|---|---|
| `HuffmanTrees`, `HuffmanOptimality`, `HuffmanCodes`, `HuffmanCodec`, `HuffmanTheorems`, `HuffmanExamples` | `crypto/huffman.py`: the merge loop on a heap, code tables, packing, both directions of the codec, and their theorems |
| `NumberTheory`, `ModularInverse`, `Covenant` | Fermat, orders, Bezout; `extended_gcd`, `modinv`; the group operations of `crypto/covenant.py` |
| `Handshake`, `HandshakeWire`, `HandshakeRuns`, `MutualAuthentication` | `protocol/covenant.py`: both drivers as methods and as step machines, every field of every frame, every run of one against the other, and their runs on a network that chooses every frame |
| `Session`, `Channel` | `protocol/session.py`: one end of a session, and two ends with an adversarial network between them |
| `Relay`, `ServerNode`, `MessageLoop`, `NodeInvariant`, `NodeSteps`, `NodeTheorems`, `NodeHistory`, `NodeHandshake`, `EndToEnd`, `BrowserNode` | `cli/relay.py` and `cli/server.py`: the registry's objects and the message loop, and the node as a step machine with one thread per connection; with the sealed channels, from author to reader, a browser among them |
| `WebSocketFrames`, `WebSocketBytes`, `WebSocketMessages`, `WebSocketConversations` | `transport/ws.py`: encoder, decoder over a socket that splits reads at will, reassembly, `recv` called again and again |
| `BrowserNumbers`, `BrowserSession`, `Hkdf` | `ui/covenant.js` against its Python original; `crypto/hkdf.py` |
| `Sha1`, `MachineWords`, `Sha1Machine` | `crypto/sha1.py` against RFC 3174: on numbers, and on 32-bit machine words with the digest of "abc" |
| `Jsonx`, `JsonxSyntax`, `JsonxLines` | the scanners of `config.py`, character by character, and the lines of its records |
| `Results`, `Bytes`, `BitOperators`, `Sequences`, `Arithmetic`, `SetSums` | exceptions as results, big-endian fields, and small facts shared by the rest |

Python exceptions are values of `Results.Error`. Code that changes objects step by step is written as methods
on classes, each tied by its `ensures` to a function of the old state; the theorems are about those functions.

## Assumptions

* Keyed digests are a function parameter `mac`, SHA-1 in the handshake is a parameter `sha1` with 20-byte
  results, JSON is a pair of parameters `encode` and `decode`. Nothing is assumed of them beyond their types
  unless a theorem says so.
* A digest cannot be injective on all inputs. `HandshakeRuns.NoCollision` says only that the client's
  confirmation message has different tags under the two different keys of that one run, and
  `Channel.UnforgedFrame` says only that a frame whose tag verifies was tagged by one of the two ends.
  `HandshakeRuns.HypothesesAreMet` shows that the hypotheses of the handshake theorems can be met.
* The modulus is any `p = 2q + 1` with `p` and `q` prime that fits 256 bytes. That the literal of section 3 of
  RFC 3526 is such a prime is a premise.
* What a thread does under a lock, each send under a client's lock, and each snapshot of the registry is a
  separate step of `ServerNode.Step`. `Hear` alone joins several: a `recv`, what the thread makes of the frame,
  and the answer it sends on its own connection. Nothing observable is lost by that. Between the `recv` and the
  answer only the thread's own phase, name and receive counter change, which no other thread reads or writes;
  what others do to the connection meanwhile (its lock, its send counter, frames on its wire) does not enter
  the reaction (`Session.OpeningIgnoresSending`), so it can be taken to happen before the `recv`. A `recv`
  whose answer never gets sent is the case `sendOk == false`.

## Where code and documentation part

* `open` documents a rekeying epoch; the code never compares `frame.epoch` with its own epoch
  (`Session.EpochIsNotCompared`). The tag still binds it (`Session.TagInputInjective`), and a peer always seals
  with epoch 0.
* `recv` documents reassembly of fragmented messages, but a TEXT or BINARY frame in the middle of a message is
  accepted and changes the opcode of the whole (`WebSocketMessages.RestartIsAccepted`).
* Matching passwords are not always enough: an honest handshake fails when `A` or the masked `B` happens to be
  1 or p - 1 (`HandshakeRuns.EqualPasswordsCanFail`, a complete run). `HandshakeRuns.HandshakeOutcome` gives the
  exact condition.
* Not every failed handshake ends in CovenantError on both sides: when masked `B` is out of range the client
  hangs up and the server ends with ConnectionClosed (`HandshakeRuns.ServerMeetsHangUp` is such a run).
* `decompress` is documented as the inverse of `compress`; it does not notice a blob that is cut short in its payload,
  and returns a beginning of the text (`HuffmanTheorems.CutPayload`).
* `_strip_comments` promises to keep newlines in block comments; it loses the last one of a text that ends
  inside an unclosed block (`Jsonx.NewlineLost`; `Jsonx.NewlinesPreserved` says exactly when), and every other
  line break inside a comment, so that `parse_jsonx` can report a wrong line (`JsonxLines.CarriageReturnShifts`;
  `JsonxLines.RecordLine` says exactly when).
* `parse_jsonx` documents one JSON object per line; it splits a record at a separator that JSON allows inside a string
  (`JsonxLines.SeparatorSplitsRecord`). `JsonxLines.RecordKeptWhole` says for every text exactly when a record
  is kept whole: when it has no break outside comments and no newline inside one, and something is left of it.
  `JsonxLines.RecordOnItsLine` says the same of a record in the middle of a file.
* `_strip_trailing_commas` is not idempotent on `{1,,}`; `Jsonx.CommasIdempotent` says exactly where it is.
* `modPow` in the browser differs from Python's `pow` when the modulus is 1 and the exponent 0, and for some
  negative bases (`BrowserNumbers.ModPowAgrees`). `open_` refuses compressed frames that `open` accepts
  (`BrowserSession.RepeatedTextRefused`: any byte repeated fourteen times or more), wraps header fields beyond
  64 bits where `open` raises (`BrowserSession.WideEpochDiffers`), and takes other spellings of base64
  (`BrowserSession.DecodersDiffer`).

## Model

| member | source | states |
|---|---|---|
| `HuffmanTrees.BuildTree` | crypto/huffman.py:36-49 | the merge loop over a heap filled in any insertion order yields the one tree `HuffmanTree(freq)`, which depends only on the symbol-to-frequency map; an empty map raises IndexError |
| `HuffmanTrees.HeapPop` | crypto/huffman.py:44-47 | pop by contract, written out: every other entry has a greater frequency, or the same frequency and a greater least symbol; the others stay |
| `HuffmanTrees.MergeTwoLeast` | crypto/huffman.py:44-48 | one iteration, written out: the two entries popped come before all others in frequency, then least symbol; they are replaced by one with the sum, the smaller symbol, and a node whose left child is the one popped first |
| `HuffmanTrees.LeastSymbolCarried` | crypto/huffman.py:39-48 | after any number of rounds every entry carries the least of the symbols in its subtree |
| `HuffmanExamples.TwoSymbols` | crypto/huffman.py:36-49 | for any two symbols and frequencies: the rarer is the left child, and of two equally frequent ones the smaller |
| `HuffmanExamples.PairBlob` | crypto/huffman.py:66-82 | every byte of the blob of two letters in order: the first has the code 0 |
| `HuffmanExamples.AbBlob` | crypto/huffman.py:66-82 | `compress(b"ab")`, byte by byte |
| `HuffmanExamples.RefusedTexts` | crypto/huffman.py:68 | exactly the texts of 2^32 bytes and more are refused |
| `HuffmanExamples.EmptyTables` | crypto/huffman.py:85-101 | blobs that end in the header: the empty text, or IndexError if they claim a length |
| `HuffmanOptimality.MergeCostIsLeast` | crypto/huffman.py:44-48 | the sum of all merged weights is at most the weighted sum of any code lengths that satisfy the Kraft inequality |
| `HuffmanOptimality.SinkTwoLeast` | crypto/huffman.py:45-46 | exchange argument: in Kraft lengths with two or more deepest entries, the two least can be made deepest without extra cost |
| `HuffmanCodes.CodeTable.BuildCodes` | crypto/huffman.py:52-58 | the recursive filling of `out` adds exactly the codes of the leaves below the node |
| `HuffmanCodes.CodesArePaths` | crypto/huffman.py:52-58 | each code is the prefix followed by the path from the root to its symbol |
| `HuffmanCodes.PathsPrefixFree` | crypto/huffman.py:52-58 | no code of one symbol begins the code of another |
| `HuffmanCodes.BuildCost` | crypto/huffman.py:44-49 | the built tree costs exactly the merged weights plus what the heap already held, and holds exactly its symbols |
| `HuffmanCodes.HuffmanIsOptimal` | crypto/huffman.py:36-58 | for every non-empty frequency map the tree costs no more than any prefix-free code over its symbols |
| `HuffmanCodes.NoTreeIsCheaper` | crypto/huffman.py:36-49 | no binary tree over the same symbols costs less |
| `HuffmanCodec.CompressBlob` | crypto/huffman.py:66-82 | the method produces exactly `Compress(data)`; from 2^32 bytes on it raises OverflowError |
| `HuffmanCodec.DecompressBlob` | crypto/huffman.py:85-120 | the method produces exactly `Decompress(blob)` for every blob, truncated tables and empty trees included |
| `HuffmanCodec.WalkPayload` | crypto/huffman.py:110-120 | the walk bit by bit, byte by byte, with the early stop, decodes the whole bit string up to the given length |
| `HuffmanCodec.ReadTable` | crypto/huffman.py:97-101 | the table loop reads the map of the written table, or fails where it is cut short |
| `HuffmanCodec.UnpackPadded` | crypto/huffman.py:61-63 | packed bits are read back |
| `HuffmanTheorems.DecodeText` | crypto/huffman.py:52-120 | decoding the concatenated codes of a text, with anything after them, gives the text back |
| `HuffmanTheorems.RoundTrip` | crypto/huffman.py:66-120 | for every text shorter than 2^32 and every trailing bytes, decompressing the compressed text returns it |
| `HuffmanTheorems.CutPayload` | crypto/huffman.py:110-120 | a blob cut anywhere in its payload decompresses without an error, to a beginning of the text |
| `HuffmanTheorems.EncodedBits` | crypto/huffman.py:36-82 | the encoded length is at once the sum of merged weights, the tree cost, and the sum of frequency times code length |
| `HuffmanTheorems.CompressedSize` | crypto/huffman.py:66-82 | with k >= 2 symbols the blob has exactly 6 + 5k + ceil(W / 8) bytes, W the sum of merged weights |
| `HuffmanTheorems.RepeatedSize` | crypto/huffman.py:36-82 | with one symbol repeated n times it has exactly 11 + ceil(n / 8) bytes |
| `HuffmanTheorems.ShortestText` | crypto/huffman.py:66-82 | no prefix-free code encodes the text in fewer bits |
| `ModularInverse.ExtendedGcd` | crypto/covenant.py:49-62 | for all integers the loop ends with Bezout coefficients of the gcd, which takes the sign of b (of a when b is 0); for positive arguments they are bounded by b/g and a/g |
| `ModularInverse.CoefficientsStayBounded` | crypto/covenant.py:49-62 | for positive arguments all four coefficients stay within b/g and a/g, from the start and in every iteration |
| `ModularInverse.ModInv` | crypto/covenant.py:65-70 | succeeds exactly when an inverse exists, and returns it |
| `ModularInverse.ModInvFindsInverse` | crypto/covenant.py:65-70 | the result is the unique inverse in [0, m); without one it raises |
| `ModularInverse.GcdOneIffInvertible` | crypto/covenant.py:65-70 | a gcd of 1 and the existence of an inverse are the same |
| `Covenant.SecretElementIsSquare` | crypto/covenant.py:77-88 | the password element is a nonzero square modulo p |
| `Covenant.ElementInvertible` | crypto/covenant.py:116-118 | every password element can be unmasked |
| `Covenant.Exchange` | crypto/covenant.py:101-123 | both sides raise to the same G^(ab) |
| `Covenant.DegenerateElement` | crypto/covenant.py:101-103 | G^a is 1 or p - 1 exactly when q divides a |
| `Covenant.SecretsAgreeExactly` | crypto/covenant.py:111-123 | the client's and the server's shared secret are equal if and only if the password elements are equal or A is 1 or p - 1, for all exponents |
| `Covenant.ConfirmMessageInjective` | crypto/covenant.py:130-139 | the confirmed message determines commitment, role and element |
| `Handshake.RolesKeepApart` | crypto/covenant.py:130-139 | client and server never confirm the same message |
| `Handshake.RunClient` | protocol/covenant.py:67-100 | the driver computes the client machine on the frames it is handed: the frames it sends, its session or its error; a send that raises and a receive that raises, whatever it raises, are included |
| `Handshake.TakeConfirm` | protocol/covenant.py:129-144 | the second half of `run_server`, from its second receive on: the frames and the outcome are those of one step of the server machine |
| `Handshake.RunServer` | protocol/covenant.py:107-160 | the same for the server, with the failure frame before every CovenantError; that error is raised even when the failure frame cannot be sent |
| `HandshakeWire.PasswordElementIs` | crypto/covenant.py:77-88 | the square modulo p of the digest of the label, byte for byte, under the password, with 1 in place of 0 |
| `HandshakeWire.KeysAre` | crypto/covenant.py:146-158 | each of the four keys is the first HKDF block under its own label |
| `HandshakeWire.ClientCommits` | protocol/covenant.py:69-73 | in every run the client's first frame is the SHA-1 digest of the 256-byte encoding of 2^a mod p |
| `HandshakeWire.ClientFrames` | protocol/covenant.py:67-100 | a client with a session, every field written out: the B it unmasked times the password element is the masked element it was sent; its commitment, its confirmation under the shared value B^a, the answer it took, and its keys |
| `HandshakeWire.ServerFrames` | protocol/covenant.py:107-144 | a server with a session: the commitment it took is the digest of the A it was shown; both confirmations under A^b, its challenge, and its keys |
| `HandshakeWire.ClientFailsFirst` | protocol/covenant.py:67-82 | every way to fail before the second frame, with its error |
| `HandshakeWire.ClientFailsSecond` | protocol/covenant.py:88-98 | every way to fail after it |
| `HandshakeWire.ServerFailsFirst` | protocol/covenant.py:113-129 | every way to fail before the challenge, with its error and the failure frame |
| `HandshakeWire.ServerFailsSecond` | protocol/covenant.py:129-160 | every way to fail after it |
| `HandshakeRuns.HandshakeOutcome` | protocol/covenant.py:67-144 | over every schedule: both sides get sessions, with equal keys and swapped directions, if and only if the password elements agree and A and masked B pass the range check; otherwise the client fails with CovenantError, and the server with CovenantError if masked B is in range and with ConnectionClosed if it is not |
| `HandshakeRuns.MatchingPasswordsAgree` | protocol/covenant.py:67-144 | equal passwords and elements in range: both sides finish as peers |
| `HandshakeRuns.WrongPasswordFails` | protocol/covenant.py:67-144 | different password elements: both sides fail for all exponents, with exactly these errors |
| `HandshakeRuns.DegenerateExponentFails` | protocol/covenant.py:58-64 | equal passwords and an exponent that is a multiple of q: both sides fail all the same |
| `HandshakeRuns.EqualPasswordsCanFail` | protocol/covenant.py:58-64 | such a run from start to end, in the group of 7, for any password |
| `HandshakeRuns.ServerMeetsHangUp` | protocol/covenant.py:81-84 | a run from start to end whose masked B is out of range: CovenantError at the client, ConnectionClosed at the server |
| `HandshakeRuns.TurnsFinish` | protocol/covenant.py:67-144 | every legal setup is finished after the four turns server, client, server, client |
| `HandshakeRuns.Progress` | protocol/covenant.py:67-144 | a run that cannot move on is finished: the two drivers never wait for each other for ever |
| `HandshakeRuns.HandshakeEnds` | protocol/covenant.py:67-144 | no schedule makes more than four moves |
| `HandshakeRuns.UnmaskRecovers` | crypto/covenant.py:111-118 | unmasking with the same element gives B back |
| `MutualAuthentication.MutualAuthentication` | protocol/covenant.py:84-144 | any number of clients and servers on a network that chooses every frame but forges no tag: a client that has a session shares it with a server run that is done as well, on the same commitment, B, shared value and keys, and on the same A unless two different A have one `sha1` of their 256-byte encodings |
| `MutualAuthentication.ElementShared` | protocol/covenant.py:84-144 | if no two different A among these parties have one such digest, the two agree on A outright |
| `MutualAuthentication.SingleClientAgrees` | protocol/covenant.py:84-144 | with one client the two agree on A as well, whatever the digest |
| `MutualAuthentication.ServerKnowsClient` | protocol/covenant.py:125-144 | a server that is done was confirmed to by one of the clients, on the same shared value, commitment and A |
| `MutualAuthentication.ReflectionNeedsCollision` | protocol/covenant.py:92-96 | a client that takes its own confirmation for the server's has met a MAC collision on two different messages |
| `Session.UnpackPack` | protocol/session.py:46-63 | for every text below 2^32 bytes pack is lossless, takes the shorter of the two forms, and costs one byte at most |
| `Session.Markers` | protocol/session.py:54-63 | the marker byte decides: 0 stored, 1 compressed, anything else or nothing is refused |
| `Session.TagInputInjective` | protocol/session.py:66-77 | the tagged bytes determine epoch, sequence number, direction and payload |
| `Session.TagLayout` | protocol/session.py:66-77 | the bytes before the payload, one by one: epoch and number, big-endian in eight bytes each, then 0x43 for the client or 0x53 |
| `Session.SealedFields` | protocol/session.py:97-108 | every field of a sealed frame, with the marker byte of its payload and the bytes its tag covers |
| `Session.TakenExactly` | protocol/session.py:110-135 | the receive counter moves exactly when direction, encoding, 64-bit fields, tag and freshness are all right, written out |
| `Session.SessionState.Seal` | protocol/session.py:97-108 | the new state and the frame are those of `Sealing`; the counter moves even when sealing raises |
| `Session.SessionState.Open` | protocol/session.py:110-135 | direction, encoding, tag and freshness are checked in this order, then the counter moves, then the payload is unpacked |
| `Session.SealSucceeds` | protocol/session.py:97-108 | sealing raises exactly when the text is too long to compress (OverflowError) or the counter leaves 64 bits (struct.error) |
| `Session.OpenSealed` | protocol/session.py:97-135 | the peer opens a sealed frame to its plaintext exactly when it is newer than all before, else ReplayError |
| `Session.EpochIsNotCompared` | protocol/session.py:116-135 | a frame tagged under another epoch than the endpoint's own opens, if its number is new |
| `Channel.ChannelSafety` | protocol/session.py:80-135 | against a network that drops, repeats, reorders, alters and injects: each end accepts an in-order, duplicate-free selection of what the other sealed, and `rx_seq` is the last accepted number |
| `Channel.OpenOutcome` | protocol/session.py:110-135 | the exact outcome for any frame: without a valid tag nothing changes, a number already reached is a replay, a new number counts as seen even if the payload does not unpack |
| `Channel.OwnFramesRefused` | protocol/session.py:116-117 | a frame reflected to the end that sealed it is refused and changes nothing |
| `Channel.LosslessDelivery` | protocol/session.py:80-135 | with delivery in order nothing is refused, and what has been accepted is exactly what has been delivered |
| `Relay.RegisteredClient.Deliver` | cli/relay.py:41-48 | the session seals and the frame goes out, or the session has moved on and nothing went out |
| `Relay.ClientRegistry.Broadcast` | cli/relay.py:66-78 | every registered client but the sender has got exactly this message under its own session, or has been dropped with its wire unchanged |
| `MessageLoop.Dispatch` | cli/server.py:104-122 | one received frame: what the session becomes, and whether it is relayed, answered with which code, or ends the loop; a relayed message has the text heard and the sender given in it, or else the connection's name |
| `MessageLoop.Turn` | cli/server.py:102-122 | one turn with its effect: at most one broadcast, by this client, or one answer, or the end |
| `MessageLoop.Loop` | cli/server.py:101-122 | the whole loop: it hears a prefix of what the client sent, relays exactly the texts and sends exactly the answers that follow from it, in order, and stops at the first frame that raises or answer that cannot be sent |
| `MessageLoop.ServeClient` | cli/server.py:88-96 | from the registration on: the loop as above, and however it ends the client is not left registered |
| `NodeSteps.RunKeeps` | cli/server.py:56-122 | every interleaving of any number of handler threads, with clients joining, leaving and failing, keeps the invariant of the node |
| `NodeSteps.StepKeeps` | cli/server.py:56-122 | each single step keeps it |
| `NodeSteps.SealKeeps` | cli/relay.py:43-47 | sealing under the lock: the frame under way is newer than everything on the recipient's wire |
| `NodeSteps.TransmitKeeps` | cli/relay.py:48 | sending, or failing to, under the lock keeps every wire in order |
| `NodeSteps.DropKeeps` | cli/relay.py:77-78 | dropping a client keeps the account of who got what |
| `NodeSteps.AnnounceKeeps` | cli/relay.py:72-73 | the snapshot of recipients: registered clients only, never the author |
| `NodeTheorems.RegisteredClients` | cli/server.py:70-92 | in every reachable state a registered client of a protected node has completed `run_server` and holds the session it returned, uncompressed for a browser; on an open node it has none; a thread that is over is not registered |
| `NodeTheorems.NothingInPlain` | cli/relay.py:41-48 | a protected node never sends a chat text in plain, an open one never seals |
| `NodeTheorems.RelayedTexts` | cli/server.py:101-122 | in every reachable state each broadcast of each connection has the text that was said and the sender given with it, or else the connection's name; on a protected node it was said in a sealed frame that the author's session opened, and no such frame is relayed twice |
| `NodeHistory.BroadcastsAreHeard` | cli/server.py:101-122 | in every run each connection passes on exactly the frames it heard that are to be relayed: one broadcast for each, in the order heard, text and sender written out |
| `NodeHistory.NamedByHello` | cli/server.py:60-85 | in every reachable state a connection past its HELLO has the name and the kind that the HELLO it heard gave it, and was told the node's own setting |
| `NodeHistory.DecimalReads` | cli/server.py:64 | the id in that name is written in decimal, without leading zeros, and reads as the id |
| `NodeHistory.FirstFrame` | cli/server.py:60-75 | what the first frame leads to: HELLO goes on, anything else readable is answered with 400, and the connection ends |
| `NodeHistory.LaterFrame` | cli/server.py:101-122 | what every later frame leads to: passed on, answered, or the end; an answer that cannot be sent is the end |
| `NodeHandshake.HandshakeFrameHeard` | cli/server.py:73-85 | one receive of the handshake inside the node: its frames go out and the thread follows `run_server`, or a send raises and the connection ends; compression is off for a browser |
| `NodeHandshake.HandshakeOnWire` | cli/server.py:73-85 | in every reachable state the handshake frames on the wire of a connection with a session are exactly those `run_server` sends for the two frames heard there; an open node sends none |
| `NodeTheorems.RelayedInOrder` | cli/relay.py:66-78 | what reaches a reader was meant for it and carries the author's text; nobody hears from themselves, each broadcast arrives once at most, and one author's broadcasts arrive in the order they were relayed |
| `NodeTheorems.NothingLost` | cli/relay.py:66-78 | when a fan-out is over every recipient has the message or has been dropped for good |
| `NodeTheorems.ClientsOpenEverything` | cli/relay.py:41-48 | a client with its session's keys opens every sealed frame of its wire, in wire order, to the relayed texts |
| `BrowserNode.BrowsersOpenEverything` | ui/covenant.js:92-101 | in every reachable state of a protected node: a browser that holds the shared value of its connection's handshake opens every sealed frame of its wire with `open_`, in wire order, to the relayed texts |
| `EndToEnd.EndToEndDelivery` | cli/server.py:56-122 | in every reachable state of a protected node, if no author's channel saw a forged tag: a client opens all its sealed frames, each text was sealed by some other authenticated client, and one author's texts come in the order that client sealed them, none twice |
| `NodeTheorems.LockIsNeeded` | cli/relay.py:39-48 | if two frames were sent in the other order than sealed, the earlier one would be refused: what the lock is for |
| `NodeTheorems.NeverStuck` | cli/relay.py:41-78 | as long as some thread is not waiting for its client, some thread can move: no deadlock |
| `WebSocketFrames.RecvExact` | transport/ws.py:58-69 | exactly n bytes however the socket splits them, or ConnectionClosed when the stream ends first |
| `WebSocketFrames.EncodeFrame` | transport/ws.py:165-185 | the bytes are those of one final frame: header, shortest length form, key, masked payload |
| `WebSocketFrames.ReadFrame` | transport/ws.py:188-217 | frame, error and bytes left over depend on the bytes alone, not on how they arrive |
| `WebSocketFrames.ParseWireFrame` | transport/ws.py:165-217 | decoding an encoded frame followed by anything gives opcode and payload back and leaves exactly the rest |
| `WebSocketFrames.TruncatedFrame` | transport/ws.py:58-69 | every proper prefix of a frame means ConnectionClosed, never a frame |
| `WebSocketFrames.EncodingIsMinimal` | transport/ws.py:165-185 | no bytes that decode to a frame are fewer than those the encoder writes for it |
| `WebSocketBytes.ParsedLayout` | transport/ws.py:188-217 | which bytes of the stream make up a frame that was read: final bit, opcode, length field, start of the payload, rest |
| `WebSocketBytes.ParsedBits` | transport/ws.py:206-217 | a bit of the payload differs from the bit on the wire exactly where the bit of the key, repeated every four bytes, is set |
| `WebSocketBytes.MalformedExactly` | transport/ws.py:191-205 | when the first two bytes rule a frame out |
| `WebSocketBytes.WireHeader` | transport/ws.py:165-185 | every byte before the payload of an encoded frame |
| `WebSocketBytes.WireBits` | transport/ws.py:165-185 | and every bit of the payload, against the key |
| `WebSocketBytes.HelloFrames` | transport/ws.py:165-217 | the unmasked and the masked "Hello" of section 5.7 of RFC 6455, encoded and decoded |
| `WebSocketBytes.FragmentsAndPing` | transport/ws.py:165-217 | the two fragments and the ping of that section, as a peer writes them |
| `WebSocketBytes.LongLengths` | transport/ws.py:172-180 | the length fields of 256 and of 65536 bytes |
| `WebSocketBytes.PingAnswered` | transport/ws.py:269-271 | a frame that begins with 0x89 is answered by one that begins with 0x8A and has its payload |
| `WebSocketBytes.PongAndClose` | transport/ws.py:265-273 | one that begins with 0x8A is skipped, and one that begins with 0x88 closes |
| `WebSocketBytes.TextMessage` | transport/ws.py:262-288 | a frame that begins with 0x81 is a whole text |
| `WebSocketBytes.BytesMessage` | transport/ws.py:262-288 | one that begins with 0x82 is a whole message of bytes |
| `WebSocketBytes.LoneContinuation` | transport/ws.py:275-277 | one that begins with 0x80 is an error where no message has begun |
| `WebSocketBytes.TwoHalves` | transport/ws.py:275-286 | a text in two frames |
| `WebSocketBytes.RecvReturns` | transport/ws.py:262-288 | what each end of the loop returns or raises; text must be UTF-8 |
| `WebSocketMessages.WebSocket.SendFrame` | transport/ws.py:246-249 | clients mask and servers do not; nothing is sent on a closed connection; a socket error leaves some beginning of the frame sent and is raised |
| `WebSocketMessages.WebSocket.ReceiveFrame` | transport/ws.py:262-286 | one turn of the receive loop: the rest of the stream still amounts to the same, or this is how recv ends |
| `WebSocketMessages.WebSocket.Recv` | transport/ws.py:253-286 | the loop returns what `Assemble` says of the unread bytes, or ValueError for text that is not UTF-8, has sent exactly the pongs for the pings met, in order, and has consumed exactly the frames of the message; when a pong cannot be sent it raises with exactly the earlier pongs sent |
| `WebSocketMessages.WebSocket.Close` | transport/ws.py:290-305 | one Close frame, unless closed already; an error in sending it is swallowed; the socket is closed |
| `WebSocketMessages.AssembleEvents` | transport/ws.py:253-286 | for every sequence of frames up to a final piece: delivered with the pieces joined if the first piece is no continuation, else a protocol error |
| `WebSocketMessages.ReceiveLegal` | transport/ws.py:253-286 | a stream that begins with any legal fragmented messages and interleaved control frames: `ReceiveAll` returns exactly those messages in order, answers exactly their pings in order, and goes on with the bytes after them |
| `WebSocketConversations.ReceiveMessages` | transport/ws.py:253-286 | `recv` on the object, so many times or until it raises: the messages are the first ones of `ReceiveAll`, the pongs sent answer its first pings, and the bytes left are those after these messages; for each way to raise, exactly what has been sent and read |
| `WebSocketConversations.LegalHeard` | transport/ws.py:253-286 | as many calls as the stream has legal messages: those messages, their pings answered, and exactly the bytes after them left |
| `WebSocketMessages.RestartIsAccepted` | transport/ws.py:274-280 | a message broken off by a new first frame is delivered as one message under the later opcode |
| `BrowserNumbers.ModPow` | ui/covenant.js:32-36 | square-and-multiply computes base^exp modulo mod with JavaScript's remainder, for every modulus of either sign; 0 raises RangeError |
| `BrowserNumbers.ModPowAgrees` | ui/covenant.js:32-36 | for every base: it is Python's pow exactly unless the modulus is 1 and the exponent 0, or an odd power of a negative base leaves a remainder |
| `BrowserSession.SameElements` | ui/covenant.js:32-36 | browser and Python compute the same public elements and shared secrets for every exponent |
| `BrowserNumbers.Egcd` | ui/covenant.js:37-41 | the same triple as Python's `extended_gcd` on non-negative input |
| `BrowserNumbers.BrowserModInv` | ui/covenant.js:42 | the same result as Python's `modinv` for every integer and positive modulus |
| `BrowserNumbers.BytesToBig` | ui/covenant.js:43 | the big-endian value |
| `BrowserNumbers.BigToBytes` | ui/covenant.js:44 | the big-endian bytes, truncated to the width |
| `BrowserSession.SameKeys` | ui/covenant.js:72-82 | the browser derives the two MAC keys the Python client derives |
| `BrowserSession.BrowserOpenAgrees` | ui/covenant.js:92-101 | for every frame: Python opens it with a stored payload that `atob` takes if and only if its header fields fit 64 bits, `b64decode` takes its payload and the browser opens it, with the same plaintext |
| `BrowserSession.DecodersDiffer` | ui/covenant.js:50 | a payload that only one of the two base64 decoders takes is opened by one side only |
| `BrowserSession.WideEpochDiffers` | ui/covenant.js:94-95 | a frame beyond 64 bits that the browser opens and Python refuses |
| `BrowserSession.BrowserOpensSealed` | ui/covenant.js:92-101 | a frame sealed by the server is refused by the browser exactly when compression is on and shortened it |
| `BrowserSession.RepeatedTextRefused` | ui/covenant.js:99 | with compression on, one byte repeated n times is refused by the browser if and only if n >= 14, while Python reads it |
| `BrowserSession.BrowserHearsServer` | ui/covenant.js:92-101 | every run of server seals with compression off is accepted, in order and whole |
| `BrowserSession.BrowserSealAgrees` | ui/covenant.js:85-91 | the browser seals the frame that a Python client with compression off and the same counter would have sealed |
| `BrowserSession.ServerHearsBrowser` | ui/covenant.js:85-91 | a run of browser seals, under any numbers, is accepted by the server in order and whole if and only if the numbers rise, with or without gaps, from the last one seen |
| `BrowserSession.BrowserSessionWorks` | ui/covenant.js:72-101 | both directions, from the shared secret on, for any rising numbers of the browser |
| `BrowserSession.CountedSessionWorks` | ui/covenant.js:72-101 | the case of consecutive numbers |
| `Hkdf.HkdfExpand` | crypto/hkdf.py:19-36 | the loop computes T(1) \| T(2) \| ... cut to the length, or raises beyond 255 blocks |
| `Hkdf.ExpandSize` | crypto/hkdf.py:19-36 | exactly the requested length, for every length up to 255 blocks |
| `Hkdf.ShorterIsPrefix` | crypto/hkdf.py:19-36 | a shorter output begins a longer one |
| `Hkdf.TwoBlocks` | crypto/hkdf.py:29-36 | the second block is keyed like the first and covers the first, the label and the byte 2 |
| `Hkdf.BrowserExpandAgrees` | ui/covenant.js:72-75 | the one-block form is the same for 1 to 32 bytes |
| `Sha1.Pad` | crypto/sha1.py:36-42 | the padding loop appends the marker, the fewest zeros and the length field |
| `Sha1.PaddingIsLeast` | crypto/sha1.py:38-42 | whole blocks, and no smaller number of zeros would do |
| `Sha1.PaddingInjective` | crypto/sha1.py:36-42 | below 2^61 bytes padding loses nothing |
| `Sha1.RotlRefines` | crypto/sha1.py:27-29 | shift, or and mask on wide integers is the circular shift of a 32-bit word |
| `Sha1.SumRefines` | crypto/sha1.py:68 | one mask after the sum of five is addition modulo 2^32 at every plus |
| `Sha1.OpRefines` | crypto/sha1.py:52-67 | bitwise operators on unbounded integers stay within 32 bits |
| `Sha1.Schedule` | crypto/sha1.py:46-50 | the array holds the word schedule of the standard |
| `Sha1.RegisterTurn` | crypto/sha1.py:53-69 | one turn of the register loop is one round of the standard |
| `Sha1.FunctionBits` | crypto/sha1.py:53-66 | the three functions bit by bit: choose, parity, majority |
| `Sha1.ConstantRoots` | crypto/sha1.py:53-66 | each constant is the integer part of 2^30 times the square root of 2, 3, 5 or 10 |
| `MachineWords.NumberAdd` | crypto/sha1.py:68 | addition modulo 2^32 on numbers is addition of 32-bit machine words, for all words |
| `MachineWords.NumberXor` | crypto/sha1.py:50 | so are the bitwise operators, here exclusive or |
| `MachineWords.NumberNot` | crypto/sha1.py:54 | and the complement |
| `MachineWords.RotateThirty` | crypto/sha1.py:27-29 | and the rotations, here by 30 |
| `Sha1Machine.TurnAgrees` | crypto/sha1.py:52-69 | one round on numbers is the round of RFC 3174 on machine words, for all words |
| `Sha1Machine.WheelAgrees` | crypto/sha1.py:45-69 | so are eighty rounds with their schedule, for every block and chaining value |
| `Sha1Machine.HashNext` | crypto/sha1.py:44-75 | and so is each step from one chaining value to the next, whatever the message |
| `Sha1Machine.AbcDigest` | crypto/sha1.py:32-77 | the digest of "abc", twenty bytes written out, by evaluation on machine words |
| `Sha1.Sha1Digest` | crypto/sha1.py:32-77 | the whole function computes the digest of RFC 3174 for every input; all state words stay below 2^32 |
| `Jsonx.StripComments` | config.py:58-100 | the index loop computes `Strip` for every text |
| `Jsonx.StripIdempotent` | config.py:58-100 | stripping twice is stripping once, for every text |
| `Jsonx.LiteralsSurvive` | config.py:58-100 | the string literals outside comments are unchanged and in order, and no new one appears |
| `Jsonx.NewlinesPreserved` | config.py:58-100 | newlines are preserved, except for one exactly when the text ends with a newline inside an unclosed block |
| `Jsonx.NewlineLost` | config.py:88-94 | a text that loses its newline |
| `Jsonx.StripTrailingCommas` | config.py:103-137 | the index loop computes `DropCommas` for every text |
| `Jsonx.ExactlyTrailingCommas` | config.py:103-137 | exactly those commas go that are outside strings and followed, after white space, by } or ] |
| `Jsonx.CommasIdempotent` | config.py:103-137 | a second pass changes nothing if and only if no comma is followed only by a trailing comma |
| `Jsonx.DoubledComma` | config.py:103-137 | the counterexample `{1,,}` |
| `Jsonx.LinesKept` | config.py:140-154 | the number of newlines is kept by both scans, but for that one |
| `JsonxSyntax.LineCommentGoes` | config.py:84-87 | from # or // on, a line is dropped up to its end |
| `JsonxSyntax.BlockCommentGoes` | config.py:88-95 | what stands between /* and the first */ leaves its newlines and nothing else |
| `JsonxSyntax.StringStays` | config.py:58-137 | a string literal passes through both scans, whatever stands in it |
| `JsonxSyntax.CharacterStays` | config.py:58-137 | any other character stays |
| `JsonxSyntax.CommaGoes` | config.py:125-132 | a comma goes exactly when the next character, white space aside, is } or ] |
| `JsonxSyntax.LineSplits` | config.py:144 | the ten characters at which `splitlines` ends a line, and CR LF |
| `JsonxLines.LinesIndependent` | config.py:58-100 | what stands before and after a newline is cleaned of comments independently, whatever follows, exactly where the newline is outside strings and block comments |
| `JsonxLines.CommasCut` | config.py:103-137 | two parts are cleaned of trailing commas independently exactly unless a comma ends the first and a bracket begins the second |
| `JsonxLines.StripBreaks` | config.py:58-100 | how many of the breaks that `splitlines` knows comment stripping loses, for every text |
| `JsonxLines.CleanBreaks` | config.py:140-154 | how many breaks both scans together leave of a text, and whether any, by a scan of the source alone |
| `JsonxLines.RecordLine` | config.py:140-154 | a record that starts outside strings and comments is cleaned by itself and reported on the line of as many breaks as the cleaned text before it has; that is its source line if and only if a scan of the source before it finds no break inside a comment or behind a trailing comma that is lost |
| `JsonxLines.RecordKeptWhole` | config.py:140-154 | for every text: the cleaned record is one line, whole, if and only if something is left of it and it has no break outside comments and no newline inside one, that is, if all its breaks are lost |
| `JsonxLines.RecordOnItsLine` | config.py:140-154 | the same for a record that has its lines of a file to itself |
| `JsonxLines.PlainLinesKept` | config.py:140-154 | which holds whenever newlines are the only breaks before it |
| `JsonxLines.CarriageReturnShifts` | config.py:140-154 | a text whose record is reported one line too early |
| `JsonxLines.SeparatorSplitsRecord` | config.py:140-154 | a record that a line separator inside a string cuts in two |

## Left out

- `HandshakeRuns.NoCollision`: a premise on one run, in place of "the MAC is injective", which no 32-byte digest is.
- Computational secrecy, offline guessing and timing: not statements about this model.
- Primality of the 2048-bit literal: a premise (`Covenant.SafePrime`).
- Attackers that know the password or break the group: `MutualAuthentication` and `Channel` give the network every frame, but no tag that nobody computed.
- Malformed field values: negative or oversized `epoch` and `seq` raise StructError as in the source, but a tag with non-ASCII characters (TypeError in `compare_digest`), and signs, spaces and underscores accepted by `int(text, 16)`, are not told apart.
- The JSON codec and packet models (`protocol/packets.py`, `protocol/models.py`): frames are datatypes; a frame that does not parse is one value.
- UTF-8: which bytes are valid text is a parameter, and text messages stay encoded.
- base64 and hexadecimal: a field either decodes to bytes or does not; two spellings of the same bytes are one value. A payload that both `b64decode` and `atob` take decodes to the same bytes in both; which texts only one of them takes is not modelled beyond their existence.
- `sendall` that fails after part of a frame is modelled in `WebSocketMessages`; in `Handshake`, `Relay` and `ServerNode` a send is all or nothing, and in `Handshake` a connection that has failed to send stays broken.
- OSError while receiving: in `WebSocketFrames` the same as the end of the stream, as the source maps it in `_recv_exact`.
- Payloads of 2^64 bytes and more: `encode_frame` would raise; the model requires less.
- `Egcd`: negative arguments, which the browser's only caller never passes.
- `BrowserOpenAgrees`: sequence numbers and epochs beyond 2^53, where JavaScript numbers lose precision, are taken as exact.
- `Broadcast`: on objects it is stated for one thread; with many threads the step machine `ServerNode` takes its place, on values, so aliasing between the objects of different threads is not modelled. `handle_session` up to the registration is modelled only there.
- `Turn`: one thread, like `Broadcast`.
- `ServeClient`: one thread, like `Broadcast`.
- `Loop`: one thread, like `Broadcast`; the source loops until something raises; the model's connection holds finitely many frames and then hangs up.
- Which order a Python set is walked in: any order.
- The HTTP opening handshake, TLS, certificates, thread creation, the command line, `json.loads`, the environment, `cli/chat_client.py` and `ui/index.html`: I/O and thin wrappers.
- `secret_to_element` in the browser, `confirmMac` and the JSON of `seal`: the same expressions as in Python, once the numbers and bytes agree.
