# Jabit network core in Dafny

This project models the core of Jabit, a Java node for the Bitmessage
peer-to-peer messaging network, and proves properties of the model. It
covers five parts of the code.

- **Byte arithmetic** (`bytes.dfy`, module `Bytes`): the big-endian helpers
  `Bytes.expand`, `Bytes.inc`, `Bytes.inc(bytes, value)`, `Bytes.lt` and the
  bounded `Bytes.lt(a, b, size)`, as `BytesTest` exercises them. Bytes are
  unsigned values 0..255. `inc` works in place on an `array`.
- **Proof of work** (`proof_of_work.dfy`, module `ProofOfWork`):
  `SimplePOWEngine.calculateNonce`. An 8-byte nonce array is incremented in
  place before each trial. The search stops at the first nonce whose double
  SHA-512 of nonce followed by the initial hash is not above the target in
  its leading 8 bytes.
- **The signed and encrypted envelope** (`codec.dfy`, module `Codec`, and
  `envelope.dfy`, module `Envelope`): `CryptoCustomMessage.signAndEncrypt`,
  `decrypt` and `write`, and the recording `SignatureCheckingInputStream`.
  The wire encodings the envelope uses are the Bitmessage var_int, int32,
  var_bytes and var_string. Each is proved to read back what it wrote.
- **The address registry** (`node_registry.dfy`, module `NodeRegistry`):
  - `JdbcNodeRegistry.offerAddresses`: its insert/update rule and its
    cleanup after a large offer;
  - `doGetKnownNodes`: the bounded query per stream;
  - `getKnownAddresses`: its fallback to the `nodes.txt` seed list, parsed
    line by line.

  The Node table is a `map` from (ip, port, stream) to (services, time).
- **The connection pool** (`network_handler.dfy`, module `NetworkHandler`):
  `DefaultNetworkHandler.startConnection`, one pass of the connection-manager
  loop, `offer`, `getNetworkStatus` and the listener check of `start`. The
  tracked connections are a `seq` field that the methods reassign.

Primitives the model cannot see are parameters:

- SHA-512, signing, signature checks and the CryptoBox encryption are
  function-typed fields or parameters.
- DNS resolution, the clock and the database's random row order are
  parameters.
- So are the random choice of `Collections.selectRandom` and the
  registry's answer to the connection manager.

Where a method changes state, its `ensures` ties the new state to a
specification function. Lemmas then prove what the source promises about
that function.

### Behaviour as the code has it

- **Proof-of-work acceptance is non-strict.** The loop exits when
  `lt(target, digest, 8)` is false, so a nonce is accepted when the digest's
  leading 8 bytes are *at most* the target's. The model follows the code;
  `ProofOfWork.AcceptsIsAtMostTarget` states it.
- **`decrypt` sets `sender` and `data` before the signature check.** After a
  failed check both fields still hold the unverified values, and
  `getSender()` returns that sender. `Envelope.CryptoCustomMessage.Decrypt`
  states exactly which fields are set on each error path.
- **`getKnownAddresses` catches only `IOException` per seed line.** A line
  whose host does not resolve is skipped (`UnknownHostException`). A missing
  `]` or `:`, or a malformed number, raises a runtime exception that ends the
  whole call. `NodeRegistry.SeedError` models these.
- **`getNetworkStatus` before `start` fails.** `connectionManager` is still
  null then, and the call throws.

## Model

| member | source | states |
|---|---|---|
| Bytes.Expand | core/src/test/java/ch/dissem/bitmessage/utils/BytesTest.java:33-37 | the result has the requested size, is the input left-padded with zero bytes, and denotes the same number |
| Bytes.Inc | core/src/test/java/ch/dissem/bitmessage/utils/BytesTest.java:40-44 | the array afterwards holds its old value plus one modulo 256^n, carries included (0x00FF becomes 0x0100) |
| Bytes.IncPrefix | core/src/test/java/ch/dissem/bitmessage/utils/BytesTest.java:40-55 | the carry loop adds one to the number in a[..end], wrapping, and leaves a[end..] untouched |
| Bytes.IncBy | core/src/test/java/ch/dissem/bitmessage/utils/BytesTest.java:47-55 | the array afterwards holds its old value plus the unsigned byte v modulo 256^n |
| Bytes.Lt | core/src/test/java/ch/dissem/bitmessage/utils/BytesTest.java:76-83 | lt of arrays of any lengths: a longer array's extra leading bytes decide unless they are zero, then equal-length arrays compare byte by byte, unsigned |
| Bytes.LtBounded | core/src/test/java/ch/dissem/bitmessage/utils/BytesTest.java:86-96 | bounded lt compares only the leading size bytes of both arrays, byte by byte, unsigned |
| Bytes.LtSingleByte | core/src/test/java/ch/dissem/bitmessage/utils/BytesTest.java:61-73 | lt on one-byte arrays is i < j for the unsigned byte values |
| Bytes.LexLtIsNumericLt | core/src/test/java/ch/dissem/bitmessage/utils/BytesTest.java:86-96 | byte-by-byte comparison of equal-width arrays is numeric comparison of the numbers they denote |
| Bytes.LtIsNumericLt | core/src/test/java/ch/dissem/bitmessage/utils/BytesTest.java:76-83 | lt(a, b) holds exactly when a's number is below b's, whatever the two lengths |
| Bytes.LtBoundedIsNumericLt | core/src/test/java/ch/dissem/bitmessage/utils/BytesTest.java:86-96 | bounded lt compares the numbers held in the leading size bytes |
| Bytes.ExpandedLtIsNumericLt | core/src/test/java/ch/dissem/bitmessage/utils/BytesTest.java:86-96 | bounded lt of two expanded arrays equals numeric comparison and equals unbounded lt |
| ProofOfWork.AcceptsIsAtMostTarget | core/src/main/java/ch/dissem/bitmessage/ports/SimplePOWEngine.java:47 | a trial is accepted exactly when the leading 8 digest bytes, read unsigned, are at most the target's |
| ProofOfWork.Accepts | core/src/main/java/ch/dissem/bitmessage/ports/SimplePOWEngine.java:47 | the loop's exit test: the target is not below the double SHA-512 of nonce followed by initial hash, in the leading 8 bytes |
| ProofOfWork.TrialNonceValue | core/src/main/java/ch/dissem/bitmessage/ports/SimplePOWEngine.java:36-44 | trial k tests the counter value k; the zero nonce is never tried before the counter wraps |
| ProofOfWork.FirstAcceptedIsFirst | core/src/main/java/ch/dissem/bitmessage/ports/SimplePOWEngine.java:43-47 | the reference search returns an accepted trial with no accepted trial before it, or reports that none in the range is accepted |
| ProofOfWork.NewNonce | core/src/main/java/ch/dissem/bitmessage/ports/SimplePOWEngine.java:36 | the fresh 8-byte nonce array is the counter before the first trial |
| ProofOfWork.NextTrialNonce | core/src/main/java/ch/dissem/bitmessage/ports/SimplePOWEngine.java:44 | incrementing trial k's counter gives trial k + 1's counter |
| ProofOfWork.NextTrial | core/src/main/java/ch/dissem/bitmessage/ports/SimplePOWEngine.java:44 | inc(nonce) in place moves the array from trial k to trial k + 1 |
| ProofOfWork.SearchNonce | core/src/main/java/ch/dissem/bitmessage/ports/SimplePOWEngine.java:43-47 | the do-while loop returns the nonce of the first accepted trial, or nothing when the fuel runs out |
| ProofOfWork.CalculateNonce | core/src/main/java/ch/dissem/bitmessage/ports/SimplePOWEngine.java:35-48 | an ApplicationException when SHA-512 is unavailable; otherwise the first accepted 8-byte nonce, with exactly one callback carrying the initial hash and that nonce |
| Codec.VarIntRoundTrip | extensions/src/main/java/ch/dissem/bitmessage/extensions/CryptoCustomMessage.java:72-73 | decoding a var_int from its encoding followed by anything gives the value and the encoding's length |
| Codec.Int32RoundTrip | extensions/src/main/java/ch/dissem/bitmessage/extensions/CryptoCustomMessage.java:74 | decoding an int32 from its 4-byte encoding gives the signed value back |
| Codec.VarBytesRoundTrip | extensions/src/main/java/ch/dissem/bitmessage/extensions/CryptoCustomMessage.java:83 | decoding var_bytes from its encoding gives the bytes back and consumes exactly the encoding |
| Codec.VarStringRoundTrip | extensions/src/main/java/ch/dissem/bitmessage/extensions/CryptoCustomMessage.java:117 | decoding an ASCII var_string from its encoding gives the string back |
| Codec.FieldRoundTrip | extensions/src/main/java/ch/dissem/bitmessage/extensions/CryptoCustomMessage.java:72-79 | every header field decodes back from its encoding by its kind |
| Codec.FieldsRoundTrip | extensions/src/main/java/ch/dissem/bitmessage/extensions/CryptoCustomMessage.java:72-79 | a sequence of fields decodes back, by their kinds, from their concatenated encodings |
| Envelope.HeaderLayoutOnTheWire | extensions/src/main/java/ch/dissem/bitmessage/extensions/CryptoCustomMessage.java:72-80 | the header bytes are var_int version, var_int stream, int32 bitfield, two 64-byte keys, then the two difficulty var_ints exactly when the version, read as a signed long, is at least 3 |
| Envelope.DecodeHeader | extensions/src/main/java/ch/dissem/bitmessage/extensions/CryptoCustomMessage.java:90-106 | reading the header never consumes more bytes than are present; the version is the leading var_int, and a version that is below 3 as a signed long (including every var_int of 2^63 or more) leaves both difficulty values 0 |
| Envelope.DifficultyVersions | extensions/src/main/java/ch/dissem/bitmessage/extensions/CryptoCustomMessage.java:95-96 | the `version >= 3` test on the long-typed address version passes exactly for var_int values 3 .. 2^63 - 1 |
| Codec.AsLong | extensions/src/main/java/ch/dissem/bitmessage/extensions/CryptoCustomMessage.java:90 | a 64-bit var_int read as a Java long lies in the long range and agrees with the unsigned value modulo 2^64 |
| Envelope.HeaderRoundTrip | extensions/src/main/java/ch/dissem/bitmessage/extensions/CryptoCustomMessage.java:72-106 | decrypt reads back the sender signAndEncrypt wrote, consuming exactly the header bytes |
| Envelope.Seal | extensions/src/main/java/ch/dissem/bitmessage/extensions/CryptoCustomMessage.java:69-85 | the container signAndEncrypt builds: header and payload, the var_bytes signature over both, encrypted to the recipient's key |
| Envelope.ParsePlaintext | extensions/src/main/java/ch/dissem/bitmessage/extensions/CryptoCustomMessage.java:88-110 | the bytes recorded for the signature check are a prefix of the decrypted block |
| Envelope.ParseBody | extensions/src/main/java/ch/dissem/bitmessage/extensions/CryptoCustomMessage.java:108-110 | after the header the sender is known, and the recorded bytes are a prefix of the block |
| Envelope.OpenParsed | extensions/src/main/java/ch/dissem/bitmessage/extensions/CryptoCustomMessage.java:108-112 | the payload is returned exactly when everything was read and the signature over the recorded bytes verifies under the header's signing key; sender and data are set exactly as far as reading got |
| Envelope.Open | extensions/src/main/java/ch/dissem/bitmessage/extensions/CryptoCustomMessage.java:87-113 | a successful decrypt means the container decrypted, was read completely, and its signature verified |
| Envelope.RecordedBytesAreSignedBytes | extensions/src/main/java/ch/dissem/bitmessage/extensions/CryptoCustomMessage.java:82-83 | on a block signAndEncrypt built, the bytes recorded by the stream are exactly the signed bytes and the signature read is the one appended |
| Envelope.SealOpenRoundTrip | extensions/src/main/java/ch/dissem/bitmessage/extensions/CryptoCustomMessage.java:69-113 | decrypt of what signAndEncrypt produced, with the matching private key, returns the payload and the sender's fields |
| Envelope.SignatureCheckingInputStream.constructor | extensions/src/main/java/ch/dissem/bitmessage/extensions/CryptoCustomMessage.java:129-131 | a new stream has consumed and recorded nothing |
| Envelope.SignatureCheckingInputStream.Read | extensions/src/main/java/ch/dissem/bitmessage/extensions/CryptoCustomMessage.java:134-138 | read() hands out and records the next byte, or gives -1 at the end and records nothing |
| Envelope.SignatureCheckingInputStream.ReadBytes | extensions/src/main/java/ch/dissem/bitmessage/extensions/CryptoCustomMessage.java:93-94 | reading n bytes through read() yields the next n bytes and records them, or fails at end of stream |
| Envelope.SignatureCheckingInputStream.ReadDecoded | extensions/src/main/java/ch/dissem/bitmessage/extensions/CryptoCustomMessage.java:90-96 | a decoder reading through the stream sees the remaining bytes and the bytes it takes are recorded |
| Envelope.SignatureCheckingInputStream.ReadWith | extensions/src/main/java/ch/dissem/bitmessage/extensions/CryptoCustomMessage.java:108 | the payload reader sees the remaining bytes and the bytes it takes are recorded |
| Envelope.SignatureCheckingInputStream.CheckSignature | extensions/src/main/java/ch/dissem/bitmessage/extensions/CryptoCustomMessage.java:140-144 | the var_bytes signature is read past the recording and checked over the recorded bytes; a failed check is the IllegalStateException |
| Envelope.CheckSignedPayload | extensions/src/main/java/ch/dissem/bitmessage/extensions/CryptoCustomMessage.java:110-112 | the final check returns what the specification of decrypt returns for the parsed block |
| Envelope.CryptoCustomMessage.WithData | extensions/src/main/java/ch/dissem/bitmessage/extensions/CryptoCustomMessage.java:48-52 | an outgoing message holds its data and no container, sender or reader |
| Envelope.CryptoCustomMessage.Received | extensions/src/main/java/ch/dissem/bitmessage/extensions/CryptoCustomMessage.java:54-63 | a received message holds its container and reader and no data or sender |
| Envelope.CryptoCustomMessage.SignAndEncrypt | extensions/src/main/java/ch/dissem/bitmessage/extensions/CryptoCustomMessage.java:69-85 | a key shorter than 65 bytes is the IndexOutOfBoundsException; otherwise the container becomes the encryption of header, payload and signature over both, and without data it is the NullPointerException; a failure leaves the container as it was |
| Envelope.CryptoCustomMessage.Decrypt | extensions/src/main/java/ch/dissem/bitmessage/extensions/CryptoCustomMessage.java:87-113 | result, sender and data are those of the decrypt specification, including the fields set before a failed signature check |
| Envelope.CryptoCustomMessage.ReadPlaintext | extensions/src/main/java/ch/dissem/bitmessage/extensions/CryptoCustomMessage.java:88-110 | reading the decrypted block through the recording stream gives the result and field updates of the specification |
| Envelope.CryptoCustomMessage.ReadPayload | extensions/src/main/java/ch/dissem/bitmessage/extensions/CryptoCustomMessage.java:108-112 | the payload read and the signature check give the result and data of the specification |
| Envelope.CryptoCustomMessage.Write | extensions/src/main/java/ch/dissem/bitmessage/extensions/CryptoCustomMessage.java:115-119 | write emits a var_string that decodes to the command name, followed by the container; without a container it fails |
| NodeRegistry.JdbcNodeRegistry.constructor | repositories/src/main/java/ch/dissem/bitmessage/repository/JdbcNodeRegistry.java:38-40 | the registry starts from the rows already stored |
| NodeRegistry.OfferOne | repositories/src/main/java/ch/dissem/bitmessage/repository/JdbcNodeRegistry.java:107-131 | one offered address: a stored row is overwritten with the address exactly when stored time < offered time <= now and is otherwise kept as it was; an unknown key is inserted exactly when the offered time is not in the future; no other key is touched |
| NodeRegistry.Offered | repositories/src/main/java/ch/dissem/bitmessage/repository/JdbcNodeRegistry.java:106-132 | the offers applied one after the other, in list order |
| NodeRegistry.Purged | repositories/src/main/java/ch/dissem/bitmessage/repository/JdbcNodeRegistry.java:133-139 | the cleanup keeps exactly the rows last seen no earlier than the cutoff |
| NodeRegistry.AfterOffer | repositories/src/main/java/ch/dissem/bitmessage/repository/JdbcNodeRegistry.java:106-139 | the cleanup only deletes rows of the table the offers left and changes none; after more than 100 addresses no row is older than three hours |
| NodeRegistry.JdbcNodeRegistry.OfferAddresses | repositories/src/main/java/ch/dissem/bitmessage/repository/JdbcNodeRegistry.java:97-143 | the table afterwards is the offers applied one by one, then the cleanup when more than 100 were offered |
| NodeRegistry.OfferedNeverOlder | repositories/src/main/java/ch/dissem/bitmessage/repository/JdbcNodeRegistry.java:110-122 | offers remove no row, and no row's last-seen time decreases |
| NodeRegistry.OfferedKeys | repositories/src/main/java/ch/dissem/bitmessage/repository/JdbcNodeRegistry.java:123-130 | afterwards a key is present exactly when it was, or some offered address had it with a time not in the future |
| NodeRegistry.OfferedRowsComeFromOffers | repositories/src/main/java/ch/dissem/bitmessage/repository/JdbcNodeRegistry.java:110-130 | every row is either unchanged or holds the services and time of an offered address whose time is not in the future |
| NodeRegistry.OfferedLeavesOthers | repositories/src/main/java/ch/dissem/bitmessage/repository/JdbcNodeRegistry.java:106-131 | a row whose key no offered address has is neither added, removed nor changed |
| NodeRegistry.SmallOfferKeepsRows | repositories/src/main/java/ch/dissem/bitmessage/repository/JdbcNodeRegistry.java:133-139 | an offer of at most 100 addresses runs no cleanup: the table afterwards is exactly the offers applied, stored and inserted rows alike |
| NodeRegistry.OfferedChangesOnlyNewer | repositories/src/main/java/ch/dissem/bitmessage/repository/JdbcNodeRegistry.java:110-122 | after a list of offers, a stored row that changed carries a strictly later time than before |
| NodeRegistry.OfferedRecordsNewest | repositories/src/main/java/ch/dissem/bitmessage/repository/JdbcNodeRegistry.java:110-130 | after a list of offers, every offered address whose time is not in the future has its key in the table with a time at least the offer's |
| NodeRegistry.VisitsEachOnce | repositories/src/main/java/ch/dissem/bitmessage/repository/JdbcNodeRegistry.java:81 | ORDER BY RANDOM() visits every row of the Node table exactly once |
| NodeRegistry.NothingToList | repositories/src/main/java/ch/dissem/bitmessage/repository/JdbcNodeRegistry.java:44-45 | the condition under which the first query is empty: limit 0 or no row in a requested stream |
| NodeRegistry.KnownNodes | repositories/src/main/java/ch/dissem/bitmessage/repository/JdbcNodeRegistry.java:77-95 | the query returns at most limit rows, each a stored row in one of the requested streams |
| NodeRegistry.KnownNodesEmpty | repositories/src/main/java/ch/dissem/bitmessage/repository/JdbcNodeRegistry.java:81 | when the order visits every row, the query returns nothing exactly when the limit is 0 or no stored row is in a requested stream |
| NodeRegistry.KnownNodesGrow | repositories/src/main/java/ch/dissem/bitmessage/repository/JdbcNodeRegistry.java:81-90 | visiting more rows never returns fewer |
| NodeRegistry.KnownNodesCount | repositories/src/main/java/ch/dissem/bitmessage/repository/JdbcNodeRegistry.java:81 | over an order that visits every row once, the query returns min(limit, number of rows in the streams) rows and no row twice |
| NodeRegistry.KnownNodesDistinct | repositories/src/main/java/ch/dissem/bitmessage/repository/JdbcNodeRegistry.java:81 | over an order without repetitions, no row is returned twice |
| NodeRegistry.JdbcNodeRegistry.DoGetKnownNodes | repositories/src/main/java/ch/dissem/bitmessage/repository/JdbcNodeRegistry.java:77-95 | the rows collected are the query's answer for the database's order: min(limit, rows in the streams) of them, each once |
| NodeRegistry.LeadingBlanks | repositories/src/main/java/ch/dissem/bitmessage/repository/JdbcNodeRegistry.java:51 | counts exactly the blanks at the front of a line |
| NodeRegistry.TrailingBlanks | repositories/src/main/java/ch/dissem/bitmessage/repository/JdbcNodeRegistry.java:51 | counts exactly the blanks at the end of a line |
| NodeRegistry.TrimShape | repositories/src/main/java/ch/dissem/bitmessage/repository/JdbcNodeRegistry.java:51 | trim returns a slice of the line that cuts only blanks and is empty or starts and ends with a non-blank |
| NodeRegistry.LastIndexOf | repositories/src/main/java/ch/dissem/bitmessage/repository/JdbcNodeRegistry.java:57-59 | the index of the last occurrence of the character, -1 exactly when it does not occur |
| NodeRegistry.ParseDecimal | repositories/src/main/java/ch/dissem/bitmessage/repository/JdbcNodeRegistry.java:57-61 | a number is parsed exactly when the text is at least one ASCII digit after at most one sign and the number it spells is within the range of long or int, and the result is that number; any other text is NumberFormatException |
| NodeRegistry.ParseDecimalString | repositories/src/main/java/ch/dissem/bitmessage/repository/JdbcNodeRegistry.java:57-61 | parsing the decimal string of an in-range number gives it back |
| NodeRegistry.SeedAddressLine | repositories/src/main/java/ch/dissem/bitmessage/repository/JdbcNodeRegistry.java:58-62 | a host:port line with a resolvable host adds that host's address on that port in the current stream; the split is at the last colon |
| NodeRegistry.SeedStreamLine | repositories/src/main/java/ch/dissem/bitmessage/repository/JdbcNodeRegistry.java:56-57 | a [stream N] line switches the stream to N |
| NodeRegistry.SeedsDefaultToStreamOne | repositories/src/main/java/ch/dissem/bitmessage/repository/JdbcNodeRegistry.java:48-62 | without a stream line every seed address is in stream 1 and carries the builder's services and time |
| NodeRegistry.SeedBlankLine | repositories/src/main/java/ch/dissem/bitmessage/repository/JdbcNodeRegistry.java:51-55 | a line of blanks only leaves the scan as it was |
| NodeRegistry.SeedCommentLine | repositories/src/main/java/ch/dissem/bitmessage/repository/JdbcNodeRegistry.java:51-55 | a line whose first non-blank is # leaves the scan as it was, whatever follows |
| NodeRegistry.HostPortShape | repositories/src/main/java/ch/dissem/bitmessage/repository/JdbcNodeRegistry.java:59-61 | a trimmed host:text line with no colon in text is an address line split into that host and that port text |
| NodeRegistry.SeedUnresolvedLine | repositories/src/main/java/ch/dissem/bitmessage/repository/JdbcNodeRegistry.java:59-66 | a host:port line whose host does not resolve leaves the scan as it was, whatever the port text |
| NodeRegistry.SeedBadPort | repositories/src/main/java/ch/dissem/bitmessage/repository/JdbcNodeRegistry.java:59-61 | a resolvable host with a port text that is not an int ends the scan with NumberFormatException |
| NodeRegistry.SeedNoColon | repositories/src/main/java/ch/dissem/bitmessage/repository/JdbcNodeRegistry.java:59-60 | an address line without a colon ends the scan with StringIndexOutOfBoundsException |
| NodeRegistry.SeedStreamNoBracket | repositories/src/main/java/ch/dissem/bitmessage/repository/JdbcNodeRegistry.java:56-57 | a [stream line with no ] after it ends the scan with StringIndexOutOfBoundsException |
| NodeRegistry.SeedStreamBadNumber | repositories/src/main/java/ch/dissem/bitmessage/repository/JdbcNodeRegistry.java:56-57 | a [stream N] line where N is not a long ends the scan with NumberFormatException |
| NodeRegistry.SeedLine | repositories/src/main/java/ch/dissem/bitmessage/repository/JdbcNodeRegistry.java:51-66 | one line keeps the addresses found so far and adds at most one, in the current stream; any line that does not start with [stream leaves the stream as it was |
| NodeRegistry.ScanSeeds | repositories/src/main/java/ch/dissem/bitmessage/repository/JdbcNodeRegistry.java:48-66 | the scan starts in stream 1 and finds at most one address per line |
| NodeRegistry.ScanSeedsStopsAtError | repositories/src/main/java/ch/dissem/bitmessage/repository/JdbcNodeRegistry.java:49-67 | a runtime exception on one line ends the whole scan with that exception |
| NodeRegistry.JdbcNodeRegistry.ReadSeeds | repositories/src/main/java/ch/dissem/bitmessage/repository/JdbcNodeRegistry.java:46-67 | the scan of nodes.txt yields the addresses of the line specification, or the exception that ends it |
| NodeRegistry.JdbcNodeRegistry.GetKnownAddresses | repositories/src/main/java/ch/dissem/bitmessage/repository/JdbcNodeRegistry.java:42-75 | when the limit is positive and a row is in a requested stream, the query's rows and the table unchanged; otherwise the seeds are offered and the query runs again, or a seed-scan exception propagates with the table unchanged; a result has min(limit, rows in the streams) rows, each once |
| NetworkHandler.AddConnectionKeepsUnique | networking/src/main/java/ch/dissem/bitmessage/networking/DefaultNetworkHandler.java:152-159 | adding a connection keeps the list free of two connections to one peer, and the peer is tracked afterwards |
| NetworkHandler.AddClientsKeepsUnique | networking/src/main/java/ch/dissem/bitmessage/networking/DefaultNetworkHandler.java:111-113 | starting client connections to any addresses keeps the list free of duplicates |
| NetworkHandler.PruneRemovesDisconnected | networking/src/main/java/ch/dissem/bitmessage/networking/DefaultNetworkHandler.java:97-102 | a connection survives the pass exactly when it was tracked and is not DISCONNECTED |
| NetworkHandler.PruneKeepsActive | networking/src/main/java/ch/dissem/bitmessage/networking/DefaultNetworkHandler.java:97-106 | pruning removes no ACTIVE connection |
| NetworkHandler.PruneKeepsConnected | networking/src/main/java/ch/dissem/bitmessage/networking/DefaultNetworkHandler.java:97-102 | a list without DISCONNECTED connections is left as it was, in order |
| NetworkHandler.PruneAppend | networking/src/main/java/ch/dissem/bitmessage/networking/DefaultNetworkHandler.java:97-102 | pruning works element by element: pruning a concatenation is concatenating the pruned parts, so the survivors keep their original order |
| NetworkHandler.PruneKeepsUnique | networking/src/main/java/ch/dissem/bitmessage/networking/DefaultNetworkHandler.java:97-102 | pruning keeps the list free of duplicates |
| NetworkHandler.Deficit | networking/src/main/java/ch/dissem/bitmessage/networking/DefaultNetworkHandler.java:108-110 | addresses are requested exactly when fewer than 8 are ACTIVE, and then enough to reach 8 |
| NetworkHandler.EligibleIsActiveAndUnaware | networking/src/main/java/ch/dissem/bitmessage/networking/DefaultNetworkHandler.java:166-171 | a connection is a candidate exactly when it is tracked, ACTIVE and does not know of the vector |
| NetworkHandler.SelectRandom | networking/src/main/java/ch/dissem/bitmessage/networking/DefaultNetworkHandler.java:174 | the random subset has at most the requested size and is drawn from the candidates |
| NetworkHandler.SelectRandomAll | networking/src/main/java/ch/dissem/bitmessage/networking/DefaultNetworkHandler.java:174 | with at most count candidates all chosen, the subset is every candidate |
| NetworkHandler.ModesPartitionStream | networking/src/main/java/ch/dissem/bitmessage/networking/DefaultNetworkHandler.java:191-205 | incoming plus outgoing is the stream's ACTIVE count, positive exactly when the stream has an ACTIVE connection |
| NetworkHandler.DefaultNetworkHandler.constructor | networking/src/main/java/ch/dissem/bitmessage/networking/DefaultNetworkHandler.java:51-61 | a new handler tracks no connection and has no manager yet |
| NetworkHandler.DefaultNetworkHandler.Start | networking/src/main/java/ch/dissem/bitmessage/networking/DefaultNetworkHandler.java:69-72 | a missing listener is the IllegalStateException and starts nothing; otherwise the manager runs |
| NetworkHandler.DefaultNetworkHandler.StartConnection | networking/src/main/java/ch/dissem/bitmessage/networking/DefaultNetworkHandler.java:152-161 | the connection is appended unless its peer is tracked; the list stays free of duplicates |
| NetworkHandler.DefaultNetworkHandler.PruneDisconnected | networking/src/main/java/ch/dissem/bitmessage/networking/DefaultNetworkHandler.java:95-107 | the DISCONNECTED connections are removed in place, and active is the number of ACTIVE ones |
| NetworkHandler.DefaultNetworkHandler.StartClients | networking/src/main/java/ch/dissem/bitmessage/networking/DefaultNetworkHandler.java:111-113 | a client connection is started for each address in turn |
| NetworkHandler.DefaultNetworkHandler.ManagerPass | networking/src/main/java/ch/dissem/bitmessage/networking/DefaultNetworkHandler.java:93-123 | one pass prunes, counts the ACTIVE connections, requests 8 minus that many addresses when below 8, and connects to the addresses returned |
| NetworkHandler.DefaultNetworkHandler.Offer | networking/src/main/java/ch/dissem/bitmessage/networking/DefaultNetworkHandler.java:163-178 | at most 8 connections are offered the vector, each tracked, ACTIVE and not knowing it; the list is not changed |
| NetworkHandler.DefaultNetworkHandler.GetNetworkStatus | networking/src/main/java/ch/dissem/bitmessage/networking/DefaultNetworkHandler.java:180-215 | exactly the streams with an ACTIVE connection are reported, each with its SERVER and CLIENT ACTIVE counts and their sum; before start it fails; nothing is changed |

## Left out

- `Bytes.java` is not part of this model. `expand`, `inc`, `inc(bytes, value)`, `lt` and bounded `lt` are modelled from `BytesTest` and from how `SimplePOWEngine` uses them.
- `Encode` and `Decode` are not part of this model. The envelope uses the Bitmessage var_int, int32, var_bytes and var_string encodings. A decoder is a pure function over the bytes that remain, and the stream then pulls that many bytes through `read()`.
- SHA-512, ECDSA signing and verification, and the CryptoBox encryption are uninterpreted.
- Envelope.SealOpenRoundTrip: holds only under these assumptions, each stated as a precondition:
  - a signature made with a private key verifies under that key's public key;
  - a box opens with the private key matching its public key;
  - both public keys of the identity carry their prefix byte and 64 key bytes;
  - the identity's public signing key belongs to its private signing key;
  - the payload reader never consumes more than it is given;
  - the reader reads back exactly what `write(x)` produced.
- `CryptoBox.read` and `CryptoBox.write` are not modelled. The container is the encrypted byte string itself.
- Envelope.SenderOf: `Factory.createPubkey` and the `BitmessageAddress` constructor are not part of this model. The sender is the record of the header fields, so any exception those constructors may raise is not modelled. The same holds for Envelope.DecodeHeader.
- Envelope.CryptoCustomMessage.Write: without a container it returns an error and no bytes. The source has already written the var_string command to the stream when `container.write` throws.
- ProofOfWork.CalculateNonce: the search runs for at most `fuel` trials, whereas the source loops until it finds a nonce. Running out of fuel is a separate `OutOfFuel` outcome.
- ProofOfWork.CalculateNonce: a target shorter than 8 bytes is excluded by the precondition. In the source, bounded `lt` may raise an index error on such a target.
- The callback is returned as a list of invocations. The `MultiThreadedPOWEngine` is not part of this model.
- NodeRegistry.JdbcNodeRegistry.OfferAddresses: the clock is read once per call. The source reads `UnixTime.now()` again for each address and for the cleanup.
- SQL, transactions and the `SQLException` handlers are not modelled. The Node table is a map, so (ip, port, stream) is taken to identify a row.
- `ORDER BY RANDOM()` is the `order` parameter (and `reorder` for the second query). It is taken to visit every row exactly once (`NodeRegistry.VisitsEachOnce`); which random order the database picks is not modelled. A negative `limit` is not modelled.
- `NetworkAddress.Builder` is not part of this model. The services and time it gives a seed address are the `SeedDefaults` parameter.
- `InetAddress.getByName` is the `resolve` parameter: the 16-byte address, or None for `UnknownHostException`.
- `nodes.txt` is given as its lines. A missing resource, and the `Scanner`'s treatment of trailing blank lines, are not modelled; such lines are ignored either way.
- NodeRegistry.ParseDecimal accepts ASCII digits only. `Long.parseLong` and `Integer.valueOf` also accept the other Unicode decimal digits; those are not modelled.
- Java `long` overflow of times and services is not modelled. Integers are unbounded.
- `Connection` is not part of this model. A connection is a record of its remote node, mode, state and known vectors. Two connections are equal when their ip and port are. A new connection starts out CONNECTING, and state changes made by the connection's own thread are outside the model.
- Threads and sockets are not modelled: the accept loop, `Thread.sleep`, interrupts, `pool.execute`, `stop()`, `isRunning()` and the locking on `connections`.
- NetworkHandler.DefaultNetworkHandler.GetNetworkStatus: reports the node as running for every handler that was started, because `stop()` and the end of the manager thread are not modelled; the stopped state is not reachable in the model.
- `Collections.selectRandom` is not part of this model. Its choice is the `chosen` flags parameter: the flagged candidates, in order, at most 8.
- NetworkHandler.DefaultNetworkHandler.Offer: returns the connections the vector is offered to. The effect of `Connection.offer` on each of them is not modelled.
- The `Property` tree of `getNetworkStatus` and its string formatting are not modelled. The per-stream counts are a map, so the ascending stream order of the `TreeSet` is not kept.
- The registry call of the connection manager is the `registry` parameter. When it fails, the exception is logged and the pass ends. Other exceptions in the manager loop are not modelled.
- `requestedObjects`, `setContext` and the `ServerSocket` failure of `start` (a `RuntimeException`) are not modelled.
