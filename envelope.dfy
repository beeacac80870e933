/**
 * CryptoCustomMessage: the signed and encrypted envelope of the extension
 * protocol. signAndEncrypt writes the sender's address version, stream,
 * behaviour bitfield, the 64 key bytes of its signing and encryption keys,
 * for address version 3 and up its two difficulty parameters, then the
 * payload, signs everything written so far, appends the signature as
 * var_bytes and encrypts the whole block for the recipient. decrypt reads
 * the same fields back through a SignatureCheckingInputStream, which
 * records every byte it hands out, and checks the trailing signature over
 * the recorded bytes.
 */
module Envelope {
  import opened Wrappers
  import opened Bytes
  import opened Codec

  /** The command name written in front of the container. */
  const Command: string := "ENCRYPTED"

  /** Number of key bytes written for each public key (bytes 1..64, after the 0x04 prefix). */
  const KeyBytes: nat := 64

  type BoundedBytes = b: seq<Byte> | |b| < UInt64Bound

  /**
   * The cryptographic primitives the envelope uses, left uninterpreted:
   * getSignature(data, privateKey), isSignatureValid(data, signature,
   * pubkey), new CryptoBox(data, publicKey), container.decrypt(privateKey),
   * and the public key that belongs to a private key.
   */
  datatype Crypto = Crypto(
    sign: (seq<Byte>, seq<Byte>) -> BoundedBytes,
    isSignatureValid: (seq<Byte>, seq<Byte>, seq<Byte>) -> bool,
    encrypt: (seq<Byte>, seq<Byte>) -> seq<Byte>,
    decrypt: (seq<Byte>, seq<Byte>) -> Option<seq<Byte>>,
    publicKeyOf: seq<Byte> -> seq<Byte>)

  /** A signature made with a private key verifies under its public key. */
  ghost predicate SignaturesVerify(c: Crypto)
  {
    forall d, k :: c.isSignatureValid(d, c.sign(d, k), c.publicKeyOf(k))
  }

  /** A box encrypted to a public key opens with the matching private key. */
  ghost predicate BoxesOpen(c: Crypto)
  {
    forall p, k :: c.decrypt(c.encrypt(p, c.publicKeyOf(k)), k) == Some(p)
  }

  /** The public key of a sending identity, as its getters return it. */
  datatype Pubkey = Pubkey(
    behaviorBitfield: Int32,
    signingKey: seq<Byte>,
    encryptionKey: seq<Byte>,
    nonceTrialsPerByte: UInt64,
    extraBytes: UInt64)

  /** The sending identity: address version and stream, public key, private signing key. */
  datatype Identity = Identity(version: UInt64, stream: UInt64, pubkey: Pubkey, privateSigningKey: seq<Byte>)

  /** Public keys carry the 0x04 prefix byte followed by 64 key bytes. */
  predicate KeysPresent(id: Identity)
  {
    |id.pubkey.signingKey| >= KeyBytes + 1 && |id.pubkey.encryptionKey| >= KeyBytes + 1
  }

  /** The identity's public signing key is the one that belongs to its private signing key. */
  predicate KeyPairMatches(c: Crypto, id: Identity)
    requires KeysPresent(id)
  {
    id.pubkey.signingKey[1..KeyBytes + 1] == c.publicKeyOf(id.privateSigningKey)
  }

  /** The sender as decrypt reconstructs it from the header fields. */
  datatype Sender = Sender(
    version: UInt64,
    stream: UInt64,
    behaviorBitfield: Int32,
    signingKey: seq<Byte>,
    encryptionKey: seq<Byte>,
    nonceTrialsPerByte: UInt64,
    extraBytes: UInt64)

  /** The sender a receiver should reconstruct for id: difficulty fields exist from version 3 on. */
  function SenderOf(id: Identity): Sender
    requires KeysPresent(id)
  {
    Sender(id.version, id.stream, id.pubkey.behaviorBitfield,
      id.pubkey.signingKey[1..KeyBytes + 1], id.pubkey.encryptionKey[1..KeyBytes + 1],
      if HasDifficulty(id.version) then id.pubkey.nonceTrialsPerByte else 0,
      if HasDifficulty(id.version) then id.pubkey.extraBytes else 0)
  }

  // ---------------------------------------------------------------------
  // The header: its encoding, its decoding, and the round trip
  // ---------------------------------------------------------------------

  /**
   * The test `version >= 3` on the address version, which the source holds
   * in a long: a var_int of 2^63 or more is a negative version.
   */
  predicate HasDifficulty(version: UInt64)
  {
    AsLong(version) >= 3
  }

  /** The difficulty fields exist exactly for versions 3 .. 2^63 - 1 of the 64-bit var_int. */
  lemma DifficultyVersions(version: UInt64)
    ensures HasDifficulty(version) <==> 3 <= version < 0x8000_0000_0000_0000
  {
  }

  /** The fields after the address version, in the order they are written; difficulty fields from version 3 on. */
  function HeaderLayout(version: UInt64): seq<FieldKind>
  {
    [VarIntField, Int32Field, BytesField(KeyBytes), BytesField(KeyBytes)]
    + (if HasDifficulty(version) then [VarIntField, VarIntField] else [])
  }

  /** What signAndEncrypt writes after the address version. */
  function HeaderFields(id: Identity): seq<Field>
    requires KeysPresent(id)
  {
    [VarIntValue(id.stream), Int32Value(id.pubkey.behaviorBitfield),
     BytesValue(id.pubkey.signingKey[1..KeyBytes + 1]), BytesValue(id.pubkey.encryptionKey[1..KeyBytes + 1])]
    + (if HasDifficulty(id.version) then [VarIntValue(id.pubkey.nonceTrialsPerByte), VarIntValue(id.pubkey.extraBytes)] else [])
  }

  /** The fields signAndEncrypt writes before the payload. */
  function EncodeHeader(id: Identity): seq<Byte>
    requires KeysPresent(id)
  {
    EncodeVarInt(id.version) + EncodeFields(HeaderFields(id))
  }

  function NumberIn(f: Field): UInt64
  {
    if f.VarIntValue? then f.n else 0
  }

  function BitfieldIn(f: Field): Int32
  {
    if f.Int32Value? then f.i else 0
  }

  function BytesIn(f: Field): seq<Byte>
  {
    if f.BytesValue? then f.b else []
  }

  /** The sender decrypt builds from the header fields; below version 3 the difficulty values are 0. */
  function SenderFromFields(version: UInt64, fs: seq<Field>): Sender
    requires |fs| == |HeaderLayout(version)|
  {
    Sender(version, NumberIn(fs[0]), BitfieldIn(fs[1]), BytesIn(fs[2]), BytesIn(fs[3]),
      if HasDifficulty(version) then NumberIn(fs[4]) else 0,
      if HasDifficulty(version) then NumberIn(fs[5]) else 0)
  }

  /** The fields decrypt reads before the payload, in the order it reads them. */
  function DecodeHeader(s: seq<Byte>): (r: Option<Decoded<Sender>>)
    ensures r.Some? ==> r.value.length <= |s|
    ensures r.Some? ==> DecodeVarInt(s).Some? && r.value.value.version == DecodeVarInt(s).value.value
    ensures r.Some? && !HasDifficulty(r.value.value.version) ==>
      r.value.value.nonceTrialsPerByte == 0 && r.value.value.extraBytes == 0
  {
    match DecodeVarInt(s)
    case None => None
    case Some(version) =>
      match DecodeFields(HeaderLayout(version.value), s[version.length..])
      case None => None
      case Some(fields) =>
        Some(Decoded(SenderFromFields(version.value, fields.value), version.length + fields.length))
  }

  /** The header byte by byte: var_int version and stream, int32 bitfield, two 64-byte keys, difficulty. */
  lemma {:induction false} HeaderLayoutOnTheWire(id: Identity)
    requires KeysPresent(id)
    ensures var front := EncodeVarInt(id.version) + EncodeVarInt(id.stream) + EncodeInt32(id.pubkey.behaviorBitfield)
        + id.pubkey.signingKey[1..KeyBytes + 1] + id.pubkey.encryptionKey[1..KeyBytes + 1];
      && (HasDifficulty(id.version) ==>
            EncodeHeader(id) == front + EncodeVarInt(id.pubkey.nonceTrialsPerByte) + EncodeVarInt(id.pubkey.extraBytes))
      && (!HasDifficulty(id.version) ==> EncodeHeader(id) == front)
  {
    var v := EncodeVarInt(id.version);
    var f0, f1 := VarIntValue(id.stream), Int32Value(id.pubkey.behaviorBitfield);
    var f2, f3 := BytesValue(id.pubkey.signingKey[1..KeyBytes + 1]), BytesValue(id.pubkey.encryptionKey[1..KeyBytes + 1]);
    var e := EncodeField(f0) + EncodeField(f1) + EncodeField(f2) + EncodeField(f3);
    if HasDifficulty(id.version) {
      var d0, d1 := VarIntValue(id.pubkey.nonceTrialsPerByte), VarIntValue(id.pubkey.extraBytes);
      assert HeaderFields(id) == [f0, f1, f2, f3] + [d0, d1];
      HeaderOnTheWire(v, f0, f1, f2, f3, [d0, d1]);
      EncodeTwoFields(d0, d1);
      ConcatAssoc(v + e, EncodeField(d0), EncodeField(d1));
    } else {
      assert HeaderFields(id) == [f0, f1, f2, f3] + [];
      HeaderOnTheWire(v, f0, f1, f2, f3, []);
      AppendEmpty(v + e);
    }
  }

  /** The version followed by four fields and some more, field by field. */
  lemma HeaderOnTheWire(v: seq<Byte>, f0: Field, f1: Field, f2: Field, f3: Field, more: seq<Field>)
    ensures v + EncodeFields([f0, f1, f2, f3] + more)
      == v + EncodeField(f0) + EncodeField(f1) + EncodeField(f2) + EncodeField(f3) + EncodeFields(more)
  {
    var e0, e1, e2, e3 := EncodeField(f0), EncodeField(f1), EncodeField(f2), EncodeField(f3);
    EncodeFourFields(f0, f1, f2, f3, more);
    ConcatAssoc(v, e0 + e1 + e2 + e3, EncodeFields(more));
    ConcatAssoc(v, e0 + e1 + e2, e3);
    ConcatAssoc(v, e0 + e1, e2);
    ConcatAssoc(v, e0, e1);
  }

  /** The fields signAndEncrypt writes have the kinds decrypt expects, and carry the sender. */
  lemma HeaderFieldsFitLayout(id: Identity)
    requires KeysPresent(id)
    ensures KindsOf(HeaderFields(id)) == HeaderLayout(id.version)
    ensures SenderFromFields(id.version, HeaderFields(id)) == SenderOf(id)
  {
    var fs := HeaderFields(id);
    assert KindsOf(fs) == HeaderLayout(id.version);
  }

  /** decrypt reads back exactly the header fields signAndEncrypt wrote, and no more. */
  lemma {:induction false} HeaderRoundTrip(id: Identity, rest: seq<Byte>)
    requires KeysPresent(id)
    ensures DecodeHeader(EncodeHeader(id) + rest).Some?
    ensures DecodeHeader(EncodeHeader(id) + rest).value == Decoded(SenderOf(id), |EncodeHeader(id)|)
  {
    var v, fs := EncodeVarInt(id.version), HeaderFields(id);
    var e := EncodeHeader(id) + rest;
    ConcatAssoc(v, EncodeFields(fs), rest);
    assert e == v + (EncodeFields(fs) + rest);
    VarIntRoundTrip(id.version, EncodeFields(fs) + rest);
    DropPrefix(v, EncodeFields(fs) + rest);
    HeaderFieldsFitLayout(id);
    FieldsRoundTrip(fs, rest);
    assert DecodeFields(HeaderLayout(id.version), e[|v|..]).value == Decoded(fs, |EncodeFields(fs)|);
  }

  // ---------------------------------------------------------------------
  // The signed block and the container
  // ---------------------------------------------------------------------

  /** The bytes the signature covers: the header followed by the serialized payload. */
  function SignedBody(id: Identity, payload: seq<Byte>): seq<Byte>
    requires KeysPresent(id)
  {
    EncodeHeader(id) + payload
  }

  /** The plaintext of the container: the signed bytes followed by the signature as var_bytes. */
  function SignedBlock(c: Crypto, id: Identity, payload: seq<Byte>): seq<Byte>
    requires KeysPresent(id)
  {
    var body := SignedBody(id, payload);
    body + EncodeVarBytes(c.sign(body, id.privateSigningKey))
  }

  /** The container signAndEncrypt stores: the signed block encrypted to the recipient. */
  function Seal(c: Crypto, id: Identity, payload: seq<Byte>, recipientPublicKey: seq<Byte>): seq<Byte>
    requires KeysPresent(id)
  {
    c.encrypt(SignedBlock(c, id, payload), recipientPublicKey)
  }

  // ---------------------------------------------------------------------
  // Reading the plaintext back
  // ---------------------------------------------------------------------

  /**
   * A Reader<T>: given the reconstructed sender and the bytes that follow
   * the header, the payload it decodes and how many bytes it consumed, or
   * None when it fails with an IOException.
   */
  type Reader<T> = (Sender, seq<Byte>) -> Option<Decoded<T>>

  /** A reader never consumes more bytes than the stream holds. */
  ghost predicate ReaderWellFormed<T>(reader: Reader<T>)
  {
    forall s, input :: reader(s, input).Some? ==> reader(s, input).value.length <= |input|
  }

  /** A decoder never reports more bytes consumed than it was given. */
  ghost predicate ConsumesAtMostInput<V>(decode: seq<Byte> -> Option<Decoded<V>>)
  {
    forall input :: decode(input).Some? ==> decode(input).value.length <= |input|
  }

  datatype EnvelopeError =
    | NullPointer           // container, data or dataReader not set
    | DecryptionFailed      // DecryptionFailedException from the container
    | EndOfStream           // a field ran past the end of the decrypted bytes
    | ReaderFailed          // IOException from the payload reader
    | SignatureCheckFailed  // IllegalStateException("Signature check failed")
    | IndexOutOfBounds      // a public key shorter than its prefix byte and 64 key bytes

  /** What decrypt has read: sender, payload, the bytes recorded for the check, the signature. */
  datatype Parsed<T> = Parsed(sender: Sender, data: T, recorded: seq<Byte>, signature: seq<Byte>)

  /** How far reading the plaintext gets. */
  datatype Progress<T> =
    | HeaderIncomplete
    | NoReader(sender: Sender)
    | PayloadUnreadable(sender: Sender)
    | SignatureIncomplete(sender: Sender, data: T)
    | Complete(parsed: Parsed<T>)

  /**
   * Reads a decrypted plaintext as decrypt does: the header and the payload
   * through the recording stream, then the var_bytes signature from the
   * wrapped stream directly.
   */
  function ParsePlaintext<T>(plain: seq<Byte>, reader: Option<Reader<T>>): (r: Progress<T>)
    requires reader.Some? ==> ReaderWellFormed(reader.value)
    ensures r.Complete? ==> r.parsed.recorded <= plain
  {
    match DecodeHeader(plain)
    case None => HeaderIncomplete
    case Some(h) => ParseBody(plain, h, reader)
  }

  /** What decrypt reads once the header h has been read from the front of plain. */
  function ParseBody<T>(plain: seq<Byte>, h: Decoded<Sender>, reader: Option<Reader<T>>): (r: Progress<T>)
    requires h.length <= |plain|
    requires reader.Some? ==> ReaderWellFormed(reader.value)
    ensures r.HeaderIncomplete? == false
    ensures r.Complete? ==> r.parsed.recorded <= plain && r.parsed.sender == h.value
  {
    if reader.None? then NoReader(h.value)
    else
      match reader.value(h.value, plain[h.length..])
      case None => PayloadUnreadable(h.value)
      case Some(d) =>
        var signedLength := h.length + d.length;
        match DecodeVarBytes(plain[signedLength..])
        case None => SignatureIncomplete(h.value, d.value)
        case Some(sig) => Complete(Parsed(h.value, d.value, plain[..signedLength], sig.value))
  }

  /**
   * The effect of decrypt: the sender and data fields it assigns (None
   * where it does not get that far) and its result.
   */
  datatype Opened<T> = Opened(sender: Option<Sender>, data: Option<T>, result: Result<T, EnvelopeError>)

  /**
   * What decrypt does with the outcome of reading the plaintext: the
   * payload is returned only when the signature over the recorded bytes
   * checks out under the signing key read from the header.
   */
  function OpenParsed<T>(c: Crypto, p: Progress<T>): (r: Opened<T>)
    ensures r.result.Ok? <==>
      p.Complete? && c.isSignatureValid(p.parsed.recorded, p.parsed.signature, p.parsed.sender.signingKey)
    ensures r.result.Ok? ==> r.result.value == p.parsed.data
    ensures r.sender.Some? <==> !p.HeaderIncomplete?
    ensures r.data.Some? <==> p.SignatureIncomplete? || p.Complete?
  {
    match p
    case HeaderIncomplete => Opened(None, None, Err(EndOfStream))
    case NoReader(s) => Opened(Some(s), None, Err(NullPointer))
    case PayloadUnreadable(s) => Opened(Some(s), None, Err(ReaderFailed))
    case SignatureIncomplete(s, d) => Opened(Some(s), Some(d), Err(EndOfStream))
    case Complete(p) =>
      if c.isSignatureValid(p.recorded, p.signature, p.sender.signingKey) then
        Opened(Some(p.sender), Some(p.data), Ok(p.data))
      else
        Opened(Some(p.sender), Some(p.data), Err(SignatureCheckFailed))
  }

  /** What decrypt does once the container has been decrypted to plain. */
  function OpenPlaintext<T>(c: Crypto, plain: seq<Byte>, reader: Option<Reader<T>>): (r: Opened<T>)
    requires reader.Some? ==> ReaderWellFormed(reader.value)
  {
    OpenParsed(c, ParsePlaintext(plain, reader))
  }

  /** decrypt(privateKey) on a message holding container. */
  function Open<T>(c: Crypto, container: Option<seq<Byte>>, privateKey: seq<Byte>, reader: Option<Reader<T>>): (r: Opened<T>)
    requires reader.Some? ==> ReaderWellFormed(reader.value)
    ensures r.result.Ok? ==> container.Some? && c.decrypt(container.value, privateKey).Some?
    ensures r.result.Ok? ==>
      var p := ParsePlaintext(c.decrypt(container.value, privateKey).value, reader);
      && p.Complete?
      && c.isSignatureValid(p.parsed.recorded, p.parsed.signature, p.parsed.sender.signingKey)
      && r.result.value == p.parsed.data
  {
    if container.None? then Opened(None, None, Err(NullPointer))
    else
      match c.decrypt(container.value, privateKey)
      case None => Opened(None, None, Err(DecryptionFailed))
      case Some(plain) => OpenPlaintext(c, plain, reader)
  }

  // ---------------------------------------------------------------------
  // The round trip
  // ---------------------------------------------------------------------

  /**
   * When the reader consumes exactly the bytes the payload's write produced,
   * the bytes recorded for the check are exactly the bytes that were signed,
   * and the signature read back is the one that was appended.
   */
  lemma {:induction false} RecordedBytesAreSignedBytes<T>(c: Crypto, id: Identity, x: T, write: T -> seq<Byte>, reader: Reader<T>)
    requires KeysPresent(id) && ReaderWellFormed(reader)
    requires forall rest :: reader(SenderOf(id), write(x) + rest) == Some(Decoded(x, |write(x)|))
    ensures ParsePlaintext(SignedBlock(c, id, write(x)), Some(reader)) ==
      Complete(Parsed(SenderOf(id), x, SignedBody(id, write(x)),
        c.sign(SignedBody(id, write(x)), id.privateSigningKey)))
  {
    var body := SignedBody(id, write(x));
    var sig := c.sign(body, id.privateSigningKey);
    var plain := SignedBlock(c, id, write(x));
    var h := EncodeHeader(id);
    assert plain == h + (write(x) + EncodeVarBytes(sig));
    HeaderRoundTrip(id, write(x) + EncodeVarBytes(sig));
    assert plain[|h|..] == write(x) + EncodeVarBytes(sig);
    assert reader(SenderOf(id), plain[|h|..]) == Some(Decoded(x, |write(x)|));
    assert plain[..|h| + |write(x)|] == body;
    assert plain[|h| + |write(x)|..] == EncodeVarBytes(sig) + [];
    VarBytesRoundTrip(sig, []);
  }

  /**
   * Decrypting what signAndEncrypt produced, with the private key that
   * belongs to the recipient public key, yields the payload and the
   * sender's header fields, given sound primitives and a reader that reads
   * back what the payload wrote.
   */
  lemma {:induction false} SealOpenRoundTrip<T>(c: Crypto, id: Identity, x: T, write: T -> seq<Byte>, reader: Reader<T>, recipientPrivateKey: seq<Byte>)
    requires SignaturesVerify(c) && BoxesOpen(c)
    requires KeysPresent(id) && KeyPairMatches(c, id) && ReaderWellFormed(reader)
    requires forall rest :: reader(SenderOf(id), write(x) + rest) == Some(Decoded(x, |write(x)|))
    ensures Open(c, Some(Seal(c, id, write(x), c.publicKeyOf(recipientPrivateKey))), recipientPrivateKey, Some(reader))
      == Opened(Some(SenderOf(id)), Some(x), Ok(x))
  {
    var plain := SignedBlock(c, id, write(x));
    assert c.decrypt(c.encrypt(plain, c.publicKeyOf(recipientPrivateKey)), recipientPrivateKey) == Some(plain);
    RecordedBytesAreSignedBytes(c, id, x, write, reader);
    var body := SignedBody(id, write(x));
    assert c.isSignatureValid(body, c.sign(body, id.privateSigningKey), c.publicKeyOf(id.privateSigningKey));
  }

  // ---------------------------------------------------------------------
  // SignatureCheckingInputStream
  // ---------------------------------------------------------------------

  /**
   * The recording input stream of decrypt: every byte read() hands out is
   * also appended to out; at end of stream read() gives -1 and records
   * nothing. The signature itself is read from the wrapped stream directly.
   */
  class SignatureCheckingInputStream {
    /** The bytes the wrapped stream delivers: the decrypted block. */
    const wrapped: seq<Byte>
    /** How many bytes have been taken from the wrapped stream. */
    var pos: nat
    /** The bytes recorded for the signature check. */
    var out: seq<Byte>

    ghost predicate Valid()
      reads this
    {
      pos <= |wrapped|
    }

    /** The recording is the prefix consumed so far. */
    ghost predicate RecordsConsumed()
      reads this
      requires Valid()
    {
      out == wrapped[..pos]
    }

    constructor (wrapped: seq<Byte>)
      ensures this.wrapped == wrapped && pos == 0 && out == []
      ensures Valid() && RecordsConsumed()
    {
      this.wrapped := wrapped;
      pos := 0;
      out := [];
    }

    /** read(): one byte from the wrapped stream, recorded unless it is the end-of-stream -1. */
    method Read() returns (b: int)
      requires Valid()
      modifies this`pos, this`out
      ensures Valid()
      ensures old(pos) < |wrapped| ==> b == wrapped[old(pos)] && pos == old(pos) + 1 && out == old(out) + [wrapped[old(pos)]]
      ensures old(pos) == |wrapped| ==> b == -1 && pos == old(pos) && out == old(out)
      ensures old(RecordsConsumed()) ==> RecordsConsumed()
    {
      if pos < |wrapped| {
        b := wrapped[pos];
        PrefixSnoc(wrapped, pos);
        pos := pos + 1;
      } else {
        b := -1;
      }
      if b >= 0 {
        out := out + [b as Byte];
      }
    }

    /** Reads n bytes one read() at a time, as a byte-array read on an InputStream does. */
    method ReadBytes(n: nat) returns (r: Option<seq<Byte>>)
      requires Valid() && RecordsConsumed()
      modifies this`pos, this`out
      ensures Valid() && RecordsConsumed()
      ensures r == match DecodeBytes(wrapped[old(pos)..], n)
                   case None => None
                   case Some(d) => Some(d.value)
      ensures r.Some? ==> pos == old(pos) + n
    {
      ghost var start := pos;
      var buffer: seq<Byte> := [];
      var i := 0;
      while i < n
        invariant i <= n && Valid() && RecordsConsumed()
        invariant pos == start + i
        invariant buffer == wrapped[start..pos]
      {
        ghost var before := pos;
        var b := Read();
        if b < 0 {
          return None;
        }
        SliceSnoc(wrapped, start, before);
        buffer := buffer + [b as Byte];
        i := i + 1;
      }
      TakeDrop(wrapped, start, n);
      return Some(buffer);
    }

    /**
     * A decoder reading from this stream: the decoder works on the bytes the
     * stream has still to deliver, and the bytes it takes are pulled through
     * read(), so that they are recorded.
     */
    method ReadDecoded<V>(decode: seq<Byte> -> Option<Decoded<V>>) returns (r: Option<Decoded<V>>)
      requires Valid() && RecordsConsumed() && ConsumesAtMostInput(decode)
      modifies this`pos, this`out
      ensures Valid() && RecordsConsumed()
      ensures r == decode(wrapped[old(pos)..])
      ensures r.Some? ==> pos == old(pos) + r.value.length
    {
      r := decode(wrapped[pos..]);
      if r.Some? {
        var consumed := ReadBytes(r.value.length);
      }
    }

    /** dataReader.read(sender, in): the reader pulls its bytes through read(). */
    method ReadWith<T>(reader: Reader<T>, sender: Sender) returns (r: Option<T>)
      requires Valid() && RecordsConsumed() && ReaderWellFormed(reader)
      modifies this`pos, this`out
      ensures Valid() && RecordsConsumed()
      ensures r == match reader(sender, wrapped[old(pos)..])
                   case None => None
                   case Some(d) => Some(d.value)
      ensures r.Some? ==> pos == old(pos) + reader(sender, wrapped[old(pos)..]).value.length
    {
      var d := reader(sender, wrapped[pos..]);
      if d.None? {
        return None;
      }
      var consumed := ReadBytes(d.value.length);
      return Some(d.value.value);
    }

    /**
     * checkSignature(pubkey): reads the var_bytes signature from the wrapped
     * stream, bypassing the recording, and checks it over the recorded bytes.
     */
    method CheckSignature(c: Crypto, signingKey: seq<Byte>) returns (r: Result<(), EnvelopeError>)
      requires Valid()
      modifies this`pos
      ensures Valid()
      ensures r == match DecodeVarBytes(wrapped[old(pos)..])
                   case None => Err(EndOfStream)
                   case Some(sig) =>
                     if c.isSignatureValid(out, sig.value, signingKey) then Ok(()) else Err(SignatureCheckFailed)
    {
      var sig := DecodeVarBytes(wrapped[pos..]);
      if sig.None? {
        pos := |wrapped|;
        return Err(EndOfStream);
      }
      pos := pos + sig.value.length;
      if !c.isSignatureValid(out, sig.value.value, signingKey) {
        return Err(SignatureCheckFailed);
      }
      return Ok(());
    }
  }

  /**
   * The end of decrypt: the signature that follows the payload is checked
   * against the bytes recorded so far, under the header's signing key.
   */
  method CheckSignedPayload<T>(c: Crypto, input: SignatureCheckingInputStream, h: Decoded<Sender>, reader: Reader<T>, d: Decoded<T>)
    returns (r: Result<T, EnvelopeError>)
    requires input.Valid() && input.RecordsConsumed() && ReaderWellFormed(reader)
    requires h.length <= |input.wrapped| && reader(h.value, input.wrapped[h.length..]) == Some(d)
    requires input.pos == h.length + d.length
    modifies input`pos
    ensures OpenParsed(c, ParseBody(input.wrapped, h, Some(reader))) == Opened(Some(h.value), Some(d.value), r)
  {
    var checked := input.CheckSignature(c, h.value.signingKey);
    if checked.Err? {
      return Err(checked.error);
    }
    return Ok(d.value);
  }

  // ---------------------------------------------------------------------
  // CryptoCustomMessage
  // ---------------------------------------------------------------------

  class CryptoCustomMessage<T> {
    /** The encrypted container (a CryptoBox), once signed and encrypted or read. */
    var container: Option<seq<Byte>>
    /** The sender reconstructed by decrypt. */
    var sender: Option<Sender>
    /** The payload. */
    var data: Option<T>
    /** The payload reader of a received message. */
    const dataReader: Option<Reader<T>>

    /** new CryptoCustomMessage(data): an outgoing message. */
    constructor WithData(data: T)
      ensures this.data == Some(data) && container == None && sender == None && dataReader == None
    {
      this.data := Some(data);
      container := None;
      sender := None;
      dataReader := None;
    }

    /** CryptoCustomMessage.read: a received message wrapping a container, with its payload reader. */
    constructor Received(container: seq<Byte>, dataReader: Reader<T>)
      ensures this.container == Some(container) && this.dataReader == Some(dataReader)
      ensures data == None && sender == None
    {
      this.container := Some(container);
      this.dataReader := Some(dataReader);
      data := None;
      sender := None;
    }

    /**
     * signAndEncrypt(identity, publicKey): builds the signed block step by
     * step in an output buffer and stores its encryption as the container.
     * Copying a key too short for its 64 bytes fails before the payload is
     * written; a missing payload fails when it is written.
     */
    method SignAndEncrypt(c: Crypto, write: T -> seq<Byte>, identity: Identity, publicKey: seq<Byte>)
      returns (r: Result<(), EnvelopeError>)
      modifies this`container
      ensures !KeysPresent(identity) ==> r == Err(IndexOutOfBounds) && container == old(container)
      ensures KeysPresent(identity) && data.None? ==> r == Err(NullPointer) && container == old(container)
      ensures KeysPresent(identity) && data.Some? ==>
        r == Ok(()) && container == Some(Seal(c, identity, write(data.value), publicKey))
    {
      if !KeysPresent(identity) {
        return Err(IndexOutOfBounds);
      }
      var out: seq<Byte> := EncodeVarInt(identity.version);
      out := out + EncodeVarInt(identity.stream);
      out := out + EncodeInt32(identity.pubkey.behaviorBitfield);
      out := out + identity.pubkey.signingKey[1..KeyBytes + 1];
      out := out + identity.pubkey.encryptionKey[1..KeyBytes + 1];
      if HasDifficulty(identity.version) {
        out := out + EncodeVarInt(identity.pubkey.nonceTrialsPerByte);
        out := out + EncodeVarInt(identity.pubkey.extraBytes);
      }
      HeaderLayoutOnTheWire(identity);
      assert out == EncodeHeader(identity);
      if data.None? {
        return Err(NullPointer);
      }
      out := out + write(data.value);
      out := out + EncodeVarBytes(c.sign(out, identity.privateSigningKey));
      container := Some(c.encrypt(out, publicKey));
      return Ok(());
    }

    /**
     * decrypt(privateKey): sets sender as soon as the header is read and
     * data as soon as the payload is read, then checks the signature; the
     * payload is returned only if the check succeeds.
     */
    method Decrypt(c: Crypto, privateKey: seq<Byte>) returns (r: Result<T, EnvelopeError>)
      requires dataReader.Some? ==> ReaderWellFormed(dataReader.value)
      modifies this`sender, this`data
      ensures var o := Open(c, container, privateKey, dataReader);
        && r == o.result
        && sender == (if o.sender.Some? then o.sender else old(sender))
        && data == (if o.data.Some? then o.data else old(data))
    {
      if container.None? {
        return Err(NullPointer);
      }
      var plain := c.decrypt(container.value, privateKey);
      if plain.None? {
        return Err(DecryptionFailed);
      }
      r := ReadPlaintext(c, plain.value);
    }

    /** The part of decrypt that reads the decrypted bytes through the recording stream. */
    method ReadPlaintext(c: Crypto, plain: seq<Byte>) returns (r: Result<T, EnvelopeError>)
      requires dataReader.Some? ==> ReaderWellFormed(dataReader.value)
      modifies this`sender, this`data
      ensures var o := OpenPlaintext(c, plain, dataReader);
        && r == o.result
        && sender == (if o.sender.Some? then o.sender else old(sender))
        && data == (if o.data.Some? then o.data else old(data))
    {
      var input := new SignatureCheckingInputStream(plain);
      DropNothing(plain);
      var header := input.ReadDecoded(DecodeHeader);
      if header.None? {
        return Err(EndOfStream);
      }
      var s := header.value.value;
      sender := Some(s);
      if dataReader.None? {
        return Err(NullPointer);
      }
      r := ReadPayload(c, input, header.value, dataReader.value);
    }

    /** The rest of decrypt once the header has been read: the payload, then the signature check. */
    method ReadPayload(c: Crypto, input: SignatureCheckingInputStream, h: Decoded<Sender>, reader: Reader<T>)
      returns (r: Result<T, EnvelopeError>)
      requires input.Valid() && input.RecordsConsumed() && ReaderWellFormed(reader)
      requires h.length <= |input.wrapped| && input.pos == h.length
      modifies this`data, input`pos, input`out
      ensures var o := OpenParsed(c, ParseBody(input.wrapped, h, Some(reader)));
        && o.sender == Some(h.value)
        && r == o.result
        && data == (if o.data.Some? then o.data else old(data))
    {
      var plain := input.wrapped;
      var payload := input.ReadWith(reader, h.value);
      if payload.None? {
        return Err(ReaderFailed);
      }
      data := payload;
      r := CheckSignedPayload(c, input, h, reader, reader(h.value, plain[h.length..]).value);
    }

    /** write(out): the var_string command name followed by the container. */
    function Write(): (r: Result<seq<Byte>, EnvelopeError>)
      reads this
      ensures r.Err? <==> container.None?
      ensures r.Ok? ==>
        var n := |EncodeVarString(Command)|;
        && DecodeVarString(r.value) == Some(Decoded(Command, n))
        && r.value[n..] == container.value
    {
      CommandIsAscii();
      if container.None? then Err(NullPointer)
      else
        VarStringRoundTrip(Command, container.value);
        Ok(EncodeVarString(Command) + container.value)
    }
  }

  lemma CommandIsAscii()
    ensures forall i :: 0 <= i < |Command| ==> Command[i] < 128 as char
  {
  }
}
