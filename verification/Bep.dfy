/**
  Frames of the Block Exchange Protocol, section "Post-authentication Messages" of BEP v1:
  a two-byte header length, the header, a four-byte message length and the message, which may be
  compressed. Protobuf and LZ4 are arbitrary functions that undo each other.
 */
module Bep {
  import opened Common

  datatype Kind =
    | ClusterConfig | Index | IndexUpdate | Request | Response | DownloadProgress | Ping | Close
    | Unknown(code: nat)

  datatype Message<B> = Message(kind: Kind, body: B)

  datatype Compression = NoCompression | Lz4

  datatype Policy = Metadata | Never | Always

  datatype Header = Header(kind: Kind, compression: Compression)

  /** decode fails when bytes are left over; decompress gets the announced size as its limit. */
  datatype Codec<!B> = Codec(
    encode: Message<B> -> seq<Byte>,
    decode: (Kind, seq<Byte>) -> Option<Message<B>>,
    encodeHeader: Header -> seq<Byte>,
    decodeHeader: seq<Byte> -> Option<Header>,
    compress: seq<Byte> -> seq<Byte>,
    decompress: (seq<Byte>, nat) -> Option<seq<Byte>>)

  const COMPRESSION_THRESHOLD: nat := 128
  const LZ4_MAX_INPUT_SIZE: nat := 0x7E00_0000
  const MAGIC: seq<Byte> := [0x2E, 0xA7, 0xD9, 0x0B]

  function CompressBound(n: nat): nat {
    n + n / 255 + 16
  }

  ghost predicate ReadsMessages<B(!new)>(c: Codec<B>) {
    forall m: Message<B> :: c.decode(m.kind, c.encode(m)) == Some(m)
  }

  /** A header has two enumeration fields, hence at most four bytes for known kinds. */
  ghost predicate ReadsHeaders<B>(c: Codec<B>) {
    forall h: Header :: !h.kind.Unknown? ==> c.decodeHeader(c.encodeHeader(h)) == Some(h) && |c.encodeHeader(h)| <= 4
  }

  ghost predicate Decompresses<B>(c: Codec<B>) {
    forall s: seq<Byte> :: |s| <= LZ4_MAX_INPUT_SIZE ==>
      c.decompress(c.compress(s), |s|) == Some(s) && 0 < |c.compress(s)| <= CompressBound(|s|)
  }

  ghost predicate KeepsLimit<B>(c: Codec<B>) {
    forall s: seq<Byte>, n: nat :: c.decompress(s, n).Some? ==> |c.decompress(s, n).value| <= n
  }

  /** The inverse laws. */
  ghost predicate Lawful<B(!new)>(c: Codec<B>) {
    ReadsMessages(c) && ReadsHeaders(c) && Decompresses(c) && KeepsLimit(c)
  }

  // ----- The laws can be met -----

  function KindCode(k: Kind): Byte {
    match k
    case ClusterConfig => 0 case Index => 1 case IndexUpdate => 2 case Request => 3
    case Response => 4 case DownloadProgress => 5 case Ping => 6 case Close => 7 case Unknown(_) => 8
  }

  function KindOf(b: Byte): Kind {
    if b == 0 then ClusterConfig else if b == 1 then Index else if b == 2 then IndexUpdate else if b == 3 then Request
    else if b == 4 then Response else if b == 5 then DownloadProgress else if b == 6 then Ping else if b == 7 then Close
    else Unknown(b)
  }

  function PlainBody(m: Message<seq<Byte>>): seq<Byte> { m.body }
  function PlainMessage(k: Kind, s: seq<Byte>): Option<Message<seq<Byte>>> { Some(Message(k, s)) }

  function PlainHeader(h: Header): seq<Byte> {
    [KindCode(h.kind), if h.compression == Lz4 then 1 else 0]
  }

  function ReadHeader(s: seq<Byte>): Option<Header> {
    if |s| == 2 then Some(Header(KindOf(s[0]), if s[1] == 1 then Lz4 else NoCompression)) else None
  }

  function Prefixed(s: seq<Byte>): seq<Byte> { [0] + s }

  function Unprefixed(s: seq<Byte>, n: nat): Option<seq<Byte>> {
    if 0 < |s| <= n + 1 then Some(s[1..]) else None
  }

  /** Bodies that are bytes already, and a compression that adds one byte. */
  function PlainCodec(): Codec<seq<Byte>> {
    Codec(PlainBody, PlainMessage, PlainHeader, ReadHeader, Prefixed, Unprefixed)
  }

  lemma PlainHeaderReads(h: Header)
    requires !h.kind.Unknown?
    ensures ReadHeader(PlainHeader(h)) == Some(h) && |PlainHeader(h)| <= 4
  {
  }

  lemma UnprefixedPrefixed(s: seq<Byte>)
    ensures Unprefixed(Prefixed(s), |s|) == Some(s) && 0 < |Prefixed(s)| <= CompressBound(|s|)
  {
    assert ([0] + s)[1..] == s;
  }

  lemma PlainCodecReads()
    ensures ReadsMessages(PlainCodec()) && ReadsHeaders(PlainCodec())
  {
    hide KindCode, KindOf, ReadHeader, PlainHeader;
    var c := PlainCodec();
    forall h: Header | !h.kind.Unknown?
      ensures c.decodeHeader(c.encodeHeader(h)) == Some(h) && |c.encodeHeader(h)| <= 4
    {
      PlainHeaderReads(h);
    }
  }

  lemma PlainCodecDecompresses()
    ensures Decompresses(PlainCodec())
  {
    hide Prefixed, Unprefixed;
    var c := PlainCodec();
    forall s: seq<Byte>
      ensures c.decompress(c.compress(s), |s|) == Some(s) && 0 < |c.compress(s)| <= CompressBound(|s|)
    {
      UnprefixedPrefixed(s);
    }
  }

  lemma PlainCodecKeepsLimit()
    ensures KeepsLimit(PlainCodec())
  {
    hide Unprefixed;
    var c := PlainCodec();
    forall s: seq<Byte>, n: nat ensures c.decompress(s, n).Some? ==> |c.decompress(s, n).value| <= n {
      UnprefixedFits(s, n);
    }
  }

  lemma PlainCodecLawful()
    ensures Lawful(PlainCodec())
  {
    hide ReadsMessages, ReadsHeaders, Decompresses, KeepsLimit;
    PlainCodecReads();
    PlainCodecDecompresses();
    PlainCodecKeepsLimit();
  }

  lemma UnprefixedFits(s: seq<Byte>, n: nat)
    ensures Unprefixed(s, n).Some? ==> |Unprefixed(s, n).value| <= n
  {
  }

  /** The message is of a known kind and small enough for LZ4 and for a signed 32-bit size. */
  predicate Sendable<B>(c: Codec<B>, m: Message<B>) {
    !m.kind.Unknown? && |c.encode(m)| <= LZ4_MAX_INPUT_SIZE
  }

  // ----- Big-endian integers -----

  function U16(n: nat): (r: seq<Byte>)
    requires n < 0x1_0000
    ensures |r| == 2
  {
    [n / 0x100, n % 0x100]
  }

  function U32(n: nat): (r: seq<Byte>)
    requires n < 0x1_0000_0000
    ensures |r| == 4
  {
    U16(n / 0x1_0000) + U16(n % 0x1_0000)
  }

  function Read16(a: Byte, b: Byte): (n: nat)
    ensures n < 0x1_0000
  {
    a * 0x100 + b
  }

  function Read32(a: Byte, b: Byte, c: Byte, d: Byte): (n: nat)
    ensures n < 0x1_0000_0000
  {
    Read16(a, b) * 0x1_0000 + Read16(c, d)
  }

  lemma BigEndian16(n: nat)
    requires n < 0x1_0000
    ensures Read16(U16(n)[0], U16(n)[1]) == n
  {
  }

  lemma BigEndian32(n: nat)
    requires n < 0x1_0000_0000
    ensures Read32(U32(n)[0], U32(n)[1], U32(n)[2], U32(n)[3]) == n
  {
    BigEndian16(n / 0x1_0000);
    BigEndian16(n % 0x1_0000);
  }

  // ----- serialize -----

  function Applied<B>(c: Codec<B>, m: Message<B>, policy: Policy): Compression {
    if |c.encode(m)| > COMPRESSION_THRESHOLD && policy != Never && (m.kind == Response ==> policy == Always)
    then Lz4 else NoCompression
  }

  /** What follows the message length: the encoded message, or its size and its compressed form. */
  function Payload<B>(c: Codec<B>, m: Message<B>, policy: Policy): seq<Byte>
    requires Sendable(c, m)
  {
    var raw := c.encode(m);
    if Applied(c, m, policy) == NoCompression then raw else U32(|raw|) + c.compress(raw)
  }

  ghost predicate Printable<B>(c: Codec<B>, m: Message<B>, policy: Policy) {
    && Sendable(c, m)
    && |c.encodeHeader(Header(m.kind, Applied(c, m, policy)))| <= 4
    && |c.compress(c.encode(m))| <= CompressBound(|c.encode(m)|)
  }

  function Frame<B>(c: Codec<B>, m: Message<B>, policy: Policy): seq<Byte>
    requires Printable(c, m, policy)
  {
    var header := c.encodeHeader(Header(m.kind, Applied(c, m, policy)));
    var payload := Payload(c, m, policy);
    U16(|header|) + header + U32(|payload|) + payload
  }

  /** Copies `data` over the buffer at `pos`. */
  function Put(buffer: seq<Byte>, pos: nat, data: seq<Byte>): (r: seq<Byte>)
    requires pos + |data| <= |buffer|
    ensures |r| == |buffer|
  {
    buffer[..pos] + data + buffer[pos + |data|..]
  }

  lemma PutBehind(written: seq<Byte>, rest: seq<Byte>, data: seq<Byte>)
    requires |data| <= |rest|
    ensures Put(written + rest, |written|, data) == (written + data) + rest[|data|..]
  {
  }

  lemma PutHead(room: seq<Byte>, a: seq<Byte>, b: seq<Byte>, c: seq<Byte>)
    requires |a| + |b| + |c| <= |room|
    ensures Put(Put(Put(room, 0, a), |a|, b), |a| + |b|, c) == a + b + c + room[|a| + |b| + |c|..]
  {
    assert room == [] + room && [] + a == a;
    PutBehind([], room, a);
    PutBehind(a, room[|a|..], b);
    assert room[|a|..][|b|..] == room[|a| + |b|..];
    PutBehind(a + b, room[|a| + |b|..], c);
    assert room[|a| + |b|..][|c|..] == room[|a| + |b| + |c|..];
  }

  /** The part of serialize that lays out the message behind room for the `h` header bytes. */
  method LayOut<B>(c: Codec<B>, m: Message<B>, applied: Compression, h: nat)
    returns (buffer: seq<Byte>, messageSize: nat)
    requires |c.encode(m)| <= LZ4_MAX_INPUT_SIZE && |c.compress(c.encode(m))| <= CompressBound(|c.encode(m)|)
    ensures |buffer| == 2 + 4 + h + messageSize
    ensures var raw := c.encode(m);
      buffer[6 + h..] == if applied == NoCompression then raw else U32(|raw|) + c.compress(raw)
  {
    var raw := c.encode(m);
    messageSize := |raw|;
    if applied == NoCompression {
      var offset := 2 + 4 + h;
      buffer := seq(offset + messageSize, _ => 0);
      buffer := Put(buffer, offset, raw);
    } else {
      var bound := CompressBound(messageSize);
      var offset := (2 + 4 + 4 + h) + bound;
      buffer := seq(offset + messageSize, _ => 0);
      buffer := Put(buffer, offset, raw);
      assert buffer[offset..] == raw;
      var packed := c.compress(buffer[offset..]);
      var dst := 2 + 4 + 4 + h;
      buffer := Put(buffer, dst, packed);
      assert buffer[dst..dst + |packed|] == packed;
      buffer := Put(buffer, dst - 4, U32(messageSize));
      assert buffer[dst - 4..dst] == U32(|raw|) && buffer[dst..dst + |packed|] == packed;
      messageSize := |packed| + 4;
      buffer := buffer[..2 + 4 + h + messageSize];
      assert buffer[6 + h..] == buffer[dst - 4..dst] + buffer[dst..];
    }
  }

  method Serialize<B>(c: Codec<B>, m: Message<B>, policy: Policy) returns (bytes: seq<Byte>)
    requires Printable(c, m, policy)
    ensures bytes == Frame(c, m, policy)
  {
    hide Put, U16, U32;
    var applied := NoCompression;
    if |c.encode(m)| > COMPRESSION_THRESHOLD && policy != Never {
      if m.kind == Response {
        if policy == Always {
          applied := Lz4;
        }
      } else {
        applied := Lz4;
      }
    }
    var header := c.encodeHeader(Header(m.kind, applied));
    var h, messageSize := |header|, 0;
    bytes, messageSize := LayOut(c, m, applied, h);
    PutHead(bytes, U16(h), header, U32(messageSize));
    bytes := Put(bytes, 0, U16(h));
    bytes := Put(bytes, 2, header);
    bytes := Put(bytes, 2 + h, U32(messageSize));
  }
}
