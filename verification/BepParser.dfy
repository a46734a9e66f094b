/**
  Parsing of frames and of streams of frames: printing and parsing undo each other, a strict prefix
  of a frame is never taken for a message, and the messages found in a stream do not depend on how
  the stream was cut into reads.
 */
module BepParser {
  import opened Bep
  import opened Common

  datatype Parsed<B> =
    | Incomplete
    | Got(message: Message<B>, consumed: nat)
    | ProtobufError
    | Lz4Error
    | HelloFrame
    | Aborted

  /** Byte `i` of the memory that starts at the view; the parser may look past the view's end. */
  function At(buff: seq<Byte>, beyond: nat -> Byte, i: nat): Byte {
    if i < |buff| then buff[i] else beyond(i)
  }

  function ParseMessage<B>(c: Codec<B>, kind: Kind, bytes: seq<Byte>, consumed: nat): Parsed<B> {
    if kind.Unknown? then Aborted
    else
      match c.decode(kind, bytes)
      case None => ProtobufError
      case Some(m) => Got(m, consumed)
  }

  /** The output buffer of the decompressor has the announced size and starts out as zeros. */
  function Padded(out: seq<Byte>, n: nat): seq<Byte> {
    if |out| <= n then out + seq(n - |out|, _ => 0) else out[..n]
  }

  /** parse_bep. */
  function Parse<B>(c: Codec<B>, buff: seq<Byte>, beyond: nat -> Byte): (r: Parsed<B>)
    ensures r.Got? ==> 0 < r.consumed <= |buff|
  {
    if |buff| < 4 then Incomplete
    else if buff[..4] == MAGIC then HelloFrame
    else
      var h := Read16(buff[0], buff[1]);
      if 2 + h > |buff| then Incomplete
      else
        match c.decodeHeader(buff[2..2 + h])
        case None => ProtobufError
        case Some(header) =>
          var p := 2 + h;
          var n := Read32(At(buff, beyond, p), At(buff, beyond, p + 1),
                          At(buff, beyond, p + 2), At(buff, beyond, p + 3));
          if p + 4 + n > |buff| then Incomplete
          else ParsePayload(c, header, buff[p + 4..p + 4 + n], p + 4 + n)
  }

  function ParsePayload<B>(c: Codec<B>, header: Header, payload: seq<Byte>, consumed: nat): (r: Parsed<B>)
    ensures r.Got? ==> r.consumed == consumed
    ensures !r.Incomplete? && !r.HelloFrame?
  {
    if header.compression == NoCompression then ParseMessage(c, header.kind, payload, consumed)
    else if |payload| < 4 then Lz4Error
    else
      var total := Read32(payload[0], payload[1], payload[2], payload[3]);
      match c.decompress(payload[4..], total)
      case None => Lz4Error
      case Some(out) => ParseMessage(c, header.kind, Padded(out, total), consumed)
  }

  /** The bytes past the view are looked at, but they never matter. */
  lemma ParseIgnoresBeyond<B>(c: Codec<B>, buff: seq<Byte>, b1: nat -> Byte, b2: nat -> Byte)
    ensures Parse(c, buff, b1) == Parse(c, buff, b2)
  {
    if |buff| >= 4 {
      var p := 2 + Read16(buff[0], buff[1]);
      if p + 4 <= |buff| {
        assert forall i :: p <= i < p + 4 ==> At(buff, b1, i) == At(buff, b2, i);
      }
    }
  }

  // ----- One frame -----

  lemma LawfulPrintable<B(!new)>(c: Codec<B>, m: Message<B>, policy: Policy)
    requires Lawful(c) && Sendable(c, m)
    ensures Printable(c, m, policy)
  {
  }

  lemma CodecRoundTrip<B(!new)>(c: Codec<B>, m: Message<B>)
    requires Lawful(c) && Sendable(c, m)
    ensures c.decode(m.kind, c.encode(m)) == Some(m)
    ensures c.decompress(c.compress(c.encode(m)), |c.encode(m)|) == Some(c.encode(m))
  {
  }

  lemma PayloadRoundTrip<B(!new)>(c: Codec<B>, m: Message<B>, policy: Policy, consumed: nat)
    requires Lawful(c) && Sendable(c, m)
    ensures ParsePayload(c, Header(m.kind, Applied(c, m, policy)), Payload(c, m, policy), consumed) == Got(m, consumed)
  {
    hide Lawful, Padded, U32, Read32, CompressBound;
    CodecRoundTrip(c, m);
    var raw := c.encode(m);
    PackedFields(|raw|, c.compress(raw));
    PaddedWhole(raw);
  }

  lemma PaddedWhole(raw: seq<Byte>)
    ensures Padded(raw, |raw|) == raw
  {
  }

  /** The size and the compressed bytes are found where they have been put. */
  lemma PackedFields(n: nat, packed: seq<Byte>)
    requires n < 0x1_0000_0000
    ensures var payload := U32(n) + packed;
      Read32(payload[0], payload[1], payload[2], payload[3]) == n && payload[4..] == packed
  {
    BigEndian32(n);
  }

  lemma PayloadFits<B>(c: Codec<B>, m: Message<B>, policy: Policy)
    requires Printable(c, m, policy)
    ensures |Payload(c, m, policy)| < 0x1_0000_0000
  {
  }

  lemma CutPiece<T>(all: seq<T>, p: nat, q: nat, k: nat)
    requires p <= q <= k <= |all|
    ensures all[..k][p..q] == all[p..q]
  {
  }

  /** A piece of a buffer that is cut off at `k`. */
  lemma Piece<T>(all: seq<T>, before: seq<T>, piece: seq<T>, after: seq<T>, k: nat)
    requires all == before + (piece + after) && |before| + |piece| <= k <= |all|
    ensures all[..k][|before|..|before| + |piece|] == piece
  {
    var q := |before| + |piece|;
    CutPiece(all, |before|, q, k);
    assert all[|before|..] == piece + after;
    assert all[|before|..q] == all[|before|..][..|piece|];
  }

  lemma FirstPieces<T>(a: seq<T>, b: seq<T>, after: seq<T>, k: nat)
    requires k <= |a + (b + after)|
    ensures var buff := (a + (b + after))[..k];
      (k >= |a| ==> buff[0..|a|] == a) && (k >= |a| + |b| ==> buff[|a|..|a| + |b|] == b)
  {
    var all := a + (b + after);
    if k >= |a| {
      assert all == [] + (a + (b + after));
      Piece(all, [], a, b + after, k);
    }
    if k >= |a| + |b| {
      Piece(all, a, b, after, k);
    }
  }

  lemma LastPieces<T>(before: seq<T>, c: seq<T>, d: seq<T>, e: seq<T>, k: nat)
    requires k <= |before + (c + (d + e))|
    ensures var buff := (before + (c + (d + e)))[..k]; var q := |before| + |c|;
      (k >= q ==> buff[|before|..q] == c) && (k >= q + |d| ==> buff[q..q + |d|] == d)
  {
    var all := before + (c + (d + e));
    if k >= |before| + |c| {
      Piece(all, before, c, d + e, k);
    }
    if k >= |before| + |c| + |d| {
      assert all == (before + c) + (d + e);
      Piece(all, before + c, d, e, k);
    }
  }

  lemma Regroup<T>(a: seq<T>, b: seq<T>, c: seq<T>, d: seq<T>, e: seq<T>)
    ensures a + b + c + d + e == a + (b + (c + (d + e))) == (a + b) + (c + (d + e))
  {
  }

  /** The fields of a frame that is cut off at `k`. */
  lemma FrameFields<B>(c: Codec<B>, m: Message<B>, policy: Policy, rest: seq<Byte>, k: nat)
    requires Printable(c, m, policy)
    requires k <= |Frame(c, m, policy) + rest|
    ensures var header := c.encodeHeader(Header(m.kind, Applied(c, m, policy)));
      var payload := Payload(c, m, policy); var buff := (Frame(c, m, policy) + rest)[..k]; var h := |header|;
      && |Frame(c, m, policy)| == 2 + h + 4 + |payload|
      && (k >= 2 ==> Read16(buff[0], buff[1]) == h && buff[0] == 0)
      && (k >= 2 + h ==> buff[2..2 + h] == header)
      && (k >= 2 + h + 4 ==> Read32(buff[2 + h], buff[3 + h], buff[4 + h], buff[5 + h]) == |payload|)
      && (k >= 2 + h + 4 + |payload| ==> buff[2 + h + 4..2 + h + 4 + |payload|] == payload)
  {
    hide Payload, Applied;
    PayloadFits(c, m, policy);
    var header := c.encodeHeader(Header(m.kind, Applied(c, m, policy)));
    var payload := Payload(c, m, policy);
    FieldsOf(header, payload, rest, k);
  }

  lemma FieldsOf(header: seq<Byte>, payload: seq<Byte>, rest: seq<Byte>, k: nat)
    requires |header| <= 4 && |payload| < 0x1_0000_0000
    requires k <= 6 + |header| + |payload| + |rest|
    ensures var h := |header|; var buff := (U16(h) + header + U32(|payload|) + payload + rest)[..k];
      && (k >= 2 ==> Read16(buff[0], buff[1]) == h && buff[0] == 0)
      && (k >= 2 + h ==> buff[2..2 + h] == header)
      && (k >= 2 + h + 4 ==> Read32(buff[2 + h], buff[3 + h], buff[4 + h], buff[5 + h]) == |payload|)
      && (k >= 2 + h + 4 + |payload| ==> buff[2 + h + 4..2 + h + 4 + |payload|] == payload)
  {
    hide U16, U32, Read16, Read32;
    var h := |header|;
    BigEndian16(h);
    BigEndian32(|payload|);
    SmallHeader(h);
    Regroup(U16(h), header, U32(|payload|), payload, rest);
    FirstPieces(U16(h), header, U32(|payload|) + (payload + rest), k);
    LastPieces(U16(h) + header, U32(|payload|), payload, rest, k);
    var buff := (U16(h) + header + U32(|payload|) + payload + rest)[..k];
    if k >= 2 {
      assert buff[0] == buff[0..2][0] && buff[1] == buff[0..2][1];
    }
    if k >= 2 + h + 4 {
      var size := buff[2 + h..2 + h + 4];
      assert buff[2 + h] == size[0] && buff[3 + h] == size[1] && buff[4 + h] == size[2] && buff[5 + h] == size[3];
    }
  }

  lemma SmallHeader(h: nat)
    requires h < 0x100
    ensures U16(h)[0] == 0
  {
  }

  /** No frame starts with the magic of a Hello message. */
  lemma FrameIsNotHello<B>(c: Codec<B>, m: Message<B>, policy: Policy, rest: seq<Byte>, k: nat)
    requires Printable(c, m, policy) && 4 <= k <= |Frame(c, m, policy) + rest|
    ensures (Frame(c, m, policy) + rest)[..k][..4] != MAGIC
  {
    FrameFields(c, m, policy, rest, k);
  }

  /** Parsing a printed frame, whatever follows it, yields the message and consumes the frame. */
  lemma FrameRoundTrip<B(!new)>(c: Codec<B>, m: Message<B>, policy: Policy, rest: seq<Byte>, beyond: nat -> Byte)
    requires Lawful(c) && Sendable(c, m)
    ensures Printable(c, m, policy)
    ensures Parse(c, Frame(c, m, policy) + rest, beyond) == Got(m, |Frame(c, m, policy)|)
  {
    LawfulPrintable(c, m, policy);
    var header := Header(m.kind, Applied(c, m, policy));
    HeaderRoundTrip(c, header);
    PayloadRoundTrip(c, m, policy, |Frame(c, m, policy)|);
    FrameParse(c, m, policy, rest, beyond);
  }

  /** The parser finds the header and the payload of a frame where serialize has put them. */
  lemma FrameParse<B>(c: Codec<B>, m: Message<B>, policy: Policy, rest: seq<Byte>, beyond: nat -> Byte)
    requires Printable(c, m, policy)
    requires var header := Header(m.kind, Applied(c, m, policy)); c.decodeHeader(c.encodeHeader(header)) == Some(header)
    ensures Parse(c, Frame(c, m, policy) + rest, beyond)
         == ParsePayload(c, Header(m.kind, Applied(c, m, policy)), Payload(c, m, policy), |Frame(c, m, policy)|)
  {
    hide Frame, Payload, ParsePayload, Applied;
    var buff := Frame(c, m, policy) + rest;
    assert buff[..|buff|] == buff;
    FrameFields(c, m, policy, rest, |buff|);
    FrameIsNotHello(c, m, policy, rest, |buff|);
  }

  /** The size of a header, and four bytes as a number: the most significant byte comes first. */
  function HeaderSize(bytes: seq<Byte>): nat
    requires |bytes| >= 2
  {
    bytes[0] as int * 0x100 + bytes[1]
  }

  function Number(s: seq<Byte>): nat
    requires |s| == 4
  {
    s[0] as int * 0x100_0000 + s[1] as int * 0x1_0000 + s[2] as int * 0x100 + s[3]
  }

  /** Two bytes for the size of the header, the header, four bytes for the size of what follows, and that. */
  ghost predicate Fields(bytes: seq<Byte>, header: seq<Byte>, payload: seq<Byte>) {
    && |bytes| >= 6 && HeaderSize(bytes) == |header| && |bytes| == 6 + |header| + |payload|
    && bytes[2..2 + |header|] == header
    && Number(bytes[2 + |header|..6 + |header|]) == |payload|
    && bytes[6 + |header|..] == payload
  }

  /** The message, or four bytes for its size and its compressed form. */
  ghost predicate Carries<B>(c: Codec<B>, payload: seq<Byte>, raw: seq<Byte>, compressed: bool) {
    if compressed then |payload| >= 4 && Number(payload[..4]) == |raw| && payload[4..] == c.compress(raw)
    else payload == raw
  }

  /** What goes over the wire. A message is compressed iff it is longer than 128 bytes and everything is to
      be compressed, or only metadata, which is all but responses. */
  lemma WireFormat<B(!new)>(c: Codec<B>, m: Message<B>, policy: Policy) returns (header: seq<Byte>, payload: seq<Byte>)
    requires Lawful(c) && Sendable(c, m)
    ensures Printable(c, m, policy) && Fields(Frame(c, m, policy), header, payload)
    ensures var compressed := |c.encode(m)| > 128 && (policy == Always || (policy == Metadata && m.kind != Response));
      && c.decodeHeader(header) == Some(Header(m.kind, if compressed then Lz4 else NoCompression))
      && Carries(c, payload, c.encode(m), compressed)
  {
    LawfulPrintable(c, m, policy);
    HeaderRoundTrip(c, Header(m.kind, Applied(c, m, policy)));
    CompressedWhen(c, m, policy);
    hide Lawful, Payload, Fields, Applied, Carries;
    header, payload := c.encodeHeader(Header(m.kind, Applied(c, m, policy))), Payload(c, m, policy);
    PayloadFits(c, m, policy);
    FrameOnWire(header, payload);
    PayloadOnWire(c, m, policy);
  }

  lemma CompressedWhen<B>(c: Codec<B>, m: Message<B>, policy: Policy)
    ensures Applied(c, m, policy) == Lz4 <==>
      |c.encode(m)| > 128 && (policy == Always || (policy == Metadata && m.kind != Response))
  {
  }

  lemma FrameOnWire(header: seq<Byte>, payload: seq<Byte>)
    requires |header| <= 4 && |payload| < 0x1_0000_0000
    ensures Fields(U16(|header|) + header + U32(|payload|) + payload, header, payload)
  {
    hide U16, U32, Read32, Number;
    var h, bytes := |header|, U16(|header|) + header + U32(|payload|) + payload;
    assert (bytes + [])[..|bytes|] == bytes;
    FieldsOf(header, payload, [], |bytes|);
    ReadNumber(bytes, 2 + h);
    assert bytes[6 + h..6 + h + |payload|] == bytes[6 + h..];
  }

  lemma PayloadOnWire<B>(c: Codec<B>, m: Message<B>, policy: Policy)
    requires Sendable(c, m)
    ensures Carries(c, Payload(c, m, policy), c.encode(m), Applied(c, m, policy) == Lz4)
  {
    if Applied(c, m, policy) == Lz4 {
      var raw, payload := c.encode(m), Payload(c, m, policy);
      hide U32, Read32, Applied, Number;
      PackedFields(|raw|, c.compress(raw));
      ReadNumber(payload, 0);
      assert payload[0..4] == payload[..4];
    }
  }

  lemma ReadNumber(s: seq<Byte>, i: nat)
    requires i + 4 <= |s|
    ensures Read32(s[i], s[i + 1], s[i + 2], s[i + 3]) == Number(s[i..i + 4])
  {
  }

  /** On any bytes: a Hello is told by its magic; nothing is consumed iff fewer bytes are there than the
      sizes announce, unless the header cannot be read. */
  lemma ParseExact<B>(c: Codec<B>, buff: seq<Byte>, beyond: nat -> Byte)
    ensures Parse(c, buff, beyond) == HelloFrame <==> |buff| >= 4 && buff[..4] == [0x2E, 0xA7, 0xD9, 0x0B]
    ensures Parse(c, buff, beyond) == Incomplete <==>
      |buff| < 4 || (buff[..4] != [0x2E, 0xA7, 0xD9, 0x0B] && MoreAnnounced(c, buff))
  {
    hide ParsePayload, ParseMessage, Read32, Number;
    if |buff| >= 4 {
      var h := HeaderSize(buff);
      if |buff| >= 6 + h {
        ReadNumber(buff, 2 + h);
      }
    }
  }

  ghost predicate MoreAnnounced<B>(c: Codec<B>, buff: seq<Byte>)
    requires |buff| >= 4
  {
    var h := HeaderSize(buff);
    || |buff| < 2 + h
    || (c.decodeHeader(buff[2..2 + h]).Some? && (|buff| < 6 + h || |buff| < 6 + h + Number(buff[2 + h..6 + h])))
  }

  lemma HeaderRoundTrip<B(!new)>(c: Codec<B>, header: Header)
    requires Lawful(c) && !header.kind.Unknown?
    ensures c.decodeHeader(c.encodeHeader(header)) == Some(header)
  {
  }

  /** A strict prefix of a frame consumes nothing, whatever the memory behind it holds. */
  lemma FramePrefix<B(!new)>(c: Codec<B>, m: Message<B>, policy: Policy, k: nat, beyond: nat -> Byte)
    requires Lawful(c) && Sendable(c, m)
    requires Printable(c, m, policy) && k < |Frame(c, m, policy)|
    ensures Parse(c, Frame(c, m, policy)[..k], beyond) == Incomplete
  {
    HeaderRoundTrip(c, Header(m.kind, Applied(c, m, policy)));
    FramePrefixParse(c, m, policy, k, beyond);
  }

  lemma FramePrefixParse<B>(c: Codec<B>, m: Message<B>, policy: Policy, k: nat, beyond: nat -> Byte)
    requires Printable(c, m, policy) && k < |Frame(c, m, policy)|
    requires var header := Header(m.kind, Applied(c, m, policy)); c.decodeHeader(c.encodeHeader(header)) == Some(header)
    ensures Parse(c, Frame(c, m, policy)[..k], beyond) == Incomplete
  {
    hide Frame, Payload, ParsePayload, Applied;
    assert Frame(c, m, policy) + [] == Frame(c, m, policy);
    FrameFields(c, m, policy, [], k);
    if k >= 4 {
      FrameIsNotHello(c, m, policy, [], k);
    }
  }

  // ----- A stream of frames -----

  /** A message and the bytes it travels in. */
  datatype Framed<B> = Framed(message: Message<B>, bytes: seq<Byte>)

  function Zeros(i: nat): Byte { 0 }

  /** The bytes are recognised as the message as soon as, and not before, all of them are there. */
  ghost predicate IsFrame<B>(c: Codec<B>, f: Framed<B>) {
    && f.bytes != []
    && (forall rest: seq<Byte> :: Parse(c, f.bytes + rest, Zeros) == Got(f.message, |f.bytes|))
    && (forall k :: 0 <= k < |f.bytes| ==> Parse(c, f.bytes[..k], Zeros) == Incomplete)
  }

  /** Printed messages are such frames. */
  lemma PrintedIsFrame<B(!new)>(c: Codec<B>, m: Message<B>, policy: Policy)
    requires Lawful(c) && Sendable(c, m)
    ensures Printable(c, m, policy) && IsFrame(c, Framed(m, Frame(c, m, policy)))
  {
    LawfulPrintable(c, m, policy);
    forall rest: seq<Byte>
      ensures Parse(c, Frame(c, m, policy) + rest, Zeros) == Got(m, |Frame(c, m, policy)|)
    {
      FrameRoundTrip(c, m, policy, rest, Zeros);
    }
    forall k | 0 <= k < |Frame(c, m, policy)|
      ensures Parse(c, Frame(c, m, policy)[..k], Zeros) == Incomplete
    {
      FramePrefix(c, m, policy, k, Zeros);
    }
  }

  ghost predicate AllFrames<B>(c: Codec<B>, fs: seq<Framed<B>>) {
    forall i :: 0 <= i < |fs| ==> IsFrame(c, fs[i])
  }

  lemma AllFramesTail<B>(c: Codec<B>, fs: seq<Framed<B>>)
    requires AllFrames(c, fs) && fs != []
    ensures IsFrame(c, fs[0]) && AllFrames(c, fs[1..])
  {
    hide IsFrame;
  }

  function Stream<B>(fs: seq<Framed<B>>): seq<Byte> {
    if fs == [] then [] else fs[0].bytes + Stream(fs[1..])
  }

  function Messages<B>(fs: seq<Framed<B>>): (r: seq<Message<B>>)
    ensures |r| == |fs|
  {
    if fs == [] then [] else [fs[0].message] + Messages(fs[1..])
  }

  /** What the read loop leaves behind: the messages handled, the bytes kept, whether it stopped at a
      Close, and whether parsing failed. */
  datatype Outcome<B> = Outcome(messages: seq<Message<B>>, rest: seq<Byte>, closed: bool, failed: bool)

  /** The outcome when `ms` had been handled before. */
  function Prepend<B>(ms: seq<Message<B>>, o: Outcome<B>): Outcome<B> {
    o.(messages := ms + o.messages)
  }

  lemma PrependTwice<B>(m: Message<B>, ms: seq<Message<B>>, o: Outcome<B>)
    ensures Prepend([m] + ms, o) == Prepend([m], Prepend(ms, o))
    ensures Prepend([], o) == o
  {
    assert [m] + ms + o.messages == [m] + (ms + o.messages);
    assert [] + o.messages == o.messages;
  }

  /** The loop of on_read over a buffer. */
  function ReadLoop<B>(c: Codec<B>, buff: seq<Byte>): (r: Outcome<B>)
    decreases |buff|
  {
    if buff == [] then Outcome([], [], false, false)
    else
      match Parse(c, buff, Zeros)
      case Incomplete => Outcome([], buff, false, false)
      case Got(m, n) =>
        if m.kind == Close then Outcome([m], buff[n..], true, false)
        else Prepend([m], ReadLoop(c, buff[n..]))
      case _ => Outcome([], buff, false, true)
  }

  /** The outcome that the first `n` bytes of a stream must have: the messages of the complete frames
      up to the first Close, and the bytes behind them. */
  function Expected<B>(fs: seq<Framed<B>>, n: nat): Outcome<B>
    requires n <= |Stream(fs)|
    decreases |fs|
  {
    if fs == [] || n < |fs[0].bytes| then Outcome([], Stream(fs)[..n], false, false)
    else if fs[0].message.kind == Close then
      Outcome([fs[0].message], Stream(fs[1..])[..n - |fs[0].bytes|], true, false)
    else Prepend([fs[0].message], Expected(fs[1..], n - |fs[0].bytes|))
  }

  /** The first round of the loop on a buffer that starts with a strict prefix of a frame, or with a
      whole frame. */
  lemma ReadLoopFirst<B>(c: Codec<B>, f: Framed<B>, k: nat, rest: seq<Byte>)
    requires IsFrame(c, f) && k < |f.bytes|
    ensures ReadLoop(c, f.bytes[..k]) == Outcome([], f.bytes[..k], false, false)
    ensures f.message.kind == Close ==> ReadLoop(c, f.bytes + rest) == Outcome([f.message], rest, true, false)
    ensures f.message.kind != Close ==>
      ReadLoop(c, f.bytes + rest) == Prepend([f.message], ReadLoop(c, rest))
  {
    hide Parse;
    assert (f.bytes + rest)[|f.bytes|..] == rest;
  }

  /** Slices of a concatenation. */
  lemma Slices<T>(a: seq<T>, b: seq<T>, n: nat, n': nat)
    requires n <= n' <= |a + b|
    ensures n <= |a| ==> (a + b)[..n] == a[..n]
    ensures n >= |a| ==> (a + b)[..n] == a + b[..n - |a|]
    ensures n >= |a| ==> (a + b)[n..n'] == b[n - |a|..n' - |a|]
  {
  }

  lemma StreamCons<B>(fs: seq<Framed<B>>)
    requires fs != []
    ensures Stream(fs) == fs[0].bytes + Stream(fs[1..])
  {
  }

  /** Expected, one frame at a time. */
  lemma ExpectedCons<B>(fs: seq<Framed<B>>, n: nat)
    requires fs != [] && n <= |Stream(fs)|
    ensures |Stream(fs)| == |fs[0].bytes| + |Stream(fs[1..])|
    ensures n < |fs[0].bytes| ==> Expected(fs, n) == Outcome([], Stream(fs)[..n], false, false)
    ensures var k := |fs[0].bytes|;
      && (n >= k && fs[0].message.kind == Close ==>
            Expected(fs, n) == Outcome([fs[0].message], Stream(fs[1..])[..n - k], true, false))
      && (n >= k && fs[0].message.kind != Close ==>
            Expected(fs, n) == Prepend([fs[0].message], Expected(fs[1..], n - k)))
  {
  }

  /** One pass over the first `n` bytes of a stream handles exactly the complete frames. */
  lemma {:induction false} ReadLoopOnPrefix<B>(c: Codec<B>, fs: seq<Framed<B>>, n: nat)
    requires AllFrames(c, fs) && n <= |Stream(fs)|
    ensures ReadLoop(c, Stream(fs)[..n]) == Expected(fs, n)
    decreases |fs|
  {
    if fs != [] {
      hide *;
      var f, tail := fs[0], Stream(fs[1..]);
      AllFramesTail(c, fs);
      StreamCons(fs);
      ExpectedCons(fs, n);
      ReadLoopNonEmpty(c, f);
      Slices(f.bytes, tail, n, n);
      if n < |f.bytes| {
        ReadLoopFirst(c, f, n, []);
      } else {
        ReadLoopFirst(c, f, 0, tail[..n - |f.bytes|]);
        if f.message.kind != Close {
          ReadLoopOnPrefix(c, fs[1..], n - |f.bytes|);
        }
      }
    }
  }

  lemma ReadLoopNonEmpty<B>(c: Codec<B>, f: Framed<B>)
    requires IsFrame(c, f)
    ensures |f.bytes| > 0
  {
  }

  /** More bytes after an unclosed prefix: the loop restarted on the kept bytes and the new ones goes
      on as if it had never stopped. */
  lemma {:induction false} ExpectedContinues<B>(c: Codec<B>, fs: seq<Framed<B>>, n: nat, n': nat)
    requires AllFrames(c, fs) && n <= n' <= |Stream(fs)|
    requires !Expected(fs, n).closed
    ensures var e := Expected(fs, n); Prepend(e.messages, ReadLoop(c, e.rest + Stream(fs)[n..n'])) == Expected(fs, n')
    decreases |fs|
  {
    hide *;
    if fs == [] || n < |fs[0].bytes| {
      ExpectedRestarts(c, fs, n, n');
    } else {
      var k := |fs[0].bytes|;
      AllFramesTail(c, fs);
      ExpectedCons(fs, n);
      PrependFields([fs[0].message], Expected(fs[1..], n - k));
      ExpectedContinues(c, fs[1..], n - k, n' - k);
      ExpectedResumes(c, fs, n, n', Stream(fs)[n..n']);
    }
  }

  /** The case in which the first frame is complete. */
  lemma ExpectedResumes<B>(c: Codec<B>, fs: seq<Framed<B>>, n: nat, n': nat, more: seq<Byte>)
    requires fs != [] && fs[0].message.kind != Close
    requires |fs[0].bytes| <= n <= n' <= |Stream(fs)| && more == Stream(fs)[n..n']
    requires n' - |fs[0].bytes| <= |Stream(fs[1..])|
    requires var k := |fs[0].bytes|; var e := Expected(fs[1..], n - k);
      Prepend(e.messages, ReadLoop(c, e.rest + Stream(fs[1..])[n - k..n' - k])) == Expected(fs[1..], n' - k)
    ensures var e := Expected(fs, n); Prepend(e.messages, ReadLoop(c, e.rest + more)) == Expected(fs, n')
  {
    hide *;
    var m, k, e := fs[0].message, |fs[0].bytes|, Expected(fs[1..], n - |fs[0].bytes|);
    ExpectedCons(fs, n);
    ExpectedCons(fs, n');
    StreamCons(fs);
    Slices(fs[0].bytes, Stream(fs[1..]), n, n');
    PrependFields([m], e);
    PrependTwice(m, e.messages, ReadLoop(c, e.rest + more));
  }

  lemma PrependFields<B>(ms: seq<Message<B>>, o: Outcome<B>)
    ensures Prepend(ms, o) == Outcome(ms + o.messages, o.rest, o.closed, o.failed)
  {
  }

  /** The case in which nothing is complete yet. */
  lemma ExpectedRestarts<B>(c: Codec<B>, fs: seq<Framed<B>>, n: nat, n': nat)
    requires AllFrames(c, fs) && n <= n' <= |Stream(fs)| && (fs == [] || n < |fs[0].bytes|)
    ensures var e := Expected(fs, n); Prepend(e.messages, ReadLoop(c, e.rest + Stream(fs)[n..n'])) == Expected(fs, n')
  {
    hide IsFrame, ReadLoop, Parse, Stream;
    var e, s := Expected(fs, n), Stream(fs);
    assert e == Outcome([], s[..n], false, false);
    assert s[..n] + s[n..n'] == s[..n'];
    ReadLoopOnPrefix(c, fs, n');
    hide Expected;
    PrependFields([], ReadLoop(c, s[..n']));
    assert [] + ReadLoop(c, s[..n']).messages == ReadLoop(c, s[..n']).messages;
  }

  // ----- Any number of reads -----

  /** on_read applied to a sequence of chunks; after a Close or a failure nothing more is read. */
  function Feed<B>(c: Codec<B>, chunks: seq<seq<Byte>>): Outcome<B> {
    if chunks == [] then Outcome([], [], false, false)
    else
      var before := Feed(c, chunks[..|chunks| - 1]);
      if before.closed || before.failed then before
      else
        Prepend(before.messages, ReadLoop(c, before.rest + chunks[|chunks| - 1]))
  }

  function Join(chunks: seq<seq<Byte>>): seq<Byte> {
    if chunks == [] then [] else Join(chunks[..|chunks| - 1]) + chunks[|chunks| - 1]
  }

  /** However a stream is cut into chunks, the messages handled are the same: those of the complete
      frames up to the first Close, once each and in order; and unless a Close was met the bytes kept
      are exactly the bytes received that belong to no complete frame. */
  lemma {:induction false} AnySplit<B>(c: Codec<B>, fs: seq<Framed<B>>, chunks: seq<seq<Byte>>)
    requires AllFrames(c, fs) && Join(chunks) <= Stream(fs)
    ensures var r := Feed(c, chunks); var e := Expected(fs, |Join(chunks)|);
      && !r.failed && r.closed == e.closed && r.messages == e.messages
      && (!r.closed ==> r.rest == e.rest)
    decreases |chunks|
  {
    if chunks == [] {
      ExpectedNothing(c, fs);
    } else {
      hide ReadLoop, Expected, AllFrames;
      var init, last := chunks[..|chunks| - 1], chunks[|chunks| - 1];
      AnySplit(c, fs, init);
      var n, n' := |Join(init)|, |Join(chunks)|;
      assert Stream(fs)[..n'] == Join(chunks);
      assert last == Stream(fs)[n..n'];
      if Expected(fs, n).closed {
        ExpectedClosed(fs, n, n');
      } else {
        ExpectedContinues(c, fs, n, n');
        ExpectedNeverFails(fs, n');
      }
    }
  }

  lemma ExpectedNothing<B>(c: Codec<B>, fs: seq<Framed<B>>)
    requires AllFrames(c, fs)
    ensures Expected(fs, 0) == Outcome([], [], false, false)
  {
    if fs != [] {
      assert IsFrame(c, fs[0]);
    }
  }

  lemma {:induction false} ExpectedClosed<B>(fs: seq<Framed<B>>, n: nat, n': nat)
    requires n <= n' <= |Stream(fs)|
    requires Expected(fs, n).closed
    ensures Expected(fs, n').closed && Expected(fs, n').messages == Expected(fs, n).messages
    decreases |fs|
  {
    if fs[0].message.kind != Close {
      ExpectedClosed(fs[1..], n - |fs[0].bytes|, n' - |fs[0].bytes|);
    }
  }

  lemma {:induction false} ExpectedNeverFails<B>(fs: seq<Framed<B>>, n: nat)
    requires n <= |Stream(fs)|
    ensures !Expected(fs, n).failed
    decreases |fs|
  {
    if !(fs == [] || n < |fs[0].bytes|) && fs[0].message.kind != Close {
      ExpectedNeverFails(fs[1..], n - |fs[0].bytes|);
    }
  }

  ghost predicate HasClose<B>(fs: seq<Framed<B>>) {
    exists i :: 0 <= i < |fs| && fs[i].message.kind == Close
  }

  lemma HasCloseTail<B>(fs: seq<Framed<B>>)
    requires fs != [] && fs[0].message.kind != Close
    ensures HasClose(fs) <==> HasClose(fs[1..])
  {
    if HasClose(fs[1..]) {
      var i :| 0 <= i < |fs[1..]| && fs[1..][i].message.kind == Close;
      assert fs[i + 1].message.kind == Close;
    }
    if HasClose(fs) {
      var i :| 0 <= i < |fs| && fs[i].message.kind == Close;
      assert fs[1..][i - 1].message.kind == Close;
    }
  }

  /** Once the whole stream has arrived, all messages up to and including the first Close have been
      handled, and without a Close nothing is kept. */
  lemma {:induction false} ExpectedWhole<B>(fs: seq<Framed<B>>)
    ensures var e := Expected(fs, |Stream(fs)|);
      && e.closed == HasClose(fs)
      && e.messages <= Messages(fs)
      && (!e.closed ==> e.messages == Messages(fs) && e.rest == [])
      && (e.closed ==> e.messages != [] && e.messages[|e.messages| - 1].kind == Close)
      && forall i :: 0 <= i < |e.messages| - 1 ==> e.messages[i].kind != Close
    decreases |fs|
  {
    if fs != [] {
      if fs[0].message.kind != Close {
        ExpectedWhole(fs[1..]);
        HasCloseTail(fs);
      } else {
        assert HasClose(fs);
      }
    }
  }

  /** The kept bytes of an unclosed prefix are shorter than the longest frame, so a buffer that holds
      every frame never fills up. */
  lemma {:induction false} ExpectedFits<B>(fs: seq<Framed<B>>, n: nat, capacity: nat)
    requires n <= |Stream(fs)| && 0 < capacity
    requires forall i :: 0 <= i < |fs| ==> |fs[i].bytes| <= capacity
    requires !Expected(fs, n).closed
    ensures |Expected(fs, n).rest| < capacity
    decreases |fs|
  {
    if !(fs == [] || n < |fs[0].bytes|) {
      ExpectedFits(fs[1..], n - |fs[0].bytes|, capacity);
    }
  }
}
