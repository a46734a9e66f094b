/**
  The two directions of a peer connection after the Hello exchange: reading frames into a fixed
  buffer and handing messages on, and queueing, merging and writing outgoing bytes.
 */
module Peers {
  import opened Bep
  import opened BepParser
  import opened Common
  import opened Outputs

  /** Messages that are passed on to the controller; the others are handled on the spot. */
  predicate Passed(kind: Kind) {
    kind != Ping && kind != Close && kind != DownloadProgress
  }

  function Forwarded<B>(ms: seq<Message<B>>): seq<Message<B>> {
    if ms == [] then []
    else Forwarded(ms[..|ms| - 1]) + if Passed(ms[|ms| - 1].kind) then [ms[|ms| - 1]] else []
  }

  lemma {:induction false} ForwardedConcat<B>(a: seq<Message<B>>, b: seq<Message<B>>)
    ensures Forwarded(a + b) == Forwarded(a) + Forwarded(b)
  {
    if b == [] {
      assert a + b == a;
    } else {
      var init := b[..|b| - 1];
      assert (a + b)[..|a + b| - 1] == a + init;
      ForwardedConcat(a, init);
    }
  }

  /** The controller gets every message but pings, closes and progress reports as often as it was sent. */
  lemma {:induction false} ForwardedTimes<B>(ms: seq<Message<B>>, m: Message<B>)
    ensures m.kind in {ClusterConfig, Index, IndexUpdate, Request, Response} ==> Times(Forwarded(ms), m) == Times(ms, m)
    ensures m.kind in {Ping, Close, DownloadProgress} ==> Times(Forwarded(ms), m) == 0
  {
    hide Forwarded, Times;
    if ms == [] {
      assert Forwarded(ms) == ms by { ForwardedNothing<B>(); }
      NoTimes(m);
    } else {
      var init, last := ms[..|ms| - 1], ms[|ms| - 1];
      ForwardedTimes(init, m);
      assert ms == init + [last];
      ForwardedConcat(init, [last]);
      ForwardedOne(last);
      TimesAppend(init, last, m);
      TimesAppend(Forwarded(init), last, m);
      assert Forwarded(init) + [] == Forwarded(init);
    }
  }

  lemma ForwardedOne<B>(m: Message<B>)
    ensures Forwarded([m]) == if m.kind in {Ping, Close, DownloadProgress} then [] else [m]
  {
    assert [m][..0] == [];
  }

  lemma NoTimes<T>(x: T)
    ensures Times([], x) == 0
  {
  }

  /** And in the order in which they were sent. */
  lemma {:induction false} ForwardedInOrder<B>(ms: seq<Message<B>>)
    ensures Subsequence(Forwarded(ms), ms)
  {
    hide Forwarded, FoundAt;
    if ms == [] {
      ForwardedNothing<B>();
      NothingFound<Message<B>>();
    } else {
      var init, last := ms[..|ms| - 1], ms[|ms| - 1];
      ForwardedInOrder(init);
      var at :| FoundAt(Forwarded(init), init, at);
      assert ms == init + [last];
      ForwardedConcat(init, [last]);
      ForwardedOne(last);
      FoundLater(Forwarded(init), init, at, last);
      assert Forwarded(init) + [] == Forwarded(init);
    }
  }

  lemma ForwardedExactly<B>(ms: seq<Message<B>>)
    ensures Subsequence(Forwarded(ms), ms)
    ensures forall m: Message<B> ::
      && (m.kind in {ClusterConfig, Index, IndexUpdate, Request, Response} ==> Times(Forwarded(ms), m) == Times(ms, m))
      && (m.kind in {Ping, Close, DownloadProgress} ==> Times(Forwarded(ms), m) == 0)
  {
    hide Times, Forwarded;
    ForwardedInOrder(ms);
    forall m: Message<B>
      ensures m.kind in {ClusterConfig, Index, IndexUpdate, Request, Response} ==>
        Times(Forwarded(ms), m) == Times(ms, m)
      ensures m.kind in {Ping, Close, DownloadProgress} ==> Times(Forwarded(ms), m) == 0
    {
      ForwardedTimes(ms, m);
    }
  }

  lemma ForwardedStep<B>(queue: seq<Message<B>>, handled: seq<Message<B>>, m: Message<B>)
    ensures Forwarded(handled) + Forwarded([m]) == Forwarded(handled + [m])
    ensures queue + Forwarded(handled) + Forwarded([m]) == queue + Forwarded(handled + [m])
    ensures Forwarded([m]) == if m.kind in {Ping, Close, DownloadProgress} then [] else [m]
  {
    hide Forwarded;
    ForwardedOne(m);
    ForwardedConcat(handled, [m]);
    assert queue + Forwarded(handled) + Forwarded([m]) == queue + (Forwarded(handled) + Forwarded([m]));
  }

  /** One more message has been handled. */
  lemma ReadLoopStep<B>(c: Codec<B>, buff: seq<Byte>, ptr: nat, handled: seq<Message<B>>, m: Message<B>, n: nat)
    requires ptr < |buff| && Parse(c, buff[ptr..], Zeros) == Got(m, n)
    ensures 0 < n <= |buff| - ptr
    ensures Prepend(handled, ReadLoop(c, buff[ptr..]))
         == if m.kind == Close then Outcome(handled + [m], buff[ptr + n..], true, false)
            else Prepend(handled + [m], ReadLoop(c, buff[ptr + n..]))
  {
    assert buff[ptr..][n..] == buff[ptr + n..];
    if m.kind != Close {
      var r := ReadLoop(c, buff[ptr + n..]);
      assert handled + ([m] + r.messages) == (handled + [m]) + r.messages;
    }
  }

  lemma ReadLoopStart<B>(c: Codec<B>, buff: seq<Byte>, queue: seq<Message<B>>)
    ensures ReadLoop(c, buff) == Prepend([], ReadLoop(c, buff[0..]))
    ensures Forwarded<B>([]) == [] && queue + Forwarded([]) == queue
  {
    assert buff[0..] == buff;
  }

  lemma ReadLoopEnd<B>(c: Codec<B>, buff: seq<Byte>, handled: seq<Message<B>>)
    ensures Prepend(handled, ReadLoop(c, buff[|buff|..])) == Outcome(handled, buff[|buff|..], false, false)
  {
    assert buff[|buff|..] == [] && handled + [] == handled;
  }

  /** The loop ends without another message. */
  lemma ReadLoopStop<B>(c: Codec<B>, buff: seq<Byte>, ptr: nat, handled: seq<Message<B>>)
    requires ptr < |buff| && !Parse(c, buff[ptr..], Zeros).Got?
    ensures Prepend(handled, ReadLoop(c, buff[ptr..]))
         == Outcome(handled, buff[ptr..], false, !Parse(c, buff[ptr..], Zeros).Incomplete?)
  {
    assert handled + [] == handled;
  }

  /** What the parse loop has found so far: `handled`, and it goes on at `ptr` or is done. */
  ghost predicate Parsing<B>(c: Codec<B>, all: seq<Byte>, ptr: nat, handled: seq<Message<B>>, goOn: bool,
                             closed: bool) {
    && ptr <= |all|
    && if goOn then !closed && ReadLoop(c, all) == Prepend(handled, ReadLoop(c, all[ptr..]))
       else ReadLoop(c, all) == Outcome(handled, all[ptr..], closed, false)
  }

  lemma ParsingStarts<B>(c: Codec<B>, all: seq<Byte>, queue: seq<Message<B>>)
    ensures Parsing(c, all, 0, [], true, false)
    ensures Forwarded<B>([]) == [] && queue + Forwarded([]) == queue
  {
    hide ReadLoop, Prepend;
    ReadLoopStart(c, all, queue);
  }

  lemma ParsingGot<B>(c: Codec<B>, all: seq<Byte>, ptr: nat, handled: seq<Message<B>>, m: Message<B>, n: nat)
    requires Parsing(c, all, ptr, handled, true, false) && ptr < |all| && Parse(c, all[ptr..], Zeros) == Got(m, n)
    ensures 0 < n <= |all| - ptr
    ensures Parsing(c, all, ptr + n, handled + [m], m.kind != Close, m.kind == Close)
  {
    hide ReadLoop, Prepend, Parse;
    ReadLoopStep(c, all, ptr, handled, m, n);
  }

  lemma ParsingStops<B>(c: Codec<B>, all: seq<Byte>, ptr: nat, handled: seq<Message<B>>)
    requires Parsing(c, all, ptr, handled, true, false) && ptr < |all| && !Parse(c, all[ptr..], Zeros).Got?
    ensures Parse(c, all[ptr..], Zeros).Incomplete? ==> Parsing(c, all, ptr, handled, false, false)
    ensures !Parse(c, all[ptr..], Zeros).Incomplete? ==> ReadLoop(c, all) == Outcome(handled, all[ptr..], false, true)
  {
    hide ReadLoop, Prepend, Parse;
    ReadLoopStop(c, all, ptr, handled);
  }

  lemma ParsingEnds<B>(c: Codec<B>, all: seq<Byte>, ptr: nat, handled: seq<Message<B>>, goOn: bool, closed: bool)
    requires Parsing(c, all, ptr, handled, goOn, closed) && (goOn ==> ptr == |all|)
    ensures ReadLoop(c, all) == Outcome(handled, all[ptr..], closed, false)
  {
    hide ReadLoop, Prepend;
    if goOn {
      ReadLoopEnd(c, all, handled);
    }
  }

  lemma Regroups<T>(delivered: seq<T>, queue: seq<T>, passed: seq<T>)
    ensures delivered + (queue + passed) == delivered + queue + passed
    ensures queue == [] ==> delivered + passed + queue == delivered + queue + passed
  {
  }

  /** What the next bytes of a stream add to what has been read. */
  lemma ReadsOn<B>(c: Codec<B>, fs: seq<Framed<B>>, n: nat, n': nat)
    requires AllFrames(c, fs) && n <= n' <= |Stream(fs)| && !Expected(fs, n).closed
    ensures var e, e' := Expected(fs, n), Expected(fs, n'); var o := ReadLoop(c, e.rest + Stream(fs)[n..n']);
      && !o.failed && o.closed == e'.closed && o.rest == e'.rest
      && Forwarded(e'.messages) == Forwarded(e.messages) + Forwarded(o.messages)
  {
    hide AllFrames, ReadLoop, Expected, Forwarded, Stream, Prepend;
    ExpectedContinues(c, fs, n, n');
    ExpectedNeverFails(fs, n');
    var e := Expected(fs, n);
    var o := ReadLoop(c, e.rest + Stream(fs)[n..n']);
    PrependFields(e.messages, o);
    ForwardedConcat(e.messages, o.messages);
  }

  class Reader<B> {
    const codec: Codec<B>
    const rxBuff: array<Byte>
    var rxIdx: nat
    var receivedQueue: seq<Message<B>>
    var hasController: bool
    var delivered: seq<Message<B>>
    var reading: bool
    var closed: bool
    var failed: bool
    /** A last message is waiting to be written; nothing more is read then. */
    var finalizing: bool

    constructor (codec: Codec<B>, capacity: nat)
      requires 0 < capacity
      ensures this.codec == codec && rxBuff.Length == capacity && fresh(rxBuff)
      ensures rxIdx == 0 && receivedQueue == [] && delivered == [] && !hasController
      ensures reading && !closed && !failed && !finalizing
    {
      this.codec := codec;
      rxBuff := new Byte[capacity](_ => 0);
      rxIdx, receivedQueue, hasController, delivered := 0, [], false, [];
      reading, closed, failed, finalizing := true, false, false, false;
    }

    ghost predicate Valid()
      reads this
    {
      && rxIdx <= rxBuff.Length
      && (hasController ==> receivedQueue == [])
      && (reading ==> !closed && !failed && rxIdx < rxBuff.Length)
    }

    /** read_controlled: what is passed on goes to the batch, or waits until there is a controller. */
    method ReadControlled(m: Message<B>, batch: seq<Message<B>>) returns (batch': seq<Message<B>>, goOn: bool)
      modifies this`receivedQueue, this`closed
      ensures goOn == (m.kind != Close)
      ensures closed == (old(closed) || m.kind == Close)
      ensures m.kind in {Ping, Close, DownloadProgress} ==> batch' == batch && receivedQueue == old(receivedQueue)
      ensures m.kind !in {Ping, Close, DownloadProgress} && hasController ==>
        batch' == batch + [m] && receivedQueue == old(receivedQueue)
      ensures m.kind !in {Ping, Close, DownloadProgress} && !hasController ==>
        batch' == batch && receivedQueue == old(receivedQueue) + [m]
    {
      batch' := batch;
      if m.kind == Close {
        closed := true;
      } else if m.kind != Ping && m.kind != DownloadProgress {
        if hasController {
          batch' := batch + [m];
        } else {
          receivedQueue := receivedQueue + [m];
        }
      }
      goOn := m.kind != Close;
    }

    /** The parse loop of on_read. `past` stands for the memory behind the view. */
    method ParseReceived(past: nat -> Byte) returns (ptr: nat, batch: seq<Message<B>>, readNext: bool)
      requires rxIdx <= rxBuff.Length && !closed && !failed
      modifies this`receivedQueue, this`closed, this`failed
      ensures ptr <= rxIdx
      ensures var o := ReadLoop(codec, rxBuff[..rxIdx]); var passed := Forwarded(o.messages);
        && closed == o.closed && failed == o.failed
        && (!failed ==> rxBuff[ptr..rxIdx] == o.rest && readNext == !closed)
        && (hasController ==> receivedQueue == old(receivedQueue))
        && (!hasController ==> receivedQueue == old(receivedQueue) + passed)
        && (!failed ==> batch == if hasController then passed else [])
    {
      hide ReadLoop, Parse, Forwarded, Parsing;
      ghost var all := rxBuff[..rxIdx];
      ghost var handled: seq<Message<B>> := [];
      var tryParse := true;
      ptr, batch, readNext := 0, [], true;
      ParsingStarts(codec, all, receivedQueue);
      while tryParse && ptr < rxIdx
        invariant 0 <= ptr <= rxIdx == |all|
        invariant !failed && closed == !readNext && (!readNext ==> !tryParse)
        invariant batch == if hasController then Forwarded(handled) else []
        invariant receivedQueue == if hasController then old(receivedQueue) else old(receivedQueue) + Forwarded(handled)
        invariant Parsing(codec, all, ptr, handled, tryParse, closed)
        decreases tryParse, rxIdx - ptr
      {
        var view := rxBuff[ptr..rxIdx];
        assert view == all[ptr..];
        var result := Parse(codec, view, past);
        ParseIgnoresBeyond(codec, view, past, Zeros);
        match result
        case Got(m, n) =>
          ParsingGot(codec, all, ptr, handled, m, n);
          ForwardedStep(old(receivedQueue), handled, m);
          ptr := ptr + n;
          batch, tryParse := ReadControlled(m, batch);
          readNext := tryParse;
          handled := handled + [m];
        case Incomplete =>
          ParsingStops(codec, all, ptr, handled);
          tryParse := false;
        case _ =>
          ParsingStops(codec, all, ptr, handled);
          failed := true;
          return;
      }
      ParsingEnds(codec, all, ptr, handled, tryParse, closed);
      assert rxBuff[ptr..rxIdx] == all[ptr..];
    }

    /** on_read, after the transport has put `bytes` bytes behind the kept ones. */
    method OnRead(bytes: nat, past: nat -> Byte)
      requires Valid() && reading && rxIdx + bytes <= rxBuff.Length
      modifies this`rxIdx, this`receivedQueue, this`delivered, this`reading, this`closed, this`failed, rxBuff
      ensures Valid()
      ensures var o := ReadLoop(codec, old(rxBuff[..rxIdx + bytes])); var passed := Forwarded(o.messages);
        && closed == o.closed && failed == o.failed
        && (!failed ==> rxBuff[..rxIdx] == o.rest)
        && (!failed ==> reading == (!closed && !finalizing && rxIdx < rxBuff.Length))
        && (hasController ==> delivered == if failed then old(delivered) else old(delivered) + passed)
        && (!hasController ==> delivered == old(delivered) && receivedQueue == old(receivedQueue) + passed)
    {
      hide ReadLoop, Forwarded;
      reading := false;
      rxIdx := rxIdx + bytes;
      var ptr, batch, readNext := ParseReceived(past);
      if failed {
        return;
      }
      Compact(ptr);
      if readNext && !finalizing {
        reading := rxIdx < rxBuff.Length;
      }
      if batch != [] && hasController {
        delivered := delivered + batch;
      }
    }

    /** Moves the unparsed bytes to the front of the buffer. */
    method Compact(consumed: nat)
      requires consumed <= rxIdx <= rxBuff.Length
      modifies this`rxIdx, rxBuff
      ensures rxIdx == old(rxIdx) - consumed
      ensures rxBuff[..rxIdx] == old(rxBuff[consumed..rxIdx])
    {
      if consumed > 0 {
        ghost var before := rxBuff[..];
        rxIdx := rxIdx - consumed;
        for i := 0 to rxIdx
          modifies rxBuff
          invariant forall j :: 0 <= j < i ==> rxBuff[j] == before[consumed + j]
          invariant forall j :: i <= j < rxBuff.Length ==> rxBuff[j] == before[j]
        {
          rxBuff[i] := rxBuff[consumed + i];
        }
      }
    }

    method OnControllerUp()
      requires Valid()
      modifies this`hasController, this`receivedQueue, this`delivered
      ensures Valid() && hasController && receivedQueue == []
      ensures delivered == old(delivered) + old(receivedQueue)
    {
      hasController := true;
      if receivedQueue != [] {
        delivered := delivered + receivedQueue;
        receivedQueue := [];
      }
    }

    // ----- A well-formed stream -----

    /** The state after the first `n` bytes of the stream `fs`, however they arrived and whenever the
        controller came up, while no last message has been pushed. */
    ghost predicate HasRead(fs: seq<Framed<B>>, n: nat)
      reads this, rxBuff
    {
      && Valid() && n <= |Stream(fs)| && !failed && !finalizing
      && closed == Expected(fs, n).closed
      && reading == !closed
      && delivered + receivedQueue == Forwarded(Expected(fs, n).messages)
      && (!closed ==> rxBuff[..rxIdx] == Expected(fs, n).rest)
    }

    /** A new reader has read nothing. */
    lemma ReadNothing(fs: seq<Framed<B>>)
      requires AllFrames(codec, fs)
      requires rxIdx == 0 < rxBuff.Length && receivedQueue == [] && delivered == []
      requires reading && !closed && !failed && !finalizing
      ensures HasRead(fs, 0)
    {
      hide AllFrames, Expected;
      ExpectedNothing(codec, fs);
      ForwardedNothing<B>();
    }

    /** After a Close whatever else arrives changes nothing. */
    lemma ReadEnough(fs: seq<Framed<B>>, n: nat, n': nat)
      requires HasRead(fs, n) && !reading && n <= n' <= |Stream(fs)|
      ensures HasRead(fs, n')
    {
      hide Expected, Forwarded, Stream;
      ExpectedClosed(fs, n, n');
    }

    /** The transport puts bytes behind the kept ones. */
    method Deposit(chunk: seq<Byte>)
      requires rxIdx + |chunk| <= rxBuff.Length
      modifies rxBuff
      ensures rxBuff[..rxIdx + |chunk|] == old(rxBuff[..rxIdx]) + chunk
    {
      ghost var kept := rxBuff[..rxIdx];
      for i := 0 to |chunk|
        modifies rxBuff
        invariant rxBuff[..rxIdx + i] == kept + chunk[..i]
      {
        rxBuff[rxIdx + i] := chunk[i];
      }
      assert chunk[..|chunk|] == chunk;
    }

    /** The transport delivers the next chunk of the stream. */
    method Receive(chunk: seq<Byte>, past: nat -> Byte, ghost fs: seq<Framed<B>>, ghost n: nat)
      requires HasRead(fs, n) && reading
      requires AllFrames(codec, fs) && forall i :: 0 <= i < |fs| ==> |fs[i].bytes| <= rxBuff.Length
      requires rxIdx + |chunk| <= rxBuff.Length
      requires n + |chunk| <= |Stream(fs)| && chunk == Stream(fs)[n..n + |chunk|]
      modifies this, rxBuff
      ensures HasRead(fs, n + |chunk|) && hasController == old(hasController)
    {
      hide AllFrames, ReadLoop, Expected, Forwarded, Stream;
      ReadsOn(codec, fs, n, n + |chunk|);
      ghost var o := ReadLoop(codec, rxBuff[..rxIdx] + chunk);
      Regroups(delivered, receivedQueue, Forwarded(o.messages));
      Deposit(chunk);
      OnRead(|chunk|, past);
      if !closed {
        ExpectedFits(fs, n + |chunk|, rxBuff.Length);
      }
    }

    /** The controller comes up, at any moment. */
    method Attach(ghost fs: seq<Framed<B>>, ghost n: nat)
      requires HasRead(fs, n)
      modifies this`hasController, this`receivedQueue, this`delivered
      ensures HasRead(fs, n) && hasController && receivedQueue == []
      ensures delivered == Forwarded(Expected(fs, n).messages)
    {
      OnControllerUp();
    }
  }

  // ----- Any number of reads, and the controller at any moment -----

  lemma ForwardedNothing<B>()
    ensures Forwarded<B>([]) == []
  {
  }

  /** The chunks are the beginning of the stream, and the transport never reads more than there is room for. */
  ghost predicate Arriving<B>(fs: seq<Framed<B>>, chunks: seq<seq<Byte>>, capacity: nat) {
    && Join(chunks) <= Stream(fs)
    && forall j :: 0 <= j < |chunks| ==> FitsNext(fs, |Join(chunks[..j])|, chunks[j], capacity)
  }

  ghost predicate FitsNext<B>(fs: seq<Framed<B>>, n: nat, chunk: seq<Byte>, capacity: nat) {
    n <= |Stream(fs)| && (!Expected(fs, n).closed ==> |Expected(fs, n).rest| + |chunk| <= capacity)
  }

  lemma JoinStep(chunks: seq<seq<Byte>>, j: nat)
    requires j < |chunks|
    ensures Join(chunks[..j + 1]) == Join(chunks[..j]) + chunks[j]
  {
    assert chunks[..j + 1][..j] == chunks[..j];
  }

  lemma {:induction false} JoinPrefix(chunks: seq<seq<Byte>>, j: nat)
    requires j <= |chunks|
    ensures Join(chunks[..j]) <= Join(chunks)
    decreases |chunks| - j
  {
    if j == |chunks| {
      assert chunks[..j] == chunks;
    } else {
      JoinPrefix(chunks, j + 1);
      JoinStep(chunks, j);
    }
  }

  /** The place of a chunk in the stream. */
  lemma ChunkPlace<B>(fs: seq<Framed<B>>, chunks: seq<seq<Byte>>, j: nat)
    requires Join(chunks) <= Stream(fs) && j < |chunks|
    ensures var n := |Join(chunks[..j])|; var n' := |Join(chunks[..j + 1])|;
      n' == n + |chunks[j]| && n' <= |Stream(fs)| && chunks[j] == Stream(fs)[n..n']
  {
    hide Join, Stream;
    JoinStep(chunks, j);
    JoinPrefix(chunks, j + 1);
    var a, b := Join(chunks[..j]), chunks[j];
    assert Stream(fs)[..|a + b|] == a + b;
    assert (a + b)[|a|..] == b;
  }

  /** A stream arrives in any chunks and the controller comes up after any number of them: in the end it
      has received the messages of the complete frames up to the first Close, once each and in order,
      and unless there was a Close the bytes kept are those that belong to no complete frame. */
  method ReceiveAll<B>(codec: Codec<B>, capacity: nat, chunks: seq<seq<Byte>>, up: nat, past: nat -> Byte,
                       ghost fs: seq<Framed<B>>)
    returns (reader: Reader<B>)
    requires AllFrames(codec, fs) && 0 < capacity && up <= |chunks|
    requires forall i :: 0 <= i < |fs| ==> |fs[i].bytes| <= capacity
    requires Arriving(fs, chunks, capacity)
    ensures var n := |Join(chunks)|;
      && n <= |Stream(fs)| && reader.receivedQueue == [] && !reader.failed
      && reader.delivered == Forwarded(Expected(fs, n).messages)
      && reader.closed == Expected(fs, n).closed
      && reader.rxIdx <= reader.rxBuff.Length
      && (!reader.closed ==> reader.rxBuff[..reader.rxIdx] == Expected(fs, n).rest)
    ensures var sent := Expected(fs, |Join(chunks)|).messages;
      && Subsequence(reader.delivered, sent)
      && forall m: Message<B> ::
        && (m.kind in {ClusterConfig, Index, IndexUpdate, Request, Response} ==>
              Times(reader.delivered, m) == Times(sent, m))
        && (m.kind in {Ping, Close, DownloadProgress} ==> Times(reader.delivered, m) == 0)
  {
    hide AllFrames, Expected, Forwarded, Stream, Join, Subsequence, Times;
    reader := new Reader(codec, capacity);
    reader.ReadNothing(fs);
    JoinNothing(chunks);
    ghost var n := 0;
    for j := 0 to |chunks|
      invariant reader.codec == codec && reader.rxBuff.Length == capacity && fresh(reader) && fresh(reader.rxBuff)
      invariant n == |Join(chunks[..j])| && reader.HasRead(fs, n)
      invariant reader.hasController <==> up < j
    {
      if j == up {
        reader.Attach(fs, n);
      }
      ChunkPlace(fs, chunks, j);
      assert FitsNext(fs, n, chunks[j], capacity);
      if reader.reading {
        reader.Receive(chunks[j], past, fs, n);
      } else {
        reader.ReadEnough(fs, n, n + |chunks[j]|);
      }
      n := n + |chunks[j]|;
    }
    assert chunks[..|chunks|] == chunks;
    if up == |chunks| {
      reader.Attach(fs, n);
    }
    assert reader.delivered == reader.delivered + [] == Forwarded(Expected(fs, n).messages);
    ForwardedExactly(Expected(fs, n).messages);
  }

  lemma JoinNothing(chunks: seq<seq<Byte>>)
    ensures |Join(chunks[..0])| == 0
  {
  }

  // ----- Writing -----

  class Writer {
    var txQueue: seq<TxItem>
    var txItem: Option<TxItem>
    var finished: bool
    var ioError: bool
    var sending: bool
    /** All bytes accepted by push_write, and all bytes reported as written. */
    ghost var pushed: seq<Byte>
    ghost var sent: seq<Byte>

    constructor ()
      ensures Valid() && View() == NewOutput() && pushed == [] && sent == [] && !ioError
    {
      txQueue, txItem, finished, ioError, sending := [], None, false, false, false;
      pushed, sent := [], [];
    }

    ghost function View(): Output
      reads this
    {
      Output(txQueue, txItem, sending, finished)
    }

    /** No byte is lost, duplicated or reordered; an idle writer has nothing left to write; and short
        buffers have been merged. */
    ghost predicate Valid()
      reads this
    {
      Coherent(View()) && Coalesced(txQueue) && sent + Buffers(Items(View())) == pushed
    }

    /** An item without bytes ends the connection; the source asserts that it was pushed as the last one. */
    method ProcessTxQueue()
      requires txItem.None? && !sending && !finished
      modifies this`txQueue, this`txItem, this`finished, this`sending
      ensures View() == Begun(old(View()))
    {
      if txQueue != [] {
        txItem := Some(txQueue[0]);
        txQueue := txQueue[1..];
        if |txItem.value.buff| > 0 {
          sending := true;
        } else {
          finished := true;
        }
      }
    }

    method PushWrite(buff: seq<Byte>, final: bool)
      requires Valid()
      modifies this`txQueue, this`txItem, this`finished, this`sending, this`pushed
      ensures Valid()
      ensures View() == if ioError then old(View()) else Push(old(View()), buff, final)
      ensures pushed == if ioError then old(pushed) else old(pushed) + buff
    {
      hide Buffers, Items, Coherent, Coalesced;
      if ioError {
        return;
      }
      PushKeeps(View(), buff, final, sent);
      pushed := pushed + buff;
      var merged := false;
      if !final && txItem.Some? && txQueue != [] {
        var last := txQueue[|txQueue| - 1];
        if |last.buff| < MAX_TX_CHUNK {
          merged := true;
          txQueue := txQueue[|txQueue| - 1 := TxItem(last.buff + buff, last.final)];
        }
      }
      if !merged {
        txQueue := txQueue + [TxItem(buff, final)];
        if txItem.None? {
          assert !old(View()).sending && !old(View()).finished by { Idle(old(View())); }
          ProcessTxQueue();
        }
      }
    }

    /** The transport reports that the current item has been written. */
    method OnWrite()
      requires Valid() && sending
      modifies this`txQueue, this`txItem, this`finished, this`sending, this`sent
      ensures Valid() && old(txItem).Some? && View() == Written(old(View()))
      ensures sent == old(sent) + old(txItem).value.buff
    {
      hide Buffers, Items, Coalesced;
      WrittenKeeps(View(), sent);
      sent := sent + txItem.value.buff;
      sending := false;
      if !txItem.value.final {
        txItem := None;
        ProcessTxQueue();
      }
    }
  }

  lemma Idle(o: Output)
    requires Coherent(o) && o.item.None?
    ensures !o.sending && !o.finished
  {
  }
}
