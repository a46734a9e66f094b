/**
  The flow control of transfer controllers as a state machine. A handler of one controller is one
  step; the destructor of its stack context, which sends what has been collected, ends the step. All
  controllers of a cluster share one budget of block writes.
 */
module Transfers {
  import opened Common
  import opened RequestWindow

  /** A block write (append or clone), the read of a block for the peer, or any other command to the
      file system (finishing, copying or describing a file), which no budget applies to. */
  datatype Cmd = Write(id: int) | Read(id: int) | Other(id: int)

  /** `tx` is tx_blocks_requested. The last three fields are the history of the reads: in order of
      arrival, in order of being sent to the disk, and in order of completion. */
  datatype Reads = Reads(tx: int, queue: seq<int>, admitted: seq<int>, issued: seq<int>, completed: seq<int>)

  /** `fs` holds the batches that were sent to the file system and have not come back. */
  datatype Ctl = Ctl(window: Window, disk: Reads, writeQueue: seq<int>, fs: seq<seq<Cmd>>)

  /** A controller inside a handler, with the shared budget and the commands of the stack context. */
  datatype Handler = Handler(c: Ctl, budget: int, io: seq<Cmd>)

  const TX_BLOCKS_MAX_FACTOR: nat := 3

  function MaxReads(c: Ctl): nat {
    |c.window.slots| * TX_BLOCKS_MAX_FACTOR
  }

  function ReadsOf(cmds: seq<Cmd>): seq<int> {
    if cmds == [] then []
    else ReadsOf(cmds[..|cmds| - 1]) + if cmds[|cmds| - 1].Read? then [cmds[|cmds| - 1].id] else []
  }

  function Writes(cmds: seq<Cmd>): nat {
    if cmds == [] then 0
    else Writes(cmds[..|cmds| - 1]) + if cmds[|cmds| - 1].Write? then 1 else 0
  }

  /** Number of reads in flight, and how many of them are for `id`. */
  function FsReads(fs: seq<seq<Cmd>>): nat {
    if fs == [] then 0 else FsReads(fs[..|fs| - 1]) + |ReadsOf(fs[|fs| - 1])|
  }

  ghost function FsCount(fs: seq<seq<Cmd>>, id: int): nat {
    if fs == [] then 0 else FsCount(fs[..|fs| - 1], id) + Times(ReadsOf(fs[|fs| - 1]), id)
  }

  function FsWrites(fs: seq<seq<Cmd>>): nat {
    if fs == [] then 0 else FsWrites(fs[..|fs| - 1]) + Writes(fs[|fs| - 1])
  }

  // ----- What handlers are made of -----

  /** push_checked */
  function PushWrite(h: Handler, id: int): Handler {
    if h.budget != 0 then h.(io := h.io + [Write(id)], budget := h.budget - 1)
    else h.(c := h.c.(writeQueue := h.c.writeQueue + [id]))
  }

  /** The first loop of the destructor: queued writes go out while the budget lasts. */
  function DrainWrites(h: Handler): Handler
    decreases |h.c.writeQueue|
  {
    if h.budget > 0 && h.c.writeQueue != [] then
      DrainWrites(Handler(h.c.(writeQueue := h.c.writeQueue[1..]), h.budget - 1, h.io + [Write(h.c.writeQueue[0])]))
    else h
  }

  /** The second loop of the destructor: queued reads go out while there is room for them. */
  function DrainReads(h: Handler): Handler
    decreases |h.c.disk.queue|
  {
    if h.c.disk.queue != [] && h.c.disk.tx <= MaxReads(h.c) then DrainReads(SendRead(h)) else h
  }

  function SendRead(h: Handler): Handler
    requires h.c.disk.queue != []
  {
    var r := h.c.disk;
    h.(c := h.c.(disk := r.(tx := r.tx + 1, queue := r.queue[1..])), io := h.io + [Read(r.queue[0])])
  }

  /** The collected commands are sent as one batch. */
  function Route(h: Handler): Handler {
    if h.io == [] then h
    else
      var r := h.c.disk;
      h.(c := h.c.(fs := h.c.fs + [h.io], disk := r.(issued := r.issued + ReadsOf(h.io))), io := [])
  }

  /** The destructor of the stack context. */
  function Flush(h: Handler): Handler {
    Route(DrainReads(DrainWrites(h)))
  }

  /** on_message(Request): a request that can be served is sent to the disk, or waits. */
  function AdmitRead(h: Handler, id: int, served: bool): Handler {
    var r := h.c.disk;
    if !served then h
    else if r.tx > MaxReads(h.c) then
      h.(c := h.c.(disk := r.(queue := r.queue + [id], admitted := r.admitted + [id])))
    else
      h.(c := h.c.(disk := r.(tx := r.tx + 1, admitted := r.admitted + [id])), io := h.io + [Read(id)])
  }

  /** One thing that the file and block iterators may offer to pull_next. */
  datatype Pull = Clone(id: int) | Fetch(ctx: Context) | Plain(id: int) | Skip(advances: bool)

  predicate CanPull(h: Handler, advances: nat, limit: nat) {
    Open(h.c.window) && h.budget != 0 && advances <= limit
  }

  function PullOne(h: Handler, p: Pull): Handler
    requires h.c.window.next < |h.c.window.slots|
  {
    match p
    case Clone(id) => PushWrite(h, id)
    case Fetch(ctx) => h.(c := h.c.(window := RequestWindow.Fetch(h.c.window, ctx)))
    case Plain(id) => h.(io := h.io + [Other(id)])
    case Skip(_) => h
  }

  /** pull_next: the guard is looked at before each offer. */
  function PullNext(h: Handler, pulls: seq<Pull>, advances: nat, limit: nat): Handler
    decreases |pulls|
  {
    if pulls == [] || !CanPull(h, advances, limit) || h.c.window.next >= |h.c.window.slots| then h
    else
      PullNext(PullOne(h, pulls[0]), pulls[1..], if pulls[0] == Skip(true) then advances + 1 else advances, limit)
  }

  datatype Msg = RequestMsg(read: int, served: bool) | ResponseMsg(id: int, good: bool, pulls: seq<Pull>) | OtherMsg

  /** on_message(Response), for an id that is on the wire: it has a stack context of its own, whose
      destructor runs while the commands of the outer one are still waiting. */
  function OnResponse(h: Handler, id: nat, good: bool, pulls: seq<Pull>, limit: nat): Handler
    requires id < |h.c.window.slots| && h.c.window.slots[id].Some?
  {
    var answered := h.(c := h.c.(window := Respond(h.c.window, id, good)));
    var pulled := PullNext(answered, pulls, 0, limit);
    Flush(pulled.(io := [])).(io := pulled.io)
  }

  /** The response belongs to a request. */
  predicate Known(h: Handler, id: int) {
    0 <= id < |h.c.window.slots| && h.c.window.slots[id].Some?
  }

  /** A response without a request is counted, and the connection is to be closed. */
  function Refused(h: Handler): Handler {
    h.(c := h.c.(window := Counted(h.c.window)))
  }

  predicate Answerable(h: Handler, m: Msg) {
    m.ResponseMsg? ==> Known(h, m.id) && m.id in h.c.window.asked
  }

  function OnMessage(h: Handler, m: Msg, limit: nat): Handler {
    match m
    case RequestMsg(id, served) => AdmitRead(h, id, served)
    case ResponseMsg(id, good, pulls) =>
      if Known(h, id) then OnResponse(h, id, good, pulls, limit) else Refused(h)
    case OtherMsg => h
  }

  /** The commands of a batch that has come back. */
  function Completed(h: Handler, cmds: seq<Cmd>): Handler {
    if cmds == [] then h
    else
      var p := Completed(h, cmds[..|cmds| - 1]);
      var r := p.c.disk;
      match cmds[|cmds| - 1]
      case Write(_) => p.(budget := p.budget + 1)
      case Read(id) => p.(c := p.c.(disk := r.(tx := r.tx - 1, completed := r.completed + [id])))
      case Other(_) => p
  }

  // ----- What handlers keep -----

  lemma ReadsAppend(cmds: seq<Cmd>, cmd: Cmd)
    ensures ReadsOf(cmds + [cmd]) == ReadsOf(cmds) + if cmd.Read? then [cmd.id] else []
    ensures Writes(cmds + [cmd]) == Writes(cmds) + if cmd.Write? then 1 else 0
  {
    assert (cmds + [cmd])[..|cmds|] == cmds;
  }

  lemma SendsOne(issued: seq<int>, io: seq<int>, id: int, queue: seq<int>)
    ensures issued + io + ([id] + queue) == issued + (io + [id]) + queue
  {
  }

  /** Reads are issued in order of arrival; those in flight are counted by `tx`. */
  ghost predicate ReadsInv(h: Handler) {
    var r := h.c.disk;
    && r.admitted == r.issued + ReadsOf(h.io) + r.queue
    && (forall id :: Times(r.issued, id) == Times(r.completed, id) + FsCount(h.c.fs, id))
    && r.tx == FsReads(h.c.fs) + |ReadsOf(h.io)|
    && r.tx <= MaxReads(h.c) + 1
  }

  /** Nothing waits while there is room. */
  ghost predicate NoRoom(c: Ctl) {
    c.disk.queue != [] ==> c.disk.tx > MaxReads(c)
  }

  /** What holds of the window depends on the peer: it must answer only what it was asked. */
  ghost predicate WindowOk(w: Window, max: nat, initial: int, largest: nat, honest: bool) {
    |w.slots| == max && w.next < max && (honest ==> WindowInv(w, max, initial, largest))
  }

  ghost predicate HandlerInv(h: Handler, max: nat, initial: int, largest: nat, honest: bool) {
    WindowOk(h.c.window, max, initial, largest, honest) && h.budget >= 0 && ReadsInv(h)
  }

  /** Budget, block writes in flight and block writes about to be sent. */
  function WriteTotal(h: Handler): int {
    h.budget + FsWrites(h.c.fs) + Writes(h.io)
  }

  lemma PushWriteKeeps(h: Handler, id: int, max: nat, initial: int, largest: nat, honest: bool)
    requires HandlerInv(h, max, initial, largest, honest)
    ensures HandlerInv(PushWrite(h, id), max, initial, largest, honest)
    ensures WriteTotal(PushWrite(h, id)) == WriteTotal(h) && PushWrite(h, id).c.disk == h.c.disk
  {
    hide WindowOk, FsReads, FsCount, FsWrites, Times, ReadsOf, Writes;
    ReadsAppend(h.io, Write(id));
    assert ReadsOf(h.io) + [] == ReadsOf(h.io);
  }

  lemma {:induction false} DrainWritesKeeps(h: Handler, max: nat, initial: int, largest: nat, honest: bool)
    requires HandlerInv(h, max, initial, largest, honest)
    ensures HandlerInv(DrainWrites(h), max, initial, largest, honest)
    ensures WriteTotal(DrainWrites(h)) == WriteTotal(h) && DrainWrites(h).c.disk == h.c.disk
    ensures DrainWrites(h).c.writeQueue == [] || DrainWrites(h).budget == 0
    decreases |h.c.writeQueue|
  {
    if h.budget > 0 && h.c.writeQueue != [] {
      ReadsAppend(h.io, Write(h.c.writeQueue[0]));
      var c := h.c.(writeQueue := h.c.writeQueue[1..]);
      DrainWritesKeeps(Handler(c, h.budget - 1, h.io + [Write(h.c.writeQueue[0])]),
                       max, initial, largest, honest);
    }
  }

  lemma {:induction false} DrainReadsKeeps(h: Handler, max: nat, initial: int, largest: nat, honest: bool)
    requires HandlerInv(h, max, initial, largest, honest)
    ensures HandlerInv(DrainReads(h), max, initial, largest, honest)
    ensures WriteTotal(DrainReads(h)) == WriteTotal(h) && NoRoom(DrainReads(h).c)
    ensures DrainReads(h).c.writeQueue == h.c.writeQueue && DrainReads(h).budget == h.budget
    ensures NoRoom(h.c) ==> DrainReads(h) == h
    decreases |h.c.disk.queue|
  {
    if h.c.disk.queue != [] && h.c.disk.tx <= MaxReads(h.c) {
      SendReadKeeps(h, max, initial, largest, honest);
      hide HandlerInv, SendRead, WriteTotal;
      DrainReadsKeeps(SendRead(h), max, initial, largest, honest);
    }
  }

  lemma SendReadKeeps(h: Handler, max: nat, initial: int, largest: nat, honest: bool)
    requires HandlerInv(h, max, initial, largest, honest) && h.c.disk.queue != [] && h.c.disk.tx <= MaxReads(h.c)
    ensures var s := SendRead(h);
      && HandlerInv(s, max, initial, largest, honest) && WriteTotal(s) == WriteTotal(h)
      && s.c.writeQueue == h.c.writeQueue && s.budget == h.budget
  {
    hide WindowOk, FsReads, FsWrites, ReadsOf, Writes;
    var r := h.c.disk;
    ReadsAppend(h.io, Read(r.queue[0]));
    assert r.queue == [r.queue[0]] + r.queue[1..];
    SendsOne(r.issued, ReadsOf(h.io), r.queue[0], r.queue[1..]);
  }

  lemma RouteKeeps(h: Handler, max: nat, initial: int, largest: nat, honest: bool)
    requires HandlerInv(h, max, initial, largest, honest)
    ensures HandlerInv(Route(h), max, initial, largest, honest) && Route(h).io == []
    ensures WriteTotal(Route(h)) == WriteTotal(h) && Route(h).budget == h.budget
    ensures Route(h).c.writeQueue == h.c.writeQueue && (NoRoom(h.c) ==> NoRoom(Route(h).c))
  {
    if h.io != [] {
      hide WindowOk, Times, ReadsOf, Writes;
      BatchJoins(h.c.fs, h.io);
      forall id
        ensures Times(h.c.disk.issued + ReadsOf(h.io), id) == Times(h.c.disk.issued, id) + Times(ReadsOf(h.io), id)
      {
        TimesConcat(h.c.disk.issued, ReadsOf(h.io), id);
      }
      NothingToSend(h.c.disk.issued + ReadsOf(h.io));
    }
  }

  lemma BatchJoins(fs: seq<seq<Cmd>>, io: seq<Cmd>)
    ensures FsReads(fs + [io]) == FsReads(fs) + |ReadsOf(io)| && FsWrites(fs + [io]) == FsWrites(fs) + Writes(io)
    ensures forall id :: FsCount(fs + [io], id) == FsCount(fs, id) + Times(ReadsOf(io), id)
  {
    assert (fs + [io])[..|fs|] == fs;
  }

  lemma NothingToSend(issued: seq<int>)
    ensures ReadsOf([]) == [] && Writes([]) == 0 && issued + ReadsOf([]) == issued
  {
  }

  /** The end of a step: nothing is left in the stack context, the write queue is empty or the budget
      is used up, and no read waits while there is room. */
  lemma FlushKeeps(h: Handler, max: nat, initial: int, largest: nat, honest: bool)
    requires HandlerInv(h, max, initial, largest, honest)
    ensures HandlerInv(Flush(h), max, initial, largest, honest) && Flush(h).io == []
    ensures WriteTotal(Flush(h)) == WriteTotal(h) && NoRoom(Flush(h).c)
    ensures Flush(h).c.writeQueue == [] || Flush(h).budget == 0
  {
    DrainWritesKeeps(h, max, initial, largest, honest);
    DrainReadsKeeps(DrainWrites(h), max, initial, largest, honest);
    RouteKeeps(DrainReads(DrainWrites(h)), max, initial, largest, honest);
  }

  lemma AdmitReadKeeps(h: Handler, id: int, served: bool, max: nat, initial: int, largest: nat, honest: bool)
    requires HandlerInv(h, max, initial, largest, honest) && NoRoom(h.c)
    ensures HandlerInv(AdmitRead(h, id, served), max, initial, largest, honest) && NoRoom(AdmitRead(h, id, served).c)
    ensures WriteTotal(AdmitRead(h, id, served)) == WriteTotal(h)
  {
    hide WindowOk, FsReads, FsWrites, ReadsOf, Writes;
    var r, read := h.c.disk, ReadsOf(h.io);
    if served && r.tx <= MaxReads(h.c) {
      ReadsAppend(h.io, Read(id));
      SendsOne(r.issued, read, id, []);
      assert r.admitted == r.issued + read + [] && [id] + [] == [id];
    } else if served {
      assert r.issued + read + r.queue + [id] == r.issued + read + (r.queue + [id]);
    }
  }

  ghost predicate SmallPulls(pulls: seq<Pull>, largest: nat) {
    forall i :: 0 <= i < |pulls| && pulls[i].Fetch? ==> pulls[i].ctx.size <= largest
  }

  lemma SameReads(h: Handler, r: Handler)
    requires ReadsInv(h) && r == h.(c := h.c.(window := r.c.window)) && |r.c.window.slots| == |h.c.window.slots|
    ensures ReadsInv(r)
  {
  }

  lemma FetchOneKeeps(h: Handler, ctx: Context, max: nat, initial: int, largest: nat, honest: bool)
    requires HandlerInv(h, max, initial, largest, honest) && Open(h.c.window) && ctx.size <= largest
    ensures var w := RequestWindow.Fetch(h.c.window, ctx);
      |w.slots| == max && WindowOk(w, max, initial, largest, honest)
  {
    hide ReadsInv;
    if honest {
      FetchKeeps(h.c.window, ctx, max, initial, largest);
    }
  }

  lemma PullOneKeeps(h: Handler, p: Pull, max: nat, initial: int, largest: nat, honest: bool)
    requires HandlerInv(h, max, initial, largest, honest) && Open(h.c.window) && (p.Fetch? ==> p.ctx.size <= largest)
    ensures h.c.window.next < |h.c.window.slots|
    ensures var r := PullOne(h, p);
      HandlerInv(r, max, initial, largest, honest) && WriteTotal(r) == WriteTotal(h) && r.c.disk == h.c.disk
  {
    hide WindowInv, RequestWindow.Fetch, FsReads, FsCount, FsWrites, Times, ReadsOf, Writes;
    match p {
      case Clone(id) => PushWriteKeeps(h, id, max, initial, largest, honest);
      case Fetch(ctx) =>
        FetchOneKeeps(h, ctx, max, initial, largest, honest);
        SameReads(h, PullOne(h, p));
      case Plain(id) =>
        ReadsAppend(h.io, Other(id));
        assert ReadsOf(h.io) + [] == ReadsOf(h.io);
      case Skip(_) =>
    }
  }

  lemma {:induction false} PullNextKeeps(h: Handler, pulls: seq<Pull>, advances: nat, limit: nat, max: nat,
                                         initial: int, largest: nat, honest: bool)
    requires HandlerInv(h, max, initial, largest, honest) && SmallPulls(pulls, largest)
    ensures HandlerInv(PullNext(h, pulls, advances, limit), max, initial, largest, honest)
    ensures WriteTotal(PullNext(h, pulls, advances, limit)) == WriteTotal(h)
    ensures PullNext(h, pulls, advances, limit).c.disk == h.c.disk
    decreases |pulls|
  {
    if pulls != [] && CanPull(h, advances, limit) {
      PullOneKeeps(h, pulls[0], max, initial, largest, honest);
      hide HandlerInv, PullOne, WriteTotal;
      PullNextKeeps(PullOne(h, pulls[0]), pulls[1..], if pulls[0] == Skip(true) then advances + 1 else advances, limit,
                    max, initial, largest, honest);
    }
  }

  lemma {:induction false} DrainWritesShape(h: Handler)
    requires h.budget >= 0
    ensures var d := DrainWrites(h);
      && d.c == h.c.(writeQueue := d.c.writeQueue) && d.budget >= 0
      && d.budget + Writes(d.io) == h.budget + Writes(h.io) && ReadsOf(d.io) == ReadsOf(h.io)
    decreases |h.c.writeQueue|
  {
    if h.budget > 0 && h.c.writeQueue != [] {
      ReadsAppend(h.io, Write(h.c.writeQueue[0]));
      var c := h.c.(writeQueue := h.c.writeQueue[1..]);
      DrainWritesShape(Handler(c, h.budget - 1, h.io + [Write(h.c.writeQueue[0])]));
    }
  }

  lemma NoReads(s: seq<int>)
    requires s == []
    ensures forall id :: Times(s, id) == 0
  {
  }

  lemma InnerFlushKeeps(h: Handler, max: nat, initial: int, largest: nat, honest: bool)
    requires HandlerInv(h, max, initial, largest, honest) && NoRoom(h.c)
    ensures var r := Flush(h.(io := [])).(io := h.io);
      HandlerInv(r, max, initial, largest, honest) && NoRoom(r.c) && WriteTotal(r) == WriteTotal(h)
  {
    hide WindowOk, DrainWrites, Times, ReadsOf, Writes, FsReads, FsWrites, FsCount;
    var d := DrainWrites(h.(io := []));
    NothingToSend(h.c.disk.issued);
    DrainWritesShape(h.(io := []));
    assert DrainReads(d) == d;
    BatchJoins(d.c.fs, d.io);
    assert forall id :: Times(ReadsOf(d.io), id) == 0 by { NoReads(ReadsOf(d.io)); }
  }

  /** The inner destructor sends writes only: it cannot let a read overtake those of the outer one. */
  lemma OnResponseKeeps(h: Handler, id: nat, good: bool, pulls: seq<Pull>, limit: nat, max: nat, initial: int,
                        largest: nat, honest: bool)
    requires HandlerInv(h, max, initial, largest, honest) && NoRoom(h.c) && SmallPulls(pulls, largest)
    requires Known(h, id) && (honest ==> id in h.c.window.asked)
    ensures honest ==> h.c.window.slots[id] == Some(h.c.window.asked[id])
    ensures var r := OnResponse(h, id, good, pulls, limit);
      HandlerInv(r, max, initial, largest, honest) && NoRoom(r.c) && WriteTotal(r) == WriteTotal(h)
  {
    if honest {
      RespondKeeps(h.c.window, id, good, max, initial, largest);
    }
    var answered := h.(c := h.c.(window := Respond(h.c.window, id, good)));
    PullNextKeeps(answered, pulls, 0, limit, max, initial, largest, honest);
    InnerFlushKeeps(PullNext(answered, pulls, 0, limit), max, initial, largest, honest);
  }

  /** on_forward, without the final destructor. */
  function OnMessages(h: Handler, msgs: seq<Msg>, limit: nat): Handler
    decreases |msgs|
  {
    if msgs == [] then h else OnMessages(OnMessage(h, msgs[0], limit), msgs[1..], limit)
  }

  /** Some response of the batch has no request. */
  predicate SomeRefused(h: Handler, msgs: seq<Msg>, limit: nat)
    decreases |msgs|
  {
    msgs != [] &&
    ((msgs[0].ResponseMsg? && !Known(h, msgs[0].id)) || SomeRefused(OnMessage(h, msgs[0], limit), msgs[1..], limit))
  }

  /** The peer answers only ids that it was sent, each once. */
  predicate Honest(h: Handler, msgs: seq<Msg>, limit: nat)
    decreases |msgs|
  {
    msgs == [] || (Answerable(h, msgs[0]) && Honest(OnMessage(h, msgs[0], limit), msgs[1..], limit))
  }

  ghost predicate SmallMsgs(msgs: seq<Msg>, largest: nat) {
    forall i :: 0 <= i < |msgs| && msgs[i].ResponseMsg? ==> SmallPulls(msgs[i].pulls, largest)
  }

  lemma {:induction false} OnMessagesKeeps(h: Handler, msgs: seq<Msg>, limit: nat, max: nat, initial: int,
                                           largest: nat, honest: bool)
    requires HandlerInv(h, max, initial, largest, honest) && NoRoom(h.c) && SmallMsgs(msgs, largest)
    requires honest ==> Honest(h, msgs, limit)
    ensures var r := OnMessages(h, msgs, limit);
      HandlerInv(r, max, initial, largest, honest) && NoRoom(r.c) && WriteTotal(r) == WriteTotal(h)
    decreases |msgs|
  {
    if msgs != [] {
      match msgs[0] {
        case RequestMsg(id, served) => AdmitReadKeeps(h, id, served, max, initial, largest, honest);
        case ResponseMsg(id, good, pulls) =>
          if Known(h, id) {
            OnResponseKeeps(h, id, good, pulls, limit, max, initial, largest, honest);
          }
        case OtherMsg =>
      }
      OnMessagesKeeps(OnMessage(h, msgs[0], limit), msgs[1..], limit, max, initial, largest, honest);
    }
  }

  /** A response without a request changes nothing but the count of open requests, which wraps below zero. */
  lemma UnaskedCounts(h: Handler, id: int, good: bool, pulls: seq<Pull>, limit: nat)
    requires !(0 <= id < |h.c.window.slots| && h.c.window.slots[id].Some?)
    ensures var r := OnMessage(h, ResponseMsg(id, good, pulls), limit); var rx := h.c.window.rx;
      && r.c.window.rx == (if rx == 0 then 0xFFFF_FFFF_FFFF_FFFF else rx - 1)
      && r == h.(c := h.c.(window := h.c.window.(rx := r.c.window.rx)))
  {
  }

  // ----- A batch comes back -----

  function WithoutBatch(fs: seq<seq<Cmd>>, k: nat): seq<seq<Cmd>>
    requires k < |fs|
  {
    fs[..k] + fs[k + 1..]
  }

  lemma {:induction false} BatchLeaves(fs: seq<seq<Cmd>>, k: nat, id: int)
    requires k < |fs|
    ensures FsReads(fs) == FsReads(WithoutBatch(fs, k)) + |ReadsOf(fs[k])|
    ensures FsWrites(fs) == FsWrites(WithoutBatch(fs, k)) + Writes(fs[k])
    ensures FsCount(fs, id) == FsCount(WithoutBatch(fs, k), id) + Times(ReadsOf(fs[k]), id)
    decreases |fs|
  {
    hide ReadsOf, Writes, Times;
    var n := |fs| - 1;
    if k == n {
      assert WithoutBatch(fs, k) == fs[..n];
    } else {
      var rest := WithoutBatch(fs, k);
      BatchLeaves(fs[..n], k, id);
      assert rest[..|rest| - 1] == WithoutBatch(fs[..n], k) && rest[|rest| - 1] == fs[n];
    }
  }

  lemma {:induction false} CompletedShape(h: Handler, cmds: seq<Cmd>)
    ensures var p := Completed(h, cmds); var r := h.c.disk;
      && p.budget == h.budget + Writes(cmds) && p.io == h.io
      && p.c == h.c.(disk := r.(tx := r.tx - |ReadsOf(cmds)|, completed := r.completed + ReadsOf(cmds)))
  {
    if cmds != [] {
      CompletedShape(h, cmds[..|cmds| - 1]);
    }
  }

  /** on_postprocess_io up to pull_next: the batch leaves the file system. */
  function Return(h: Handler, k: nat): Handler
    requires k < |h.c.fs|
  {
    Completed(h.(c := h.c.(fs := WithoutBatch(h.c.fs, k))), h.c.fs[k])
  }

  lemma ReturnKeeps(h: Handler, k: nat, max: nat, initial: int, largest: nat, honest: bool)
    requires HandlerInv(h, max, initial, largest, honest) && k < |h.c.fs|
    ensures HandlerInv(Return(h, k), max, initial, largest, honest) && WriteTotal(Return(h, k)) == WriteTotal(h)
  {
    hide WindowOk, Times, ReadsOf, Writes, Completed;
    var batch, r, fs := h.c.fs[k], h.c.disk, WithoutBatch(h.c.fs, k);
    BatchLeaves(h.c.fs, k, 0);
    CompletedShape(h.(c := h.c.(fs := fs)), batch);
    forall id ensures Times(r.issued, id) == Times(r.completed + ReadsOf(batch), id) + FsCount(fs, id) {
      BatchLeaves(h.c.fs, k, id);
      TimesConcat(r.completed, ReadsOf(batch), id);
    }
  }

  // ----- Steps of one controller -----

  datatype Event =
    | Forward(msgs: seq<Msg>)
    | IoDone(batch: nat, pulls: seq<Pull>)
    | Digest(block: Option<int>, pulls: seq<Pull>)
    | Wake(pulls: seq<Pull>)

  /** A response must not name the place right behind the ring, which the program would read. */
  ghost predicate InRing(c: Ctl, msgs: seq<Msg>) {
    forall i :: 0 <= i < |msgs| && msgs[i].ResponseMsg? ==> msgs[i].id != |c.window.slots|
  }

  ghost predicate Allowed(c: Ctl, budget: int, e: Event, limit: nat, largest: nat, honest: bool) {
    match e
    case Forward(msgs) =>
      SmallMsgs(msgs, largest) && InRing(c, msgs) && (honest ==> Honest(Handler(c, budget, []), msgs, limit))
    case IoDone(k, pulls) => k < |c.fs| && SmallPulls(pulls, largest)
    case Digest(_, pulls) => SmallPulls(pulls, largest)
    case Wake(pulls) => SmallPulls(pulls, largest)
  }

  function Collect(c: Ctl, budget: int, e: Event, limit: nat): Handler
    requires e.IoDone? ==> e.batch < |c.fs|
  {
    var h := Handler(c, budget, []);
    match e
    case Forward(msgs) => OnMessages(h, msgs, limit)
    case IoDone(k, pulls) => PullNext(Return(h, k), pulls, 0, limit)
    case Digest(block, pulls) => if block.Some? then PushWrite(h, block.value) else PullNext(h, pulls, 0, limit)
    case Wake(pulls) => PullNext(h, pulls, 0, limit)
  }

  /** A whole handler. */
  function Handle(c: Ctl, budget: int, e: Event, limit: nat): Handler
    requires e.IoDone? ==> e.batch < |c.fs|
  {
    Flush(Collect(c, budget, e, limit))
  }

  /** A controller between handlers. */
  ghost predicate CtlInv(c: Ctl, max: nat, initial: int, largest: nat, honest: bool) {
    HandlerInv(Handler(c, 0, []), max, initial, largest, honest) && NoRoom(c)
  }

  lemma HandleKeeps(c: Ctl, budget: int, e: Event, limit: nat, max: nat, initial: int, largest: nat, honest: bool)
    requires CtlInv(c, max, initial, largest, honest) && budget >= 0 && Allowed(c, budget, e, limit, largest, honest)
    ensures var h := Handle(c, budget, e, limit);
      && CtlInv(h.c, max, initial, largest, honest) && h.budget >= 0 && h.io == []
      && h.budget + FsWrites(h.c.fs) == budget + FsWrites(c.fs)
      && (h.c.writeQueue == [] || h.budget == 0)
  {
    var h := Handler(c, budget, []);
    match e {
      case Forward(msgs) => OnMessagesKeeps(h, msgs, limit, max, initial, largest, honest);
      case IoDone(k, pulls) =>
        ReturnKeeps(h, k, max, initial, largest, honest);
        PullNextKeeps(Return(h, k), pulls, 0, limit, max, initial, largest, honest);
      case Digest(block, pulls) =>
        if block.Some? {
          PushWriteKeeps(h, block.value, max, initial, largest, honest);
        } else {
          PullNextKeeps(h, pulls, 0, limit, max, initial, largest, honest);
        }
      case Wake(pulls) => PullNextKeeps(h, pulls, 0, limit, max, initial, largest, honest);
    }
    FlushKeeps(Collect(c, budget, e, limit), max, initial, largest, honest);
  }

  /** What a controller between handlers guarantees about reads, whatever its peer does. */
  lemma ReadGuarantees(c: Ctl, max: nat, initial: int, largest: nat, honest: bool)
    requires CtlInv(c, max, initial, largest, honest)
    ensures c.disk.admitted == c.disk.issued + c.disk.queue
    ensures forall id :: Times(c.disk.admitted, id)
                      == Times(c.disk.queue, id) + FsCount(c.fs, id) + Times(c.disk.completed, id)
    ensures c.disk.tx == FsReads(c.fs) <= 3 * max + 1 && (c.disk.queue != [] ==> c.disk.tx == 3 * max + 1)
  {
    NothingToSend(c.disk.issued);
    forall id ensures Times(c.disk.admitted, id) == Times(c.disk.issued, id) + Times(c.disk.queue, id) {
      TimesConcat(c.disk.issued, c.disk.queue, id);
    }
  }

  /** What it guarantees about requests while its peer answers only what it was asked. */
  lemma CtlGuarantees(c: Ctl, max: nat, initial: int, largest: nat)
    requires CtlInv(c, max, initial, largest, true)
    ensures Occupied(c.window.slots) == c.window.rx == |c.window.asked| <= max
    ensures c.window.pool + Bytes(c.window.slots) <= initial && c.window.pool + largest >= 0
    ensures Bytes(c.window.slots) <= initial + largest
  {
    WindowBounds(c.window, max, initial, largest);
  }

  // ----- Several controllers of one cluster -----

  datatype System = System(budget: int, ctls: seq<Ctl>)

  /** Configuration of a controller: the ring size, the pool, the largest block, the advances per pull,
      and whether its peer answers only what it was asked. */
  datatype Config = Config(max: nat, initial: nat, largest: nat, limit: nat, honest: bool)

  function InFlight(ctls: seq<Ctl>): nat {
    if ctls == [] then 0 else InFlight(ctls[..|ctls| - 1]) + FsWrites(ctls[|ctls| - 1].fs)
  }

  lemma {:induction false} InFlightUpdate(ctls: seq<Ctl>, i: nat, c: Ctl)
    requires i < |ctls|
    ensures InFlight(ctls[i := c]) == InFlight(ctls) - FsWrites(ctls[i].fs) + FsWrites(c.fs)
  {
    var n := |ctls| - 1;
    if i == n {
      assert ctls[i := c][..n] == ctls[..n];
    } else {
      assert ctls[i := c][..n] == ctls[..n][i := c];
      InFlightUpdate(ctls[..n], i, c);
    }
  }

  /** A step: some controller runs one of its handlers. */
  datatype Step = Step(i: nat, event: Event)

  ghost predicate CanStep(s: System, cfg: seq<Config>, step: Step) {
    && step.i < |s.ctls| == |cfg|
    && Allowed(s.ctls[step.i], s.budget, step.event, cfg[step.i].limit, cfg[step.i].largest, cfg[step.i].honest)
  }

  function Next(s: System, cfg: seq<Config>, step: Step): System
    requires step.i < |s.ctls| == |cfg| && (step.event.IoDone? ==> step.event.batch < |s.ctls[step.i].fs|)
  {
    var h := Handle(s.ctls[step.i], s.budget, step.event, cfg[step.i].limit);
    System(h.budget, s.ctls[step.i := h.c])
  }

  ghost predicate SystemInv(s: System, cfg: seq<Config>, initialBudget: nat) {
    && |s.ctls| == |cfg|
    && (forall i :: 0 <= i < |cfg| ==> CtlInv(s.ctls[i], cfg[i].max, cfg[i].initial, cfg[i].largest, cfg[i].honest))
    && s.budget >= 0
    && s.budget + InFlight(s.ctls) == initialBudget
  }

  lemma StepKeeps(s: System, cfg: seq<Config>, step: Step, initialBudget: nat)
    requires SystemInv(s, cfg, initialBudget) && CanStep(s, cfg, step)
    ensures SystemInv(Next(s, cfg, step), cfg, initialBudget)
    ensures Next(s, cfg, step).ctls[step.i].writeQueue == [] || Next(s, cfg, step).budget == 0
  {
    var k := cfg[step.i];
    HandleKeeps(s.ctls[step.i], s.budget, step.event, k.limit, k.max, k.initial, k.largest, k.honest);
    var h := Handle(s.ctls[step.i], s.budget, step.event, k.limit);
    InFlightUpdate(s.ctls, step.i, h.c);
  }

  function NewCtl(k: Config): Ctl
    requires 0 < k.max <= RING_MAX
  {
    Ctl(Fresh(k.max, k.initial), Reads(0, [], [], [], []), [], [])
  }

  ghost predicate IsRun(states: seq<System>, steps: seq<Step>, cfg: seq<Config>, initialBudget: nat) {
    && |states| == |steps| + 1
    && states[0].budget == initialBudget && |states[0].ctls| == |cfg|
    && (forall i :: 0 <= i < |cfg| ==> 0 < cfg[i].max <= RING_MAX && states[0].ctls[i] == NewCtl(cfg[i]))
    && forall n :: 0 <= n < |steps| ==>
         CanStep(states[n], cfg, steps[n]) && states[n + 1] == Next(states[n], cfg, steps[n])
  }

  lemma {:induction false} StartInFlight(ctls: seq<Ctl>)
    requires forall i :: 0 <= i < |ctls| ==> ctls[i].fs == []
    ensures InFlight(ctls) == 0
  {
    if ctls != [] {
      StartInFlight(ctls[..|ctls| - 1]);
    }
  }

  lemma NewCtlInv(k: Config)
    requires 0 < k.max <= RING_MAX
    ensures CtlInv(NewCtl(k), k.max, k.initial, k.largest, k.honest)
  {
    FreshInv(k.max, k.initial, k.largest);
  }

  /** In every state of every interleaving of the handlers of any number of controllers: write budget
      and block writes in flight add up to the initial budget, the budget is not negative, and every
      controller is in order. */
  lemma {:induction false} RunKeeps(states: seq<System>, steps: seq<Step>, cfg: seq<Config>, initialBudget: nat, n: nat)
    requires IsRun(states, steps, cfg, initialBudget) && n < |states|
    ensures SystemInv(states[n], cfg, initialBudget)
    ensures n > 0 ==> states[n].ctls[steps[n - 1].i].writeQueue == [] || states[n].budget == 0
  {
    if n == 0 {
      forall i | 0 <= i < |cfg|
        ensures CtlInv(states[0].ctls[i], cfg[i].max, cfg[i].initial, cfg[i].largest, cfg[i].honest)
      {
        NewCtlInv(cfg[i]);
      }
      StartInFlight(states[0].ctls);
    } else {
      RunKeeps(states, steps, cfg, initialBudget, n - 1);
      StepKeeps(states[n - 1], cfg, steps[n - 1], initialBudget);
    }
  }
}
