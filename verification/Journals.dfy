/**
  What transfer controllers do with what they are given. A journal lists what a run of handlers has
  taken on, got back, asked for and been answered; it is read off the events and a few numbers, not off
  the queues. Every command, every request and every byte of the pool is accounted for by it.
 */
module Journals {
  import opened Common
  import opened RequestWindow
  import opened Transfers

  /** A command taken on, or back from the file system; a block asked for, or answered by the peer. */
  datatype Entry = Took(cmd: Cmd) | Back(cmd: Cmd) | Asked(ctx: Context) | Answered(ctx: Context, good: bool)

  // ----- The journal of a handler -----

  function Offer(p: Pull): seq<Entry> {
    match p
    case Clone(id) => [Took(Write(id))]
    case Fetch(ctx) => [Asked(ctx)]
    case Plain(id) => [Took(Other(id))]
    case Skip(_) => []
  }

  /** The offers that pull_next accepts: one after the other, while fewer than `ring` requests are open,
      the pool is not overdrawn, block writes are left and the iterators have not advanced too often. */
  function Pulled(rx: nat, ring: nat, pool: int, budget: int, advances: nat, limit: nat, pulls: seq<Pull>): seq<Entry>
    decreases |pulls|
  {
    if pulls == [] || rx >= ring || pool < 0 || budget == 0 || advances > limit then []
    else
      var rest := pulls[1..];
      Offer(pulls[0]) +
      match pulls[0]
      case Clone(_) => Pulled(rx, ring, pool, budget - 1, advances, limit, rest)
      case Fetch(ctx) => Pulled(Up(rx), ring, pool - ctx.size, budget, advances, limit, rest)
      case Plain(_) => Pulled(rx, ring, pool, budget, advances, limit, rest)
      case Skip(more) => Pulled(rx, ring, pool, budget, if more then advances + 1 else advances, limit, rest)
  }

  /** A request that can be served is taken on. A response is for what its request asked; the pool gets a
      good one's size back, and then more is pulled. */
  function OfMessage(h: Handler, m: Msg, limit: nat): seq<Entry> {
    var w := h.c.window;
    match m
    case RequestMsg(id, served) => if served then [Took(Read(id))] else []
    case ResponseMsg(id, good, pulls) =>
      if !Known(h, id) then []
      else
        var ctx := w.slots[id].value;
        [Answered(ctx, good)] +
        Pulled(Down(w.rx), |w.slots|, w.pool + (if good then ctx.size else 0), h.budget, 0, limit, pulls)
    case OtherMsg => []
  }

  function OfMessages(h: Handler, msgs: seq<Msg>, limit: nat): seq<Entry>
    decreases |msgs|
  {
    if msgs == [] then []
    else OfMessage(h, msgs[0], limit) + OfMessages(OnMessage(h, msgs[0], limit), msgs[1..], limit)
  }

  function Backs(cmds: seq<Cmd>): seq<Entry> {
    if cmds == [] then [] else Backs(cmds[..|cmds| - 1]) + [Back(cmds[|cmds| - 1])]
  }

  function OfEvent(c: Ctl, budget: int, e: Event, limit: nat): seq<Entry>
    requires e.IoDone? ==> e.batch < |c.fs|
  {
    var w := c.window;
    match e
    case Forward(msgs) => OfMessages(Handler(c, budget, []), msgs, limit)
    case IoDone(k, pulls) =>
      Backs(c.fs[k]) + Pulled(w.rx, |w.slots|, w.pool, budget + Writes(c.fs[k]), 0, limit, pulls)
    case Digest(block, pulls) =>
      if block.Some? then [Took(Write(block.value))] else Pulled(w.rx, |w.slots|, w.pool, budget, 0, limit, pulls)
    case Wake(pulls) => Pulled(w.rx, |w.slots|, w.pool, budget, 0, limit, pulls)
  }

  // ----- What is accounted for -----

  ghost function FsTimes(fs: seq<seq<Cmd>>, cmd: Cmd): nat {
    if fs == [] then 0 else FsTimes(fs[..|fs| - 1], cmd) + Times(fs[|fs| - 1], cmd)
  }

  /** How often a command waits in a queue of the controller. */
  ghost function Waiting(c: Ctl, cmd: Cmd): nat {
    match cmd
    case Write(id) => Times(c.writeQueue, id)
    case Read(id) => Times(c.disk.queue, id)
    case Other(_) => 0
  }

  /** How often the controller has a command: to be sent, at the file system or waiting. */
  ghost function Load(h: Handler, cmd: Cmd): nat {
    Times(h.io, cmd) + FsTimes(h.c.fs, cmd) + Waiting(h.c, cmd)
  }

  /** The bytes that were answered with an error. */
  function Lost(j: seq<Entry>): nat {
    if j == [] then 0
    else Lost(j[..|j| - 1]) + match j[|j| - 1] case Answered(ctx, false) => ctx.size case _ => 0
  }

  function ReadsTaken(j: seq<Entry>): seq<int> {
    if j == [] then []
    else ReadsTaken(j[..|j| - 1]) + match j[|j| - 1] case Took(Read(id)) => [id] case _ => []
  }

  ghost predicate CommandsBooked(a: Handler, b: Handler, j: seq<Entry>) {
    forall cmd :: Load(b, cmd) == Load(a, cmd) + Times(j, Took(cmd)) - Times(j, Back(cmd))
  }

  ghost predicate RequestsBooked(v: Window, w: Window, j: seq<Entry>) {
    forall x :: Times(w.slots, Some(x)) == Times(v.slots, Some(x)) + Times(j, Asked(x))
             - Times(j, Answered(x, true)) - Times(j, Answered(x, false))
  }

  ghost predicate PoolBooked(v: Window, w: Window, j: seq<Entry>) {
    w.pool + Bytes(w.slots) == v.pool + Bytes(v.slots) - Lost(j)
  }

  /** The journal explains how the one state follows from the other. */
  ghost predicate Booked(a: Handler, b: Handler, j: seq<Entry>, honest: bool) {
    && CommandsBooked(a, b, j)
    && b.c.disk.admitted == a.c.disk.admitted + ReadsTaken(j)
    && (honest ==> RequestsBooked(a.c.window, b.c.window, j) && PoolBooked(a.c.window, b.c.window, j))
  }

  lemma {:induction false} LostConcat(a: seq<Entry>, b: seq<Entry>)
    ensures Lost(a + b) == Lost(a) + Lost(b) && ReadsTaken(a + b) == ReadsTaken(a) + ReadsTaken(b)
  {
    if b == [] {
      assert a + b == a;
    } else {
      assert (a + b)[..|a + b| - 1] == a + b[..|b| - 1];
      LostConcat(a, b[..|b| - 1]);
    }
  }

  lemma Nothing(h: Handler, honest: bool)
    ensures Booked(h, h, [], honest)
  {
  }

  lemma JoinCommands(a: Handler, b: Handler, c: Handler, j: seq<Entry>, k: seq<Entry>)
    requires CommandsBooked(a, b, j) && CommandsBooked(b, c, k)
    ensures CommandsBooked(a, c, j + k)
  {
    hide Load, Times;
    forall cmd ensures Load(c, cmd) == Load(a, cmd) + Times(j + k, Took(cmd)) - Times(j + k, Back(cmd)) {
      TimesConcat(j, k, Took(cmd));
      TimesConcat(j, k, Back(cmd));
      assert Load(b, cmd) == Load(a, cmd) + Times(j, Took(cmd)) - Times(j, Back(cmd));
    }
  }

  lemma JoinRequests(a: Window, b: Window, c: Window, j: seq<Entry>, k: seq<Entry>)
    requires RequestsBooked(a, b, j) && RequestsBooked(b, c, k)
    ensures RequestsBooked(a, c, j + k)
  {
    hide Times;
    forall x ensures Times(c.slots, Some(x)) == Times(a.slots, Some(x)) + Times(j + k, Asked(x))
                  - Times(j + k, Answered(x, true)) - Times(j + k, Answered(x, false))
    {
      TimesConcat(j, k, Asked(x));
      TimesConcat(j, k, Answered(x, true));
      TimesConcat(j, k, Answered(x, false));
      assert Times(b.slots, Some(x)) == Times(a.slots, Some(x)) + Times(j, Asked(x))
          - Times(j, Answered(x, true)) - Times(j, Answered(x, false));
    }
  }

  /** Journals of consecutive parts are joined. */
  lemma Join(a: Handler, b: Handler, c: Handler, j: seq<Entry>, k: seq<Entry>, honest: bool)
    requires Booked(a, b, j, honest) && Booked(b, c, k, honest)
    ensures Booked(a, c, j + k, honest)
  {
    hide CommandsBooked, RequestsBooked, Lost, ReadsTaken;
    JoinCommands(a, b, c, j, k);
    LostConcat(j, k);
    if honest {
      JoinRequests(a.c.window, b.c.window, c.c.window, j, k);
    }
  }

  // ----- What handlers are made of -----

  lemma One(e: Entry)
    ensures forall x :: Times([e], x) == if x == e then 1 else 0
    ensures Lost([e]) == (match e case Answered(ctx, false) => ctx.size case _ => 0)
    ensures ReadsTaken([e]) == match e case Took(Read(id)) => [id] case _ => []
  {
    assert [e][..0] == [];
  }

  lemma PushWriteBooked(h: Handler, id: int, honest: bool)
    ensures Booked(h, PushWrite(h, id), [Took(Write(id))], honest)
  {
    One(Took(Write(id)));
    hide Times, FsTimes, Lost, ReadsTaken;
    forall cmd ensures Load(PushWrite(h, id), cmd) == Load(h, cmd) + if cmd == Write(id) then 1 else 0 {
      TimesAppend(h.io, Write(id), cmd);
      if cmd.Write? {
        TimesAppend(h.c.writeQueue, id, cmd.id);
      }
    }
    assert h.c.disk.admitted + [] == h.c.disk.admitted;
  }

  /** An entry about a request says nothing about commands. */
  lemma WindowOnly(h: Handler, w: Window, e: Entry)
    requires e.Asked? || e.Answered?
    ensures var r := h.(c := h.c.(window := w));
      CommandsBooked(h, r, [e]) && r.c.disk.admitted == h.c.disk.admitted + ReadsTaken([e])
  {
    One(e);
    hide Times, FsTimes, Lost, ReadsTaken;
    assert h.c.disk.admitted + [] == h.c.disk.admitted;
  }

  lemma FetchBooked(h: Handler, ctx: Context, max: nat, initial: int, largest: nat, honest: bool)
    requires HandlerInv(h, max, initial, largest, honest) && Open(h.c.window) && ctx.size <= largest
    ensures Booked(h, PullOne(h, Fetch(ctx)), [Asked(ctx)], honest)
  {
    hide ReadsInv, WindowInv, Times, Lost, ReadsTaken, CommandsBooked, RequestWindow.Fetch, Bytes;
    One(Asked(ctx));
    WindowOnly(h, RequestWindow.Fetch(h.c.window, ctx), Asked(ctx));
    if honest {
      FetchKeeps(h.c.window, ctx, max, initial, largest);
    }
  }

  lemma PlainBooked(h: Handler, id: int, honest: bool)
    requires h.c.window.next < |h.c.window.slots|
    ensures Booked(h, PullOne(h, Plain(id)), [Took(Other(id))], honest)
  {
    One(Took(Other(id)));
    forall cmd ensures Load(PullOne(h, Plain(id)), cmd) == Load(h, cmd) + if cmd == Other(id) then 1 else 0 {
      TimesAppend(h.io, Other(id), cmd);
    }
  }

  lemma PullOneBooked(h: Handler, p: Pull, max: nat, initial: int, largest: nat, honest: bool)
    requires HandlerInv(h, max, initial, largest, honest) && Open(h.c.window) && (p.Fetch? ==> p.ctx.size <= largest)
    ensures h.c.window.next < |h.c.window.slots| && Booked(h, PullOne(h, p), Offer(p), honest)
  {
    match p {
      case Clone(id) => PushWriteBooked(h, id, honest);
      case Fetch(ctx) => FetchBooked(h, ctx, max, initial, largest, honest);
      case Plain(id) => PlainBooked(h, id, honest);
      case Skip(_) => Nothing(h, honest);
    }
  }

  /** The offers accepted by a controller in its present state. */
  function PulledBy(h: Handler, pulls: seq<Pull>, advances: nat, limit: nat): seq<Entry> {
    Pulled(h.c.window.rx, |h.c.window.slots|, h.c.window.pool, h.budget, advances, limit, pulls)
  }

  function Advanced(advances: nat, p: Pull): nat {
    if p == Skip(true) then advances + 1 else advances
  }

  lemma PulledStep(h: Handler, pulls: seq<Pull>, advances: nat, limit: nat)
    requires pulls != [] && CanPull(h, advances, limit) && h.c.window.next < |h.c.window.slots|
    ensures var h' := PullOne(h, pulls[0]);
      && h'.c.writeQueue == h.c.writeQueue
      && PulledBy(h, pulls, advances, limit)
      == Offer(pulls[0]) + PulledBy(h', pulls[1..], Advanced(advances, pulls[0]), limit)
  {
    hide Scan;
  }

  lemma PullNextStep(h: Handler, pulls: seq<Pull>, advances: nat, limit: nat)
    requires h.c.window.next < |h.c.window.slots|
    ensures PullNext(h, pulls, advances, limit)
         == if pulls == [] || !CanPull(h, advances, limit) then h
            else PullNext(PullOne(h, pulls[0]), pulls[1..], Advanced(advances, pulls[0]), limit)
    ensures pulls == [] || !CanPull(h, advances, limit) ==> PulledBy(h, pulls, advances, limit) == []
  {
  }

  /** The journal of pull_next is what it has accepted, and it queues no write. */
  lemma {:induction false} PullNextBooked(h: Handler, pulls: seq<Pull>, advances: nat, limit: nat, max: nat,
                                          initial: int, largest: nat, honest: bool)
    requires HandlerInv(h, max, initial, largest, honest) && SmallPulls(pulls, largest)
    ensures var r := PullNext(h, pulls, advances, limit);
      Booked(h, r, PulledBy(h, pulls, advances, limit), honest) && r.c.writeQueue == h.c.writeQueue
    decreases |pulls|
  {
    hide Booked, PullNext, PullOne, PulledBy, ReadsInv, WindowInv, Offer;
    PullNextStep(h, pulls, advances, limit);
    if pulls != [] && CanPull(h, advances, limit) {
      PullOneKeeps(h, pulls[0], max, initial, largest, honest);
      PullOneBooked(h, pulls[0], max, initial, largest, honest);
      PulledStep(h, pulls, advances, limit);
      var h', advances' := PullOne(h, pulls[0]), Advanced(advances, pulls[0]);
      PullNextBooked(h', pulls[1..], advances', limit, max, initial, largest, honest);
      Join(h, h', PullNext(h', pulls[1..], advances', limit), Offer(pulls[0]),
           PulledBy(h', pulls[1..], advances', limit), honest);
    } else {
      Nothing(h, honest);
    }
  }

  // ----- The destructor -----

  /** Queued writes go out first come, first served, as many as the budget allows. */
  lemma {:induction false} DrainWritesExact(h: Handler)
    requires h.budget >= 0
    ensures var n := if h.budget <= |h.c.writeQueue| then h.budget else |h.c.writeQueue|;
      DrainWrites(h)
      == Handler(h.c.(writeQueue := h.c.writeQueue[n..]), h.budget - n, h.io + AllWrites(h.c.writeQueue[..n]))
    decreases |h.c.writeQueue|
  {
    var q := h.c.writeQueue;
    if h.budget > 0 && q != [] {
      var h' := Handler(h.c.(writeQueue := q[1..]), h.budget - 1, h.io + [Write(q[0])]);
      var n := if h.budget <= |q| then h.budget else |q|;
      DrainWritesExact(h');
      assert q[1..][n - 1..] == q[n..] && q[1..][..n - 1] == q[..n][1..];
      assert h.io + [Write(q[0])] + AllWrites(q[..n][1..]) == h.io + ([Write(q[0])] + AllWrites(q[..n][1..]));
    } else {
      assert q[..0] == [] && q[0..] == q && h.io + [] == h.io;
    }
  }

  function AllWrites(ids: seq<int>): seq<Cmd> {
    if ids == [] then [] else [Write(ids[0])] + AllWrites(ids[1..])
  }

  /** Moving the first of a queue to the commands changes no count. */
  lemma FrontMoves(queue: seq<int>, io: seq<Cmd>, cmd: Cmd, id: int, x: Cmd)
    requires queue != [] && cmd.id == queue[0]
    ensures Times(io + [cmd], x) == Times(io, x) + if x == cmd then 1 else 0
    ensures Times(queue[1..], id) == Times(queue, id) - if id == queue[0] then 1 else 0
  {
    TimesAppend(io, cmd, x);
    assert queue == [queue[0]] + queue[1..];
    TimesConcat([queue[0]], queue[1..], id);
    TimesAppend([], queue[0], id);
    assert [] + [queue[0]] == [queue[0]];
  }

  lemma {:induction false} DrainWritesLoad(h: Handler, cmd: Cmd)
    ensures var d := DrainWrites(h); Load(d, cmd) == Load(h, cmd) && d.c == h.c.(writeQueue := d.c.writeQueue)
    decreases |h.c.writeQueue|
  {
    var q := h.c.writeQueue;
    if h.budget > 0 && q != [] {
      FrontMoves(q, h.io, Write(q[0]), cmd.id, cmd);
      DrainWritesLoad(Handler(h.c.(writeQueue := q[1..]), h.budget - 1, h.io + [Write(q[0])]), cmd);
    }
  }

  lemma SendReadLoad(h: Handler, cmd: Cmd)
    requires h.c.disk.queue != []
    ensures var d := SendRead(h);
      && Load(d, cmd) == Load(h, cmd) && d.c.window == h.c.window && d.c.writeQueue == h.c.writeQueue
      && d.c.disk.admitted == h.c.disk.admitted && |d.c.disk.queue| < |h.c.disk.queue|
  {
    hide Times, FsTimes;
    var q := h.c.disk.queue;
    FrontMoves(q, h.io, Read(q[0]), cmd.id, cmd);
  }

  lemma {:induction false} DrainReadsLoad(h: Handler, cmd: Cmd)
    ensures var d := DrainReads(h);
      && Load(d, cmd) == Load(h, cmd) && d.c.window == h.c.window && d.c.writeQueue == h.c.writeQueue
      && d.c.disk.admitted == h.c.disk.admitted
    decreases |h.c.disk.queue|
  {
    hide Load, SendRead, MaxReads;
    if h.c.disk.queue != [] && h.c.disk.tx <= MaxReads(h.c) {
      SendReadLoad(h, cmd);
      DrainReadsLoad(SendRead(h), cmd);
    }
  }

  lemma RouteLoad(h: Handler, cmd: Cmd)
    ensures var r := Route(h); Load(r, cmd) == Load(h, cmd) && r.io == []
    ensures var r := Route(h).c;
      r.window == h.c.window && r.writeQueue == h.c.writeQueue && r.disk.admitted == h.c.disk.admitted
  {
    assert (h.c.fs + [h.io])[..|h.c.fs|] == h.c.fs;
  }

  /** The destructor sends and keeps; nothing is lost in it. */
  lemma FlushBooked(h: Handler, honest: bool)
    ensures Booked(h, Flush(h), [], honest) && Flush(h).io == [] && Flush(h).c.window == h.c.window
    ensures Suffix(Flush(h).c.writeQueue, h.c.writeQueue)
  {
    hide Load, DrainReads, Route;
    forall cmd ensures Load(Flush(h), cmd) == Load(h, cmd) {
      FlushLoad(h, cmd);
    }
    FlushLoad(h, Other(0));
    FlushSuffix(h);
    assert h.c.disk.admitted + [] == h.c.disk.admitted;
  }

  lemma FlushLoad(h: Handler, cmd: Cmd)
    ensures var r := Flush(h);
      Load(r, cmd) == Load(h, cmd) && r.io == [] && r.c.window == h.c.window && r.c.disk.admitted == h.c.disk.admitted
    ensures Flush(h).c.writeQueue == DrainWrites(h).c.writeQueue
  {
    hide Load, DrainWrites, DrainReads, Route;
    DrainWritesLoad(h, cmd);
    DrainReadsLoad(DrainWrites(h), cmd);
    RouteLoad(DrainReads(DrainWrites(h)), cmd);
  }

  /** What is left of a queue is its end. */
  ghost predicate Suffix(rest: seq<int>, queue: seq<int>) {
    |rest| <= |queue| && rest == queue[|queue| - |rest|..]
  }

  lemma SuffixTrans(a: seq<int>, b: seq<int>, c: seq<int>)
    requires Suffix(a, b) && Suffix(b, c)
    ensures Suffix(a, c)
  {
  }

  lemma {:induction false} FlushSuffix(h: Handler)
    ensures Suffix(DrainWrites(h).c.writeQueue, h.c.writeQueue)
    decreases |h.c.writeQueue|
  {
    var q := h.c.writeQueue;
    if h.budget > 0 && q != [] {
      var h' := Handler(h.c.(writeQueue := q[1..]), h.budget - 1, h.io + [Write(q[0])]);
      FlushSuffix(h');
      SuffixTrans(DrainWrites(h').c.writeQueue, q[1..], q);
    }
  }

  // ----- Messages -----

  lemma AdmitReadBooked(h: Handler, id: int, honest: bool)
    ensures Booked(h, AdmitRead(h, id, true), [Took(Read(id))], honest)
    ensures AdmitRead(h, id, true).c.writeQueue == h.c.writeQueue
  {
    One(Took(Read(id)));
    hide Times, FsTimes, Lost, ReadsTaken, MaxReads;
    forall cmd ensures Load(AdmitRead(h, id, true), cmd) == Load(h, cmd) + if cmd == Read(id) then 1 else 0 {
      TimesAppend(h.io, Read(id), cmd);
      if cmd.Read? {
        TimesAppend(h.c.disk.queue, id, cmd.id);
      }
    }
  }

  lemma AnswerBooked(h: Handler, id: nat, good: bool, max: nat, initial: int, largest: nat, honest: bool)
    requires HandlerInv(h, max, initial, largest, honest) && Known(h, id) && (honest ==> id in h.c.window.asked)
    ensures var answered := h.(c := h.c.(window := Respond(h.c.window, id, good)));
      && HandlerInv(answered, max, initial, largest, honest)
      && Booked(h, answered, [Answered(h.c.window.slots[id].value, good)], honest)
  {
    hide ReadsInv, WindowInv, Times, Lost, ReadsTaken, CommandsBooked, Freed, Bytes;
    One(Answered(h.c.window.slots[id].value, good));
    WindowOnly(h, Respond(h.c.window, id, good), Answered(h.c.window.slots[id].value, good));
    RespondShape(h.c.window, id, good);
    if honest {
      RespondKeeps(h.c.window, id, good, max, initial, largest);
    }
    SameReads(h, h.(c := h.c.(window := Respond(h.c.window, id, good))));
  }

  lemma RespondShape(w: Window, id: nat, good: bool)
    requires id < |w.slots| && w.slots[id].Some?
    ensures |Respond(w, id, good).slots| == |w.slots| && Respond(w, id, good).next == id
  {
  }

  /** The inner destructor does not touch the commands of the outer one. */
  lemma InnerFlushBooked(h: Handler, honest: bool)
    ensures Booked(h, Flush(h.(io := [])).(io := h.io), [], honest)
    ensures Suffix(Flush(h.(io := [])).c.writeQueue, h.c.writeQueue)
  {
    hide Flush, Suffix;
    var bare := h.(io := []);
    FlushBooked(bare, honest);
    var r := Flush(bare).(io := h.io);
    forall cmd ensures Load(r, cmd) == Load(h, cmd) {
      assert Load(Flush(bare), cmd) == Load(bare, cmd);
    }
  }

  lemma OnResponseBooked(h: Handler, id: nat, good: bool, pulls: seq<Pull>, limit: nat, max: nat, initial: int,
                         largest: nat, honest: bool)
    requires HandlerInv(h, max, initial, largest, honest) && SmallPulls(pulls, largest)
    requires Known(h, id) && (honest ==> id in h.c.window.asked)
    ensures var r := OnResponse(h, id, good, pulls, limit);
      && Booked(h, r, OfMessage(h, ResponseMsg(id, good, pulls), limit), honest)
      && Suffix(r.c.writeQueue, h.c.writeQueue)
  {
    hide Booked, HandlerInv, Flush, Suffix, PullNext, Pulled;
    var answered := h.(c := h.c.(window := Respond(h.c.window, id, good)));
    var pulled := PullNext(answered, pulls, 0, limit);
    var w := answered.c.window;
    var j := [Answered(h.c.window.slots[id].value, good)];
    var k := Pulled(w.rx, |w.slots|, w.pool, h.budget, 0, limit, pulls);
    AnswerBooked(h, id, good, max, initial, largest, honest);
    PullNextBooked(answered, pulls, 0, limit, max, initial, largest, honest);
    InnerFlushBooked(pulled, honest);
    Join(h, answered, pulled, j, k, honest);
    Join(h, pulled, OnResponse(h, id, good, pulls, limit), j + k, [], honest);
    assert j + k + [] == j + k;
  }

  lemma OnMessageBooked(h: Handler, m: Msg, limit: nat, max: nat, initial: int, largest: nat, honest: bool)
    requires HandlerInv(h, max, initial, largest, honest) && SmallMsgs([m], largest)
    requires honest ==> Answerable(h, m)
    ensures var r := OnMessage(h, m, limit);
      Booked(h, r, OfMessage(h, m, limit), honest) && Suffix(r.c.writeQueue, h.c.writeQueue)
  {
    match m {
      case RequestMsg(id, served) =>
        if served {
          AdmitReadBooked(h, id, honest);
        } else {
          Nothing(h, honest);
        }
      case ResponseMsg(id, good, pulls) =>
        if Known(h, id) {
          assert [m][0].pulls == pulls;
          OnResponseBooked(h, id, good, pulls, limit, max, initial, largest, honest);
        } else {
          RefusedBooked(h);
        }
      case OtherMsg => Nothing(h, honest);
    }
  }

  lemma RefusedBooked(h: Handler)
    ensures Booked(h, Refused(h), [], false)
  {
    forall cmd ensures Load(Refused(h), cmd) == Load(h, cmd) {}
    assert h.c.disk.admitted + [] == h.c.disk.admitted;
  }

  lemma {:induction false} OnMessagesBooked(h: Handler, msgs: seq<Msg>, limit: nat, max: nat, initial: int,
                                            largest: nat, honest: bool)
    requires HandlerInv(h, max, initial, largest, honest) && NoRoom(h.c) && SmallMsgs(msgs, largest)
    requires honest ==> Honest(h, msgs, limit)
    ensures var r := OnMessages(h, msgs, limit);
      Booked(h, r, OfMessages(h, msgs, limit), honest) && Suffix(r.c.writeQueue, h.c.writeQueue)
    decreases |msgs|
  {
    if msgs == [] {
      Nothing(h, honest);
    } else {
      hide Booked, HandlerInv, NoRoom, OfMessage, OnMessage, Suffix, Answerable;
      var m, rest := msgs[0], msgs[1..];
      var next := OnMessage(h, m, limit);
      FirstMessage(h, msgs, limit, max, initial, largest, honest);
      OnMessageBooked(h, m, limit, max, initial, largest, honest);
      OnMessagesBooked(next, rest, limit, max, initial, largest, honest);
      Join(h, next, OnMessages(next, rest, limit), OfMessage(h, m, limit), OfMessages(next, rest, limit), honest);
      SuffixTrans(OnMessages(next, rest, limit).c.writeQueue, next.c.writeQueue, h.c.writeQueue);
    }
  }

  lemma FirstMessage(h: Handler, msgs: seq<Msg>, limit: nat, max: nat, initial: int, largest: nat, honest: bool)
    requires HandlerInv(h, max, initial, largest, honest) && NoRoom(h.c) && msgs != [] && SmallMsgs(msgs, largest)
    requires honest ==> Honest(h, msgs, limit)
    ensures SmallMsgs([msgs[0]], largest) && (honest ==> Answerable(h, msgs[0]))
    ensures var r := OnMessage(h, msgs[0], limit);
      HandlerInv(r, max, initial, largest, honest) && NoRoom(r.c) && SmallMsgs(msgs[1..], largest)
  {
    hide HandlerInv, NoRoom, OnMessage, Answerable;
    var one := [msgs[0]];
    assert one[1..] == [];
    OnMessagesKeeps(h, one, limit, max, initial, largest, honest);
    assert OnMessages(h, one, limit) == OnMessages(OnMessage(h, msgs[0], limit), [], limit);
  }

  // ----- A batch comes back -----

  lemma {:induction false} BatchBack(fs: seq<seq<Cmd>>, k: nat, cmd: Cmd)
    requires k < |fs|
    ensures FsTimes(fs, cmd) == FsTimes(WithoutBatch(fs, k), cmd) + Times(fs[k], cmd)
    decreases |fs|
  {
    hide Times;
    var n := |fs| - 1;
    if k == n {
      assert WithoutBatch(fs, k) == fs[..n];
    } else {
      var rest := WithoutBatch(fs, k);
      BatchBack(fs[..n], k, cmd);
      assert rest[..|rest| - 1] == WithoutBatch(fs[..n], k) && rest[|rest| - 1] == fs[n];
    }
  }

  lemma {:induction false} BacksTimes(cmds: seq<Cmd>, e: Entry)
    ensures Times(Backs(cmds), e) == if e.Back? then Times(cmds, e.cmd) else 0
    ensures Lost(Backs(cmds)) == 0 && ReadsTaken(Backs(cmds)) == []
  {
    if cmds != [] {
      var init, last := cmds[..|cmds| - 1], cmds[|cmds| - 1];
      BacksTimes(init, e);
      TimesAppend(Backs(init), Back(last), e);
      BacksSize(init);
      assert Backs(cmds)[..|init|] == Backs(init);
    }
  }

  lemma {:induction false} BacksSize(cmds: seq<Cmd>)
    ensures |Backs(cmds)| == |cmds|
  {
    if cmds != [] {
      BacksSize(cmds[..|cmds| - 1]);
    }
  }

  lemma ReturnBooked(h: Handler, k: nat, honest: bool)
    requires k < |h.c.fs|
    ensures var r := Return(h, k);
      && Booked(h, r, Backs(h.c.fs[k]), honest) && r.c.window == h.c.window
      && r.c.writeQueue == h.c.writeQueue && r.budget == h.budget + Writes(h.c.fs[k])
  {
    hide Times, Lost, ReadsTaken, Backs, Completed, ReadsOf, Writes, FsTimes;
    var r, batch := Return(h, k), h.c.fs[k];
    CompletedShape(h.(c := h.c.(fs := WithoutBatch(h.c.fs, k))), batch);
    BacksTimes(batch, Back(Other(0)));
    forall cmd ensures Load(r, cmd) == Load(h, cmd) + Times(Backs(batch), Took(cmd)) - Times(Backs(batch), Back(cmd)) {
      BatchBack(h.c.fs, k, cmd);
      BacksTimes(batch, Took(cmd));
      BacksTimes(batch, Back(cmd));
    }
    forall x ensures Times(Backs(batch), Asked(x)) == 0 && forall good :: Times(Backs(batch), Answered(x, good)) == 0 {
      BacksTimes(batch, Asked(x));
      BacksTimes(batch, Answered(x, true));
      BacksTimes(batch, Answered(x, false));
    }
    assert h.c.disk.admitted + [] == h.c.disk.admitted;
  }

  // ----- Handlers -----

  /** A write is queued when it comes while no block write is left. */
  function Queued(budget: int, e: Event): seq<int> {
    if e.Digest? && e.block.Some? && budget == 0 then [e.block.value] else []
  }

  lemma CollectBooked(c: Ctl, budget: int, e: Event, limit: nat, max: nat, initial: int, largest: nat, honest: bool)
    requires CtlInv(c, max, initial, largest, honest) && budget >= 0 && Allowed(c, budget, e, limit, largest, honest)
    ensures var h := Collect(c, budget, e, limit);
      && Booked(Handler(c, budget, []), h, OfEvent(c, budget, e, limit), honest)
      && Suffix(h.c.writeQueue, c.writeQueue + Queued(budget, e))
  {
    hide Booked, ReadsInv, NoRoom, PullNext, Pulled, Backs, Return;
    var h, w := Handler(c, budget, []), c.window;
    assert c.writeQueue + [] == c.writeQueue;
    assert HandlerInv(h, max, initial, largest, honest) by { SameBudget(c, budget, max, initial, largest, honest); }
    match e {
      case Forward(msgs) => OnMessagesBooked(h, msgs, limit, max, initial, largest, honest);
      case IoDone(k, pulls) =>
        var r := Return(h, k);
        ReturnKeeps(h, k, max, initial, largest, honest);
        ReturnBooked(h, k, honest);
        PullNextBooked(r, pulls, 0, limit, max, initial, largest, honest);
        Join(h, r, PullNext(r, pulls, 0, limit), Backs(c.fs[k]),
             Pulled(w.rx, |w.slots|, w.pool, r.budget, 0, limit, pulls), honest);
      case Digest(block, pulls) =>
        if block.Some? {
          PushWriteBooked(h, block.value, honest);
        } else {
          PullNextBooked(h, pulls, 0, limit, max, initial, largest, honest);
        }
      case Wake(pulls) => PullNextBooked(h, pulls, 0, limit, max, initial, largest, honest);
    }
  }

  lemma SameBudget(c: Ctl, budget: int, max: nat, initial: int, largest: nat, honest: bool)
    requires CtlInv(c, max, initial, largest, honest) && budget >= 0
    ensures HandlerInv(Handler(c, budget, []), max, initial, largest, honest)
  {
    hide WindowOk;
  }

  /** A handler with its destructor. */
  lemma HandleBooked(c: Ctl, budget: int, e: Event, limit: nat, max: nat, initial: int, largest: nat, honest: bool)
    requires CtlInv(c, max, initial, largest, honest) && budget >= 0 && Allowed(c, budget, e, limit, largest, honest)
    ensures var h := Handle(c, budget, e, limit);
      && Booked(Handler(c, budget, []), h, OfEvent(c, budget, e, limit), honest) && h.io == []
      && Suffix(h.c.writeQueue, c.writeQueue + Queued(budget, e))
  {
    hide Booked, CtlInv, Collect, OfEvent, Flush, Suffix, SmallMsgs, SmallPulls, Honest;
    var h, j := Collect(c, budget, e, limit), OfEvent(c, budget, e, limit);
    CollectBooked(c, budget, e, limit, max, initial, largest, honest);
    FlushBooked(h, honest);
    Join(Handler(c, budget, []), h, Flush(h), j, [], honest);
    assert j + [] == j;
    SuffixTrans(Flush(h).c.writeQueue, h.c.writeQueue, c.writeQueue + Queued(budget, e));
  }

  // ----- Runs -----

  ghost function Journal(states: seq<System>, steps: seq<Step>, cfg: seq<Config>, budget: nat, i: nat, n: nat)
    : seq<Entry>
    requires IsRun(states, steps, cfg, budget) && n < |states| && i < |cfg|
  {
    if n == 0 then []
    else
      var s, step := states[n - 1], steps[n - 1];
      Journal(states, steps, cfg, budget, i, n - 1) +
      if step.i == i then OfEvent(s.ctls[i], s.budget, step.event, cfg[i].limit) else []
  }

  /** The writes that had to be queued, in order of arrival. */
  ghost function Arrived(states: seq<System>, steps: seq<Step>, cfg: seq<Config>, budget: nat, i: nat, n: nat)
    : seq<int>
    requires IsRun(states, steps, cfg, budget) && n < |states| && i < |cfg|
  {
    if n == 0 then []
    else
      Arrived(states, steps, cfg, budget, i, n - 1) +
      if steps[n - 1].i == i then Queued(states[n - 1].budget, steps[n - 1].event) else []
  }

  /** In every state of every run, for every controller: the journal explains its state. */
  lemma {:induction false} RunBooked(states: seq<System>, steps: seq<Step>, cfg: seq<Config>, budget: nat, i: nat,
                                     n: nat)
    requires IsRun(states, steps, cfg, budget) && n < |states| && i < |cfg|
    ensures |states[n].ctls| == |cfg|
    ensures Booked(Handler(NewCtl(cfg[i]), 0, []), Handler(states[n].ctls[i], 0, []),
                   Journal(states, steps, cfg, budget, i, n), cfg[i].honest)
    ensures Suffix(states[n].ctls[i].writeQueue, Arrived(states, steps, cfg, budget, i, n))
  {
    hide Booked, OfEvent, Handle, Suffix, CtlInv, NewCtl, Queued, SmallMsgs, SmallPulls, Honest, InRing;
    if n == 0 {
      Nothing(Handler(NewCtl(cfg[i]), 0, []), cfg[i].honest);
      NothingQueued(cfg[i]);
    } else {
      RunBooked(states, steps, cfg, budget, i, n - 1);
      RunKeeps(states, steps, cfg, budget, n - 1);
      var s, step, k := states[n - 1], steps[n - 1], cfg[i];
      var first, last := Handler(NewCtl(k), 0, []), Handler(s.ctls[i], 0, []);
      var j, q := Journal(states, steps, cfg, budget, i, n - 1), Arrived(states, steps, cfg, budget, i, n - 1);
      if step.i == i {
        HandleBooked(s.ctls[i], s.budget, step.event, k.limit, k.max, k.initial, k.largest, k.honest);
        var h, e := Handle(s.ctls[i], s.budget, step.event, k.limit), OfEvent(s.ctls[i], s.budget, step.event, k.limit);
        AnyBudget(Handler(s.ctls[i], s.budget, []), h, e, k.honest);
        Join(first, last, Handler(h.c, 0, []), j, e, k.honest);
        var queue, more := s.ctls[i].writeQueue, Queued(s.budget, step.event);
        SuffixGrows(queue, q, more);
        SuffixTrans(h.c.writeQueue, queue + more, q + more);
      } else {
        assert j + [] == j && q + [] == q;
      }
    }
  }

  lemma NothingQueued(k: Config)
    requires 0 < k.max <= RING_MAX
    ensures Suffix(NewCtl(k).writeQueue, [])
  {
  }

  lemma SuffixGrows(rest: seq<int>, queue: seq<int>, more: seq<int>)
    requires Suffix(rest, queue)
    ensures Suffix(rest + more, queue + more)
  {
  }

  /** The budget is not part of the books. */
  lemma AnyBudget(a: Handler, b: Handler, j: seq<Entry>, honest: bool)
    requires Booked(a, b, j, honest) && a.io == [] && b.io == []
    ensures Booked(Handler(a.c, 0, []), Handler(b.c, 0, []), j, honest)
  {
    forall cmd ensures Load(Handler(b.c, 0, []), cmd)
                    == Load(Handler(a.c, 0, []), cmd) + Times(j, Took(cmd)) - Times(j, Back(cmd))
    {
      assert Load(b, cmd) == Load(a, cmd) + Times(j, Took(cmd)) - Times(j, Back(cmd));
    }
  }

  /** In every state of every run, for every controller and every command: it was taken on as often as it
      has come back, is at the file system, or waits. Reads were admitted in the order in which they came,
      and the writes that wait are the last of those that had to be queued. */
  lemma RunConserves(states: seq<System>, steps: seq<Step>, cfg: seq<Config>, budget: nat, i: nat, n: nat, cmd: Cmd)
    requires IsRun(states, steps, cfg, budget) && n < |states| && i < |cfg|
    ensures |states[n].ctls| == |cfg|
    ensures var c, j := states[n].ctls[i], Journal(states, steps, cfg, budget, i, n);
      && Times(j, Took(cmd)) == Times(j, Back(cmd)) + FsTimes(c.fs, cmd) + Waiting(c, cmd)
      && c.disk.admitted == ReadsTaken(j)
      && Suffix(c.writeQueue, Arrived(states, steps, cfg, budget, i, n))
  {
    hide Journal, Arrived, Suffix;
    RunBooked(states, steps, cfg, budget, i, n);
    var j := Journal(states, steps, cfg, budget, i, n);
    var first, last := Handler(NewCtl(cfg[i]), 0, []), Handler(states[n].ctls[i], 0, []);
    assert Load(last, cmd) == Load(first, cmd) + Times(j, Took(cmd)) - Times(j, Back(cmd));
    assert [] + ReadsTaken(j) == ReadsTaken(j);
  }

  /** While the peer answers only what it was asked: every block was asked for as often as it was answered
      or is still open, and the pool lacks exactly the bytes on the wire and those answered with an error. */
  lemma RunPool(states: seq<System>, steps: seq<Step>, cfg: seq<Config>, budget: nat, i: nat, n: nat, x: Context)
    requires IsRun(states, steps, cfg, budget) && n < |states| && i < |cfg| && cfg[i].honest
    ensures |states[n].ctls| == |cfg|
    ensures var w, j := states[n].ctls[i].window, Journal(states, steps, cfg, budget, i, n);
      && w.pool + Bytes(w.slots) + Lost(j) == cfg[i].initial
      && Times(j, Asked(x)) == Times(j, Answered(x, true)) + Times(j, Answered(x, false)) + Times(w.slots, Some(x))
  {
    hide Journal;
    RunBooked(states, steps, cfg, budget, i, n);
    var slots := Fresh(cfg[i].max, cfg[i].initial).slots;
    NothingOccupied(slots);
    NotThere(slots, Some(x));
  }

  lemma {:induction false} NotThere<T>(s: seq<T>, x: T)
    requires forall i :: 0 <= i < |s| ==> s[i] != x
    ensures Times(s, x) == 0
  {
    if s != [] {
      NotThere(s[..|s| - 1], x);
    }
  }
}
