/**
  The outgoing side of a peer connection as a state machine: buffers are pushed, merged into the last
  waiting one while that is short, and written one after the other. One of them may be pushed as the
  last one, behind which nothing is to be sent.
 */
module Outputs {
  import opened Common

  const MAX_TX_CHUNK: nat := 1024 * 1024

  datatype TxItem = TxItem(buff: seq<Byte>, final: bool)

  /** `item` is the current one: being written, the empty one that has ended the connection, or the last
      one, which has been written. */
  datatype Output = Output(queue: seq<TxItem>, item: Option<TxItem>, sending: bool, finished: bool)

  function NewOutput(): Output {
    Output([], None, false, false)
  }

  /** process_tx_queue, without a current item. */
  function Begun(o: Output): Output {
    if o.queue == [] then o
    else
      var item := o.queue[0];
      Output(o.queue[1..], Some(item), item.buff != [], item.buff == [])
  }

  /** A buffer that is not the last one is merged. */
  predicate Merges(o: Output, final: bool) {
    !final && o.item.Some? && o.queue != [] && |o.queue[|o.queue| - 1].buff| < MAX_TX_CHUNK
  }

  /** push_write */
  function Push(o: Output, buff: seq<Byte>, final: bool): Output {
    var n := |o.queue|;
    if Merges(o, final) then
      o.(queue := o.queue[n - 1 := TxItem(o.queue[n - 1].buff + buff, o.queue[n - 1].final)])
    else
      var more := o.(queue := o.queue + [TxItem(buff, final)]);
      if o.item.None? then Begun(more) else more
  }

  /** on_write */
  function Written(o: Output): Output
    requires o.item.Some?
  {
    if o.item.value.final then o.(sending := false) else Begun(o.(item := None, sending := false))
  }

  // ----- What is waiting -----

  function Buffers(items: seq<TxItem>): seq<Byte> {
    if items == [] then [] else Buffers(items[..|items| - 1]) + items[|items| - 1].buff
  }

  /** The items that have not been written. */
  function Items(o: Output): seq<TxItem> {
    if o.item.Some? && (o.sending || o.finished) then [o.item.value] + o.queue else o.queue
  }

  /** The last one has been written. */
  predicate Ended(o: Output) {
    o.item.Some? && !o.sending && !o.finished
  }

  ghost predicate Coherent(o: Output) {
    && (o.sending ==> o.item.Some? && !o.finished && o.item.value.buff != [])
    && (o.item.None? ==> o.queue == [] && !o.finished)
    && (Ended(o) ==> o.item.value.final)
  }

  lemma {:induction false} BuffersConcat(a: seq<TxItem>, b: seq<TxItem>)
    ensures Buffers(a + b) == Buffers(a) + Buffers(b)
  {
    if b == [] {
      assert a + b == a;
    } else {
      var init := b[..|b| - 1];
      assert (a + b)[..|a + b| - 1] == a + init;
      BuffersConcat(a, init);
      assert Buffers(a) + Buffers(init) + b[|b| - 1].buff == Buffers(a) + (Buffers(init) + b[|b| - 1].buff);
    }
  }

  lemma BuffersOne(item: TxItem)
    ensures Buffers([item]) == item.buff
  {
    assert [item][..0] == [];
  }

  /** A merged buffer is the end of the last item. */
  lemma BuffersMerged(items: seq<TxItem>, buff: seq<Byte>)
    requires items != []
    ensures var n := |items| - 1;
      Buffers(items[n := TxItem(items[n].buff + buff, items[n].final)]) == Buffers(items) + buff
  {
    var n := |items| - 1;
    assert items[n := TxItem(items[n].buff + buff, items[n].final)][..n] == items[..n];
  }

  /** The items after a push. */
  lemma PushItems(o: Output, buff: seq<Byte>, final: bool)
    requires Coherent(o)
    ensures Coherent(Push(o, buff, final)) && Ended(Push(o, buff, final)) == Ended(o)
    ensures var items, n := Items(o), |Items(o)| - 1;
      Items(Push(o, buff, final))
      == if Merges(o, final) then items[n := TxItem(items[n].buff + buff, items[n].final)]
         else items + [TxItem(buff, final)]
  {
    var items, n := Items(o), |Items(o)| - 1;
    if !Merges(o, final) && o.item.None? {
      assert o.queue + [TxItem(buff, final)] == [TxItem(buff, final)];
    }
  }

  /** And after the current one has been written. */
  lemma WrittenItems(o: Output)
    requires Coherent(o) && o.sending
    ensures Coherent(Written(o)) && Items(o) == [o.item.value] + o.queue
    ensures Items(Written(o)) == o.queue && Ended(Written(o)) == o.item.value.final
  {
  }

  // ----- Runs -----

  datatype Op = PushOp(buff: seq<Byte>, final: bool) | WrittenOp

  ghost predicate IsRun(states: seq<Output>, ops: seq<Op>) {
    && |states| == |ops| + 1 && states[0] == NewOutput()
    && forall k :: 0 <= k < |ops| ==> Steps(states[k], ops[k], states[k + 1])
  }

  ghost predicate Steps(o: Output, op: Op, r: Output) {
    match op
    case PushOp(buff, final) => r == Push(o, buff, final)
    case WrittenOp => o.sending && o.item.Some? && r == Written(o)
  }

  /** All bytes pushed, and where the first buffer ends that was pushed as the last one. */
  function AllPushed(ops: seq<Op>): seq<Byte> {
    if ops == [] then []
    else AllPushed(ops[..|ops| - 1]) + match ops[|ops| - 1] case PushOp(buff, _) => buff case WrittenOp => []
  }

  function Ending(ops: seq<Op>): Option<nat> {
    if ops == [] then None
    else
      match Ending(ops[..|ops| - 1])
      case Some(e) => Some(e)
      case None => if ops[|ops| - 1].PushOp? && ops[|ops| - 1].final then Some(|AllPushed(ops)|) else None
  }

  /** The bytes that the transport has written. */
  ghost function Sent(states: seq<Output>, ops: seq<Op>, n: nat): seq<Byte>
    requires IsRun(states, ops) && n < |states|
  {
    if n == 0 then []
    else
      var before := Sent(states, ops, n - 1);
      if ops[n - 1] == WrittenOp then
        assert Steps(states[n - 1], ops[n - 1], states[n]);
        before + states[n - 1].item.value.buff
      else before
  }

  /** Short buffers are merged: a waiting item is long, is the last in the queue, or is followed by the one
      that was pushed as the last. */
  ghost predicate Coalesced(queue: seq<TxItem>) {
    forall k :: 0 <= k < |queue| - 1 ==> |queue[k].buff| >= 1048576 || queue[k + 1].final
  }

  lemma PushCoalesced(o: Output, buff: seq<Byte>, final: bool)
    requires Coherent(o) && Coalesced(o.queue)
    ensures Coalesced(Push(o, buff, final).queue)
  {
  }

  lemma OpsStep(ops: seq<Op>, n: nat)
    requires n < |ops|
    ensures AllPushed(ops[..n + 1])
         == AllPushed(ops[..n]) + match ops[n] case PushOp(buff, _) => buff case WrittenOp => []
    ensures Ending(ops[..n + 1])
         == if Ending(ops[..n]).Some? then Ending(ops[..n])
            else if ops[n].PushOp? && ops[n].final then Some(|AllPushed(ops[..n + 1])|) else None
  {
    assert ops[..n + 1][..n] == ops[..n];
  }

  /** In every state of every run: written and waiting bytes are the bytes pushed, in order. */
  lemma {:induction false} RunKeeps(states: seq<Output>, ops: seq<Op>, n: nat)
    requires IsRun(states, ops) && n < |states|
    ensures Coherent(states[n]) && Coalesced(states[n].queue)
    ensures Sent(states, ops, n) + Buffers(Items(states[n])) == AllPushed(ops[..n])
  {
    hide Push, Written, Coherent, Buffers, Items, AllPushed, Coalesced;
    if n == 0 {
      Start();
      assert ops[..0] == [];
    } else {
      RunKeeps(states, ops, n - 1);
      OpsStep(ops, n - 1);
      assert Steps(states[n - 1], ops[n - 1], states[n]);
      match ops[n - 1] {
        case PushOp(buff, final) => PushKeeps(states[n - 1], buff, final, Sent(states, ops, n - 1));
        case WrittenOp => WrittenKeeps(states[n - 1], Sent(states, ops, n - 1));
      }
    }
  }

  lemma Start()
    ensures Coherent(NewOutput()) && Coalesced(NewOutput().queue) && Items(NewOutput()) == []
    ensures [] + Buffers([]) == AllPushed([]) == []
  {
  }

  lemma PushKeeps(o: Output, buff: seq<Byte>, final: bool, sent: seq<Byte>)
    requires Coherent(o) && Coalesced(o.queue)
    ensures var r := Push(o, buff, final);
      && Coherent(r) && Coalesced(r.queue)
      && sent + Buffers(Items(r)) == sent + Buffers(Items(o)) + buff
  {
    hide Push, Coherent, Buffers, Items, Coalesced, Merges;
    PushCoalesced(o, buff, final);
    PushBuffers(o, buff, final);
    assert sent + (Buffers(Items(o)) + buff) == sent + Buffers(Items(o)) + buff;
  }

  lemma PushBuffers(o: Output, buff: seq<Byte>, final: bool)
    requires Coherent(o)
    ensures Coherent(Push(o, buff, final)) && Buffers(Items(Push(o, buff, final))) == Buffers(Items(o)) + buff
  {
    hide Push, Coherent, Buffers, Items, Merges;
    PushItems(o, buff, final);
    MergesLast(o, final);
    if Merges(o, final) {
      BuffersMerged(Items(o), buff);
    } else {
      BuffersConcat(Items(o), [TxItem(buff, final)]);
      BuffersOne(TxItem(buff, final));
    }
  }

  lemma WrittenKeeps(o: Output, sent: seq<Byte>)
    requires Coherent(o) && Coalesced(o.queue) && o.sending && o.item.Some?
    ensures var r := Written(o);
      && Coherent(r) && Coalesced(r.queue)
      && sent + o.item.value.buff + Buffers(Items(r)) == sent + Buffers(Items(o))
  {
    WrittenItems(o);
    WrittenCoalesced(o);
    hide Buffers, Items, Coherent, Coalesced, Written;
    BuffersConcat([o.item.value], o.queue);
    BuffersOne(o.item.value);
    assert sent + o.item.value.buff + Buffers(o.queue) == sent + (o.item.value.buff + Buffers(o.queue));
  }

  lemma WrittenCoalesced(o: Output)
    requires Coalesced(o.queue) && o.item.Some?
    ensures Coalesced(Written(o).queue)
  {
    assert forall k :: 0 <= k < |o.queue| - 1 ==> o.queue[1..][k] == o.queue[k + 1];
  }

  /** And not without limit: in every run with pushes of at most `largest` bytes, a waiting item has fewer
      than 1048576 bytes and one push more. */
  lemma {:induction false} RunBounded(states: seq<Output>, ops: seq<Op>, n: nat, largest: nat)
    requires IsRun(states, ops) && n < |states|
    requires forall k :: 0 <= k < |ops| && ops[k].PushOp? ==> |ops[k].buff| <= largest
    ensures Bounded(states[n].queue, largest)
  {
    if n > 0 {
      hide Push, Written, Bounded;
      RunBounded(states, ops, n - 1, largest);
      assert Steps(states[n - 1], ops[n - 1], states[n]);
      match ops[n - 1] {
        case PushOp(buff, final) => PushBounded(states[n - 1], buff, final, largest);
        case WrittenOp => WrittenBounded(states[n - 1], largest);
      }
    } else {
      assert states[0].queue == [];
    }
  }

  ghost predicate Bounded(queue: seq<TxItem>, largest: nat) {
    forall k :: 0 <= k < |queue| ==> |queue[k].buff| <= 1048575 + largest
  }

  lemma PushBounded(o: Output, buff: seq<Byte>, final: bool, largest: nat)
    requires Bounded(o.queue, largest) && |buff| <= largest
    ensures Bounded(Push(o, buff, final).queue, largest)
  {
  }

  lemma WrittenBounded(o: Output, largest: nat)
    requires Bounded(o.queue, largest) && o.item.Some?
    ensures Bounded(Written(o).queue, largest)
  {
  }

  // ----- The last message -----

  /** The bytes up to the end of the first item that was pushed as the last. */
  function UpToFinal(items: seq<TxItem>): Option<nat> {
    if items == [] then None
    else if items[0].final then Some(|items[0].buff|)
    else
      match UpToFinal(items[1..])
      case Some(n) => Some(|items[0].buff| + n)
      case None => None
  }

  lemma {:induction false} UpToFinalAppend(items: seq<TxItem>, item: TxItem)
    ensures UpToFinal(items + [item])
         == if UpToFinal(items).Some? then UpToFinal(items)
            else if item.final then Some(|Buffers(items)| + |item.buff|) else None
  {
    if items == [] {
      assert [item][1..] == [];
    } else {
      assert (items + [item])[1..] == items[1..] + [item];
      UpToFinalAppend(items[1..], item);
      assert items == [items[0]] + items[1..];
      BuffersConcat([items[0]], items[1..]);
      BuffersOne(items[0]);
    }
  }

  lemma {:induction false} NoFinal(items: seq<TxItem>)
    ensures UpToFinal(items).None? <==> forall k :: 0 <= k < |items| ==> !items[k].final
  {
    if items != [] {
      NoFinal(items[1..]);
      assert items == [items[0]] + items[1..];
    }
  }

  /** Where the connection will have ended, when `sent` bytes have been written. */
  function EndsAt(o: Output, sent: nat): Option<nat> {
    if Ended(o) then Some(sent)
    else
      match UpToFinal(Items(o))
      case Some(n) => Some(sent + n)
      case None => None
  }

  /** The message that was pushed as the last one is the last to be sent. */
  ghost predicate Tidy(o: Output, sent: nat, ending: Option<nat>) {
    EndsAt(o, sent) == ending
  }

  /** More bytes are merged into the item that was pushed as the last. */
  ghost predicate Disturbs(o: Output, op: Op) {
    var items, n := Items(o), |Items(o)| - 1;
    && op.PushOp? && op.buff != [] && Merges(o, op.final) && !Ended(o)
    && n >= 0 && items[n].final && forall k :: 0 <= k < n ==> !items[k].final
  }

  /** Bytes merged into the last item move the end iff that item is the first final one. */
  lemma MergedFinal(items: seq<TxItem>, buff: seq<Byte>)
    requires items != []
    ensures var n := |items| - 1;
      UpToFinal(items[n := TxItem(items[n].buff + buff, items[n].final)]) == UpToFinal(items)
      <==> !(buff != [] && items[n].final && forall k :: 0 <= k < n ==> !items[k].final)
  {
    var n := |items| - 1;
    var init, last, more := items[..n], items[n], TxItem(items[n].buff + buff, items[n].final);
    assert items == init + [last] && items[n := more] == init + [more];
    UpToFinalAppend(init, last);
    UpToFinalAppend(init, more);
    NoFinal(init);
    hide UpToFinal, Buffers;
  }

  /** A push keeps the last message last iff it is not merged into it. */
  lemma PushTidy(o: Output, buff: seq<Byte>, final: bool, sent: nat, ending: Option<nat>)
    requires Coherent(o) && Tidy(o, sent, ending)
    ensures var ending' := if ending.Some? then ending
                           else if final then Some(sent + |Buffers(Items(o))| + |buff|) else None;
      Tidy(Push(o, buff, final), sent, ending') <==> !Disturbs(o, PushOp(buff, final))
  {
    hide Push, Coherent, Items, Merges, UpToFinal, Buffers;
    PushItems(o, buff, final);
    MergesLast(o, final);
    if Merges(o, final) {
      MergedFinal(Items(o), buff);
    } else {
      UpToFinalAppend(Items(o), TxItem(buff, final));
    }
  }

  lemma MergesLast(o: Output, final: bool)
    ensures Merges(o, final) ==> Items(o) != [] && !final
  {
  }

  lemma WrittenTidy(o: Output, sent: nat, ending: Option<nat>)
    requires Coherent(o) && o.sending && o.item.Some? && Tidy(o, sent, ending)
    ensures Tidy(Written(o), sent + |o.item.value.buff|, ending)
  {
    WrittenItems(o);
    assert ([o.item.value] + o.queue)[1..] == o.queue;
  }

  ghost predicate TidyAt(states: seq<Output>, ops: seq<Op>, n: nat)
    requires IsRun(states, ops) && n < |states|
  {
    Tidy(states[n], |Sent(states, ops, n)|, Ending(ops[..n]))
  }

  lemma StepTidy(states: seq<Output>, ops: seq<Op>, n: nat)
    requires IsRun(states, ops) && n < |ops| && TidyAt(states, ops, n)
    ensures TidyAt(states, ops, n + 1) <==> !Disturbs(states[n], ops[n])
  {
    hide Push, Written, Coherent, Buffers, Items, AllPushed, Ending, Coalesced, Tidy, Disturbs;
    RunKeeps(states, ops, n);
    OpsStep(ops, n);
    var o, sent := states[n], Sent(states, ops, n);
    assert Steps(o, ops[n], states[n + 1]);
    assert |sent| + |Buffers(Items(o))| == |sent + Buffers(Items(o))|;
    match ops[n] {
      case PushOp(buff, final) => PushTidy(o, buff, final, |sent|, Ending(ops[..n]));
      case WrittenOp =>
        WrittenTidy(o, |sent|, Ending(ops[..n]));
        OnlyPushes(o, ops[n]);
    }
  }

  lemma OnlyPushes(o: Output, op: Op)
    requires op == WrittenOp
    ensures !Disturbs(o, op)
  {
  }

  lemma StartTidy(states: seq<Output>, ops: seq<Op>)
    requires IsRun(states, ops)
    ensures TidyAt(states, ops, 0)
  {
    assert ops[..0] == [];
  }

  /** Over every run: in all states the message that was pushed as the last one is the last to be sent, iff
      nothing was ever merged into it. */
  lemma RunTidy(states: seq<Output>, ops: seq<Op>)
    requires IsRun(states, ops)
    ensures (forall n :: 0 <= n < |states| ==> TidyAt(states, ops, n)) <==>
            (forall n :: 0 <= n < |ops| ==> !Disturbs(states[n], ops[n]))
  {
    hide TidyAt, Disturbs, Steps;
    if forall n :: 0 <= n < |states| ==> TidyAt(states, ops, n) {
      forall n | 0 <= n < |ops| ensures !Disturbs(states[n], ops[n]) {
        assert TidyAt(states, ops, n) && TidyAt(states, ops, n + 1);
        StepTidy(states, ops, n);
      }
    }
    if forall n :: 0 <= n < |ops| ==> !Disturbs(states[n], ops[n]) {
      forall n | 0 <= n < |states| ensures TidyAt(states, ops, n) {
        SafeTidy(states, ops, n);
      }
    }
  }

  lemma {:induction false} SafeTidy(states: seq<Output>, ops: seq<Op>, n: nat)
    requires IsRun(states, ops) && n < |states| && forall k :: 0 <= k < |ops| ==> !Disturbs(states[k], ops[k])
    ensures TidyAt(states, ops, n)
  {
    hide TidyAt, Disturbs, Steps;
    if n == 0 {
      StartTidy(states, ops);
    } else {
      SafeTidy(states, ops, n - 1);
      StepTidy(states, ops, n - 1);
    }
  }

  /** In a tidy state no byte behind the last message has been written, and once the connection has ended
      exactly the bytes up to its end have. */
  lemma TidyMeans(states: seq<Output>, ops: seq<Op>, n: nat)
    requires IsRun(states, ops) && n < |states| && TidyAt(states, ops, n)
    ensures var sent, ending := Sent(states, ops, n), Ending(ops[..n]);
      && sent <= AllPushed(ops[..n])
      && (ending.Some? ==> |sent| <= ending.value <= |AllPushed(ops[..n])|)
      && (Ended(states[n]) ==> ending == Some(|sent|))
  {
    RunKeeps(states, ops, n);
    UpToFinalBound(Items(states[n]));
    hide UpToFinal, Items, AllPushed, Ending, Coherent, Steps, Coalesced;
  }

  lemma {:induction false} UpToFinalBound(items: seq<TxItem>)
    ensures UpToFinal(items).Some? ==> UpToFinal(items).value <= |Buffers(items)|
  {
    if items != [] {
      UpToFinalBound(items[1..]);
      assert items == [items[0]] + items[1..];
      BuffersConcat([items[0]], items[1..]);
      BuffersOne(items[0]);
    }
  }

  /** A message is being written, a Close is pushed as the last one, and then one more message. */
  function ThreePushes(): seq<Op> {
    [PushOp([1], false), PushOp([2], true), PushOp([3], false), WrittenOp, WrittenOp]
  }

  function ThreeStates(): seq<Output> {
    var a, b, c := TxItem([1], false), TxItem([2], true), TxItem([2, 3], true);
    [NewOutput(), Output([], Some(a), true, false), Output([b], Some(a), true, false),
     Output([c], Some(a), true, false), Output([], Some(c), true, false), Output([], Some(c), false, false)]
  }

  lemma ThreePushesRun()
    ensures IsRun(ThreeStates(), ThreePushes())
  {
    var states, ops := ThreeStates(), ThreePushes();
    assert [2] + [3] == [2, 3];
    assert Steps(states[0], ops[0], states[1]) && Steps(states[1], ops[1], states[2]);
    assert Steps(states[2], ops[2], states[3]) && Steps(states[3], ops[3], states[4]);
    assert Steps(states[4], ops[4], states[5]);
  }

  /** The two are written together, and one byte goes out behind the end of the Close. */
  lemma MergedBehindLast()
    ensures var states, ops := ThreeStates(), ThreePushes();
      && IsRun(states, ops) && Ended(states[5])
      && Sent(states, ops, 5) == [1, 2, 3] && Ending(ops) == Some(2)
  {
    hide Push, Written, IsRun;
    ThreePushesRun();
    var states, ops := ThreeStates(), ThreePushes();
    assert Sent(states, ops, 1) == [] && Sent(states, ops, 2) == [] && Sent(states, ops, 3) == [];
    assert Sent(states, ops, 4) == [] + [1] && Sent(states, ops, 5) == [1] + [2, 3];
    assert ops[..0] == [] && ops[..5] == ops;
    OpsStep(ops, 0);
    OpsStep(ops, 1);
    OpsStep(ops, 2);
    OpsStep(ops, 3);
    OpsStep(ops, 4);
  }
}
