/**
  The transfer controller as the object that its handlers update, next to the cluster it shares with
  other controllers. Each handler computes the step of the same name of the state machine.
 */
module Controllers {
  import opened Common
  import opened RequestWindow
  import opened Transfers

  /** What became of a response. */
  datatype Answer = Taken | NotKnown | OutOfBounds

  class Cluster {
    var writeRequests: int

    constructor (budget: nat)
      ensures writeRequests == budget
    {
      writeRequests := budget;
    }

    method ModifyWriteRequests(delta: int)
      requires writeRequests + delta >= 0
      modifies this
      ensures writeRequests == old(writeRequests) + delta
    {
      writeRequests := writeRequests + delta;
    }
  }

  class Controller {
    const cluster: Cluster
    const blocksMaxRequested: nat
    const advancesPerIteration: nat
    var blockRequests: seq<Option<Context>>
    var blockRequestsNext: nat
    var rxBlocksRequested: nat
    var txBlocksRequested: int
    var requestPool: int
    var blockWriteQueue: seq<int>
    var blockReadQueue: seq<int>
    /** The requests on the wire, the batches at the file system and the history of the reads. */
    ghost var asked: map<nat, Context>
    ghost var fs: seq<seq<Cmd>>
    ghost var admitted: seq<int>
    ghost var issued: seq<int>
    ghost var completed: seq<int>

    constructor (cluster: Cluster, config: Config)
      requires 0 < config.max <= RING_MAX
      ensures this.cluster == cluster && View() == NewCtl(config) && Valid()
      ensures blocksMaxRequested == config.max && advancesPerIteration == config.limit
    {
      this.cluster := cluster;
      blocksMaxRequested, advancesPerIteration := config.max, config.limit;
      blockRequests, blockRequestsNext := seq(config.max, _ => None), 0;
      rxBlocksRequested, txBlocksRequested, requestPool := 0, 0, config.initial;
      blockWriteQueue, blockReadQueue := [], [];
      asked, fs, admitted, issued, completed := map[], [], [], [], [];
    }

    ghost function View(): Ctl
      reads this
    {
      Ctl(Window(blockRequests, blockRequestsNext, rxBlocksRequested, requestPool, asked),
          Reads(txBlocksRequested, blockReadQueue, admitted, issued, completed), blockWriteQueue, fs)
    }

    ghost predicate Valid()
      reads this
    {
      |blockRequests| == blocksMaxRequested && blockRequestsNext < blocksMaxRequested
    }

    ghost function Here(io: seq<Cmd>): Handler
      reads this, cluster
    {
      Handler(View(), cluster.writeRequests, io)
    }

    /** push_checked */
    method PushChecked(id: int, io: seq<Cmd>) returns (io': seq<Cmd>)
      requires cluster.writeRequests >= 0
      modifies this`blockWriteQueue, cluster
      ensures Here(io') == PushWrite(old(Here(io)), id) && cluster.writeRequests >= 0
      ensures old(cluster.writeRequests) == 0 ==> io' == io && blockWriteQueue == old(blockWriteQueue) + [id]
      ensures old(cluster.writeRequests) > 0 ==>
        io' == io + [Write(id)] && blockWriteQueue == old(blockWriteQueue)
        && cluster.writeRequests == old(cluster.writeRequests) - 1
    {
      io' := io;
      if cluster.writeRequests != 0 {
        io' := io + [Write(id)];
        cluster.ModifyWriteRequests(-1);
      } else {
        blockWriteQueue := blockWriteQueue + [id];
      }
    }

    /** The destructor of a stack context. */
    method Destruct(commands: seq<Cmd>)
      requires cluster.writeRequests >= 0
      modifies this`blockWriteQueue, this`blockReadQueue, this`txBlocksRequested, this`fs, this`issued, cluster
      ensures Here([]) == Flush(old(Here(commands))) && cluster.writeRequests >= 0
    {
      hide ReadsOf;
      ghost var start := Here(commands);
      var io := commands;
      var left, sent := cluster.writeRequests, 0;
      while left > 0 && blockWriteQueue != []
        invariant sent >= 0 && left >= 0 && left + sent == cluster.writeRequests == start.budget
        invariant DrainWrites(Handler(View(), left, io)) == DrainWrites(start)
        decreases |blockWriteQueue|
      {
        io := io + [Write(blockWriteQueue[0])];
        left, sent := left - 1, sent + 1;
        blockWriteQueue := blockWriteQueue[1..];
      }
      if sent > 0 {
        cluster.ModifyWriteRequests(-sent);
      }
      assert Here(io) == DrainWrites(start);
      SendReads(io, start);
    }

    /** The rest of the destructor: reads while there is room, then one batch to the file system. */
    method SendReads(commands: seq<Cmd>, ghost start: Handler)
      requires Here(commands) == DrainWrites(start)
      modifies this`blockReadQueue, this`txBlocksRequested, this`fs, this`issued
      ensures Here([]) == Flush(start)
    {
      hide DrainWrites;
      var io, maxBlockRead := commands, |blockRequests| * TX_BLOCKS_MAX_FACTOR;
      while blockReadQueue != [] && txBlocksRequested <= maxBlockRead
        invariant maxBlockRead == MaxReads(View())
        invariant DrainReads(Here(io)) == DrainReads(DrainWrites(start))
        decreases |blockReadQueue|
      {
        ghost var h := Here(io);
        txBlocksRequested := txBlocksRequested + 1;
        io := io + [Read(blockReadQueue[0])];
        blockReadQueue := blockReadQueue[1..];
        assert Here(io) == SendRead(h);
      }
      if io != [] {
        issued := issued + ReadsOf(io);
        fs := fs + [io];
      }
    }

    /** The ring scan and the bookkeeping of a request that is sent to the peer. */
    method RequestBlock(c: Context)
      requires Valid()
      modifies this`blockRequests, this`blockRequestsNext, this`rxBlocksRequested, this`requestPool, this`asked
      ensures Valid()
      ensures View() == old(View()).(window := RequestWindow.Fetch(old(View().window), c))
    {
      var id: nat := blockRequestsNext;
      var i := 0;
      while i < blocksMaxRequested && blockRequests[id].Some?
        invariant 0 <= i <= blocksMaxRequested && id < blocksMaxRequested
        invariant Scan(blockRequests, id, blocksMaxRequested - i)
               == Scan(blockRequests, blockRequestsNext, blocksMaxRequested)
      {
        id := id + 1;
        if id >= blocksMaxRequested {
          id := 0;
        }
        i := i + 1;
      }
      if blockRequests[id].None? {
        blockRequestsNext := if id + 1 >= blocksMaxRequested then 0 else id + 1;
      }
      blockRequests := blockRequests[id := Some(c)];
      rxBlocksRequested := Up(rxBlocksRequested);
      requestPool := requestPool - c.size;
      asked := asked[id := c];
    }

    /** pull_next over what the iterators offer. */
    method PullNext(pulls: seq<Pull>, commands: seq<Cmd>) returns (io: seq<Cmd>)
      requires Valid() && cluster.writeRequests >= 0
      modifies this`blockRequests, this`blockRequestsNext, this`rxBlocksRequested, this`requestPool, this`asked
      modifies this`blockWriteQueue, cluster
      ensures Valid() && cluster.writeRequests >= 0
      ensures Here(io) == Transfers.PullNext(old(Here(commands)), pulls, 0, advancesPerIteration)
    {
      ghost var start := Here(commands);
      io := commands;
      var advances, k := 0, 0;
      assert pulls[0..] == pulls;
      while k < |pulls| && !(rxBlocksRequested >= blocksMaxRequested || requestPool < 0
                             || cluster.writeRequests == 0 || advances > advancesPerIteration)
        invariant 0 <= k <= |pulls| && advances >= 0 && Valid() && cluster.writeRequests >= 0
        invariant Transfers.PullNext(Here(io), pulls[k..], advances, advancesPerIteration)
               == Transfers.PullNext(start, pulls, 0, advancesPerIteration)
        decreases |pulls| - k
      {
        ghost var h := Here(io);
        match pulls[k] {
          case Clone(id) => io := PushChecked(id, io);
          case Fetch(ctx) => RequestBlock(ctx);
          case Plain(id) => io := io + [Other(id)];
          case Skip(advance) => advances := if advance then advances + 1 else advances;
        }
        assert Here(io) == PullOne(h, pulls[k]);
        assert pulls[k..][1..] == pulls[k + 1..];
        k := k + 1;
      }
    }

    /** on_message(Request) */
    method OnRequest(id: int, served: bool, commands: seq<Cmd>) returns (io: seq<Cmd>)
      requires Valid()
      modifies this`txBlocksRequested, this`blockReadQueue, this`admitted
      ensures Here(io) == AdmitRead(old(Here(commands)), id, served)
    {
      io := commands;
      if served {
        admitted := admitted + [id];
        if txBlocksRequested > blocksMaxRequested * TX_BLOCKS_MAX_FACTOR {
          blockReadQueue := blockReadQueue + [id];
        } else {
          txBlocksRequested := txBlocksRequested + 1;
          io := io + [Read(id)];
        }
      }
    }

    /** The slot of an answered request is freed; the count of open requests is down already. */
    method Answered(id: nat, good: bool)
      requires Valid() && id < |blockRequests| && blockRequests[id].Some?
      modifies this`blockRequests, this`blockRequestsNext, this`requestPool, this`asked
      ensures Valid()
      ensures View() == old(View()).(window := Freed(old(View().window), id, good))
      ensures requestPool == old(requestPool) + if good then old(blockRequests[id]).value.size else 0
    {
      var context := blockRequests[id];
      blockRequests := blockRequests[id := None];
      blockRequestsNext := id;
      asked := asked - {id};
      if good {
        requestPool := requestPool + context.value.size;
      }
    }

    /** on_message(Response). An id outside the ring, or without a request, ends the connection; the id
        right behind the ring passes the range test, and the program reads past the end of the ring. */
    method OnResponse(id: int, good: bool, pulls: seq<Pull>, commands: seq<Cmd>) returns (io: seq<Cmd>, answer: Answer)
      requires Valid() && cluster.writeRequests >= 0
      modifies this, cluster
      ensures Valid() && cluster.writeRequests >= 0
      ensures answer == Taken <==> Known(old(Here(commands)), id)
      ensures answer == OutOfBounds <==> id == old(|blockRequests|)
      ensures answer == Taken ==>
        Here(io) == Transfers.OnResponse(old(Here(commands)), id, good, pulls, advancesPerIteration)
      ensures answer != Taken ==> Here(io) == Refused(old(Here(commands)))
    {
      hide Transfers.PullNext, Flush, Freed, PassesRange;
      io, answer := commands, Taken;
      rxBlocksRequested := Down(rxBlocksRequested);
      RangeTestExact(id, |blockRequests|);
      if !PassesRange(id, |blockRequests|) {
        return commands, NotKnown;
      }
      if id == |blockRequests| {
        return commands, OutOfBounds;
      }
      if blockRequests[id].None? {
        return commands, NotKnown;
      }
      Answered(id, good);
      io := PullNext(pulls, io);
      Destruct([]);
    }

    /** on_forward: `down` if the connection is to be closed, which happens later; `broken` if the
        program has left the ring, and then nothing more is promised. */
    method OnForward(msgs: seq<Msg>) returns (down: bool, broken: bool)
      requires Valid() && cluster.writeRequests >= 0
      modifies this, cluster
      ensures Valid() && cluster.writeRequests >= 0
      ensures broken <==> exists k :: 0 <= k < |msgs| && msgs[k].ResponseMsg? && msgs[k].id == blocksMaxRequested
      ensures !broken ==>
        Here([]) == Handle(old(View()), old(cluster.writeRequests), Forward(msgs), advancesPerIteration)
      ensures !broken ==> (down <==> SomeRefused(old(Here([])), msgs, advancesPerIteration))
    {
      hide Transfers.OnResponse, AdmitRead, Flush, Known, Refused;
      ghost var start := Here([]);
      var io: seq<Cmd> := [];
      down, broken := false, false;
      assert msgs[0..] == msgs;
      for k := 0 to |msgs|
        invariant Valid() && cluster.writeRequests >= 0 && !broken
        invariant forall j :: 0 <= j < k && msgs[j].ResponseMsg? ==> msgs[j].id != blocksMaxRequested
        invariant OnMessages(Here(io), msgs[k..], advancesPerIteration) == OnMessages(start, msgs, advancesPerIteration)
        invariant SomeRefused(start, msgs, advancesPerIteration)
             <==> down || SomeRefused(Here(io), msgs[k..], advancesPerIteration)
      {
        assert msgs[k..][0] == msgs[k] && msgs[k..][1..] == msgs[k + 1..];
        match msgs[k]
        case RequestMsg(id, served) => io := OnRequest(id, served, io);
        case ResponseMsg(id, good, pulls) =>
          var answer;
          io, answer := OnResponse(id, good, pulls, io);
          if answer == OutOfBounds {
            return down, true;
          }
          down := down || answer == NotKnown;
        case OtherMsg =>
      }
      Destruct(io);
    }

    /** The loop of on_postprocess_io over the commands of a batch; `errors` tells which of them failed.
        A command that failed ends the connection, except for a read, which is answered with an error. */
    method Postprocess(commands: seq<Cmd>, errors: seq<bool>) returns (down: bool)
      requires Valid() && cluster.writeRequests >= 0 && |errors| == |commands|
      modifies this`txBlocksRequested, this`completed, cluster
      ensures Valid() && cluster.writeRequests >= 0
      ensures Here([]) == Completed(old(Here([])), commands)
      ensures down <==> exists i :: 0 <= i < |commands| && !commands[i].Read? && errors[i]
    {
      ghost var taken := Here([]);
      down := false;
      for i := 0 to |commands|
        invariant Valid() && cluster.writeRequests >= 0
        invariant Here([]) == Completed(taken, commands[..i])
        invariant down <==> exists j :: 0 <= j < i && !commands[j].Read? && errors[j]
      {
        assert commands[..i + 1][..i] == commands[..i];
        match commands[i]
        case Read(id) =>
          txBlocksRequested := txBlocksRequested - 1;
          completed := completed + [id];
        case Write(_) =>
          cluster.ModifyWriteRequests(1);
          down := down || errors[i];
        case Other(_) => down := down || errors[i];
      }
      assert commands[..|commands|] == commands;
    }

    /** on_postprocess_io: batch number `k` has come back from the file system. */
    method OnPostprocessIo(commands: seq<Cmd>, errors: seq<bool>, ghost k: nat, pulls: seq<Pull>) returns (down: bool)
      requires Valid() && cluster.writeRequests >= 0 && k < |fs| && commands == fs[k] && |errors| == |commands|
      modifies this, cluster
      ensures Valid() && cluster.writeRequests >= 0
      ensures Here([]) == Handle(old(View()), old(cluster.writeRequests), IoDone(k, pulls), advancesPerIteration)
      ensures down <==> exists i :: 0 <= i < |commands| && !commands[i].Read? && errors[i]
    {
      hide Transfers.PullNext, Flush;
      ghost var start := Here([]);
      fs := WithoutBatch(fs, k);
      down := Postprocess(commands, errors);
      assert Here([]) == Return(start, k);
      var io := PullNext(pulls, []);
      Destruct(io);
    }

    /** on_digest: a block that arrived intact is written, otherwise the next one is pulled. */
    method OnDigest(block: Option<int>, pulls: seq<Pull>)
      requires Valid() && cluster.writeRequests >= 0
      modifies this, cluster
      ensures Valid() && cluster.writeRequests >= 0
      ensures Here([]) == Handle(old(View()), old(cluster.writeRequests), Digest(block, pulls), advancesPerIteration)
    {
      hide Transfers.PullNext, Flush;
      var io: seq<Cmd> := [];
      if block.Some? {
        io := PushChecked(block.value, io);
      } else {
        io := PullNext(pulls, io);
      }
      Destruct(io);
    }
  }
}
