# Verification of syncspirit's core

syncspirit is a synchroniser that speaks the Block Exchange Protocol (BEP v1). This project models the
parts of it whose correctness spans several functions, and proves what they promise, for all inputs
and all runs. `dafny verify dfyconfig.toml` checks everything.

| files | component |
|---|---|
| `BlockGraph`, `BlockRuns`, `CounterWord`, `FileInfos` | files and blocks that point at each other, the packed word and the tagged union of a block |
| `Versions`, `Replicas` | version vectors, and replicas that exchange them |
| `Bep`, `BepParser`, `Outputs`, `Peers` | frames, reassembly of a stream of frames, merging and writing of outgoing bytes |
| `RequestWindow`, `Transfers`, `Journals`, `Controllers` | flow control of transfer controllers that share one write budget, and what becomes of all that they take on |
| `FolderTree` | the tree of a folder's entities with its orphans |
| `Hashers`, `UpdatesMediator` | choice of a hasher, masks for file system events |
| `Luhn32`, `Base32`, `DeviceIds`, `IdTexts` | device ids as text |
| `BlockDivision` | cutting a file into blocks, and what is computed from the blocks |
| `Common` | types that several modules share |

Objects that the program updates in place are classes here. Each of their methods is proved to compute
a function on plain values, and the laws are lemmas about those functions: `FileInfos` against graphs,
`Controllers` against the state machine of `Transfers`, `Peers` against `BepParser`, and so on.

## What does not hold

Some properties that one would expect are false of the code. In each case the code is modelled as it
is, the exact condition under which the property holds is proved, and a lemma gives an input that
breaks it.

* A new link of a block is marked as locally available when any other link of the block is, so
  "a block has an available link to a file iff a slot of the file is LOCAL" can break when a block is
  assigned or a file is updated. Condition: `BlockRuns.RunBits`; example, reached by a run:
  `BlockRuns.SharedBlockReached`, `BlockRuns.StaleAvailability`.
* The same mark misleads `file_info_t::update`: a slot becomes LOCAL when a block with its hash had an
  available link to the file, even if no slot of the file was LOCAL. A file with nothing on disk can so
  be reported as locally available. Condition, on the state before the call:
  `BlockRuns.UpdateLocalExact`; it holds throughout a run of safe steps (`BlockRuns.RunLocal`);
  example, reached by a run: `BlockRuns.ThreeHoldersReached`, `BlockRuns.InventedCopy`.
* `version_t::update` leaves an older "best" mark in place, so a version that is not re-read from its
  wire form may be "contained" in its own predecessor. Condition: `Replicas.UpdateWithoutReread`;
  example: `Replicas.StaleMarkExample`.
* `file_info_t::get_size` multiplies two 32-bit numbers, so it is wrong from 4 GiB on. Condition:
  `BlockDivision.GetSizeExact`; example: `BlockDivision.GetSizeWraps`.
* The offset of a `Request` is cut to 32 bits, so it is wrong from 2 GiB on. Condition:
  `BlockDivision.RequestOffsetExact`; example: `BlockDivision.RequestOffsetWraps`.
* A rename that is masked for a later generation gives the old path the masks of the new path as well.
  Condition: `UpdatesMediator.RenameCounts`; example: `UpdatesMediator.RenameExample`.
* `luhn32::validate` accepts a character outside of the alphabet (`0`, `1`, `8`, `9`, lower case) in the
  place of one letter, `7` or `P` depending on the place; a debug build stops at an assertion instead.
  Condition: `Luhn32.SubstitutionExact`; example: `Luhn32.ForeignExample`. In a device id such a
  character is refused when it is decoded (`DeviceIds.MistypedIdRejected`), unless it is a byte above 127, as the
  next item says.
* `base32::decode` turns a `char` into an index, so a byte above 127 is looked up far past the table of
  code points; the table has 255 entries, so `luhn32::validate` leaves it at a byte of 255. An empty text
  is read past its end. Condition: `Base32.Decode`, `Luhn32.Validate`, and for a whole id
  `DeviceIds.FromString`; for one wrong character in an id, `DeviceIds.MistypedIdRejected`; example:
  `DeviceIds.NegativeExample`.
* A text that reads as a hash need not be the text of that hash: characters behind the 56th that is not a
  dash are ignored, dashes may stand anywhere, a missing letter is made up for by what the buffer still
  holds, and four bits of the last letter are not looked at. Condition: `IdTexts.TextExactly`; examples,
  for any hash: `IdTexts.JunkIgnored`, `IdTexts.LeftoverRead`, `IdTexts.PaddingIgnored`.
* The message that is pushed as the last one, a Close, need not be the last on the wire: what is pushed
  after it is merged into it while it waits behind another one. Condition, over every run:
  `Outputs.RunTidy`; example: `Outputs.MergedBehindLast`.
* The range test on the id of a `Response` accepts the size of the ring, and the program then reads past
  the end of the ring. Condition, with that id as its only exception: `RequestWindow.RangeTestExact`;
  example: `RequestWindow.RangeTestExample`.
* The division of a file into blocks does not make up the file once the number of blocks needs more than
  31 bits. Condition: `BlockDivision.GetBlockSize`; example: `BlockDivision.CountWraps`.

## Model

| member | source | states |
|---|---|---|
| `BlockGraph.AssignKeeps` | src/model/file_info.cpp:475-483 | assigning a block to an empty slot keeps slots and links in agreement: slot i of file f holds block b iff b has exactly one link (f, i), LOCAL slots are linked and references cover links |
| `BlockGraph.UnlinkIndices` | src/model/block_info.cpp:148-180 | the indices that unlink returns are exactly the slots that hold the block, so "at least one block has been removed" never fails for a held block |
| `BlockGraph.RemoveBlockSlots` | src/model/file_info.cpp:496-506 | removing a block empties exactly the slots that hold it, however often it repeats in the file |
| `BlockGraph.RemoveBlockKeeps` | src/model/file_info.cpp:496-506 | removing a block keeps slots and links in agreement |
| `BlockGraph.RemoveAllKeeps` | src/model/file_info.cpp:485-494 | giving up all blocks keeps slots and links in agreement |
| `BlockGraph.PartlyDone` | src/model/file_info.cpp:485-494 | removing blocks slot by slot, where one round may empty later slots, ends in the closed form: no slot holds a block and no block links to the file |
| `BlockGraph.MarkLocalKeeps` | src/model/file_info.cpp:423-448 | marking a slot available keeps slots and links in agreement |
| `BlockGraph.MarkFirstLocality` | src/model/block_info.cpp:182-196 | marking reaches a link to the file iff there is one, and changes no bit of another file |
| `BlockRuns.LinksCountSlots` | src/model/file_info.cpp:475-506 | a block has one link for each slot that holds it, over all files |
| `BlockRuns.UpdateSlots` | src/model/file_info.cpp:544-620 | update keeps both sides in agreement; slot i becomes LOCAL iff some block with its hash had an available link to the file before; other files are untouched; the file is available iff all its slots are LOCAL |
| `BlockRuns.UpdateLocalExact` | src/model/file_info.cpp:566-618 | after update every slot is LOCAL iff a LOCAL slot of the file had its hash before, for all slots, iff no hash that is taken over is known from an available link alone |
| `BlockRuns.UpdateFromItself` | src/model/file_info.cpp:603-618 | a file updated from itself keeps its size and loses its blocks |
| `BlockRuns.ApplyKeeps` | src/model/file_info.cpp:475-506 | every operation on any set of files and blocks keeps both sides in agreement |
| `BlockRuns.ApplySlots` | src/model/file_info.cpp:423-506 | what every operation makes of the slots: which slot holds which block, with which LOCAL bit, and that other files are untouched |
| `BlockRuns.RefsFollowSlots` | src/model/file_info.cpp:475-506 | the reference counter of a block moves by exactly the number of slots gained or lost |
| `BlockRuns.Reachable` | src/model/file_info.cpp:475-506 | in every state of every run: slot i of f holds b iff b has exactly one link (f, i) and otherwise none; the counter is the number of slots plus the references held elsewhere; a held block is alive and can be unlinked |
| `BlockRuns.AssignBits` | src/model/misc/file_block.cpp:10-15 | assigning a block keeps slot bits and link bits in agreement iff the block has no available copy, or one in this file |
| `BlockRuns.UpdateBits` | src/model/file_info.cpp:603-618 | update keeps slot bits and link bits in agreement iff no block that is taken without being local is available through another file |
| `BlockRuns.ApplyBits` | src/model/file_info.cpp:423-448 | a step of any kind keeps the bits in agreement iff it is safe, a condition on the state before it |
| `BlockRuns.RunBits` | src/model/block_info.cpp:182-206 | over every run: available links and LOCAL slots agree in all states iff every step was safe when it was taken |
| `BlockRuns.RunLocal` | src/model/file_info.cpp:566-618 | in every state of a run of safe steps, available links and LOCAL slots know the same hashes of a file, and update leaves a slot LOCAL iff a LOCAL slot had its hash |
| `BlockRuns.RunReported` | src/model/file_info.cpp:436-460 | in every state of every run a regular file is reported as locally available iff all its slots are LOCAL |
| `BlockRuns.SharedBlockReached` | src/model/file_info.cpp:475-483 | the state that the next two examples start from is reached by a run |
| `BlockRuns.BornAvailable` | src/model/misc/file_block.cpp:10-15 | an example: a link that is available although nothing of its file is on disk |
| `BlockRuns.StaleAvailability` | src/model/block_info.cpp:198-206 | an example: a block that reports an available copy while no slot of any file has one |
| `BlockRuns.ThreeHoldersReached` | src/model/file_info.cpp:475-483 | the state that the next example starts from is reached by a run |
| `BlockRuns.InventedCopy` | src/model/file_info.cpp:566-618 | an example: a file without any LOCAL slot is updated and then reported as locally available |
| `CounterWord.LockIsolated` | src/model/block_info.cpp:210-218 | locking and unlocking disturb neither the tag nor the reference counter |
| `CounterWord.SingleIsolated` | src/model/block_info.cpp:123-180 | setting and clearing the tag disturbs neither the lock nor the counter |
| `CounterWord.IncrementIsolated` | src/model/block_info.cpp:220-225 | taking a reference counts one up and disturbs neither lock nor tag iff there are fewer than 2^30 - 1 |
| `CounterWord.DecrementIsolated` | src/model/block_info.cpp:227-233 | dropping a reference counts one down and disturbs neither lock nor tag iff there is one |
| `CounterWord.Masks` | src/model/block_info.h:31-33 | the complement of lock and tag are the lower thirty bits |
| `CounterWord.PackedIndex` | src/model/misc/file_block.cpp:10-15 | a link marked as available still tells its index iff the index leaves the upper bit free |
| `CounterWord.MarkIsolated` | src/model/misc/file_block.cpp:36-46 | marking a link sets or clears the upper bit and leaves the index alone |
| `FileInfos.EraseLinks` | src/model/block_info.cpp:160-169 | the erasing loop keeps the other links in order and returns the removed indices in order |
| `FileInfos.BlockInfo.Next` | src/model/block_info.cpp:19-34 | iteration yields the sequence of links that the union stands for |
| `FileInfos.BlockInfo.LocalFile` | src/model/block_info.cpp:198-206 | the first available link, found iff there is one |
| `FileInfos.BlockInfo.HasLocalLink` | src/model/file_info.cpp:574-580 | whether the block has an available link to the file |
| `FileInfos.BlockInfo.AddLink` | src/model/block_info.cpp:123-146 | link appends to the sequence; the tag says "single" iff there is exactly one link; lock and counter stay |
| `FileInfos.BlockInfo.Unlink` | src/model/block_info.cpp:148-180 | unlink filters the sequence and returns the removed indices; the tag follows; lock and counter stay |
| `FileInfos.BlockInfo.MarkLocalAvailable` | src/model/block_info.cpp:182-196 | marks the first link to the file and no other |
| `FileInfos.BlockInfo.Lock` | src/model/block_info.cpp:210-213 | takes the lock; tag, links and counter stay |
| `FileInfos.BlockInfo.Unlock` | src/model/block_info.cpp:215-218 | releases the lock; tag, links and counter stay |
| `FileInfos.BlockInfo.AddRef` | src/model/block_info.cpp:220-225 | counts one reference up; tag and lock stay |
| `FileInfos.BlockInfo.Release` | src/model/block_info.cpp:227-233 | counts one reference down and reports what is left; tag and lock stay |
| `FileInfos.FileInfo.AssignBlock` | src/model/file_info.cpp:475-483 | turns the graph of objects into the assigned graph and keeps it sound |
| `FileInfos.FileInfo.MarkLocalAvailable` | src/model/file_info.cpp:423-448 | turns the graph into the marked graph and keeps it sound |
| `FileInfos.FileInfo.CountLocal` | src/model/file_info.cpp:436-444 | the count equals the number of slots iff all slots are LOCAL |
| `FileInfos.FileInfo.RemoveBlock` | src/model/file_info.cpp:496-506 | turns the graph into the one without the block's links to the file and keeps it sound |
| `FileInfos.FileInfo.RemoveBlocks` | src/model/file_info.cpp:485-494 | a regular file gives up all its blocks, any other file is left alone |
| `FileInfos.FileInfo.ReserveBlocks` | src/model/file_info.cpp:367-370 | all blocks are given up and the slots resized |
| `FileInfos.FileInfo.CollectLocal` | src/model/file_info.cpp:566-582 | the hashes of the blocks that have an available link to the file |
| `FileInfos.FileInfo.Update` | src/model/file_info.cpp:544-620 | turns the graph into the updated graph and keeps it sound, unless a file that is not regular is to take blocks, where the source's assertion fails |
| `FileInfos.FileInfo.UpdateThenQuery` | src/model/file_info.cpp:544-620 | after a regular file has been updated from another, slot i is LOCAL iff some block with its hash had an available link to the file before; this is what the LOCAL slots before say iff no such link stood alone; the file is reported available iff all slots are LOCAL |
| `FileInfos.FileInfo.Destroy` | src/model/file_info.cpp:171-193 | the file leaves the graph with all links to it; every reference it held is released |
| `Versions.Version.Read` | src/model/version.cpp:15-33 | the constructor marks the first greatest counter of the wire form |
| `Versions.Version.ToProto` | src/model/version.cpp:43-50 | the wire form has the same counters without marks |
| `Versions.Version.Update` | src/model/version.cpp:52-81 | the device's counter takes the least value that is at least the clock and above every marked counter |
| `Versions.Version.GetBest` | src/model/version.cpp:83-92 | the last marked counter, without its mark |
| `Versions.Version.Contains` | src/model/version.cpp:94-108 | the one-counter test |
| `Versions.Version.IdenticalTo` | src/model/version.cpp:110-130 | true iff the wire forms are equal |
| `Replicas.CanonicalBest` | src/model/version.cpp:83-92 | in a re-read version the best counter is the first greatest one and the only marked one |
| `Replicas.AdvanceFacts` | src/model/version.cpp:52-81 | an update that is re-read changes the device's counter only, and makes it greater than all counters before |
| `Replicas.UpdateAdvances` | src/model/version.cpp:52-108 | an updated version, once re-read, contains its predecessor and is never contained in it |
| `Replicas.UpdateWithoutReread` | src/model/version.cpp:52-108 | without re-reading, the predecessor claims to contain the update iff the device's counter stands before the marked one |
| `Replicas.StaleMarkExample` | src/model/version.cpp:52-81 | an example of two marks in one version |
| `Replicas.AdoptKeeps` | src/model/file_info.cpp:560 | taking over a version that contains one's own keeps all versions causally ordered |
| `Replicas.RunCausal` | src/model/version.cpp:52-108 | every reachable state of any number of replicas is causally ordered |
| `Replicas.ContainsIsDominance` | src/model/version.cpp:94-108 | for any two versions ever held, the one-counter test equals pointwise dominance |
| `Bep.LayOut` | src/proto/bep_support.cpp:300-326 | the message, or its size and its compressed form, ends up behind room for the header |
| `Bep.Serialize` | src/proto/bep_support.cpp:281-342 | the bytes are the frame whose format on the wire `BepParser.WireFormat` states |
| `BepParser.WireFormat` | src/proto/bep_support.cpp:281-342 | the frame in numbers, most significant byte first: header size, header, message size, message; the header says LZ4 iff the message has more than 128 bytes and the policy is "always", or "metadata" with any kind but Response, and then the size of the message and its compressed form follow |
| `BepParser.ParseExact` | src/proto/bep_support.cpp:137-175 | on any bytes: a Hello is told by its magic, and nothing is consumed iff fewer bytes are there than the sizes announce |
| `BepParser.ParseIgnoresBeyond` | src/proto/bep_support.cpp:163-175 | bytes behind the view are looked at but never matter |
| `BepParser.FrameRoundTrip` | src/proto/bep_support.cpp:137-234 | for every message, policy and trailing bytes, parsing a frame yields the message and consumes exactly the frame |
| `BepParser.FramePrefix` | src/proto/bep_support.cpp:137-175 | every strict prefix of a frame consumes nothing |
| `BepParser.FrameIsNotHello` | src/proto/bep_support.cpp:143-146 | no frame starts with the magic of a Hello |
| `BepParser.PrintedIsFrame` | src/proto/bep_support.cpp:281-342 | a printed message is recognised as soon as, and not before, all its bytes are there |
| `BepParser.ReadLoopOnPrefix` | src/net/peer_actor.cpp:216-232 | one pass over a prefix of a stream handles exactly its complete frames up to the first Close |
| `BepParser.ExpectedContinues` | src/net/peer_actor.cpp:216-242 | the loop restarted on the kept and the new bytes goes on as if it had never stopped |
| `BepParser.AnySplit` | src/net/peer_actor.cpp:201-252 | however a stream is cut into reads, the same messages are handled, once each and in order, and the kept bytes are the unparsed suffix |
| `BepParser.ExpectedWhole` | src/net/peer_actor.cpp:201-252 | once the stream has arrived, all messages up to the first Close have been handled and without a Close nothing is kept |
| `BepParser.ExpectedFits` | src/net/peer_actor.cpp:157-161 | a buffer that holds every frame never fills up |
| `Peers.Reader.ReadControlled` | src/net/peer_actor.cpp:370-402 | a message of a kind other than Ping, Close and DownloadProgress goes to the batch, or waits for a controller; reading stops at a Close |
| `Peers.Reader.ParseReceived` | src/net/peer_actor.cpp:209-232 | the parse loop computes the outcome of the buffer |
| `Peers.Reader.OnRead` | src/net/peer_actor.cpp:201-252 | messages are delivered or queued, and the unparsed suffix moves to the front of the buffer; reading goes on iff no Close was handled, no final message was pushed and there is room |
| `Peers.Reader.Compact` | src/net/peer_actor.cpp:234-242 | the unparsed bytes move to the front |
| `Peers.Reader.OnControllerUp` | src/net/peer_actor.cpp:319-331 | everything queued is delivered, in order, and the queue is empty |
| `Peers.Reader.Receive` | src/net/peer_actor.cpp:201-252 | after each chunk of a well-formed stream, delivered and queued messages together are those of the complete frames, with or without a controller |
| `Peers.Reader.Attach` | src/net/peer_actor.cpp:319-331 | when the controller comes up, at any moment, it has all messages so far, once each and in order |
| `Peers.Reader.ReadNothing` | src/net/peer_actor.cpp:201-252 | a new reader is in the state after no bytes of any well-formed stream |
| `Peers.ReceiveAll` | src/net/peer_actor.cpp:201-252 | a stream arrives in any chunks and the controller comes up after any number of them: what it receives is a subsequence of the messages of the complete frames up to the first Close, with every ClusterConfig, Index, IndexUpdate, Request and Response as often as it was sent and no Ping, Close or DownloadProgress; the kept bytes are the unparsed suffix |
| `Peers.Writer.ProcessTxQueue` | src/net/peer_actor.cpp:97-122 | the next item becomes the current one; an empty one ends the connection |
| `Peers.Writer.PushWrite` | src/net/peer_actor.cpp:124-150 | one step of the state machine of `Outputs`; bytes sent and waiting together are all bytes pushed, in order, whatever was merged |
| `Peers.Writer.OnWrite` | src/net/peer_actor.cpp:171-199 | one step of the state machine: the current item counts as sent; the last one stays, any other gives way to the next |
| `Outputs.RunKeeps` | src/net/peer_actor.cpp:97-199 | in every run of pushes and writes, the bytes written and the bytes waiting are the bytes pushed, in order, and a waiting item that is followed by one that could have been merged has at least 1048576 bytes |
| `Outputs.RunBounded` | src/net/peer_actor.cpp:124-150 | in every run a waiting item has fewer than 1048576 bytes and one push more |
| `Outputs.RunTidy` | src/net/peer_actor.cpp:124-199 | over every run: the message pushed as the last one is the last to be sent, in all states, iff nothing was merged into it while it waited |
| `Outputs.TidyMeans` | src/net/peer_actor.cpp:171-199 | then no byte behind the last message is ever written, and once it is written exactly the bytes up to its end are |
| `Outputs.MergedBehindLast` | src/net/peer_actor.cpp:129-137 | an example: a push while the last message waits goes out behind it |
| `RequestWindow.RangeTestExact` | src/net/controller_actor.cpp:1145 | the range test on a response id accepts exactly the places of the ring, unless the id is the size of the ring |
| `RequestWindow.RangeTestExample` | src/net/controller_actor.cpp:1145 | an example: on a new ring the size of the ring passes the range test |
| `RequestWindow.UnaskedCloses` | src/net/controller_actor.cpp:1141-1148 | an answer while nothing is open wraps the unsigned counter of open requests to its maximum, and nothing is pulled after it |
| `RequestWindow.ScanFinds` | src/net/controller_actor.cpp:760-775 | the ring scan finds a free slot whenever there is one |
| `RequestWindow.FetchKeeps` | src/net/controller_actor.cpp:758-798 | a request made while more may be pulled takes an id that is not on the wire, moves its bytes from the pool to the wire, and keeps the window in order |
| `RequestWindow.RespondKeeps` | src/net/controller_actor.cpp:1141-1214 | a response retrieves exactly what its own request stored and leaves the other requests alone; a good one returns the bytes that were asked for to the pool, any other returns nothing |
| `RequestWindow.AnsweredIsNext` | src/net/controller_actor.cpp:1155 | the id of an answered request is the next to be used |
| `RequestWindow.ConsecutiveIds` | src/net/controller_actor.cpp:760-775 | on free places requests take one id after the other, around the ring |
| `RequestWindow.WindowBounds` | src/net/controller_actor.cpp:508-513 | open requests are at most the ring size and the bytes on the wire exceed the pool by at most one block |
| `Transfers.FlushKeeps` | src/net/controller_actor.cpp:94-123 | the destructor leaves the write queue empty or the budget used up, no read waiting while there is room, and the total of budget and writes unchanged |
| `Transfers.AdmitReadKeeps` | src/net/controller_actor.cpp:1082-1139 | an admitted read does not overtake an earlier one |
| `Transfers.PullNextKeeps` | src/net/controller_actor.cpp:500-516 | whatever the iterators offer, pulling keeps window, budget and reads in order |
| `Transfers.OnResponseKeeps` | src/net/controller_actor.cpp:1141-1226 | a response keeps the controller in order although its inner destructor runs before the outer commands are sent; an honest one finds what its request stored |
| `Transfers.UnaskedCounts` | src/net/controller_actor.cpp:1141-1154 | a response without a request changes nothing but the unsigned count of open requests |
| `Transfers.ReturnKeeps` | src/net/controller_actor.cpp:416-442 | a batch that comes back returns its writes to the budget and completes its reads |
| `Transfers.ReadGuarantees` | src/net/controller_actor.cpp:1082-1246 | between handlers and whatever the peer does: reads go out in order of arrival; each admitted read is queued, in flight or completed; reads in flight equal the counter, at most 3 times the ring size plus one, and exactly that while any read is queued |
| `Transfers.CtlGuarantees` | src/net/controller_actor.cpp:508-513 | between handlers, while the peer answers only what it was asked: occupied slots equal the requests on the wire, at most the ring size; pool and bytes on the wire stay within the initial pool; the pool is at least minus one block |
| `Transfers.HandleKeeps` | src/net/controller_actor.cpp:94-123 | any handler keeps its controller in order, and leaves its write queue empty or the budget at zero |
| `Transfers.StepKeeps` | src/net/controller_actor.cpp:184-194 | a handler of one controller keeps the whole cluster in order |
| `Transfers.RunKeeps` | src/net/controller_actor.cpp:94-123 | in every interleaving of the handlers of any number of controllers, with honest and other peers, for which the counter of open requests wraps, budget and block writes in flight add up to the initial budget, the budget is not negative, and every controller is in order |
| `Journals.PullNextBooked` | src/net/controller_actor.cpp:500-516 | pull_next accepts offers while fewer requests than the ring size are open, the pool is not overdrawn, block writes are left and the advances are within their limit; each accepted offer is sent or asked for, and no write is queued |
| `Journals.DrainWritesExact` | src/net/controller_actor.cpp:94-106 | queued writes go out first come, first served, as many as the budget allows |
| `Journals.FlushBooked` | src/net/controller_actor.cpp:94-123 | the destructor loses no command; what stays of the write queue is its end |
| `Journals.HandleBooked` | src/net/controller_actor.cpp:94-194 | what a handler takes on, gets back, asks for and is answered explains the state it leaves |
| `Journals.RunConserves` | src/net/controller_actor.cpp:94-194 | in every state of every run of any number of controllers, with honest and other peers, for every command: it was taken on as often as it has come back, is at the file system, or waits; reads were admitted in the order of the requests, and the writes that wait are the last of those that came while no block write was left |
| `Journals.RunPool` | src/net/controller_actor.cpp:758-798 | in every state of every run with an honest peer: the pool, the bytes on the wire and the bytes answered with an error add up to the initial pool; every block was asked for as often as it was answered or is open |
| `Controllers.Cluster.ModifyWriteRequests` | src/model/cluster.cpp:73-76 | the shared budget changes by the given amount and stays non-negative |
| `Controllers.Controller.PushChecked` | src/net/controller_actor.cpp:184-194 | a block write joins the commands and uses up one of the budget, or is appended to the queue when the budget is used up |
| `Controllers.Controller.Destruct` | src/net/controller_actor.cpp:94-123 | the destructor's loops compute the end of the step |
| `Controllers.Controller.RequestBlock` | src/net/controller_actor.cpp:758-798 | the ring scan and the bookkeeping of a request |
| `Controllers.Controller.PullNext` | src/net/controller_actor.cpp:500-534 | the pulling loop, for whatever the iterators offer |
| `Controllers.Controller.OnRequest` | src/net/controller_actor.cpp:1082-1139 | a request for a block is sent to the disk, queued, or refused |
| `Controllers.Controller.OnResponse` | src/net/controller_actor.cpp:1141-1226 | a response frees its slot and pulls on; an id without a request is refused after the unsigned counter was taken down; the size of the ring, and only that, leaves the ring |
| `Controllers.Controller.OnForward` | src/net/controller_actor.cpp:802-810 | any batch of messages is one step of the state machine, unless it leaves the ring; the connection is to be closed iff some response had no request |
| `Controllers.Controller.OnPostprocessIo` | src/net/controller_actor.cpp:416-442 | a returning batch of reads, block writes and other commands is one step of the state machine; the connection is to be closed iff a command other than a read failed |
| `Controllers.Controller.OnDigest` | src/net/controller_actor.cpp:1311-1398 | a validated block is one step of the state machine |
| `FolderTree.AttachedIsLargest` | src/presentation/folder_entity.cpp:112-157 | the files all of whose ancestors are known are the largest parent-closed part of the files |
| `FolderTree.FolderEntity.Walk` | src/presentation/folder_entity.cpp:116-127 | the walk goes down the path exactly as far as the tree does |
| `FolderTree.FolderEntity.AdoptOrphans` | src/presentation/orphans.cpp:35-49 | one round attaches exactly the orphans below the entity, each once |
| `FolderTree.FolderEntity.ReapChildren` | src/presentation/orphans.cpp:23-51 | breadth-first reaping terminates and leaves no orphan whose parent is attached |
| `FolderTree.FolderEntity.OnInsert` | src/presentation/folder_entity.cpp:112-157 | an inserted file is attached or an orphan, and the tree is settled again |
| `FolderTree.TreeIsLargest` | src/presentation/orphans.cpp:23-51 | the attached tree is exactly the largest parent-closed subset of the inserted paths, the orphans are the rest |
| `FolderTree.OrderIrrelevant` | src/presentation/folder_entity.cpp:112-157 | two folders with the same files have the same tree and the same orphans, whatever the order of insertion |
| `FolderTree.InsertAll` | src/presentation/folder_entity.cpp:112-157 | after any sequence of insertions tree and orphans are determined by the set of paths, and every attached path has joined exactly once |
| `Hashers.Balanced` | src/hasher/hasher_plugin.cpp:48-73 | sending every block to the least loaded hasher loses no byte and keeps any two totals within one largest block |
| `Hashers.HasherPlugin.Renormalise` | src/hasher/hasher_plugin.cpp:54-65 | the loop takes the least counter off all counters and finds the first least one |
| `Hashers.HasherPlugin.CalcDigest` | src/hasher/hasher_plugin.cpp:48-73 | the choice is the first hasher with the least true total; the 32-bit counters stay within twice the largest block and never overflow |
| `Hashers.Distribute` | src/hasher/hasher_plugin.cpp:48-73 | over any run every choice is a least loaded hasher by true totals |
| `UpdatesMediator.MaskCounts` | src/fs/updates_mediator.cpp:35-80 | a mask adds one event of its own path and touches no other |
| `UpdatesMediator.MaskNow` | src/fs/updates_mediator.cpp:50-79 | while the current generation has no deadline or the same one, the mask and that of a previous path that is not temporary go there |
| `UpdatesMediator.MaskLater` | src/fs/updates_mediator.cpp:55-79 | otherwise they go to the younger generation with all masks of the path; an empty younger generation gets a deadline one interval after the current one |
| `UpdatesMediator.RenameCounts` | src/fs/updates_mediator.cpp:68-79 | a rename adds one event of the new path, and to the old path one event and the masks of the new path that move along, which is one iff none move; a rename onto the same path counts twice |
| `UpdatesMediator.RenameExample` | src/fs/updates_mediator.cpp:56-79 | an example: two events of the old path are masked although one is caused |
| `UpdatesMediator.QueryCounts` | src/fs/updates_mediator.cpp:82-97 | a question is answered iff there is an event left, and then uses up exactly one |
| `UpdatesMediator.CleanCounts` | src/fs/updates_mediator.cpp:99-118 | expiry drops the current generation and nothing else |
| `UpdatesMediator.MaskSurvives` | src/fs/updates_mediator.cpp:55-66 | a mask made while the current generation has another deadline survives the next expiry with all earlier masks of its path |
| `UpdatesMediator.MaskExpires` | src/fs/updates_mediator.cpp:50-54 | any other mask is gone after the next expiry: only what was in the younger generation is left |
| `UpdatesMediator.QueryThenClean` | src/fs/updates_mediator.cpp:82-118 | a question uses up an event of the younger generation first; two expiries leave nothing |
| `UpdatesMediator.Conserved` | src/fs/updates_mediator.cpp:35-118 | in every run, the answerable events of a path are its masks less the hits less the expired |
| `UpdatesMediator.Mediator.MaskPath` | src/fs/updates_mediator.cpp:35-80 | computes the masked state |
| `UpdatesMediator.Mediator.Ask` | src/fs/updates_mediator.cpp:82-97 | answers non-zero iff an event is left, and uses one up |
| `UpdatesMediator.Mediator.CleanExpired` | src/fs/updates_mediator.cpp:99-118 | swaps the generations and reports whether masks are left |
| `UpdatesMediator.Mediator.Enable` | src/fs/updates_mediator.cpp:120 | switches masking on or off and leaves the masks alone |
| `Luhn32.Calc` | src/proto/luhn32.cpp:14-35 | the letter that makes the weighted sum divisible by 32; the table is left iff a byte of 255 is looked up |
| `Luhn32.CheckCompletes` | src/proto/luhn32.cpp:14-35 | the check letter, and no other letter, makes the weighted sum divisible by 32 |
| `Luhn32.Alphabet` | src/utils/base32.cpp:9 | the letters by code point |
| `Luhn32.Validate` | src/proto/luhn32.cpp:43-55 | true iff the last letter is the check letter of the others; the table is left iff one of the others is a byte of 255 |
| `Luhn32.SubstitutionExact` | src/proto/luhn32.cpp:43-55 | in strings of any length, replacing one character by any other leaves the table iff a byte of 255 comes into the data, and is accepted iff a character outside of the alphabet replaces, in the data, the letter that counts for the same at its place; so every replacement by a letter is detected |
| `Luhn32.ForeignExample` | src/proto/luhn32.cpp:43-55 | an example: `0` passes for `7` |
| `Luhn32.TranspositionDetected` | src/proto/luhn32.cpp:43-55 | an exchange of data neighbours goes unnoticed iff they are equal or are the first and the last letter of the alphabet |
| `Base32.RoundTrip` | src/utils/base32.cpp:60-136 | decoding undoes encoding, for any number of bytes |
| `Base32.Encode` | src/utils/base32.cpp:60-96 | the loop over the 16-bit window writes the groups of five bits of section 6 of RFC 4648 |
| `Base32.Decode` | src/utils/base32.cpp:98-136 | the loop reads the bytes back, and refuses characters outside of the alphabet; it leaves text or table iff the text is empty or a byte above 127 comes before any other character outside of the alphabet |
| `Base32.TextRoundTrip` | src/utils/base32.cpp:60-136 | encoded text decodes to the bytes it was made from |
| `DeviceIds.IdRoundTrip` | src/model/device_id.cpp:57-135 | the text of any 32-byte hash reads back as the hash, without leaving the table |
| `DeviceIds.MistypedIdRejected` | src/model/device_id.cpp:57-101 | any letter of an id replaced by any other character, a dash included, makes the text unreadable; reading it leaves the table iff the character is a byte above 127 outside of the check places and is a 255 or replaces the letter that counts for the same |
| `DeviceIds.NegativeExample` | src/model/device_id.cpp:57-101 | an example: a byte of 128 in the place of a leading `7` |
| `DeviceIds.FromSha256` | src/model/device_id.cpp:103-135 | the text of a 32-byte hash, and nothing for other lengths |
| `DeviceIds.RemoveDashes` | src/model/device_id.cpp:66-73 | the in-place loop moves the other characters to the front and leaves the rest of the buffer |
| `DeviceIds.RemoveChecks` | src/model/device_id.cpp:83-92 | the in-place loop drops every fourteenth character |
| `DeviceIds.FromString` | src/model/device_id.cpp:57-101 | the hash that a text of any length stands for, if it is an id; the table is left iff the first group that does not pass holds a byte of 255 in its data, or all groups pass and decoding meets a byte above 127 first |
| `IdTexts.IdLayout` | src/model/device_id.cpp:103-135 | every character of an id: a dash after each seven, a letter for each five bits of the hash, and behind each thirteen letters the one that makes their sum divisible by 32 |
| `IdTexts.ReadSizes` | src/model/device_id.cpp:57-63 | only texts of 63 characters are read, and only to 32 bytes |
| `IdTexts.TextExactly` | src/model/device_id.cpp:57-135 | a text reads as a hash, has its dashes exactly where an id has them and ends its data in A or Q iff it is the text of that hash |
| `IdTexts.JunkIgnored` | src/model/device_id.cpp:66-82 | an example for any hash: the letters of its id without dashes, and any seven characters behind them |
| `IdTexts.LeftoverRead` | src/model/device_id.cpp:66-82 | with eight dashes in front and without its last letter, an id reads as its hash iff that letter equals the one eight places further front |
| `IdTexts.PaddingIgnored` | src/model/device_id.cpp:94-99 | an example for any hash: the last letter of its id replaced by one that differs in the other four bits, with its check letter |
| `BlockDivision.ChooseSize` | src/fs/utils.cpp:40-64 | a previous size is kept for large enough files; otherwise the smallest sufficient table entry, the file itself, or the largest entry; a negative size is its own block |
| `BlockDivision.GetBlockSize` | src/fs/utils.cpp:40-75 | of a file that is not empty: (count - 1) * size < sz <= count * size iff the number of blocks fits 31 bits; a negative size makes one block of that size |
| `BlockDivision.CountWraps` | src/fs/utils.cpp:40-75 | an example: a file of 2^55 bytes is cut into blocks of 16 MiB, and no 32-bit number of them makes it up |
| `BlockDivision.AtMostMaxBlocks` | src/fs/utils.cpp:38-62 | up to 2000 largest blocks a file has at most 2000 blocks |
| `BlockDivision.LeastSize` | src/fs/utils.cpp:38-66 | with any smaller size of the table there would be more than 2000 blocks; a file up to 128 KiB is one block, one that needs more than 2000 blocks of 16 MiB has such blocks |
| `BlockDivision.Table` | src/fs/utils.cpp:22-35 | eight block sizes from 128 KiB to 16 MiB, each twice the one before |
| `BlockDivision.OffsetsAgree` | src/model/file_info.cpp:204-209 | the offset of every block is the sum of the sizes before it, and all sizes make the file |
| `BlockDivision.ProtoOffsets` | src/model/file_info.cpp:347-353 | the running offsets of the wire form are those sums |
| `BlockDivision.GetSizeExact` | src/model/file_info.cpp:508-527 | the reported size is the file's size iff all blocks but the last are below 4 GiB |
| `BlockDivision.GetSizeWraps` | src/model/file_info.cpp:508-527 | an example: a file of 4 GiB and one byte reports one byte |
| `BlockDivision.RequestOffsetExact` | src/net/controller_actor.cpp:788 | the offset in a Request is the block's offset iff it is below 2 GiB |
| `BlockDivision.RequestOffsetWraps` | src/net/controller_actor.cpp:788 | an example: the last block of a file of 2 GiB and one byte is asked for at a negative offset |

## Left out

- FileInfos.FileInfo.Update: the temporary references that keep the old blocks alive during the call are not modelled.
- FileInfos.FileInfo.AssignBlock: a link is a record of file, index and bit; its packing into one word is a law of its own (`CounterWord.PackedIndex`) and needs an index below 2^31; reading the availability of a block whose union has just switched from empty to single is taken as "not available".
- FileInfos.FileInfo.MarkLocalAvailable: an empty slot is not accepted, as the source dereferences it.
- Versions.Version.Update: the clock is a parameter.
- Replicas.ContainsIsDominance: device ids are distinct, counters stay below 2^63 and versions are re-read from their wire form after an update.
- Bep.Serialize: protobuf and LZ4 are arbitrary functions that undo each other, with at most four bytes for a header (`Bep.PlainCodecLawful` shows that such functions exist).
- BepParser.FrameRoundTrip: the source takes the header from a view of the first four bytes of the frame, which is out of range for a header longer than two bytes; the model takes it from the whole buffer, as the pointer arithmetic behind the view does. A compressed payload shorter than four bytes counts as an LZ4 error; a Hello is a case of its own and is not parsed.
- Peers.Reader.OnRead: that a final message was pushed is a field of the reader that nothing here sets; the source takes it from its resources.
- Peers.Reader.Compact: the overlapping memory copy is taken as a forward copy.
- Peers.Writer.PushWrite: pushes after an I/O error are dropped, as in the source; an empty buffer that was not pushed as the last one ends the connection when its turn comes, where the source asserts; clearing the queue on shutdown is not modelled.
- Controllers.Controller.OnResponse: the refund is the size of the requested block; once the ring has been left nothing is promised; the shutdown that follows a bad id happens after the handler and is only reported.
- Controllers.Controller.RequestBlock: when a peer has answered what it was not asked, the ring may be full; a slot is then overwritten, where a debug build stops at an assertion.
- RequestWindow.UnaskedCloses: `uint_fast32_t` is taken as 64 bits wide.
- Controllers.Controller.PullNext: file and block iterators, postponed files and block locks are arbitrary offers.
- Controllers.Controller.OnPostprocessIo: the timeout of the file system's answer and states other than operational are not modelled; a shutdown is only reported.
- FolderTree.FolderEntity.OnInsert: entities are known by their paths, so pointers between entities, presences and statistics are not modelled; a file path has at least one piece; the initial bulk load of a folder is not modelled.
- Hashers.HasherPlugin.CalcDigest: twice the largest block must fit a signed 32-bit integer, which holds for blocks of 16 MiB.
- UpdatesMediator.MaskCounts: deadlines passed in are real points in time, and the 32-bit event counters do not wrap around.
- Luhn32.Calc: the assertion of a debug build that every character is a letter is not modelled.
- Base32.Decode: `char` is taken as signed, as on x86; where it is unsigned only a byte of 255 leaves the table.
- BlockDivision.GetSize: only files that are neither deleted nor invalid.
- The conflict resolver, diffs and their application, and the database: not part of this model.
- Sockets, TLS, discovery, relays, UPnP, timers, logging, configuration and the actor framework: I/O and plumbing without a property that spans functions.
- Statistics of the presentation layer: they would only add members about lazily updated counters.
