# Models of a pipeline switch and of DPDK test applications

This project models the parts of the repository with real state and arithmetic, and proves what they
promise. Each module follows one source component; what the source updates in place is a class or an
array here, and each such method is proved against functions on values, about which the properties are
then proved.

- `PipelineTable`, `AtomicSwitch`, `ThreadProtocol`, `ThreadRuns`, `ThreadFairness`: the request and response protocol of
  pipeline/thread.c. One control thread and any number of data plane threads take small steps of their
  own; every sequence of steps refines commands that take effect at once, and every fair one ends.
- `BurstEngine`, `BurstLoop`, `CycleCount`: the burst loops of the compression tests. The device takes any
  prefix of a burst and hands back any finished operations.
- `Mbufs`, `Segmentation`: buffers as chains of segments, and how an input is cut into them.
- `VerifyData`, `VerifyLoop`, `ChunkOrder`, `VerifyRunner`: the data that passes through the burst loop, up to the whole
  compress, decompress and compare test.
- `CryptoOps`, `CryptoThroughput`, `PmdCycleCount`: the burst loops of the crypto tests, which place and
  move leftovers differently.
- `MapLines`, `StringOrder`, `MapFile`, `MapSections`, `VersionScript`, `MapRewrite`: parser and printer of
  version maps, what a whole file comes to, and a separate reader that tells what the linker makes of the
  result.
- `RouteDistribution`, `RouteBatches`, `Numbers`, `Tokens`, `RouteText`, `RouteFile`: how routes are
  distributed over depths, added in batches, written to a file and read back.
- `PrefixSplit`: IPv6 prefixes split into word prefixes.
- `Framing`, `RssTable`: message framing and receive side scaling in the switch.
- `Words`, `Arithmetic`: machine words and facts about products and quotients.

Conventions. A device, a pool, a clock or a peer is modelled by a nondeterministic choice (`:|`) inside a
method, or by a parameter; every property holds for all choices. Loops that poll a device are followed for
`patience` rounds; the outcome then says that the loop was stopped or is still under way, and every
property of a finished loop is about all loops that finish, after however many rounds. A device that is
`eager` takes and gives back at least one operation whenever it can; for it the loops are proved to finish
within a stated number of rounds. Machine widths are written out where they matter: `uint16` and `uint32`
results are proved not to wrap, or wrap explicitly.

Some results say where the code does less than its documentation suggests, each with the exact condition:
the verify test succeeds only for inputs below 2^32 bytes because `remaining_data` is a 32-bit copy of the
size; the check of configured routes can be passed by a sum that wraps; a route file with a depth above 32
is counted outside of an array, and one with a malformed address is accepted when `errno` is 0; and a
version map rewritten for a version with a non-ASCII digit loses its stable section the next time.

## Model
| member | source | states |
|---|---|---|
| ThreadRuns.EveryInterleavingIsAtomic | pipeline/thread.c:210-389 | From any initial state, after any sequence of small steps of the control thread and all workers, the pipeline arrays equal those of performing the commands one after the other at once; whenever no command is under way the records and all return codes agree too, and otherwise at most the last return code is still to come. |
| ThreadRuns.CodesOverEveryRun | pipeline/thread.c:233-389 | In every interleaving each return code is 0 exactly if, in the state that the commands before left, the thread exists and is initialised, the pipeline is known, and an enable finds memory and fewer than 256 slots, while a disable finds the pipeline disabled, or memory and the pipeline on its recorded thread; otherwise it is -1. |
| ThreadRuns.DisablingTwice | pipeline/thread.c:306-389 | In every interleaving, a disable after a successful disable of the same pipeline on the same thread returns 0 and changes no table and no record. |
| ThreadRuns.RunRefines | pipeline/thread.c:210-523 | Every sequence of steps from a state of the invariant keeps the invariant and refines the atomic run of its committed commands. |
| ThreadProtocol.StepRefines | pipeline/thread.c:210-523 | Each single step keeps the invariant and is either invisible to the atomic switch or exactly one atomic command. |
| ThreadProtocol.BeginRefines | pipeline/thread.c:233-275 | Entering a command (early return codes, change of the table of a thread that does not run yet, or writing the request) has the effect and return code of the atomic command. |
| ThreadProtocol.BeginAnswers | pipeline/thread.c:233-373 | How every call begins: with a request if it has to go through a running thread and there is memory, with -1 if there is none, and otherwise at once with the code that is due. |
| ThreadProtocol.HandleIsExec | pipeline/thread.c:432-523 | The worker's handling of the outstanding request is where the atomic command takes effect, with the status that the control thread will return. |
| ThreadRuns.AtMostOneMessage | pipeline/thread.c:210-231 | Over every run, all rings and all workers' hands together hold the one buffer that was sent while the control thread waits, and nothing at any other time. |
| ThreadRuns.RingsAreNeverFull | pipeline/thread.c:220-223 | The two rings of a thread never hold more than one message together, so neither side's enqueue ever has to spin. |
| ThreadRuns.TheBufferSentComesBack | pipeline/thread.c:277-304 | The buffer received is the buffer sent, it is the only one allocated and carries a response; freeing it leaves none, and the command returns its status. |
| ThreadRuns.BuffersAreConserved | pipeline/thread.c:195-208 | Over every run, buffers allocated are buffers freed plus the one in use during a command: each is freed exactly once. |
| ThreadRuns.EnabledIsPresent | pipeline/thread.c:253-304 | In every reachable state an enabled pipeline is in the array of the thread recorded for it, except between the worker's removal and the control thread's update of the record, even after repeated enables or enables on several threads. |
| ThreadRuns.DisableAlwaysFinds | pipeline/thread.c:326-362 | A disable request that a worker is about to handle, and an offline disable, always find their pipeline: the branch that should not be reached is not. |
| ThreadRuns.ArraysStayCoherent | pipeline/thread.c:65-75 | In every reachable state the array of pointers and the array of pipeline data agree slot by slot and hold at most 256 entries. |
| ThreadRuns.SlotsOverEveryRun | pipeline/thread.c:257-359 | Over every run, the slots in use are the successful enables minus the disables that found an enabled pipeline; each pipeline has one slot exactly while enabled if and only if no enable was ever issued for an enabled pipeline. |
| ThreadRuns.CommandsCanAlwaysFinish | pipeline/thread.c:210-231 | From every reachable state a finite sequence of steps completes the command under way: the protocol cannot get stuck. |
| ThreadFairness.OneStepMatters | pipeline/thread.c:210-231 | While a command is under way, exactly one step does anything, and it brings the command nearer to its end by one. |
| ThreadFairness.EveryFairScheduleFinishes | pipeline/thread.c:210-231 | With every endless schedule that lets each thread try its steps again and again, the command under way at any time returns. |
| AtomicSwitch.ExecKeepsWellFormed | pipeline/thread.c:233-389 | One command keeps the arrays coherent and every enabled pipeline present on its recorded thread. |
| AtomicSwitch.ReturnCode | pipeline/thread.c:233-389 | The exact return code of every command from the state before it, spelt out over threads, pipelines, memory and slots. |
| AtomicSwitch.RecordsAfter | pipeline/thread.c:265-389 | A granted enable records the thread, a granted disable keeps it; no other record and no other thread changes, and nothing at all when the code is -1. |
| AtomicSwitch.EnabledSlot | pipeline/thread.c:257-266 | A granted enable puts one slot behind the others, for the pipeline's own timer period and first due one period from now. |
| AtomicSwitch.DisableTwice | pipeline/thread.c:326-330 | Disabling again, on any initialised thread, returns 0 and changes no table and no record. |
| AtomicSwitch.CodesOfRun | pipeline/thread.c:233-389 | Over any run of commands the codes are, one by one, those that the states in between decide. |
| AtomicSwitch.EffectMeans | pipeline/thread.c:244-304 | A command changes a table exactly when it returns 0 and, for a disable, the pipeline was enabled. |
| AtomicSwitch.MultiplicityIsBalance | pipeline/thread.c:432-494 | Over every run of commands, how often a pipeline stands in a thread's array changes by its enables minus its disables there; other pipelines' multiplicities are untouched. |
| AtomicSwitch.SlotsAreConserved | pipeline/thread.c:257-359 | The sum of all `n_pipelines` changes by enables that succeeded minus disables that took effect. |
| AtomicSwitch.OneSlotExactlyWhenNeverReEnabled | pipeline/thread.c:233-304 | Each pipeline occupies one slot system-wide iff it is enabled, exactly for the histories without an enable of an enabled pipeline. |
| AtomicSwitch.ExcessNeverShrinks | pipeline/thread.c:253-304 | The slots that repeated enables add are never given back by later commands. |
| PipelineTable.RemoveMeans | pipeline/thread.c:468-489 | Moving the last slot down removes exactly one occurrence of the pipeline, with its data, from both arrays, and keeps them in step; without the pipeline nothing changes. |
| PipelineTable.AppendMeans | pipeline/thread.c:437-452 | Appending adds exactly the new slot to both arrays and keeps them in step. |
| PipelineTable.RemovePlaces | pipeline/thread.c:468-489 | It is the first match that goes; the last slot takes its place, and all others stay where they are. |
| PipelineTable.MakeSlotMeans | pipeline/thread.c:263-266 | The timer period is the milliseconds in ticks, short by less than one tick, if and only if their product fits 64 bits, and the timer is first due one period from now if and only if that sum does. |
| PipelineTable.FirstMatch | pipeline/thread.c:468-473 | The search over the data array ends at the first slot with the pointer, and finds one iff the pointer array has it. |
| PipelineTable.ThreadData.HandleEnable | pipeline/thread.c:432-457 | In place: status 0 and an appended slot if fewer than 256 pipelines are there, otherwise status -1 and no change. |
| PipelineTable.ThreadData.HandleDisable | pipeline/thread.c:459-494 | In place: the first matching slot is replaced by the last in both arrays; tells whether it was found. |
| PipelineTable.ThreadData.DropSlot | pipeline/thread.c:475-485 | In place: both arrays lose slot `i` by moving the last slot down. |
| PipelineTable.ThreadData.RunPipelines | pipeline/thread.c:541-544 | The dispatch loop visits the pipelines of the array once each, in order. |
| BurstEngine.Engine.Slide | dpdk/dpdk-22.07/app/test-compress-perf/comp_perf_test_throughput.c:139-148 | The leftovers are moved to the front in their order and nothing is lost, whether or not the ranges overlap. |
| BurstEngine.Engine.Refill | dpdk/dpdk-22.07/app/test-compress-perf/comp_perf_test_throughput.c:150-186 | Filling up takes the missing operations from the pool, or none, exactly if it has enough, and attaches them to the next buffers; every operation stays in exactly one place. |
| BurstEngine.Engine.Enqueue | dpdk/dpdk-22.07/app/test-compress-perf/comp_perf_test_throughput.c:191-206 | Whatever prefix the device accepts, the rest stays waiting in order. |
| BurstEngine.Engine.Dequeue | dpdk/dpdk-22.07/app/test-compress-perf/comp_perf_test_throughput.c:208-212 | Whatever finished operations come back, each is one that was inside the device, and the second region has room for all that are out. |
| BurstEngine.AttachKeepsSound | dpdk/dpdk-22.07/app/test-compress-perf/comp_perf_test_throughput.c:162-186 | Attaching new operations to buffers leaves the buffers of all waiting and submitted operations as they were. |
| BurstEngine.EnqueueKeepsSound | dpdk/dpdk-22.07/app/test-compress-perf/comp_perf_test_throughput.c:191-206 | The order 0, 1, 2, ... of submitted buffers, the next buffers in the waiting operations, and the ownership of operations survive every partial enqueue. |
| BurstEngine.DequeueKeepsSound | dpdk/dpdk-22.07/app/test-compress-perf/comp_perf_test_throughput.c:208-212 | They survive every dequeue; a device that works in order gives the buffers back in order. |
| BurstEngine.CountsMeanContents | dpdk/dpdk-22.07/app/test-compress-perf/comp_perf_test_throughput.c:204-212 | The counters tell where the operations are: when as many came back as were sent, the device is empty and each buffer came back exactly once. |
| BurstLoop.Prepare | dpdk/dpdk-22.07/app/test-compress-perf/comp_perf_test_throughput.c:135-186 | At every loop head the fill-up succeeds: the pool of 2 * total_bufs never runs out, the 16-bit difference does not underflow, and the burst stands at the front. |
| BurstLoop.BurstCarriesNextBuffers | dpdk/dpdk-22.07/app/test-compress-perf/comp_perf_test_throughput.c:162-186 | Entry `i` of a burst carries buffer `total_enq_ops + i`, which is below `total_bufs`. |
| BurstLoop.Submit | dpdk/dpdk-22.07/app/test-compress-perf/comp_perf_test_throughput.c:135-206 | The first half of a pass keeps the loop-head accounting: allocated = leftovers + enqueued - dequeued <= total_bufs, and the pool holds the rest. |
| BurstLoop.Collect | dpdk/dpdk-22.07/app/test-compress-perf/comp_perf_test_throughput.c:208-244 | The second half keeps the same accounting for every number of operations handed back. |
| BurstLoop.AllDone | dpdk/dpdk-22.07/app/test-compress-perf/comp_perf_test_throughput.c:247-252 | When the totals are reached, buffers 0 to total_bufs - 1 were submitted exactly once and in order, each came back once, nothing is allocated and the pool is full. |
| BurstLoop.RunIteration | dpdk/dpdk-22.07/app/test-compress-perf/comp_perf_test_throughput.c:125-252 | One iteration, for every schedule of partial acceptance: ends with all buffers submitted once in order and everything at rest, or with the stop signal; with an eager device it is done after at most 2 * total_bufs bursts. |
| BurstLoop.MainLoop | dpdk/dpdk-22.07/app/test-compress-perf/comp_perf_test_throughput.c:60-252 | All iterations do so over one pool; a burst size of 0 is refused at once. |
| CycleCount.OpSetup | dpdk/dpdk-22.07/app/test-compress-perf/comp_perf_test_cyclecount.c:61-148 | The set-up loop attaches every buffer once and in order in each iteration, never lacks operations, and returns all of them. |
| CycleCount.RunIteration | dpdk/dpdk-22.07/app/test-compress-perf/comp_perf_test_cyclecount.c:249-447 | The same guarantees, with the same bound, when the dequeue asks for `allocated` operations as a 16-bit count. |
| CycleCount.MainLoop | dpdk/dpdk-22.07/app/test-compress-perf/comp_perf_test_cyclecount.c:176-447 | With one array of burst_sz + total_bufs entries, the two regions do not overlap, all iterations submit every buffer once in order, and the pool is full at the end. |
| Segmentation.FindBufSize | dpdk/dpdk-22.07/app/test-compress-perf/comp_perf_test_common.c:57-78 | The smallest power of two above the size, or 11 tenths of the size, rounded down, where that needs more than 16 bits; for admissible segment sizes it fits a 16-bit buffer with headroom. |
| Segmentation.TruncatedProduct | dpdk/dpdk-22.07/app/test-compress-perf/comp_perf_test_common.c:75-77 | Neither the inexact ratio nor the rounding of the product to a double shows in the truncated result. |
| Segmentation.HighestBit | dpdk/dpdk-22.07/app/test-compress-perf/comp_perf_test_common.c:72-73 | The shift loop finds the highest set bit. |
| Segmentation.Resources.constructor | dpdk/dpdk-22.07/app/test-compress-perf/comp_perf_test_common.c:231-343 | The segment and buffer counts are nested ceilings, both pools hold exactly total_segs segments. |
| Segmentation.BuildInput | dpdk/dpdk-22.07/app/test-compress-perf/comp_perf_test_common.c:356-431 | One chain holds the next max_sgl_segs segments of input, or what is left; it fails exactly when the pool has fewer segments than that takes. |
| Segmentation.BuildOutput | dpdk/dpdk-22.07/app/test-compress-perf/comp_perf_test_common.c:433-491 | The output chain has as many full segments as the input chain; it fails exactly when the pool has fewer. |
| Segmentation.NextBufferFits | dpdk/dpdk-22.07/app/test-compress-perf/comp_perf_test_common.c:236-276 | A buffer never needs more segments than its share of the total, so neither pool runs out before the last buffer. |
| Segmentation.PrepareBufs | dpdk/dpdk-22.07/app/test-compress-perf/comp_perf_test_common.c:343-498 | Never fails; each buffer holds the input between two cuts; for inputs below 2^32 bytes both pools are used up exactly and (total_segs - 1) * seg_sz + last_segment_sz is the input size. |
| Segmentation.BuffersJoinToTheInput | dpdk/dpdk-22.07/app/test-compress-perf/comp_perf_test_common.c:346-384 | The buffers one after the other are the first (size mod 2^32) bytes of the input, which is all of it if and only if its size fits the 32-bit remaining_data. |
| Segmentation.AllButTheLastAreLong | dpdk/dpdk-22.07/app/test-compress-perf/comp_perf_test_common.c:386-431 | Every buffer but the last has max_sgl_segs segments, the last has the rest of total_segs, and output chains have as many. |
| Segmentation.CutAtEnd | dpdk/dpdk-22.07/app/test-compress-perf/comp_perf_test_common.c:355-356 | The cut behind the last buffer is the end of the data: nothing remains. |
| Mbufs.Reset | dpdk/dpdk-22.07/app/test-compress-perf/comp_perf_test_verify.c:174-181 | Opening sets every segment of the output chain to its full room and the packet length to the sum. |
| Mbufs.FillReads | dpdk/dpdk-22.07/app/test-compress-perf/comp_perf_test_verify.c:237-251 | What a device writes into an open chain that has room is what the chain then begins with. |
| Mbufs.TrimReads | dpdk/dpdk-22.07/app/test-compress-perf/comp_perf_test_verify.c:263-275 | Cutting the segments down to the bytes produced does not change those bytes. |
| Mbufs.TrimLengths | dpdk/dpdk-22.07/app/test-compress-perf/comp_perf_test_verify.c:263-275 | Each segment is left with exactly the bytes that were written into it. |
| Mbufs.Shrink | dpdk/dpdk-22.07/app/test-compress-perf/comp_perf_test_verify.c:260-275 | The loop over segments cuts the chain down as specified and does not run off its end. |
| VerifyData.WriteKeepsStage | dpdk/dpdk-22.07/app/test-compress-perf/comp_perf_test_verify.c:219-255 | Reading one buffer back leaves all other buffers' stages alone, and its chain holds the codec's result. |
| VerifyData.ShrinkKeepsStage | dpdk/dpdk-22.07/app/test-compress-perf/comp_perf_test_verify.c:258-277 | Afterwards the packet of that buffer is exactly the result, whatever the order of completion. |
| VerifyData.OutputWithinRoom | dpdk/dpdk-22.07/app/test-compress-perf/comp_perf_test_verify.c:237-255 | Results of buffers that come back once each, in any order, never exceed the room for all results, and reach it exactly when all are back. |
| VerifyLoop.VerifyPass.ReadAll | dpdk/dpdk-22.07/app/test-compress-perf/comp_perf_test_verify.c:219-255 | All dequeued results are appended to the output in the order of return; it stops at the first that does not fit its buffer. |
| VerifyLoop.VerifyPass.ShrinkAll | dpdk/dpdk-22.07/app/test-compress-perf/comp_perf_test_verify.c:258-277 | All dequeued output chains become packets of the bytes produced. |
| VerifyLoop.VerifyPass.SubmitData | dpdk/dpdk-22.07/app/test-compress-perf/comp_perf_test_verify.c:139-211 | A pass's first half opens exactly the buffers that the burst was filled up with, and disturbs no result already collected. |
| VerifyLoop.VerifyPass.CollectData | dpdk/dpdk-22.07/app/test-compress-perf/comp_perf_test_verify.c:213-281 | The second half collects what came back; an out-of-space status means that some result is longer than its buffer. |
| VerifyLoop.VerifyPass.Run | dpdk/dpdk-22.07/app/test-compress-perf/comp_perf_test_verify.c:126-371 | For every schedule, a completed pass leaves the pool full, every output buffer holding the codec's result of its input buffer, and the results in order of return in the output; in enqueue order for a device that works in order. With an eager device the pass ends within 2 * total_bufs bursts. |
| VerifyRunner.VerifyTest | dpdk/dpdk-22.07/app/test-compress-perf/comp_perf_test_verify.c:24-425 | End to end: if decompression inverts compression per buffer, a test that completes reproduces the chunks in order of return; with a device that works in order the verdict is success if and only if the input is shorter than 2^32 bytes; longer inputs fail on the length. In any order the verdict is success if and only if every chunk lands right, and, if the last chunk is full or comes back last, if and only if chunks changed places only with equal ones. The output segments have the least power of two above the segment size, or 11 tenths of it from 0x8000 on; running out of space happens only for a chunk that expands beyond its output buffer, and never while decompressing; with an eager device and a burst size nothing else can go wrong, so that every codec that adds at most one byte per segment gets through. |
| VerifyRunner.OrderMatters | dpdk/dpdk-22.07/app/test-compress-perf/comp_perf_test_verify.c:237-255 | The condition on the order is needed: two segments of 8 bytes in two buffers, given back in the wrong order, do not make up the input. |
| VerifyRunner.PrepareTwoChunks | dpdk/dpdk-22.07/app/test-compress-perf/comp_perf_test_common.c:343-498 | The program prepares just these buffers for that input. |
| ChunkOrder.RightExactlyWhenAllLandRight | dpdk/dpdk-22.07/app/test-compress-perf/comp_perf_test_verify.c:237-255 | For every order of return, the output is the input if and only if every chunk equals the piece of the input at the place where it lands, given in closed form. |
| ChunkOrder.RightExactlyWhenEqual | dpdk/dpdk-22.07/app/test-compress-perf/comp_perf_test_verify.c:237-255 | If the last chunk is as long as the others or comes back last, the output is the input if and only if chunks have changed places only with equal ones. |
| VerifyRunner.ChunksAreChunky | dpdk/dpdk-22.07/app/test-compress-perf/comp_perf_test_common.c:355-431 | All chunks but the last are max_sgl_segs full segments long, and the last is not longer. |
| VerifyRunner.OrderDecides | dpdk/dpdk-22.07/app/test-compress-perf/comp_perf_test_verify.c:237-255 | Both conditions hold of the packets of every prepared input below 2^32 bytes. |
| VerifyRunner.CompressedFits | dpdk/dpdk-22.07/app/test-compress-perf/comp_perf_test_common.c:290-305 | The memory for compressed data holds everything that fits the output buffers. |
| VerifyRunner.Decompress | dpdk/dpdk-22.07/app/test-compress-perf/comp_perf_test_verify.c:403-417 | The second pass never runs out of space and collects the chunks in the order of return, of the same length as the input's first (size mod 2^32) bytes. |
| VerifyRunner.DecompressionReady | dpdk/dpdk-22.07/app/test-compress-perf/comp_perf_test_common.c:307-314 | The decompression pass fits its buffers and the memory of input_data_sz bytes, and its expected output is the input again. |
| VerifyRunner.FitsUnlessIncompressible | dpdk/dpdk-22.07/app/test-compress-perf/comp_perf_test_common.c:290-305 | A chunk fails to fit exactly when it compresses to more than the output segments of as many segments as it takes up. |
| VerifyRunner.HardlyGrowsFits | dpdk/dpdk-22.07/app/test-compress-perf/comp_perf_test_common.c:231-234 | What a codec makes of a chunk always fits if it adds at most one byte for each segment, as output segments are larger than input segments. |
| CryptoThroughput.Bench.FillBurst | dpdk/dpdk-22.07/app/test-crypto-perf/cperf_test_throughput.c:162-199 | The burst is a full one, or all that is left to do; its slots hold exactly the new operations followed by all leftovers in their old order, with no duplicate and no loss; it fails exactly when the pool cannot supply the burst beside what the device holds. |
| CryptoThroughput.Bench.Gather | dpdk/dpdk-22.07/app/test-crypto-perf/cperf_test_throughput.c:170-199 | Fetching to the front does not overwrite the leftovers before they move, since no more are fetched than were accepted before. |
| CryptoThroughput.Bench.MoveLeftovers | dpdk/dpdk-22.07/app/test-crypto-perf/cperf_test_throughput.c:193-199 | After the conditional move the leftovers follow the new operations, also when no move is needed. |
| CryptoThroughput.Bench.Enqueue | dpdk/dpdk-22.07/app/test-crypto-perf/cperf_test_throughput.c:213-224 | Any accepted prefix moves into the device, the rest waits behind it. |
| CryptoThroughput.Bench.Dequeue | dpdk/dpdk-22.07/app/test-crypto-perf/cperf_test_throughput.c:227-244 | Any finished operations return to the pool. |
| CryptoThroughput.Bench.Round | dpdk/dpdk-22.07/app/test-crypto-perf/cperf_test_throughput.c:160-246 | A round keeps every operation in one place, and fails exactly when the pool cannot supply the burst beside what the device holds, which needs a pool smaller than the total. |
| CryptoThroughput.Bench.Run | dpdk/dpdk-22.07/app/test-crypto-perf/cperf_test_throughput.c:150-264 | Both totals end at exactly total_ops and the pool is restored; a pool of at least total_ops operations never proves too small; with an eager device this is over after at most 2 * total_ops rounds. |
| CryptoOps.FetchKeeps | dpdk/dpdk-22.07/app/test-crypto-perf/cperf_test_throughput.c:170-199 | Operations are neither lost nor duplicated by fetching and moving. |
| PmdCycleCount.Bench.BuildOps | dpdk/dpdk-22.07/app/test-crypto-perf/cperf_test_pmd_cyclecount.c:202-235 | Fills the first slots burst by burst, and fails exactly when the pool has fewer operations. |
| PmdCycleCount.Bench.BenchOps | dpdk/dpdk-22.07/app/test-crypto-perf/cperf_test_pmd_cyclecount.c:147-198 | The build benchmark fetches every burst to its own place within the array and gives it back; it fails exactly when the pool cannot supply the largest. |
| PmdCycleCount.Bench.BenchEnq | dpdk/dpdk-22.07/app/test-crypto-perf/cperf_test_pmd_cyclecount.c:239-265 | The device holds exactly the first operations of the array when it takes no more; the rest stays in its slots. |
| PmdCycleCount.Bench.BenchDeq | dpdk/dpdk-22.07/app/test-crypto-perf/cperf_test_pmd_cyclecount.c:268-289 | Draining into the same array, with operations back in any order, leaves all operations allocated in the first slots again. |
| PmdCycleCount.Bench.Round | dpdk/dpdk-22.07/app/test-crypto-perf/cperf_test_pmd_cyclecount.c:338-381 | One bulk put of the first iter_ops_allocd slots restores the pool after any partial fill; enqueued and dequeued counts grow by the same number. |
| PmdCycleCount.Bench.Run | dpdk/dpdk-22.07/app/test-crypto-perf/cperf_test_pmd_cyclecount.c:292-388 | Enqueued = dequeued = total_ops at the end with a full pool; it can complete only with min(nb_descriptors, total_ops) operations in the pool, and fails only without; with an eager device it ends within total_ops rounds. |
| MapLines.SectionEndMatches | dpdk/dpdk-22.07/devtools/update_version_map_abi.py:41-48 | The scanner accepts a line exactly when the pattern for the end of a section matches it. |
| MapLines.SectionBeginMatches | dpdk/dpdk-22.07/devtools/update_version_map_abi.py:32-37 | The scanner yields a section name exactly when the pattern for a section header matches with that name. |
| MapLines.FuncLineMatches | dpdk/dpdk-22.07/devtools/update_version_map_abi.py:20-29 | The scanner yields a line exactly when the function pattern matches, with the group `line` taken greedily. |
| MapLines.FuncLineIsNoSection | dpdk/dpdk-22.07/devtools/update_version_map_abi.py:17-48 | A function line is never taken for a section header or a section end. |
| MapFile.Parse | dpdk/dpdk-22.07/devtools/update_version_map_abi.py:53-108 | The loop with its flags computes the fold of one-line steps that the properties are stated about. |
| MapFile.ParsedIsProper | dpdk/dpdk-22.07/devtools/update_version_map_abi.py:62-108 | Whatever the file, stable lines are clean function lines, and verbatim lines are stripped and end no section. |
| MapSections.ParseGathers | dpdk/dpdk-22.07/devtools/update_version_map_abi.py:53-108 | What every file comes to, line by line of the file: a stable section if one begins outside the copied ones, the functions of all function lines outside the copied sections, however many versions there are, and the lines of all experimental and of all internal sections in order. |
| MapFile.Output.GenerateStable | dpdk/dpdk-22.07/devtools/update_version_map_abi.py:111-132 | Writes the lines of the merged section, of which the linker's reading is proved below. |
| MapFile.Output.GenerateSection | dpdk/dpdk-22.07/devtools/update_version_map_abi.py:135-163 | Writes a verbatim section with every non-empty line indented. |
| MapFile.Output.Generate | dpdk/dpdk-22.07/devtools/update_version_map_abi.py:193-206 | Writes the sections that exist, with blank lines between them as specified. |
| MapFile.ParseStable | dpdk/dpdk-22.07/devtools/update_version_map_abi.py:62-132 | Parsing the merged section gives back exactly its functions, and a stable section iff the version consists of name characters. |
| MapFile.ParseSection | dpdk/dpdk-22.07/devtools/update_version_map_abi.py:75-85 | Parsing a printed experimental or internal section gives back its lines verbatim. |
| MapFile.LinesOfText | dpdk/dpdk-22.07/devtools/update_version_map_abi.py:63-65 | Reading the lines of a written file gives the lines written. |
| StringOrder.Sort | dpdk/dpdk-22.07/devtools/update_version_map_abi.py:122 | The sorted list of a set is strictly increasing and has exactly its elements. |
| StringOrder.SortedIsUnique | dpdk/dpdk-22.07/devtools/update_version_map_abi.py:122 | There is only one such list, so the printed order is determined by the set. |
| StringOrder.LessMeans | dpdk/dpdk-22.07/devtools/update_version_map_abi.py:122 | The order is that of the first difference, and a beginning comes before the whole. |
| MapRewrite.RewriteFile | dpdk/dpdk-22.07/devtools/update_version_map_abi.py:190-206 | Parse, then print: the text written is the specified rewriting. To the linker, its first version makes exactly the functions global that the original lists outside the copied sections, and everything else local. |
| MapRewrite.LinkerReads | dpdk/dpdk-22.07/devtools/update_version_map_abi.py:111-132 | For every file with a stable section, a separate reader of version blocks finds, first in the rewritten file, the version DPDK_major with exactly the listed functions global and `*` local. |
| MapRewrite.LinkerReadsAll | dpdk/dpdk-22.07/devtools/update_version_map_abi.py:111-206 | Unless a copied line begins with a brace, that reader finds in the rewritten file of any map just this version, if there is a stable section, and the experimental and internal ones with the symbols they had. |
| VersionScript.ReadStable | dpdk/dpdk-22.07/devtools/update_version_map_abi.py:111-132 | The reader turns the printed stable block into that version, for every set of function lines and every plain version number. |
| VersionScript.ReadSection | dpdk/dpdk-22.07/devtools/update_version_map_abi.py:135-163 | Indenting and wrapping a copied section changes none of its global and local symbols. |
| VersionScript.PrintedLooksLike | dpdk/dpdk-22.07/devtools/update_version_map_abi.py:111-206 | The lines of a printed file with all three sections, in full. |
| MapRewrite.ParsePrinted | dpdk/dpdk-22.07/devtools/update_version_map_abi.py:111-206 | Parsing what was printed for any proper ABI gives that ABI back, without functions outside stable sections. |
| MapRewrite.RoundTrip | dpdk/dpdk-22.07/devtools/update_version_map_abi.py:190-206 | For every file, the experimental and internal lists come back line by line, and the stable set does if the file has a stable section. |
| MapRewrite.StableSurvives | dpdk/dpdk-22.07/devtools/update_version_map_abi.py:194-196 | The stable set survives if and only if the file has a stable section or lists no stable function. |
| MapRewrite.LastRewriteWins | dpdk/dpdk-22.07/devtools/update_version_map_abi.py:190-206 | Rewriting for one version and then for another equals rewriting for the second. |
| MapRewrite.RewritingTwice | dpdk/dpdk-22.07/devtools/update_version_map_abi.py:183-206 | Rewriting again with the same version changes nothing if and only if there is no stable section or the version consists of name characters. |
| MapRewrite.AcceptedIsPlain | dpdk/dpdk-22.07/devtools/update_version_map_abi.py:183-188 | The check of the version argument lets only plain versions through, whose characters are those of a section name if and only if they are ASCII digits. |
| MapRewrite.Update | dpdk/dpdk-22.07/devtools/update_version_map_abi.py:177-206 | Refuses other files and malformed versions, and otherwise writes the rewriting: to the linker the merged version comes first, with exactly the listed functions global; and a second use with the same version leaves it unchanged if and only if there is no stable section or the version has ASCII digits only. |
| MapRewrite.ArabicDigitLosesTheStableSection | dpdk/dpdk-22.07/devtools/update_version_map_abi.py:183-188 | A version with a non-ASCII digit, which the argument check accepts, makes the second rewriting drop the stable section. |
| RouteDistribution.FillAsked | dpdk/dpdk-22.07/app/test-fib/main.c:178-194 | The configured depths get the requested number, or the ratio with the product modulo 2^32; nr is their sum modulo 2^32. |
| RouteDistribution.CompleteDistrib | dpdk/dpdk-22.07/app/test-fib/main.c:170-216 | Fails exactly when the sum modulo 2^32 exceeds n; on success every open depth gets the largest number within 2^min(depth, 63) of which there are enough for all open depths from there on, the divisor is never 0, and the total is at most n if and only if the configured sum does not wrap. |
| RouteDistribution.RatioMet | dpdk/dpdk-22.07/app/test-fib/main.c:188-189 | A configured depth gets the exact percentage if and only if the product fits 32 bits. |
| RouteDistribution.DeepestTakesTheRest | dpdk/dpdk-22.07/app/test-fib/main.c:201-213 | With the deepest depth open the total is exactly n iff that depth has room for the rest, which it has from depth 32 on. |
| RouteDistribution.WrappedSumIsAccepted | dpdk/dpdk-22.07/app/test-fib/main.c:196-199 | The IPv4 request that `-n 1 -d 0:2147483648,1:2147483648` makes passes the check, because its sum wraps to 0. |
| RouteDistribution.DistributeWrapped | dpdk/dpdk-22.07/app/test-fib/main.c:170-216 | For that request the distribution succeeds, and its total is at least 2^32 where one route was wanted. |
| RouteBatches.RunBatches | dpdk/dpdk-22.07/app/test-fib/main.c:898-912 | Every route is visited once and in order, in print_fract batches: first those of the average size, rounded down, and then, for what the division leaves, those with one more route; an empty batch, and the division by zero it causes, occurs if and only if there are fewer routes than batches; a refused route ends the loop there. |
| RouteBatches.NextIsFair | dpdk/dpdk-22.07/app/test-fib/main.c:986-994 | Dividing what is left by the batches left gives each batch exactly its size and leaves the later ones theirs. |
| Numbers.FieldOfDecimal | dpdk/dpdk-22.07/app/test-fib/main.c:22-31 | A number printed in decimal is read back by the base-0 field macro iff it is within the limit and fits 64 bits. |
| Numbers.FieldForms | dpdk/dpdk-22.07/app/test-fib/main.c:22-31 | Behind `0x` the field macro reads hexadecimal, behind a zero octal, and otherwise decimal digits, each within the limit only; an empty field is 0. |
| Numbers.SignedField | dpdk/dpdk-22.07/app/test-fib/main.c:22-31 | Leading white space and a plus sign make no difference; a minus sign negates modulo 2^64. |
| Tokens.TokenMeans | dpdk/dpdk-22.07/app/test-fib/main.c:455-485 | A token is the first stretch without delimiters, and there is none exactly if all characters are delimiters. |
| RouteText.Dump | dpdk/dpdk-22.07/app/test-fib/main.c:806-824 | The loop writes the lines of all routes in order. |
| RouteText.AddressOfDotted | dpdk/dpdk-22.07/app/test-fib/main.c:57-63 | An address printed as a dotted quad is read back as the same 32-bit value. |
| RouteText.DottedMeans | dpdk/dpdk-22.07/app/test-fib/main.c:57-63 | The quad is the four bytes in decimal, the most significant first, and it reads back as the address. |
| RouteText.DumpLineMeans | dpdk/dpdk-22.07/app/test-fib/main.c:818-820 | A line is the address, a slash, the depth, a blank, the next hop, and a newline. |
| RouteText.ParseDumped | dpdk/dpdk-22.07/app/test-fib/main.c:444-502 | A dumped line parses to its route; for a depth above 32 the result -22 of the prefix is not taken for an error and the route is counted at that index, outside of the counters; a next hop of 2^32 or more is refused after the route was counted. |
| RouteText.AcceptedExactlyWhen | dpdk/dpdk-22.07/app/test-fib/main.c:455-500 | For every line, value of errno and old content of the entry: the line is taken for a route if and only if it has a next hop and either a good prefix or, with errno 0, a malformed address; the latter becomes a default route for the entry's old address with its bytes reversed. |
| RouteText.EndsExactlyWhen | dpdk/dpdk-22.07/app/test-fib/main.c:444-502 | Exactly when each of the other endings of a line occurs, and with which code: too few words, a bad address with errno 1, a missing length, a bad next hop, and a count outside of the array. |
| RouteText.NonsenseIsAccepted | dpdk/dpdk-22.07/app/test-fib/main.c:459-495 | A concrete line without any address that is accepted so. |
| RouteFile.Parse | dpdk/dpdk-22.07/app/test-fib/main.c:470-502 | Reads the routes line by line into the array until a line fails, counts outside of the counters, or makes strtoul read a null pointer; on success it has counted the routes of each depth modulo 2^32. Before a negative index is counted, the last eight bits of the depth are stored. |
| RouteFile.DumpedLineIsRead | dpdk/dpdk-22.07/app/test-fib/main.c:481 | A dumped line always fits the line buffer, so that one read returns it whole. |
| RouteFile.NextLineMeans | dpdk/dpdk-22.07/app/test-fib/main.c:481 | One read goes up to the first newline, the end of the file, or the last character that fits the buffer. |
| RouteFile.LinesAreTheText | dpdk/dpdk-22.07/app/test-fib/main.c:481 | The lines together are the file, and none is longer than 2047 characters. |
| RouteFile.ReadingBack | dpdk/dpdk-22.07/app/test-fib/main.c:470-502 | Of any dumped list, the routes before the first unfit one are read back; there the program counts at index -22 if the depth is above 32, and otherwise stops with -EINVAL. |
| RouteFile.RoundTrip | dpdk/dpdk-22.07/app/test-fib/main.c:444-824 | For every list of routes, reading back the dumped file gives the same list in order, with no error and no access outside of the counters, if and only if all depths are at most 32 and all next hops fit 32 bits. |
| PrefixSplit.ParseFields | dpdk/dpdk-22.07/app/test-acl/main.c:592-675 | Fails exactly on a malformed net and then changes nothing; otherwise each field holds its word of the address and its part of the prefix. |
| PrefixSplit.ParsePrinted | dpdk/dpdk-22.07/app/test-acl/main.c:603-619 | Every address that `inet_pton` accepts, with a slash and a length in decimal behind it, is parsed to that address and that length iff the length is at most 128. |
| PrefixSplit.ParsedParts | dpdk/dpdk-22.07/app/test-acl/main.c:603-619 | The address in front of the slash and the length behind it decide together whether there is a net, each on its own. |
| PrefixSplit.NoLengthNoNet | dpdk/dpdk-22.07/app/test-acl/main.c:603-612 | Without a slash, or with nothing behind it, there is no net. |
| PrefixSplit.SplitMeansTheNet | dpdk/dpdk-22.07/app/test-acl/main.c:621-630 | A rule made of word prefixes accepts exactly the addresses that share the first m bits of the 128-bit address, for words of 32 and of 64 bits. |
| PrefixSplit.NetByBytes | dpdk/dpdk-22.07/app/test-acl/main.c:621-630 | Sharing the first m bits means: the same whole bytes, and the same upper bits of the byte in which the prefix ends. |
| PrefixSplit.FormsAgree | dpdk/dpdk-22.07/app/test-acl/main.c:663-672 | The two forms accept the same addresses. |
| PrefixSplit.LengthsAddUp | dpdk/dpdk-22.07/app/test-acl/main.c:621-630 | The four 32-bit lengths and the two 64-bit lengths each add up to m. |
| PrefixSplit.WordsAreTheWhole | dpdk/dpdk-22.07/app/test-acl/main.c:621-630 | For any number of words of any size, agreeing in the leading bits of every word is agreeing in the leading bits of the whole number. |
| Framing.Conn.Take | pipeline/conn.c:231-265 | One character updates the buffer and hands over a message or a complaint as specified; with working writes the client gets the handler's answer to the pending characters, unless it is empty, for a newline, the complaint for a character that does not fit, and nothing for any other. When the answer cannot be written, the event has happened but the pending characters stay; the pending length never exceeds msg_in_len_max. |
| Framing.Conn.DataEvent | pipeline/conn.c:210-275 | One read, with successful writes, feeds all its characters in order, and writes the answers to them and then the prompt, or nothing for an empty read; otherwise it stopped at a character that called for an answer, or at the prompt, with the answers before that written. |
| Framing.ReadsDoNotMatter | pipeline/conn.c:231-265 | Two divisions of the same stream into reads give the same messages and the same pending characters. |
| Framing.FramesAreLines | pipeline/conn.c:231-265 | Exactly what every stream gives: a line of n characters yields n div (max + 1) complaints and its last n mod (max + 1) characters as the message; the same of the unfinished line is pending. |
| Framing.MessagesAreLines | pipeline/conn.c:231-265 | The messages are exactly the newline-terminated pieces and the pending buffer the tail if and only if no line is longer than msg_in_len_max. |
| Framing.LinesHaveNoNewline | pipeline/conn.c:231-249 | The complete lines, and the unfinished one, have no newline in them. |
| Framing.LinesMakeUpTheStream | pipeline/conn.c:231-249 | Each complete line with a newline behind it, and the unfinished one, are the stream. |
| Framing.AnswersDoNotDependOnReads | pipeline/conn.c:210-275 | Into whatever reads a stream is divided, the client gets the same answers in the same order. |
| Framing.AnswersAreLineAnswers | pipeline/conn.c:231-265 | For every stream, the answers are, line by line, a complaint for every max + 1 characters and the handler's answer to what is left, if it is not empty. |
| Framing.AnswersAreTheHandlers | pipeline/conn.c:231-265 | When all lines fit, whatever the reads, the client gets exactly the handler's non-empty answers to the newline-terminated pieces, in order. |
| RssTable.CheckRss | pipeline/obj.c:221-234 | Accepts exactly the table sizes 1 to 512 and 1 to 15 queues below max_rx_queues. |
| RssTable.RssSetup | pipeline/obj.c:158-171 | Every index below reta_size holds the queue at its position modulo n_queues, everything behind is zero, and exactly the touched groups have full masks. |
| RssTable.OtherEntriesStay | pipeline/obj.c:164-171 | Division and remainder by the group size name each index's own slot: writing one changes no other. |
| RssTable.Balanced | pipeline/obj.c:167 | Each queue position gets reta_size div n_queues entries, the first reta_size mod n_queues positions one more. |
| RssTable.FairShare | pipeline/obj.c:222-234 | After the checks the 16-bit cast loses nothing, and a queue listed once gets the average number of entries, rounded down or up. |

## Left out
- Sockets, epoll, files, printing, command-line options, clocks, delays, and the library internals behind rings, pools, devices, tables and packet buffers; they are abstract queues, pools, functions and sequences here.
- Memory ordering inside the rings: a ring is a sequence, an enqueue or a dequeue one step.
- The periodic check that lets a data plane thread look at its requests: a poll is a step that may come at any time.
- Requests of an unknown type: no sender makes one.
- Workers' packet processing, beyond which pipelines are run: it changes nothing of the tables.
- Error exits of the compression loops (device error counters, an operation that fails for another reason than lack of space, the forced stop): they return the first `allocated` array entries rather than those outstanding, so the accounting is stated for loops that do not take them.
- Retry counters, durations, ratios and all performance figures.
- External packet buffers, and the 16-bit fields of `buffer_info`; packet buffers are values, so aliasing between chains is not modelled.
- More than 2^32 - 1 segments, or 2^31 buffers and more: the counts of segments and of array entries would wrap.
- The private transform, and compression proper: the codec is a function, and the device is taken to work through each buffer completely.
- The loop over burst sizes in the crypto tests: each burst size starts from a full pool, as the previous one leaves it. Setting up the operations themselves is left out, too.
- What the linker does with labels in the original map: the script does not look at them, so its functions are those of all function lines, under whatever label.
- Carriage returns in version maps: they are taken to be translated before the lines are split.
- Parsing of the route distribution option, `inet_pton` for IPv6 and random route generation; `inet_pton` for IPv4 follows section 6.3 of RFC 3493, so that octets with leading zeros are accepted.
- IPv6 routes and lookup files, whose byte orders differ between writing and reading.
- The parts of ACL rules other than the two nets, and the matching engine: a field matches by its leading bits.
- The greeting of a new client, which is written once and keeps no state.
- Several clients at once, which share the one message buffer, and NUL characters within a message, which end it for the handler.
- Everything of `link_create` besides the checks on receive side scaling, and all object registries.
- RouteFile.Parse: ends at a write outside of the counters and at a read from a null pointer; what the program does after them is not modelled.
- VerifyRunner.VerifyTest: also covers an empty input, which test-compress-perf/main.c:250 refuses before the test begins.
