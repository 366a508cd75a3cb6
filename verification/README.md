# Verification of ParallelZone's collectives and runtime lifecycle

ParallelZone puts an object-oriented layer over MPI. This project models the three places where that
layer makes decisions of its own, and proves what it promises there.

1. **Collectives.** `CommPP` turns objects into bytes, gathers them, and turns the bytes back into
   objects. `gatherv` is a distributed protocol of two collectives: the ranks first gather their byte
   counts; the root lays out a buffer by prefix sums; then the blocks are gathered.
2. **Binary form.** `make_binary_buffer` and `from_binary_view`, with the archive written out
   (elements as they lie in memory, an 8-byte count before every vector and string).
3. **RuntimeView.** Shared handles, the callback stack with `MPI_Finalize` at its bottom, and the
   lazily filled cache of resource sets.

## How the model is laid out

| file | models |
|---|---|
| `Bytes.dfy`, `Outcomes.dfy` | bytes, 32-bit narrowing, block lengths and concatenation; the ways a call ends |
| `Codec.dfy` | the archive, its decoder, and the flat form of contiguous containers |
| `Protocol.dfy` | N ranks inside one `gather` or `gatherv`, as a transition system |
| `ProtocolSafety.dfy`, `ProtocolLiveness.dfy` | what every interleaving keeps; termination and deadlock |
| `CommPP.dfy` | one rank's own code, imperatively: buffers filled in place, the displacement loop |
| `TypedCommPP.dfy` | `gather_t_`, `gatherv_t_`: views, slicing and decoding loops |
| `Session.dfy` | several calls in a row on one communicator, ranks running calls ahead of each other |
| `EndToEnd.dfy` | objects in, objects out, over every interleaving |
| `Reduce.dfy` | `reduce_t_`, over every order and tree in which MPI may combine |
| `Reductions.dfy` | what the registered operations come to over all ranks |
| `Lifecycle.dfy`, `LifecycleResults.dfy` | runs of a program with views, with a trace of what the library does with MPI and calls back |
| `Operations.dfy` | what each operation of a run changes, and what becomes of copies and stacked callbacks |
| `FinalizedTwice.dfy` | which runs call a finalized MPI, and which finalize it a second time |
| `HoldingOn.dfy` | for which views holding on to them keeps MPI from being finalized |
| `ResourceSets.dfy`, `RuntimeView.dfy` | resource sets and RAM; the shared state with its cache and stack, as classes |
| `Program.dfy` | the same program with reference-counted pointers, shown to take the steps of `Lifecycle` |
| `Ownership.dfy` | N processes that view one communicator |

`dafny verify dfyconfig.toml` checks everything.

**Ranks as a transition system.** A rank enters a collective, receives blocks in any order at the
displacement of their sender, and leaves. Collectives of a communicator are matched in the order in
which each rank calls them (section 5.13 of MPI 3.1). A rank that only sends may leave as soon as it
has posted its block, and so run ahead of its root; this is the most that the standard allows, and
safety is proved under it. Deadlock freedom is proved under the least: no rank leaves before every
rank has entered and every receiver is complete. Each rank passes a root of its own, so that ranks may
disagree. Whatever section 5.5 of MPI 3.1 demands of the caller, and the library's own guard against a
buffer that is too small, are checks in the model; failing one is a fault, and `FaultlessIffFits` says
exactly when none occurs. Buffers of the caller's may have any size and content. The guard of views
against a null pointer with a size is in `TypedCommPP.dfy`, where the loops discharge it
(`TypedCommPP.DecodeBlock`, `TypedCommPP.DecodeElements`); in the transition system every view is of a
whole container, whose data is null exactly if its size is 0.

**Sessions.** In `Session.dfy` MPI knows nothing of calls: it sees how many collectives a rank has
completed and what it handed to its first, second, third. That a receiver gets the block of the call and
phase it is in, and that each call therefore runs as if alone, is derived.

**One rank's code.** The methods of `CommPP.dfy` and `TypedCommPP.dfy` take the other ranks' blocks and
the order of arrival as arguments. What each returns is a function of the inputs, the same that the
transition system leads to in every run. The rooted code gates on `am_i_root` as the source does, and
`int` is a 32-bit two's complement integer: every narrowing is `Narrow32`, every running total is
checked.

**Handles.** `Lifecycle.Step` says what an operation does when state dies as soon as no variable refers
to it; `Operations.dfy` states, operation by operation and for every run, which variable refers to what
afterwards, what is torn down and what MPI is asked. `Program.Program` does the same with a count for
every state, the way `std::shared_ptr` does: a temporary takes part in the counts while an assignment is
under way, and the last pointer runs the destructor.

## Where the code and its documentation differ

The model follows the code.

- `RAM::operator==` compares sizes only (`src/parallelzone/hardware/ram/ram.cpp:62-70`); its
  documentation asks for the same resource set (`include/parallelzone/hardware/ram/ram.hpp:209-221`).
  `ResourceSets.RamSameAsDocumentedIff` says exactly when the two agree, reading "the same resource set" as
  the same rank of the same communicator, or none, also for RAM of no size. In consequence `count` counts
  every rank, since the amount of RAM is hard-coded to 10.
- `my_resource_set()` on a communicator without this process returns a null resource set; the
  documentation announces `std::out_of_range` (`include/parallelzone/runtime/runtime_view.hpp:359`).
- The class documentation says that who wants MPI not to be finalized should hold on to a `RuntimeView`
  (`include/parallelzone/runtime/runtime_view.hpp:48-50`). This is good advice only for views of the state
  that started MPI: `HoldingOn.HoldingKeepsMpiIff` gives the exact condition and
  `HoldingOn.HoldingOnInVain` a program that follows it in vain. The design
  (`docs/source/developer/design/runtime_view.rst:85-88`) promises only that what depends on a
  `RuntimeView` is finalized before that view finalizes itself, and this the code keeps
  (`LifecycleResults.CallbacksRunInReverse`); but MPI may be gone by then
  (`LifecycleResults.CallsBackLateExactly`, `LifecycleResults.IndependentViewCallsBackLate`).
- Nor does anything keep a view from calling MPI once it is finalized. `MPI_Initialized` stays true, so a view
  built then neither initializes MPI nor refuses, and asks it for rank and size; a view that outlived the
  starter asks again for every gather and reduce. `LifecycleResults.QueriesLateExactly` and
  `LifecycleResults.UsesLateExactly` give the exact conditions for calls on a communicator,
  `LifecycleResults.IndependentViewQueriesLate` a run. MPI_Finalize itself is called again when the program
  finalizes the MPI that its view started (`FinalizedTwice.FinalizedTwiceIff`, `FinalizedTwice.FinalizedTwice`);
  `FinalizedTwice.CallsMpiLateExactly` is about all calls together.
- `reduce_t_` calls MPI without the guard against a null communicator that stands before the gathers.
- `from_binary_view` ignores bytes behind the object it reads, and drops a trailing partial element.

## Model

| member | source | states |
|---|---|---|
| `Bytes.Narrow32` | src/parallelzone/mpi_helpers/commpp/detail_/commpp_pimpl.cpp:70 | the conversion of a length to `int` loses nothing iff the length is in the range of `int` |
| `Bytes.ToBytesAt` | include/parallelzone/mpi_helpers/binary_buffer/binary_buffer.ipp:58-60 | byte k of a count of n is `n / 256^k % 256`: the least significant byte comes first |
| `Bytes.EncodeIntRoundTrip` | src/parallelzone/mpi_helpers/commpp/detail_/commpp_pimpl.cpp:72-77 | the four bytes a rank sends for its `n_in` are read back as that `int` |
| `Bytes.EncodeIntAt` | src/parallelzone/mpi_helpers/commpp/detail_/commpp_pimpl.cpp:72-77 | byte k of the four that carry an `int` x is byte k of x modulo 2^32 |
| `Bytes.FlattenSlice` | src/parallelzone/mpi_helpers/commpp/detail_/commpp_pimpl.cpp:81-91 | in a concatenation, block i lies at the sum of the lengths before it, and at its whole length |
| `Bytes.FlattenUnique` | src/parallelzone/mpi_helpers/commpp/detail_/commpp_pimpl.cpp:81-91 | a buffer as long as the blocks together, with each block at its prefix sum, is their concatenation: empty blocks included, no byte is left over |
| `Bytes.PrefixSumsOrdered` | src/parallelzone/mpi_helpers/commpp/detail_/commpp_pimpl.cpp:81-89 | for nonnegative lengths the interval of an earlier rank ends before that of a later one begins |
| `Codec.DecodeEncode` | include/parallelzone/mpi_helpers/binary_buffer/binary_buffer.ipp:50-68 | an archived object of any nesting is read back whatever bytes follow it, and exactly its own bytes are consumed |
| `Codec.VectorCount` | include/parallelzone/mpi_helpers/binary_buffer/binary_buffer.ipp:58-60 | the archive of a vector begins with the number of its elements, in eight bytes, the least significant first |
| `Codec.VectorItem` | include/parallelzone/mpi_helpers/binary_buffer/binary_buffer.ipp:58-60 | the archive of element i lies behind the count and the archives of the elements before it |
| `Codec.VectorLength` | include/parallelzone/mpi_helpers/binary_buffer/binary_buffer.ipp:58-60 | the archive of a vector is as long as the count and the archives of the elements together |
| `Codec.PairLayout` | include/parallelzone/mpi_helpers/binary_buffer/binary_buffer.ipp:58-60 | the archive of a pair is the archive of the first and, right behind it, that of the second |
| `Codec.TwoObjects` | tests/cxx/unit_tests/parallelzone/mpi_helpers/binary_buffer/binary_buffer.cpp:271-275 | of two objects in a vector the first lies behind the count and the second right behind the first |
| `Codec.TwoStrings` | tests/cxx/unit_tests/parallelzone/mpi_helpers/binary_buffer/binary_buffer.cpp:271-275 | a vector of two strings is archived in the number of their characters and three times eight bytes |
| `Codec.EncodeDecode` | include/parallelzone/mpi_helpers/binary_buffer/binary_view.ipp:71-83 | whatever the decoder reads is a typed object, and the bytes it consumed are that object's archive |
| `Codec.DecodeAcceptsExactlyArchives` | include/parallelzone/mpi_helpers/binary_buffer/binary_view.ipp:65-83 | a view is accepted iff it starts with the archive of some object (bytes after it are ignored, as the code ignores them), and with nothing left over iff it is one |
| `Codec.EmptyArchive` | include/parallelzone/mpi_helpers/commpp/commpp.ipp:92-97 | a type with an empty archive has only its default value: the loop of `gather_t_`, which never runs on empty buffers, still returns the right objects |
| `Codec.FlatLength` | include/parallelzone/mpi_helpers/binary_buffer/detail_/binary_buffer_pimpl.hpp:214-216 | the image of a flat container is `size() * sizeof(value_type)` bytes |
| `Codec.FlatSlice` | include/parallelzone/mpi_helpers/binary_buffer/detail_/binary_buffer_pimpl.hpp:208-216 | the bytes of element i of a flat container lie at `i * sizeof(value_type)` of its image |
| `Codec.FlatConcat` | include/parallelzone/mpi_helpers/commpp/commpp.ipp:159-171 | the image of a concatenation is the concatenation of the images |
| `Codec.FlatRoundTrip` | include/parallelzone/mpi_helpers/binary_buffer/binary_view.ipp:85-92 | reading the image of a flat container gives its elements |
| `Codec.FromFlatAt` | include/parallelzone/mpi_helpers/binary_buffer/binary_view.ipp:85-92 | element i read from a view of any length is the bytes from i times `sizeof(value_type)` on |
| `Codec.FlatRoundTripBack` | include/parallelzone/mpi_helpers/binary_buffer/binary_view.ipp:85-92 | every whole number of elements is the image of the elements read from it |
| `Codec.BinaryRoundTrip` | include/parallelzone/mpi_helpers/binary_buffer/binary_buffer.ipp:50-74 | `from_binary_buffer(make_binary_buffer(x)) == x` for every type, serialized or flat, and nothing is left over |
| `Codec.ToBinaryInjective` | include/parallelzone/mpi_helpers/binary_buffer/binary_buffer.ipp:40-68 | two objects of one type have equal buffers iff they are equal |
| `Codec.FlatTypes` | include/parallelzone/mpi_helpers/traits/needs_serialized.hpp:35-52 | exactly the vectors of fixed-width elements, strings among them, are not serialized |
| `Codec.BinaryForm` | include/parallelzone/mpi_helpers/binary_buffer/binary_buffer.ipp:50-68 | such a vector travels as its elements lie in memory, one after the other and without a count; any other object as its archive |
| `ProtocolSafety.StepKeeps` | src/parallelzone/mpi_helpers/commpp/detail_/commpp_pimpl.cpp:31-112 | every entry, arrival and exit of any rank, in any order, keeps the invariant of all ranks: receive counts, displacements, buffer size, and every arrived block in its place |
| `ProtocolSafety.InvAlways` | src/parallelzone/mpi_helpers/commpp/detail_/commpp_pimpl.cpp:31-112 | the invariant holds after every run, for any number of ranks, any roots (agreeing or not), any data |
| `ProtocolSafety.SentIsFront` | src/parallelzone/mpi_helpers/commpp/detail_/commpp_pimpl.cpp:70-102 | a rank sends that many bytes from the front of its data as its length is when it has become an `int`; all of them if it fits |
| `ProtocolSafety.SizesGathered` | src/parallelzone/mpi_helpers/commpp/detail_/commpp_pimpl.cpp:72-77 | the first collective of `gatherv` leaves every rank's `n_in` in the root's `sizes`, even when fast ranks are already in the second |
| `ProtocolSafety.GathervReturns` | src/parallelzone/mpi_helpers/commpp/detail_/commpp_pimpl.cpp:65-112 | whatever the interleaving, a root that returns holds the rank-order concatenation of the bytes sent and the count of each rank; this is the ranks' data with its lengths iff the lengths sum to an `int` |
| `ProtocolSafety.GatherReturns` | src/parallelzone/mpi_helpers/commpp/detail_/commpp_pimpl.cpp:31-45 | a root that returns from `gather` holds the bytes sent in rank order, `size() * data.size()` of them within `int`; they are the ranks' data iff all lengths are equal |
| `ProtocolSafety.GatherIntoReturns` | src/parallelzone/mpi_helpers/commpp/detail_/commpp_pimpl.cpp:47-63 | for a provided buffer of any size and content: a root that returns finds the bytes sent and, behind them, what was there before; for equal lengths within `int` the bytes sent are the ranks' data |
| `ProtocolSafety.ExactIffFits` | src/parallelzone/mpi_helpers/commpp/detail_/commpp_pimpl.cpp:70-90 | the narrowing of the lengths to `int` is harmless iff their sum is an `int` |
| `ProtocolSafety.AllocatedIsAllocSize` | src/parallelzone/mpi_helpers/commpp/detail_/commpp_pimpl.cpp:36-45 | a buffer that passes the checks before MPI is called has the room that the receive counts need |
| `ProtocolSafety.HealthyIsFit` | include/parallelzone/mpi_helpers/commpp/commpp.hpp:298-308 | the documented conditions, with lengths that sum to an `int`, make the counts fit |
| `ProtocolSafety.NeverFaults` | src/parallelzone/mpi_helpers/commpp/detail_/commpp_pimpl.cpp:31-112 | when the counts fit no run ever faults, whatever the roots: no buffer is smaller than `n_in * size()`, amounts agree, every block fits, no location of the root is written twice (section 5.5 of MPI 3.1), no `int` overflows |
| `ProtocolLiveness.TotalRises` | src/parallelzone/mpi_helpers/commpp/detail_/commpp_pimpl.cpp:31-112 | a measure over all ranks rises at every step of every run |
| `ProtocolLiveness.RunsAreBounded` | src/parallelzone/mpi_helpers/commpp/detail_/commpp_pimpl.cpp:31-112 | a run of n ranks takes at most `n * (phases * (n + 2))` steps, however scheduled |
| `ProtocolLiveness.NeverStuck` | src/parallelzone/mpi_helpers/commpp/detail_/commpp_pimpl.cpp:67-103 | when all ranks name one root or none and the counts fit, after any run either all ranks have returned or a step is enabled, even if MPI lets no rank run ahead |
| `ProtocolLiveness.CarryOn` | src/parallelzone/mpi_helpers/commpp/detail_/commpp_pimpl.cpp:67-103 | where no run faults, every run of agreeing ranks extends to one in which all have returned |
| `ProtocolLiveness.FaultlessIffFits` | src/parallelzone/mpi_helpers/commpp/detail_/commpp_pimpl.cpp:31-112 | for agreeing ranks no run of gather or gatherv faults iff no count is negative and on every root the buffer is large enough, the counts suit, and the total is an `int` |
| `ProtocolLiveness.LengthsWrapAround` | src/parallelzone/mpi_helpers/commpp/detail_/commpp_pimpl.cpp:70 | two ranks, one with a block of 2^32 bytes: all return from `gatherv` without a fault and without that block |
| `ProtocolLiveness.CallCompletes` | include/parallelzone/mpi_helpers/commpp/commpp.hpp:277-314 | total correctness: when no step is left, every rank has returned, roots with all data in rank order and the bytes per rank, the others with nothing |
| `ProtocolLiveness.WaitsForever` | src/parallelzone/mpi_helpers/commpp/detail_/commpp_pimpl.cpp:34-62 | a root that some rank does not send to never completes its first collective, in any run |
| `ProtocolLiveness.SelfRootedNeverReturns` | docs/source/developer/design/runtime_view.rst:141-149 | when each of two or more ranks names itself root, no rank returns in any run |
| `ProtocolLiveness.RootedCallEndsIffRootsAgree` | src/parallelzone/mpi_helpers/commpp/detail_/commpp_pimpl.cpp:58-62 | a rooted call with a rank that is its own root has a run in which every rank returns iff all ranks name the same root |
| `CommPP.MpiGatherv` | src/parallelzone/mpi_helpers/commpp/detail_/commpp_pimpl.cpp:99-102 | MPI on the root, blocks written in any arrival order into pairwise disjoint places: every block ends in its place and nothing else changes |
| `CommPP.PrefixSumsAreRootArguments` | src/parallelzone/mpi_helpers/commpp/detail_/commpp_pimpl.cpp:81-91 | prefix-sum displacements satisfy section 5.5 of MPI 3.1: intervals inside the buffer, pairwise disjoint, zero-length blocks included |
| `CommPP.PrefixSumsTile` | src/parallelzone/mpi_helpers/commpp/detail_/commpp_pimpl.cpp:81-91 | the intervals tile the gathered bytes: a position lies in some rank's interval iff it is before the total, and then in one only; empty blocks cover nothing |
| `CommPP.MpiGathervTiled` | src/parallelzone/mpi_helpers/commpp/detail_/commpp_pimpl.cpp:93-103 | with those displacements the front of the buffer is the concatenation of the blocks, and what lies behind it is unchanged |
| `CommPP.GatherToBuffer` | src/parallelzone/mpi_helpers/commpp/detail_/commpp_pimpl.cpp:47-63 | on one rank, for any arrival order: exactly when the library's throw and MPI's refusal happen; otherwise a root's buffer starts with the blocks; on failure and on other ranks the buffer is unchanged |
| `CommPP.Gather` | src/parallelzone/mpi_helpers/commpp/detail_/commpp_pimpl.cpp:31-45 | on one rank, for any arrival order: a root gets all data in rank order iff `size() * data.size()` fits in `int` and fails otherwise; other ranks get no value |
| `CommPP.GatherFills` | src/parallelzone/mpi_helpers/commpp/detail_/commpp_pimpl.cpp:36-41 | for equal lengths the allocated buffer is exactly filled |
| `CommPP.SizesCallSends` | src/parallelzone/mpi_helpers/commpp/detail_/commpp_pimpl.cpp:72-77 | gathering four bytes a rank gives the vector of all ranks' `n_in` |
| `CommPP.GatherSizes` | src/parallelzone/mpi_helpers/commpp/detail_/commpp_pimpl.cpp:72-77 | step 0 yields the counts of all ranks on a root, an empty vector elsewhere, and none of its checks fires |
| `CommPP.ComputeDisplacements` | src/parallelzone/mpi_helpers/commpp/detail_/commpp_pimpl.cpp:81-91 | step 1: the loop's displacements are the prefix sums and its total the sum, or it overflows iff some running total leaves `int` |
| `CommPP.OverflowIffSum` | src/parallelzone/mpi_helpers/commpp/detail_/commpp_pimpl.cpp:84-89 | for nonnegative counts some running total leaves `int` iff the sum does |
| `CommPP.Gatherv` | src/parallelzone/mpi_helpers/commpp/detail_/commpp_pimpl.cpp:65-112 | the whole of `gatherv` on one rank, for any two arrival orders: exactly when it returns, what it returns on roots and on others, and overflow when nonnegative counts sum beyond `int` |
| `CommPP.GathervInRun` | src/parallelzone/mpi_helpers/commpp/detail_/commpp_pimpl.cpp:65-112 | if a rank returns from `gatherv` in some run of all ranks, its own code, for any arrival orders, returns what it holds in that run |
| `CommPP.GatherInRun` | src/parallelzone/mpi_helpers/commpp/detail_/commpp_pimpl.cpp:31-45 | the same for `gather` of data of one length |
| `TypedCommPP.FromBinaryView` | include/parallelzone/mpi_helpers/binary_buffer/binary_view.ipp:65-94 | the byte-by-byte copy into a stream decodes to what the view's bytes decode to |
| `TypedCommPP.ExpectationIs` | include/parallelzone/mpi_helpers/commpp/commpp.ipp:118-173 | what typed collectives promise: the ranks' objects in rank order, or one container in which each rank's elements begin where those of the ranks before it end |
| `TypedCommPP.FlatImages` | include/parallelzone/mpi_helpers/commpp/commpp.ipp:159-171 | the bytes gathered from flat containers are the image of all their elements in rank order |
| `TypedCommPP.DecodeElements` | include/parallelzone/mpi_helpers/commpp/commpp.ipp:165-169 | the element loop returns the buffer's elements iff the buffer holds a whole number of them; otherwise it reads past the end |
| `TypedCommPP.CutFlatten` | include/parallelzone/mpi_helpers/commpp/commpp.ipp:136-144 | cutting a concatenation at the running totals of its lengths gives the blocks back |
| `TypedCommPP.DecodeImages` | include/parallelzone/mpi_helpers/commpp/commpp.ipp:139-144 | the images of objects decode, block by block, to those objects |
| `TypedCommPP.DecodeBlock` | include/parallelzone/mpi_helpers/binary_buffer/binary_view.ipp:35-43 | a view of a block that lies in the buffer is never refused, not even of an empty buffer, whose data is the null pointer; it decodes to the next object, and fails only for an archive that is too short |
| `TypedCommPP.DecodeBySizes` | include/parallelzone/mpi_helpers/commpp/commpp.ipp:139-144 | the loop with the running `int total` decodes the blocks cut at the displacements, stops at the first failure, and never overflows |
| `TypedCommPP.TypedImages` | include/parallelzone/mpi_helpers/commpp/commpp.ipp:118-173 | what the typed layer makes of the gathered images is rank i's object at place i, or the concatenation of the ranks' containers |
| `TypedCommPP.GathervT` | include/parallelzone/mpi_helpers/commpp/commpp.ipp:118-173 | `gatherv_t_` on one rank, null communicator included: throws, returns nothing, fails for counts beyond `int`, or returns what decoding the gathered bytes gives |
| `TypedCommPP.PromiseNeedsAll` | include/parallelzone/mpi_helpers/commpp/commpp.ipp:118-173 | a buffer from which decoding yields all ranks' objects is at least as long as their images together |
| `TypedCommPP.GathervToRoot` | include/parallelzone/mpi_helpers/commpp/commpp.ipp:40-44 | rooted gatherv on one rank: the root has all ranks' objects iff their images together fit in an `int`; another rank has no value, and fails iff its own length becomes a negative `int` |
| `TypedCommPP.AllGathervT` | include/parallelzone/mpi_helpers/commpp/commpp.ipp:46-49 | without a root the dereferenced optional always has a value, and the result is all ranks' objects iff their images together fit in an `int` |
| `TypedCommPP.EqualImages` | include/parallelzone/mpi_helpers/commpp/commpp.ipp:86-95 | for images of one length, the quotient of the buffer size by `size()` is that length and image j begins at j times it |
| `TypedCommPP.QuotientFits` | include/parallelzone/mpi_helpers/commpp/commpp.ipp:90 | blocks of the quotient's size fit in the buffer, and use it up iff the division leaves nothing |
| `TypedCommPP.DecodeEqualBlocks` | include/parallelzone/mpi_helpers/commpp/commpp.ipp:90-97 | the loop with step `serialized_size` is, for any buffer, `ByQuotient`: the objects of the equal blocks, the default objects for an empty buffer, the first failure to decode, or a step past the end for a buffer that does not divide |
| `TypedCommPP.QuotientOfImages` | include/parallelzone/mpi_helpers/commpp/commpp.ipp:86-97 | of gathered images of one length that loop makes all ranks' objects, empty images included |
| `TypedCommPP.GatherT` | include/parallelzone/mpi_helpers/commpp/commpp.ipp:68-116 | `gather_t_` on one rank for images of one length, every case: throws without a communicator; fails for a length that becomes a negative `int`; nothing on a rank that is no root; serialized, all objects iff `size() * data.size()` fits in `int` and a failure otherwise; flat, the container of the bytes received, which is all ranks' elements if its own image fits in `int` |
| `TypedCommPP.GatherTypedImages` | include/parallelzone/mpi_helpers/commpp/commpp.ipp:77-115 | what `gather_t_` makes of gathered images of one length is rank i's object at place i, or the concatenation of the ranks' containers |
| `TypedCommPP.GatherFlat` | include/parallelzone/mpi_helpers/commpp/commpp.ipp:100-115 | the flat branch: the receive buffer, read as a container, is the concatenation of all ranks' containers when the image length is an `int`, and the bytes sent with zeros behind them in any case |
| `EndToEnd.TypedGathervCompletes` | include/parallelzone/mpi_helpers/commpp/commpp.ipp:118-173 | over every interleaving of gatherv: agreeing ranks that pass objects of one type all return; cutting each root's buffer at the received sizes gives rank i's object at place i, and no other rank has a value |
| `EndToEnd.TypedGatherCompletes` | include/parallelzone/mpi_helpers/commpp/commpp.ipp:68-116 | over every interleaving of gather, of images of one length: the same, with the division by `size()` that gather uses, or the output container it receives into |
| `EndToEnd.GatherAgreesWithGatherv` | include/parallelzone/mpi_helpers/commpp/commpp.hpp:365-372 | where `gather` may be used, every run of it and every run of `gatherv` leave the same bytes and counts on every rank, and their two decoders the same typed result |
| `EndToEnd.ScheduleDoesNotShow` | src/parallelzone/mpi_helpers/commpp/detail_/commpp_pimpl.cpp:31-112 | two runs of one call to their end leave the same result on every rank |
| `Session.OrdinalIsCallAndPhase` | src/parallelzone/mpi_helpers/commpp/detail_/commpp_pimpl.cpp:31-112 | in a sequence of calls with one collective or two, the ordinal of a collective determines its call and phase |
| `Session.OrdinalMatching` | src/parallelzone/mpi_helpers/commpp/detail_/commpp_pimpl.cpp:31-112 | a rank has posted to the o-th collective of the communicator iff it has posted to the call and phase that o stands for |
| `Session.RightBlock` | src/parallelzone/mpi_helpers/commpp/detail_/commpp_pimpl.cpp:31-112 | what MPI, matching by order only (section 5.13 of MPI 3.1), hands to a receiver is the sender's block of the very call and phase the receiver is in |
| `Session.StepOfItsCall` | src/parallelzone/mpi_helpers/commpp/detail_/commpp_pimpl.cpp:31-112 | a step of a session is a step that its call, alone, could take, with the same outcome |
| `Session.CallsDoNotInterfere` | src/parallelzone/mpi_helpers/commpp/detail_/commpp_pimpl.cpp:31-112 | what happens in each call of a session is a run of that call alone, although ranks may be calls ahead of each other and MPI matches by order only |
| `Session.SessionNeverStuck` | src/parallelzone/mpi_helpers/commpp/detail_/commpp_pimpl.cpp:67-103 | until every rank has returned from every call, some step is enabled, even if MPI lets no rank run ahead within a collective |
| `Session.SessionIsBounded` | src/parallelzone/mpi_helpers/commpp/detail_/commpp_pimpl.cpp:31-112 | a session has as many steps as its calls together, each within its own bound |
| `Session.SessionCompletes` | include/parallelzone/mpi_helpers/commpp/commpp.hpp:277-314 | when no step is left, every rank has returned from every call with what that call promises |
| `Reduce.FoldMerge` | include/parallelzone/mpi_helpers/commpp/commpp.ipp:198-202 | combining any two operands, wherever they are, keeps the result of a reduction |
| `Reduce.ScheduleIrrelevant` | include/parallelzone/mpi_helpers/commpp/commpp.hpp:441-463 | for an associative and commutative operation every order and every tree of combinations gives `R[j]`, the operation across ranks of `A_i[j]`, for every j |
| `Reduce.ReductionOfGathered` | include/parallelzone/mpi_helpers/commpp/commpp.hpp:441-463 | `R[j]` is the fold of every m-th element, from j on, of what a flat `gather` of the arrays returns |
| `Reduce.MpiReduce` | include/parallelzone/mpi_helpers/commpp/commpp.ipp:198-202 | section 5.9 of MPI 3.1 as the environment: whatever the schedule, the front of the receive array is the column folds |
| `Reduce.ReduceT` | include/parallelzone/mpi_helpers/commpp/commpp.ipp:175-206 | `reduce_t_` on one rank, every case: a null communicator reaches MPI; MPI refuses a root that is no rank and a length that becomes a negative `int`; roots, and without a root all ranks, hold the same column folds when the length is an `int`, and otherwise those of the elements told of, with zeros behind them; others nothing |
| `Reduce.RegisteredOperations` | include/parallelzone/mpi_helpers/traits/mpi_op.hpp:50-56 | every functor with a registered MPI operation is associative and commutative on integers of every width, signed or not: arithmetic that wraps around, and is exact where the result is in range; the logical operations; the bitwise ones on any number of bytes |
| `Reductions.LogicalReductions` | include/parallelzone/mpi_helpers/traits/mpi_op.hpp:52-54 | on two ranks or more a reduction with `logical_and` is 1 where every rank's element is nonzero, one with `logical_or` where some rank's is, and else 0 |
| `Reductions.ArithmeticReductions` | include/parallelzone/mpi_helpers/traits/mpi_op.hpp:50-51 | reductions with `plus` and `multiplies` are the sum and the product over all ranks, exact where in range, and otherwise off by a multiple of the number of values of the type |
| `Reductions.BitwiseReductions` | include/parallelzone/mpi_helpers/traits/mpi_op.hpp:53-56 | a bit of a reduction is set iff it is on every rank for `bit_and`, on some rank for `bit_or`, on an odd number of ranks for `bit_xor` |
| `Lifecycle.DropKeeps` | src/parallelzone/runtime/detail_/runtime_view_pimpl.ipp:49-55 | tearing a state down keeps the invariant of handles, stacks and MPI |
| `Lifecycle.ConstructKeeps` | src/parallelzone/runtime/runtime_view.cpp:33-43 | `start_mpi` and the constructor keep it |
| `Lifecycle.HandlingKeeps` | src/parallelzone/runtime/runtime_view.cpp:64-72 | copies, moves, assignments (to oneself too), swaps and destruction keep it |
| `Lifecycle.StepKeeps` | src/parallelzone/runtime/runtime_view.cpp:33-129 | every operation keeps it |
| `Lifecycle.InvAlways` | src/parallelzone/runtime/runtime_view.cpp:33-129 | it holds after every run: each state's stack is what was pushed on it, finalize at the bottom of the starter's and nowhere else; a state without handles has run its stack in reverse |
| `Operations.ConstructBuilds` | src/parallelzone/runtime/runtime_view.cpp:33-43 | after any run: a view built gets a state of its own, the starter iff MPI was not initialized; MPI is initialized if need be, a communicator asked for rank and size, finalize stacked on the starter; all else is unchanged |
| `Operations.CopyShares` | src/parallelzone/runtime/runtime_view.cpp:64 | after any run: a copy refers to the state of its source, which keeps it; no other variable, no state, and nothing of MPI changes |
| `Operations.MoveTakes` | src/parallelzone/runtime/runtime_view.cpp:68 | after any run: a view moved into refers to the state of its source, which is null; nothing else changes |
| `Operations.CopyAssignShares` | src/parallelzone/runtime/runtime_view.cpp:66 | after any run: the target refers to the source's state, and lets go of its own, which is torn down iff nothing refers to it any more; where both refer to one state nothing changes |
| `Operations.MoveAssignTakes` | src/parallelzone/runtime/runtime_view.cpp:70 | the same for move assignment, which leaves the source null; from itself it changes nothing |
| `Operations.SwapExchanges` | src/parallelzone/runtime/runtime_view.cpp:127-129 | after any run: two variables exchange what they refer to, and nothing else changes |
| `Operations.DestroyRemoves` | src/parallelzone/runtime/runtime_view.cpp:72 | after any run: the variable is gone, and its state torn down iff nothing refers to it any more: its callbacks run from the top of the stack, and MPI is finalized if that is among them |
| `Operations.StackCallbackPushes` | src/parallelzone/runtime/runtime_view.cpp:123-125 | after any run: a callback goes on top of the stack of the view's state, whether or not that started MPI; all other stacks are unchanged; on a null view nothing happens |
| `Operations.UsesOfMpi` | src/parallelzone/runtime/runtime_view.cpp:78-81 | after any run: what gather, gatherv, reduce and comparisons ask of MPI, with and without communicators |
| `Operations.ReadingsAreEvents` | src/parallelzone/runtime/detail_/runtime_view_pimpl.ipp:28-55 | a state counts as starter or finalizer, a callback as stacked or called, iff the trace has the event of it |
| `Operations.CopyOutlives` | src/parallelzone/runtime/runtime_view.cpp:64-72 | when a view is copied and then destroyed, the copy keeps the state: no callback has run and MPI is not finalized |
| `Operations.LastCopyTearsDown` | src/parallelzone/runtime/runtime_view.cpp:64-72 | when the only view of a state is copied and both are destroyed, the second destruction tears the state down |
| `Operations.StarterLivesInItsCopies` | src/parallelzone/runtime/runtime_view.cpp:33-72 | whenever a view starts MPI, is copied and destroyed, the library has not finalized MPI; once the copy is destroyed it has |
| `Operations.PushesAreStacked` | src/parallelzone/runtime/detail_/runtime_view_pimpl.ipp:28-47 | after any run the callbacks stacked on a state are those that the program stacked through its views, in that order, above finalize on the starter |
| `Operations.StackedCallbacksRunOnce` | include/parallelzone/runtime/runtime_view.hpp:496-507 | after any run, of a state without handles: every `stack_callback` made through one of its views has led to one call, the later stacked the earlier called; on the starter finalize is called after all of them, and nothing else is called |
| `Operations.StarterCallsBack` | include/parallelzone/runtime/runtime_view.hpp:496-507 | a program with one view and one callback: the callback runs, and then MPI is finalized |
| `LifecycleResults.MpiStartsOnce` | src/parallelzone/runtime/runtime_view.cpp:33-43 | over every run MPI_Init is called at most once and at most one state is the starter; if the program called it, the library neither initializes nor finalizes |
| `LifecycleResults.FinalizesExactlyAtLastDrop` | src/parallelzone/runtime/detail_/runtime_view_pimpl.ipp:44-55 | the library calls MPI_Finalize at a step iff that step drops the last handle on the starter's state |
| `LifecycleResults.FinalizedIffStarterUnreferenced` | src/parallelzone/runtime/detail_/runtime_view_pimpl.ipp:44-55 | after any run the library has finalized MPI, once, iff there was a starter and nothing refers to it |
| `LifecycleResults.CallbacksRunInReverse` | include/parallelzone/runtime/runtime_view.hpp:496-507 | after any run every callback stacked on a state without handles has been called once, last in first out; on the starter finalize comes last; states with handles have called nothing |
| `LifecycleResults.CallsBackLateExactly` | include/parallelzone/runtime/runtime_view.hpp:42-50 | a user callback runs after MPI is finalized iff some step drops the last handle on a state with user callbacks when MPI is already finalized |
| `LifecycleResults.IndependentViewCallsBackLate` | include/parallelzone/runtime/runtime_view.hpp:42-50 | a run in which this happens: a second, independently built view outlives the starter |
| `LifecycleResults.QueriesLateExactly` | src/parallelzone/runtime/runtime_view.cpp:141-143 | the library asks a finalized MPI for rank and size iff, with MPI finalized, a view of a communicator is built or a view that has one gathers or reduces |
| `LifecycleResults.UsesLateExactly` | include/parallelzone/runtime/runtime_view.hpp:425-490 | the library calls a finalized MPI on a communicator iff, with MPI finalized, one of these happens, or such a view collects through the RAM of a resource set, or two are compared, or a view without a communicator reduces |
| `LifecycleResults.IndependentViewQueriesLate` | src/parallelzone/runtime/runtime_view.cpp:141-143 | a run in which this happens: an independently built view gathers after the starter is gone |
| `FinalizedTwice.FinalizesLateExactly` | src/parallelzone/runtime/detail_/runtime_view_pimpl.ipp:32-55 | the library calls MPI_Finalize on a finalized MPI iff, with MPI finalized, some step drops the last handle on the starter |
| `FinalizedTwice.FinalizedTwiceIff` | src/parallelzone/runtime/detail_/runtime_view_pimpl.ipp:32-55 | MPI is finalized twice iff the program finalized it although the library had started it, and nothing refers to the starter any more |
| `FinalizedTwice.FinalizedTwice` | src/parallelzone/runtime/detail_/runtime_view_pimpl.ipp:32-55 | a run in which this happens: a view, MPI_Finalize by the program, the view destroyed |
| `FinalizedTwice.CallsMpiLateExactly` | src/parallelzone/runtime/runtime_view.cpp:33-43 | the library calls a finalized MPI at all, MPI_Init and MPI_Finalize included, iff some step does so on a communicator or finalizes it late |
| `HoldingOn.HoldingKeepsMpiIff` | include/parallelzone/runtime/runtime_view.hpp:42-50 | holding on to a view keeps the library from finalizing MPI in every continuation iff the view is of the state that started MPI, or that state is gone or never was |
| `HoldingOn.HoldingOnInVain` | include/parallelzone/runtime/runtime_view.hpp:42-50 | a program that holds on to its own view all the while and sees MPI finalized |
| `ResourceSets.RamSameIffSameSize` | src/parallelzone/hardware/ram/ram.cpp:62-70 | two RAM objects compare equal iff their total spaces are equal; without a PIMPL that is 0 |
| `ResourceSets.RamSameAsDocumentedIff` | include/parallelzone/hardware/ram/ram.hpp:209-221 | the comparison is the documented one, same resource set and same size, iff the sizes differ or the owners are the same; two empty RAM objects of different owners are a difference |
| `ResourceSets.RamOfTwoRanksSame` | include/parallelzone/hardware/ram/ram.hpp:209-221 | the RAM of ranks 0 and 1 compares equal although the documentation says otherwise |
| `ResourceSets.CommSameIff` | src/parallelzone/mpi_helpers/commpp/commpp.cpp:69-73 | communicators compare equal iff both are null, or neither is and MPI knows them by one handle |
| `ResourceSets.SetIsOfItsRank` | src/parallelzone/runtime/resource_set.cpp:48-63 | a set is null iff it has no PIMPL or the rank of no process, throws for its RAM iff it is null, and is this process's iff that has the set's rank in the set's communicator |
| `ResourceSets.RsSameIff` | src/parallelzone/runtime/detail_/resource_set_pimpl.hpp:169-177 | sets that are not null compare equal iff rank, amount of RAM, communicator and logger do |
| `ResourceSets.NullSetsSame` | src/parallelzone/runtime/resource_set.cpp:87-95 | a null set compares equal to null sets only |
| `ResourceSets.FreshSame` | src/parallelzone/runtime/detail_/resource_set_pimpl.hpp:169-177 | fresh resource sets are equal iff their ranks and their communicators are |
| `ResourceSets.MatchingAllOrNone` | src/parallelzone/runtime/detail_/resource_set_pimpl.hpp:126-129 | with the hard-coded amount of RAM either every rank matches or none does |
| `ResourceSets.MatchingIsCardinality` | src/parallelzone/runtime/runtime_view.cpp:107-113 | the loop's count is the number of ranks whose RAM compares equal |
| `ResourceSets.CountOfOneRam` | include/parallelzone/runtime/runtime_view.hpp:364-373 | counting the RAM of one rank gives `size()`, not the one resource set the documentation means, except on a single rank |
| `RuntimeView.RuntimeViewPIMPL.constructor` | src/parallelzone/runtime/detail_/runtime_view_pimpl.ipp:34-47 | the current rank's set is cached, nothing else; finalize is stacked iff this state started MPI |
| `RuntimeView.RuntimeViewPIMPL.RunCallbacks` | src/parallelzone/runtime/detail_/runtime_view_pimpl.ipp:49-55 | the destructor's loop ends with an empty stack, having called the callbacks from top to bottom, each once |
| `RuntimeView.RuntimeViewPIMPL.Instantiate` | src/parallelzone/runtime/detail_/runtime_view_pimpl.ipp:71-80 | a set is added for the rank unless there is one; sets already there stay the same objects |
| `RuntimeView.RuntimeViewPIMPL.At` | src/parallelzone/runtime/detail_/runtime_view_pimpl.ipp:57-61 | the cached set of a rank is of that rank and the view's communicator, with ten bytes of RAM of that owner |
| `RuntimeView.At` | src/parallelzone/runtime/runtime_view.cpp:93-96 | `at(i)` throws iff the view is null, its communicator is, or i is not below the communicator's size; otherwise it returns the set of rank i of the view's own communicator, with ten bytes of RAM of that owner, and only i is added to the cache |
| `RuntimeView.MyResourceSet` | src/parallelzone/runtime/runtime_view.cpp:103-105 | a null view throws; otherwise the cached set of this process: of its rank in the view's communicator, or null if that is null |
| `RuntimeView.CountIn` | src/parallelzone/runtime/runtime_view.cpp:107-113 | the loop of `count` never throws, caches every rank and replaces nothing |
| `RuntimeView.Count` | src/parallelzone/runtime/runtime_view.cpp:107-113 | `count(ram)` is the number of ranks whose RAM compares equal: the communicator's size if the RAM has ten bytes, and else 0; 0 on a null view |
| `RuntimeView.AnswerAll` | src/parallelzone/runtime/runtime_view.cpp:93-113 | after any history of `at`, `my_resource_set` and `count` the cached ranks are those it had and those asked for within range, each as good as fresh; no set is ever replaced |
| `Program.HoldersUpdated` | src/parallelzone/runtime/runtime_view.cpp:64-72 | assigning one variable moves one unit of count from its old state to its new one |
| `Program.CountedReleased` | src/parallelzone/runtime/runtime_view.cpp:64-72 | a count above one when a pointer goes means that some variable still refers to the state, and only then |
| `Program.TeardownFinalizesIff` | src/parallelzone/runtime/detail_/runtime_view_pimpl.ipp:32-55 | tearing down calls MPI_Finalize iff it is on the stack |
| `Program.Program.LiveIffReferenced` | src/parallelzone/runtime/runtime_view.cpp:64-72 | between operations the shared states not yet destroyed are exactly those that some variable refers to |
| `Program.Program.CommOfView` | src/parallelzone/runtime/runtime_view.cpp:78-81 | the communicator of a view is the one its state was built with, and MPI_COMM_NULL if the view is null |
| `Program.Program.Exchange` | src/parallelzone/runtime/runtime_view.cpp:127-129 | exchanging the pointers of a variable and a temporary keeps all counts right |
| `Program.Program.Release` | src/parallelzone/runtime/runtime_view.cpp:72 | when a pointer goes, the state is destroyed iff no variable refers to it any more |
| `Program.Program.StartMpi` | src/parallelzone/runtime/runtime_view.cpp:33-43 | MPI is initialized unless it was, and the new state is the starter iff it was not |
| `Program.Program.Construct` | src/parallelzone/runtime/runtime_view.cpp:58-62 | building a view takes the specified step: the variable refers to a new state of the given communicator, the starter iff MPI was not initialized, and nothing else changes |
| `Program.Program.Copy` | src/parallelzone/runtime/runtime_view.cpp:64 | copying takes the specified step: the new variable refers to what the source refers to, every other variable is unchanged, nothing is torn down |
| `Program.Program.Move` | src/parallelzone/runtime/runtime_view.cpp:68 | moving takes the specified step: the new variable refers to what the source referred to, the source is null, and nothing else changes |
| `Program.Program.CopyAssign` | src/parallelzone/runtime/runtime_view.cpp:66 | copy assignment takes the specified step: the target refers to what the source refers to, and its old state is torn down iff nothing refers to it any more, so not in a self-assignment |
| `Program.Program.MoveAssign` | src/parallelzone/runtime/runtime_view.cpp:70 | move assignment takes the specified step: besides, the source is null; assigning a view to itself changes nothing |
| `Program.Program.Swap` | src/parallelzone/runtime/runtime_view.cpp:127-129 | swapping takes the specified step: two variables exchange what they refer to, or one keeps it, and nothing else changes |
| `Program.Program.StackCallback` | src/parallelzone/runtime/runtime_view.cpp:123-125 | on a null view it throws and changes nothing; otherwise the callback is on top of the stack that all handles share, the starter's too, and no other stack changes |
| `Program.Program.Destroy` | src/parallelzone/runtime/runtime_view.cpp:72 | destroying a view takes the specified step: the variable is gone, and its state torn down iff nothing refers to it any more |
| `Program.Program.Collect` | src/parallelzone/runtime/runtime_view.cpp:78-81 | gather, gatherv and reduce of a view ask its communicator for rank and size and run on it; without one, gather and gatherv throw and reduce reaches MPI |
| `Program.Program.CollectRam` | src/parallelzone/runtime/runtime_view.cpp:103-105 | through the RAM of its own resource set a view collects on its communicator, without asking anything; it throws on a null view and without a communicator |
| `Program.Program.Compare` | src/parallelzone/runtime/runtime_view.cpp:131-135 | views compare equal iff both are null or neither is, and both lack a communicator or both have one of the same handle; MPI is asked iff both have one |
| `Program.Run` | src/parallelzone/runtime/runtime_view.cpp:33-143 | over every run, each view of any communicator or of none, counting pointers destroys each state exactly when nothing refers to it: the program's state and trace are the specified ones |
| `Ownership.OwnedByExactlyOne` | src/parallelzone/runtime/resource_set.cpp:52-56 | all processes of a communicator see the same set at `at(i)`, and it is one process's own: that of rank i |
| `Ownership.AtEverywhere` | src/parallelzone/runtime/runtime_view.cpp:93-96 | `at(i)` on the views of all processes, whatever was asked of them before, returns equal sets of rank i of the processes' communicator, of which one is its process's own: that of rank i |
| `Ownership.GatherThroughRam` | include/parallelzone/hardware/ram/ram.hpp:160-163 | a gather through `at(i).ram()` is called by every process on the communicator of the views, ends on every process in every run and has a value, all objects in rank order, on exactly the process that owns the set |
| `Ownership.RootIsOwner` | src/parallelzone/hardware/ram/ram.cpp:76-84 | the RAM of a rank's resource set calls on the communicator of the view, with that rank as root, without throwing |
| `Ownership.OwnGatherNeverReturns` | docs/source/developer/design/runtime_view.rst:141-149 | a gather through `my_resource_set().ram()` on two or more processes returns on none |
| `Ownership.ReduceThroughRam` | include/parallelzone/hardware/ram/ram.hpp:180-184 | a reduce through `at(i).ram()` folds, column by column, what the ranks of the view's communicator bring, and has that value on exactly the process that owns the set |

## Left out

- The MPI library: transport, datatypes other than bytes, creation of communicators, error handlers. Its
  collectives are specified from MPI 3.1 (sections 5.5, 5.7, 5.9 and 5.13).
- Calls of `reduce` between those of `gather` and `gatherv` in a session, and ranks that make their calls in
  different orders.
- Cereal's JSON, XML and portable archives, pointers and polymorphic types: only the binary layout of
  elements, vectors, strings and pairs, on a little-endian host with 64-bit sizes.
- `BinaryBuffer` and views as objects that are sent themselves, and the copy, move and swap of
  `BinaryBuffer`, `CommPP`, `RAM` and `ResourceSet`: one-branch boilerplate over values.
- Trivially copyable classes other than fixed-width elements inside flat vectors: `Codec.NeedsSerialized`
  calls a vector flat iff its elements are of fixed width.
- Reductions over floating-point and complex numbers, whose addition is not associative. Signed arithmetic
  that overflows is taken to wrap around, which MPI leaves open.
- Arrays of different lengths in `reduce`, which the documentation excludes and MPI leaves undefined.
- Logging: a logger is an opaque value with equality, and resource sets carry the null logger.
- The loggers in `RuntimeView::operator==`, `logger()`, and the command line passed to `MPI_Init`.
- What a program does with MPI through copies of resource sets that outlive their view, or through a `CommPP`
  of its own: the runs of `Lifecycle.dfy` are those of operations on views.
- Task wrappers, profiling, Python bindings and build files.
- Allocation failure, callbacks that throw, and callbacks that stack further callbacks on the state
  being torn down.
- The value of `MPI_PROC_NULL`, which MPI leaves to the implementation: the model takes -2, and uses only
  that, as a `size_t`, it is no rank.
- In-place update inside a collective is modelled on one rank (`CommPP.dfy`); in the transition system of all
  ranks the buffers are values.
- The cache of a shared state is no part of the invariant of `Program.Program`: the constructor of
  `RuntimeView.RuntimeViewPIMPL` establishes its validity, and no operation on handles touches it.
- CommPP.GatherToBuffer: assumes the equal lengths that its documentation asks for; unequal ones are part
  of the runs of which `ProtocolSafety.GatherIntoReturns` speaks.
- CommPP.Gather: assumes equal lengths, like CommPP.GatherToBuffer; unequal ones are covered by
  `ProtocolSafety.GatherReturns`.
- TypedCommPP.GatherT: assumes images of equal length, as its documentation asks; a serialized image that differs
  in length from the root's is a fault of the transition system.
