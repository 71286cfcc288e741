# TSRingBuffer in Dafny

A model of `TSRingBuffer<type>`. It is a first-in first-out ring buffer of fixed-size elements. The elements are kept in a byte buffer of `length` bytes, and two integer byte cursors, `read` and `write`, drive it. The buffer is mapped twice, back to back, so a copy that runs past the end of the buffer lands at its start: byte `length + i` is byte `i`. The model writes this mirror as indexing modulo `length`.

The project has five modules:

- `RingSpec` (ring_spec.dfy) is the buffer's state as a value (`Ring`) with the cursor invariant `Valid`. It gives each operation as a step function: `Deposit`, `Get`, `GetValue` and `Reset`. `Holds(s, q)` is the abstraction. It reads the live bytes from `read` to `write` as a queue `q` of elements, oldest first. The lemmas prove that every operation keeps the invariant and acts on `q` as a queue operation would.
- `BoundedQueue` (queue.dfy) is the abstract behaviour: a queue with a capacity. A put on a full queue is refused, and a take on an empty queue returns a default value. It also defines runs of operations and proves the first-in first-out round trip.
- `Traces` (traces.dfy) proves that any interleaving of `Deposit`, `Get` and `Reset` answers exactly as that queue would.
- `RingBuffer` (ts_ring_buffer.dfy) is the class `TSRingBuffer`. It has the byte buffer as an `array<bv8>`, the integer fields `length`, `read`, `write` and `granularity`, and a ghost queue `contents`. `Deposit` and `Get` copy bytes in place and move the cursors in place. Each method is proved against its `RingSpec` step function and keeps `contents` in step.
- `Arith` (arith.dfy) holds the facts about multiplication and Euclidean `%` that the cursor arithmetic needs.

Quirks of the code that the model reproduces:

- The wrap tests are `write > length` and `read > length`, not `>=`. A cursor can therefore rest at `length`, which names the same byte as 0. Cursors lie in `[0, length]`, not in `[0, length)`.
- A deposit is refused when the live bytes plus one element reach `length`. At most `(length - 1) / granularity` elements are live (`RingSpec.Capacity`). This is one less than the number of whole elements in the buffer only when `granularity` divides `length`.
- `Get` on an empty buffer returns a default-constructed element (all zero bytes here). Nothing tells it apart from a stored element of zero bytes.
- The class never initialises `read` and `write`. The model assumes both start at 0.
- `read == write` is a correct emptiness test only if cursors at 0 and at `length` are never held one by each. `Valid` states this, and it also states that `write` is 0 only while `read` is 0. Without that second fact, a `Get` from `read = length - granularity, write = 0` would leave the aliased pair `read = length, write = 0`. Every reachable state satisfies it, because `write` leaves 0 on the first deposit and never returns there.

## Model

| member | source | states |
|---|---|---|
| RingBuffer.TSRingBuffer.RoundUpLength | TSRingBuffer.h:22 | the rounded length is a multiple of the page size, greater than the requested size and at most one page above it; an exact multiple still gets one extra page |
| RingBuffer.TSRingBuffer.RoundUpIsLeast | TSRingBuffer.h:22 | no multiple of the page size above the requested size is smaller than the rounded length |
| RingBuffer.TSRingBuffer.InitializeBuffer | TSRingBuffer.h:17-31 | sets `granularity` to the element size and `length` to the rounded size, with both cursors at 0; the new buffer holds the empty queue |
| RingBuffer.TSRingBuffer.Deposit | TSRingBuffer.h:33-40 | returns true exactly when the queue is below capacity and then appends the element; when it returns false, no field and no byte changes; the new state is the `RingSpec.Deposit` step |
| RingBuffer.TSRingBuffer.Get | TSRingBuffer.h:42-50 | on an empty buffer, returns zero bytes and changes nothing; otherwise returns the head of the queue and pops it; `write` and the bytes never change |
| RingBuffer.TSRingBuffer.Reset | TSRingBuffer.h:52-54 | afterwards `read == write`, the queue is empty and `CanGet()` is false; `write` and the bytes are unchanged |
| RingBuffer.TSRingBuffer.CanGet | TSRingBuffer.h:56-58 | true exactly when the queue is non-empty |
| RingBuffer.TSRingBuffer.CopyToRing | TSRingBuffer.h:36 | byte `k` of the element lands on byte `(at + k) mod length`; every other byte is unchanged |
| RingBuffer.TSRingBuffer.CopyFromRing | TSRingBuffer.h:46 | returns the bytes at `(at + k) mod length`, in order |
| RingSpec.Wrap | TSRingBuffer.h:27-28 | virtual byte `p` of the doubly mapped region, with `p < 2 * length`, is physical byte `p mod length` |
| RingSpec.Advance | TSRingBuffer.h:37-38 | a cursor advanced by one element and wrapped by the `> length` test stays in `(0, length]` and is the old cursor plus `granularity`, minus `length` or not |
| RingSpec.AliasedIffCongruent | TSRingBuffer.h:38 | two cursors in `[0, length]` name the same byte exactly when they are congruent modulo `length` |
| RingSpec.Live | TSRingBuffer.h:44 | under the invariant, the live byte count is below `length` and is zero exactly when `read == write` |
| RingSpec.LiveIsModularDistance | TSRingBuffer.h:34 | under the invariant, the live byte count is `(write - read) mod length` |
| RingSpec.WouldLap | TSRingBuffer.h:34 | the full test as the source writes it; under the invariant it holds exactly when the live bytes plus one element reach `length`; when it fails, the element is shorter than the buffer and `write + granularity` stays below `length + read` |
| RingSpec.Capacity | TSRingBuffer.h:34 | `(length - 1) / granularity` elements fit in fewer than `length` bytes, and one more element would not |
| RingSpec.RoomIffBelowCapacity | TSRingBuffer.h:34 | with `n` elements live, one more fits exactly when `n` is below capacity |
| RingSpec.CopyIn | TSRingBuffer.h:36 | the bytes after the copy through the mirror are still `length` bytes |
| RingSpec.CopyInPlacement | TSRingBuffer.h:36 | the copy puts byte `k` of the element on byte `(at + k) mod length` and leaves every byte outside that span as it was |
| RingSpec.ReadBytes | TSRingBuffer.h:46 | the copy out through the mirror yields exactly `n` bytes |
| RingSpec.ReadBytesPlacement | TSRingBuffer.h:46 | byte `k` of the copy out is byte `(at + k) mod length` of the buffer |
| RingSpec.Zeros | TSRingBuffer.h:43 | the default-constructed element is `n` bytes, all zero |
| RingSpec.Deposit | TSRingBuffer.h:33-40 | a deposit keeps the cursors in range and never moves `read` |
| RingSpec.DepositBytes | TSRingBuffer.h:36 | an accepted deposit stores byte `k` of the element at `(write + k) mod length` and leaves every byte outside that span unchanged |
| RingSpec.DepositAdvancesLive | TSRingBuffer.h:36-38 | an accepted deposit keeps the cursor invariant and adds `granularity` live bytes |
| RingSpec.DepositAppendsBytes | TSRingBuffer.h:36-38 | an accepted deposit appends the element to the live bytes |
| RingSpec.DepositRefines | TSRingBuffer.h:33-40 | a deposit is accepted exactly when the queue is below capacity; an accepted one appends the element to the queue; a refused one leaves the state unchanged |
| RingSpec.GetValue | TSRingBuffer.h:43-46 | the value `Get` returns is one element long |
| RingSpec.Get | TSRingBuffer.h:42-50 | a get keeps the cursors in range and never changes `write` or the bytes |
| RingSpec.GetRefines | TSRingBuffer.h:42-50 | on an empty buffer, a get returns zero bytes and changes nothing; otherwise it returns the head of the queue byte for byte and leaves a buffer that holds the rest |
| RingSpec.Reset | TSRingBuffer.h:52-54 | after a reset the cursors meet |
| RingSpec.ResetRefines | TSRingBuffer.h:52-54 | a reset leaves a buffer that holds the empty queue, with `write` and the bytes unchanged |
| RingSpec.EmptyIffCursorsMeet | TSRingBuffer.h:43-45 | the queue is empty exactly when `read == write` |
| RingSpec.Initial | TSRingBuffer.h:13-14 | the state with both cursors at 0 satisfies the invariant and has no live bytes |
| RingSpec.InitialHoldsEmpty | TSRingBuffer.h:13-14 | the initial state holds the empty queue |
| Traces.StepRefines | TSRingBuffer.h:33-58 | one deposit, get or reset answers as the bounded queue does and leaves a buffer that holds the queue's new contents |
| Traces.RunRefines | TSRingBuffer.h:33-58 | every interleaving of deposits, gets and resets answers as the bounded queue does: elements come out byte for byte in deposit order, and deposits are refused exactly at capacity |
| Traces.RingFifoRoundTrip | TSRingBuffer.h:33-50 | deposits into an empty buffer, as many as fit, all succeed; as many gets then return the same elements, in order |
| Traces.ThreeOfFourSlots | TSRingBuffer.h:33-50 | with 32 bytes and 8-byte elements, three deposits succeed and the fourth is refused; a get returns the first element, after which the fourth deposit succeeds |
| BoundedQueue.FifoRoundTrip | TSRingBuffer.h:33-50 | the abstract queue returns elements in the order they were put in |

## Left out

- The Windows virtual-memory calls of `InitializeBuffer` are not modelled: `GetSystemInfo`, `VirtualAlloc`, `VirtualFree`, `CreateFileMapping` and `MapViewOfFileEx` are operating-system calls. The allocation granularity is a parameter (`pageSize`). The double mapping is modelled as indexing modulo `length` (`RingSpec.Wrap`), and the new mapping is taken to be zero-filled.
- RingBuffer.TSRingBuffer.InitializeBuffer: it is a constructor and returns nothing. The source always returns true and never checks whether allocation or mapping failed, so there is no failure path to model.
- RingBuffer.TSRingBuffer.InitializeBuffer: requires `size >= 0`. For a negative `size`, the source's `size % pageSize` converts `size` to an unsigned 32-bit value, and that conversion is not modelled.
- RingBuffer.TSRingBuffer.InitializeBuffer: requires the element size to be at most the rounded length. The source does not check this. With a larger element its buffer is well defined but never usable: at `read == write == 0` the full test holds, because `write + granularity - length >= read`, so every deposit is refused and every get returns the default element. The model does not cover that configuration. At an element size equal to the length, which the model does cover, `RingSpec.WouldLap` shows that every deposit is refused in the same way.
- The `std::atomic` cursors are modelled sequentially. Memory ordering and the single-producer, single-consumer argument are outside the model.
- The source has no locked multi-producer or multi-consumer variant, so the model has none either.
- Elements are opaque byte strings of `granularity` bytes. A default-constructed element is all zero bytes, as for a plain data type.
- 32-bit wrap-around is not modelled. `Valid` requires `2 * length < 2^31`, so every cursor sum fits in a signed 32-bit integer. `InitializeBuffer` requires the same bound, which `length * 2` needs.
- The source has no teardown, so the model has none.
