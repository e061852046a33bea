# ConcurrentHashMap control logic, modelled in Dafny

This project models the sequential core of `src/concurrent_hash_map/base.rs`, a Rust port of
the control logic of JDK 8's `ConcurrentHashMap`. That core has two parts.

- **The word arithmetic the map relies on.**
  - `table_size_for` is the power-of-two ceiling, on 64-bit words.
  - `number_of_leading_zeros` is the 32-bit algorithm run on a 64-bit `isize`.
  - `resize_stamp` is the resize generation stamp.
  - `spread` is the hash mixing step.
  - The two threshold formulas are `n - (n >> 2)` and `(n << 1) - (n >> 1)`.
  - The rest covers `try_presize`'s target capacity, the transfer stride and the claims a resizer takes from the transfer cursor.
- **The map's control fields as a class** (`ConcurrentMap.ConcurrentHashMap`), with one method per operation under a sequential schedule.
  - The fields are the table, `size_ctl`, the base counter, the counter cells and the cell lock.
  - With one thread every compare-and-swap succeeds, so each operation is deterministic.
  - A failed allocation is a boolean input. The source catches it and re-raises it as a panic.
  - `add_count`'s contended compare-and-swap on the base counter is also a boolean input.

The `usize` words that the bit manipulation works on are `bv64`. These are `table_size_for`'s argument
and result, `spread`'s hash and try_presize's target. The rest of the arithmetic is on integers:
- the thresholds (`n >> 2`) and the stride (`n >> 3`), where a right shift is floor division by a power of two;
- the counter cell index `h & (len - 1)`, through `Counting.And`, a bitwise and on naturals that
  agrees with `&` on values below 2^64;
- `isize` arithmetic, with the wrap-around of `<<` and `as isize` written out (`MachineInt.WrapIsize`).

`Words.PowerValue` carries a power-of-two word over to the integer it denotes. With it,
`ConcurrentHashMap.Valid` keeps the table length and the counter-cell count powers of two, as the
source's field comments promise (base.rs:102 and base.rs:119).
The table is an array of `Bin` values. Its bins are only ever empty in this model, because node
migration is not modelled.

Two places where the code does not do what it evidently means are listed under "## Findings".
The class uses the corrected behaviour in both places.

## Model

| member | source | states |
|---|---|---|
| Bits.TableSizeFor | src/concurrent_hash_map/base.rs:636-648 | table_size_for as written. For 1 <= c <= 2^32 the result is the power-of-two ceiling of c. c == 0 gives MAXIMUM_CAPACITY, and the result always lies in 1..MAXIMUM_CAPACITY. At c == 2^32 + 1 the result is 2^33 - 1 |
| Bits.TableSizeForMissesPowerOfTwo | src/concurrent_hash_map/base.rs:636-648 | 2^32 + 1 is a legal argument (within MAXIMUM_CAPACITY), yet the result as written for it is not a power of two |
| Bits.TableSizeFor64 | src/concurrent_hash_map/base.rs:636-648 | With the smear completed to 64 bits (`IsTableSize`), the result is the power-of-two ceiling for every 1 <= c <= MAXIMUM_CAPACITY. It is MAXIMUM_CAPACITY for 0 and for arguments beyond it |
| Bits.CeilPow2Bounds | src/concurrent_hash_map/base.rs:635-648 | The ceiling is at least c, and half of it is below c |
| Bits.CeilPow2IsLeast | src/concurrent_hash_map/base.rs:635-648 | The ceiling is at most every power of two that is at least c |
| Bits.CeilPow2Idempotent | src/concurrent_hash_map/base.rs:635-648 | The ceiling of a power of two is itself, so table_size_for applied to its own result returns that result |
| Bits.PresizeArgumentInRange | src/concurrent_hash_map/base.rs:440-444 | For size < MAXIMUM_CAPACITY / 2, the argument size + size/2 + 1 is in 1..MAXIMUM_CAPACITY, so the argument does not overflow |
| Bits.PresizeTarget | src/concurrent_hash_map/base.rs:440-444 | try_presize's target, taken with the corrected 64-bit table_size_for (`IsPresizeTarget`). It is MAXIMUM_CAPACITY from MAXIMUM_CAPACITY / 2 up. Below that it is the power-of-two ceiling of size + size/2 + 1. It always lies in 1..MAXIMUM_CAPACITY |
| Bits.PresizeTargetAsWritten | src/concurrent_hash_map/base.rs:440-444 | try_presize's target with table_size_for as written. It is MAXIMUM_CAPACITY from MAXIMUM_CAPACITY / 2 up, and the power-of-two ceiling while size + size/2 + 1 stays within 2^32. At size 2863311531 it is 2^33 - 1. It always lies in 1..MAXIMUM_CAPACITY |
| Bits.PresizeTargetsPart | src/concurrent_hash_map/base.rs:440-444 | At size 2863311531 the corrected target is 2^33, and the target as written, 2^33 - 1, is not a power of two |
| Hashing.Spread | src/concurrent_hash_map/base.rs:432-435 | The result is at most HASH_BITS, so it is never MOVED, TREEBIN or RESERVED. Its low 32 bits are the xor of the hash's two halves. Its high bits are the hash's high half without its top bit |
| Hashing.SpreadCollision | src/concurrent_hash_map/base.rs:432-435 | Two hashes spread alike only if they agree on every bit except bits 63 and 31 |
| Hashing.SpreadCollisionBits | src/concurrent_hash_map/base.rs:432-435 | Two hashes that spread alike are equal or differ in exactly bits 63 and 31 together (h1 ^ h2 is 0 or 2^63 + 2^31) |
| Hashing.SpreadCollides | src/concurrent_hash_map/base.rs:432-435 | Bits 63 and 31 together are lost: 2^63 + 2^31 spreads like 0 |
| Hashing.SpreadSeparatesHighBits | src/concurrent_hash_map/base.rs:423-431 | Take hashes with equal low halves whose high halves differ under a mask of at most 32 bits. Unspread they share a bucket; spread they land in different buckets |
| LeadingZeros.Nlz | src/concurrent_hash_map/base.rs:655-668 | On 0 <= i < 2^32 the count lies in 0..32 and is 32 exactly for 0. The exact value is 32 minus the bit length; outside 32 bits it is 1 - (i >> 31) |
| LeadingZeros.NumberOfLeadingZeros | src/concurrent_hash_map/base.rs:669-692 | The five step-by-step updates of n and i compute Nlz for every isize |
| LeadingZeros.NlzFloorLog2 | src/concurrent_hash_map/base.rs:662 | For 0 < x < 2^32, 2^(31 - nlz(x)) <= x < 2^(32 - nlz(x)), i.e. floor(log2 x) == 31 - nlz(x) |
| LeadingZeros.NlzCeilLog2 | src/concurrent_hash_map/base.rs:663 | For 1 <= x <= 2^32, x <= 2^(32 - nlz(x - 1)) and, for x > 1, 2^(31 - nlz(x - 1)) < x, i.e. ceil(log2 x) == 32 - nlz(x - 1) |
| Sizing.Threshold | src/concurrent_hash_map/base.rs:228-229 | n - (n >> 2) is three quarters of n rounded up: 3n <= 4t < 3n + 4 |
| Sizing.CommitThreshold | src/concurrent_hash_map/base.rs:598 | (n << 1) - (n >> 1) on isize is the threshold of the doubled table, Threshold(2n), for every 0 <= n <= MAXIMUM_CAPACITY. At MAXIMUM_CAPACITY the shift wraps and, in a release build, the subtraction wraps back |
| Sizing.SetBit15 | src/concurrent_hash_map/base.rs:652 | x or-ed with 1 << 15 has bit 15 set and keeps every other bit of x |
| Sizing.ResizeStamp | src/concurrent_hash_map/base.rs:651-653 | The stamp has bit 15 set. For lengths below 2^32 it is 2^15 plus the leading-zero count |
| Sizing.StampShifted | src/concurrent_hash_map/base.rs:502-503 | A stamp with bit 15 set, shifted left by RESIZE_STAMP_SHIFT, is negative |
| Sizing.ResizeControl | src/concurrent_hash_map/base.rs:500-504 | The control word the initiator installs, (rs << RESIZE_STAMP_SHIFT) + 2, is negative |
| Sizing.IsLastLeaver | src/concurrent_hash_map/base.rs:602 | The last-leaver test: the word a leaving resizer replaced, less 2, is the shifted stamp of the table length (a predicate; `LastLeaverIsLast` states what it means) |
| Sizing.ShiftedStampOf | src/concurrent_hash_map/base.rs:649-653 | Below 2^32 the shifted stamp is nlz(n) * 2^48 - 2^63 |
| Sizing.StampsIdentifyBitLength | src/concurrent_hash_map/base.rs:649-653 | Below 2^32, two lengths share a shifted stamp exactly when they have the same bit length |
| Sizing.StampsDistinct | src/concurrent_hash_map/base.rs:649-653 | Distinct power-of-two lengths below 2^32 get distinct shifted stamps |
| Sizing.StampsCollideBeyond32Bits | src/concurrent_hash_map/base.rs:649-653 | Lengths 2^30 and 2^46 get the same shifted stamp, because the count is only a count within 32 bits |
| Sizing.ReplayCountsResizers | src/concurrent_hash_map/base.rs:491 | After any sequence of joins (+1) and leaves (-1) from the initiator's control word, the word is the shifted stamp plus 2, plus the joins, minus the leaves |
| Sizing.LastLeaverIsLast | src/concurrent_hash_map/base.rs:601-604 | The test sc - 2 == rs << RESIZE_STAMP_SHIFT passes for the leaving resizer exactly when the leaves so far equal the joins: every other resizer, the initiator included, has left |
| Sizing.Stride | src/concurrent_hash_map/base.rs:522-525 | The stride is never below MIN_TRANSFER_STRIDE. With several CPUs it is max(floor(n / (8 NCPU)), 16); with one it is max(n, 16) for n < 2^63 (at n = 2^63, reached when a 2^62 table doubles, the cast to isize wraps and the stride is 16) |
| Sizing.PerCpuShare | src/concurrent_hash_map/base.rs:522 | (n >> 3) / NCPU is floor(n / (8 NCPU)) and fits in an isize, so the `as isize` cast does not wrap |
| Sizing.NextBound | src/concurrent_hash_map/base.rs:571-575 | A claim from cursor k > 0 moves the cursor to max(k - stride, 0): strictly lower, by at most a stride, and by exactly a stride unless it reaches 0 |
| Sizing.Claims | src/concurrent_hash_map/base.rs:565-584 | Successive claims from k down to 0 are non-empty ranges of at most a stride each. Each meets the previous one, the first starts at k, the last ends at 0, and they are pairwise disjoint |
| Sizing.EveryBucketClaimed | src/concurrent_hash_map/base.rs:565-584 | Every bucket below the starting cursor lies in some claim |
| Counting.SumAdd | src/concurrent_hash_map/base.rs:267-268 | Adding x to any one cell adds exactly x to the sum of the cells |
| Counting.SumFirstOnly | src/concurrent_hash_map/base.rs:298-302 | Cells holding x in slot 0 and zero elsewhere sum to x |
| Counting.And | src/concurrent_hash_map/base.rs:267 | Bitwise and on naturals, bit by bit: the result is at most either operand |
| Counting.CellIndex | src/concurrent_hash_map/base.rs:266-267 | The selected cell, h & (len - 1), is in bounds and never above the hash |
| Counting.MaskIsRemainder | src/concurrent_hash_map/base.rs:266-267 | Masking with 2^k - 1 leaves h mod 2^k |
| Counting.CellIndexIsRemainder | src/concurrent_hash_map/base.rs:285-286 | On a power-of-two cell count, the selected cell is h mod the cell count, so every cell is reachable |
| ConcurrentMap.IsMoved | src/concurrent_hash_map/base.rs:29-34 | Only a forwarding node reports its bin as moved (a predicate; nothing in the modelled core calls it) |
| ConcurrentMap.CellCount | src/concurrent_hash_map/base.rs:297 | The number of cells created is table_size_for(NCPU) (the 64-bit version), as an integer that is a power of two |
| ConcurrentMap.PresizeCapacity | src/concurrent_hash_map/base.rs:440-444 | try_presize's target as an integer, with the 64-bit table_size_for: a power of two in 1..MAXIMUM_CAPACITY, equal to PresizeTarget's word |
| ConcurrentMap.NewCells | src/concurrent_hash_map/base.rs:298-302 | The first cells: n of them, holding x in slot 0 and zero in the rest, so they sum to x |
| ConcurrentMap.ConcurrentHashMap.Valid | src/concurrent_hash_map/base.rs:101-120 | The invariant every method keeps. NCPU is nonzero and there is no next table between operations. With no table, size_ctl is 0 or a power of two. The table length and the counter-cell count are powers of two |
| ConcurrentMap.ConcurrentHashMap.constructor | src/concurrent_hash_map/base.rs:128-149 | NCPU is the probed parallelism, or 1 when the probe gives 0. Every field is at its default, and the count is 0 |
| ConcurrentMap.ConcurrentHashMap.InitTable | src/concurrent_hash_map/base.rs:206-243 | A table that is present is returned and nothing changes. Otherwise a table of size_ctl empty bins is created (16 when size_ctl is 0), with size_ctl set to its threshold. If the allocation fails, size_ctl is restored and there is still no table |
| ConcurrentMap.ConcurrentHashMap.SumCount | src/concurrent_hash_map/base.rs:320-331 | The loop returns the base counter plus the sum of every cell |
| ConcurrentMap.ConcurrentHashMap.Size | src/concurrent_hash_map/base.rs:157-164 | size is max(sum_count, 0), and equals the count whenever that is non-negative |
| ConcurrentMap.ConcurrentHashMap.AddCount | src/concurrent_hash_map/base.rs:249-277 | Every path that completes adds exactly x to the count. Without cells, an uncontended call bumps the base counter; with cells, exactly the selected cell grows by x. A contended call without cells puts x in the base counter when the cell lock is held, and otherwise creates table_size_for(NCPU) fresh cells holding x in slot 0 and 0 elsewhere, leaving the base counter alone. The only path that panics is contended, without cells, with a failed allocation, and it leaves the count and the lock unchanged |
| ConcurrentMap.ConcurrentHashMap.FullAddCount | src/concurrent_hash_map/base.rs:279-319 | Every completed path adds exactly x to the count. Without cells and with the lock free, table_size_for(NCPU) fresh cells hold x in slot 0 and 0 elsewhere. With the lock held, x goes to the base counter. The lock is free again on every path, the panic included, and a panic leaves the count unchanged |
| ConcurrentMap.ConcurrentHashMap.BeginResize | src/concurrent_hash_map/base.rs:499-506 | size_ctl becomes the negative control word naming the table length, and nothing else changes |
| ConcurrentMap.ConcurrentHashMap.JoinResize | src/concurrent_hash_map/base.rs:491 | A joining helper adds one to the negative control word, and nothing else changes |
| ConcurrentMap.ConcurrentHashMap.LeaveResize | src/concurrent_hash_map/base.rs:601-604 | A leaving resizer subtracts one from size_ctl (wrapping as fetch_add does). It reports itself last exactly when the word it read passes the last-leaver test |
| ConcurrentMap.ConcurrentHashMap.Transfer | src/concurrent_hash_map/base.rs:515-620 | A transfer that commits leaves a fresh table of twice the length, its threshold in size_ctl, and no next table. A failed allocation leaves the table, sets size_ctl to isize::MAX and panics. The counters are untouched |
| ConcurrentMap.ConcurrentHashMap.TryPresize | src/concurrent_hash_map/base.rs:439-513 | The target is PresizeTarget's, a power of two. When size_ctl is negative, or the table is present and size_ctl already covers the target, nothing changes. With no table, one table of max(size_ctl, target) bins is created. With a table and size_ctl >= 0, the loop ends with the table no smaller and either the target within size_ctl or the table beyond MAXIMUM_CAPACITY. Whenever the table was replaced, the new one is fresh and empty, with its threshold in size_ctl. When an existing table was replaced, size_ctl was below the target, the last table doubled was at most MAXIMUM_CAPACITY, and the new length is either twice the old or one doubling past a threshold still below the target. Failed allocations leave size_ctl restored (no table) or at isize::MAX, and the counters are untouched |
| ConcurrentMap.ConcurrentHashMap.PresizeLoop | src/concurrent_hash_map/base.rs:448-512 | The retry loop terminates, because the table length strictly grows. Its invariant records that every table it installs doubles one that was at most MAXIMUM_CAPACITY and whose threshold lay below the target. It establishes TryPresize's outcome for any power-of-two target in 1..MAXIMUM_CAPACITY |
| ConcurrentMap.ConcurrentHashMap.PresizeEmpty | src/concurrent_hash_map/base.rs:453-471 | With no table, a table of n empty bins is created with n - (n >> 2) in size_ctl. On a failed allocation size_ctl is restored |
| ConcurrentMap.ConcurrentHashMap.PresizeGrow | src/concurrent_hash_map/base.rs:498-507 | The initiator's control word is installed, then the transfer doubles the table and stores the doubled table's threshold in size_ctl (or panics with size_ctl at isize::MAX) |
| ConcurrentMap.PresizeRoundAsWritten | src/concurrent_hash_map/base.rs:448-512 | One pass of try_presize's loop over a present table, with transfer as written (base.rs:532-533, 598). A pass that goes round again was below the target, and it leaves the table length unchanged, with size_ctl at the doubled table's threshold |
| ConcurrentMap.PresizeStallsAsWritten | src/concurrent_hash_map/base.rs:532-533 | With transfer as written, a target above 3/2 of an n-bin table is never reached: the first pass keeps n bins with size_ctl = (n << 1) - (n >> 1), and every later pass returns to that state |
| ConcurrentMap.PresizeStallsFromDefaultTable | src/concurrent_hash_map/base.rs:532-533 | A 16-bin table with size_ctl 12, presized for 100 elements (target 256), goes to (16, 24) and stays there |

## Left out

- `get` and `insert_` have `todo!()` bodies, so they are not modelled. `insert` (base.rs:196-198) only forwards to `insert_(key, value, false)`, so it is not modelled either.
- Transfer commits a table of empty bins and does not move nodes. Node migration stops at `todo!()` in the source, and `Node`, `TreeBin` and `ForwardingNode` are not part of this model.
- The per-bucket sweep that uses `Stride`, `NextBound` and the transfer cursor is not modelled as a method. In the source it never runs, because `finishing` starts out true. Its arithmetic is stated by `Sizing.Stride`, `Sizing.Claims` and `Sizing.EveryBucketClaimed`.
- try_presize's branch for joining a running resize (lines 483-497) is dead and is not modelled. It is guarded by `sc < 0` inside a loop that only runs while `sc >= 0`. `JoinResize` models that branch's `sc + 1` on its own.
- `LeaveResize` is not called from `Transfer`. In the source the leave is only reached after a sweep, and the first pass commits at once.
- Atomics, memory orderings, contention other than add_count's base-counter swap, `spin_loop`, the cell lock's waiting and epoch-based reclamation (`defer_destroy`) are outside a sequential model.
- init_table's spin while another thread initialises is excluded by `Valid` (sc < 0 with no table does not arise sequentially).
- `hash_one` and `RandomState` are foreign calls. The key hash (`Spread`'s input) and the thread's hash (`h`) are parameters.
- The NCPU probe (`available_parallelism`, `Once`, `static mut`) is the constructor's parameter.
- `catch_unwind`/`resume_unwind` become an `allocFails` input and a `Panicked` outcome.
- `LOAD_FACTOR` is an unused float and is not modelled.
- The counters are unbounded integers. The isize overflow of `base_count`, the cells and `sum_count` is not modelled.
- Hashing.SpreadCollision: only one half of the exact characterisation is stated. Two hashes spread alike exactly when h1 ^ h2 is 0 or 2^63 + 2^31; the model proves that equal spreads imply one of the two (`SpreadCollision`, `SpreadCollisionBits`), and `SpreadCollides` shows the pair case for one hash only. The general converse is a word identity the solver does not settle within the resource limit.
- LeadingZeros.Nlz: beyond 32 bits the model follows the code (1 - (i >> 31)), which is not a leading-zero count. `Sizing.StampsCollideBeyond32Bits` shows the consequence for resize stamps.
- ConcurrentMap.ConcurrentHashMap.FullAddCount: the cells are sized with the 64-bit `table_size_for`. For any NCPU up to 2^32 it agrees with the version as written.
- Two operations wrap around in a release build and panic on overflow in a debug build. The model follows the release-build wrap; the debug-build panics are not modelled.
  - `table_size_for(0)` underflows `c - 1`.
  - The commit `(n << 1) - (n >> 1)` (base.rs:598) at n == MAXIMUM_CAPACITY subtracts from isize::MIN.
- Bits.PresizeTarget: it takes the target with the corrected 64-bit table_size_for. As written the two agree for sizes below 2863311531; from that size on the source's target can be a non-power of two (`Bits.PresizeTargetAsWritten`, `Bits.PresizeTargetsPart`).
- ConcurrentMap.PresizeCapacity: it is built on `Bits.PresizeTarget`, so it has the same difference from the source for sizes from 2863311531 on.
- ConcurrentMap.ConcurrentHashMap.TryPresize: its target is `PresizeCapacity`'s, so it has the same difference from the source for sizes from 2863311531 on.

## Findings

| source | as written | input that shows it | evidently intended | confidence | as-written member | corrected member |
|---|---|---|---|---|---|---|
| src/concurrent_hash_map/base.rs:636-648 | table_size_for smears `c - 1` right by 1, 2, 4, 8 and 16 places only, the 32-bit version of the algorithm, on a 64-bit usize | c = 2^32 + 1, which try_presize(2863311531) passes as size + size/2 + 1, gives 2^33 - 1, not a power of two | add a step or-ing n with n >> 32, so that every c up to MAXIMUM_CAPACITY gets its power-of-two ceiling | not executed; certain as written | Bits.TableSizeFor, Bits.TableSizeForMissesPowerOfTwo, Bits.PresizeTargetAsWritten, Bits.PresizeTargetsPart | Bits.TableSizeFor64 |
| src/concurrent_hash_map/base.rs:532-533 | the initiating transfer allocates the next table with `resize_with(n)`, so it has n bins, and with `finishing` true from the start commits it at once with size_ctl (n << 1) - (n >> 1) | a 16-bin table with size_ctl 12, try_presize(100): target 256, state (16, 12) then (16, 24) for ever; the loop never exits | allocate 2n bins (`resize_with(n << 1)`, matching `with_capacity(n << 1)` and JDK 8), so each pass doubles the table and the loop ends | not executed; certain as written | ConcurrentMap.PresizeStallsAsWritten, ConcurrentMap.PresizeStallsFromDefaultTable | ConcurrentMap.ConcurrentHashMap.Transfer |
