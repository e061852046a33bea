/** The map's control fields under a sequential schedule: lazy table initialisation, the
    striped element counter, the resize control word and try_presize's resize loop. Under one
    thread every compare-and-swap succeeds, so each method is deterministic; a failed
    allocation (which the source catches and re-raises as a panic) is a boolean input, and the
    one contended compare-and-swap that changes the control flow (add_count's) is one too. */
module ConcurrentMap {
  import opened MachineInt
  import opened Sizing
  import opened Counting
  import opened LeadingZeros
  import Bits
  import Words

  /** What a table slot holds: nothing, a chain of nodes, a forwarding node left behind by a
      resize, or the root of a tree bin. */
  datatype Bin = Empty | Chain | Forwarding | TreeRoot

  /** is_moved: only forwarding nodes report that their bin has been moved. */
  predicate IsMoved(b: Bin) {
    b.Forwarding?
  }

  /** How an operation ended: normally, or with the panic an allocation failure raises. */
  datatype Outcome = Ok | Panicked

  /** n cells are what table_size_for gives for c processors. */
  ghost predicate CellsFor(c: bv64, n: int) {
    exists w: bv64 :: Bits.IsTableSize(c, w) && n == w as int
  }

  /** The number of counter cells to create, table_size_for(NCPU), as an integer: a power of
      two. */
  method CellCount(c: bv64) returns (n: int)
    ensures 1 <= n < TWO_64 && IsPowerOfTwo(n) && CellsFor(c, n)
  {
    var w := Bits.TableSizeFor64(c);
    n := Words.PowerValue(w);
  }

  /** c is try_presize's target for size, as an integer. */
  ghost predicate IsPresizeCapacity(size: bv64, c: int) {
    exists t: bv64 :: Bits.IsPresizeTarget(size, t) && c == t as int
  }

  /** MAXIMUM_CAPACITY is declared twice, as the word the bit manipulation compares against
      and as the integer the size arithmetic uses; the two are one value. */
  lemma MaximumCapacitiesAgree()
    ensures Bits.MAXIMUM_CAPACITY as int == MAXIMUM_CAPACITY
  {
  }

  /** try_presize's target capacity as an integer: a power of two. */
  method PresizeCapacity(size: bv64) returns (c: int)
    ensures 1 <= c <= MAXIMUM_CAPACITY && IsPowerOfTwo(c) && IsPresizeCapacity(size, c)
  {
    var t := Bits.PresizeTarget(size);
    c := Words.PowerValue(t);
    if t != Bits.MAXIMUM_CAPACITY {
      // below 2^62 the word fits in 62 bits, which bounds its integer value
      var low := t as bv62;
      assert c == low as int;
    }
  }

  /** The first counter cells: n of them, holding x in slot 0 and zero in the rest, so that
      they sum to x. */
  method NewCells(n: int, x: int) returns (rs: array<int>)
    requires n >= 1
    ensures fresh(rs) && rs.Length == n
    ensures rs[0] == x && (forall j :: 1 <= j < n ==> rs[j] == 0)
    ensures Sum(rs[..]) == x
  {
    rs := new int[n];
    rs[0] := x;
    for j := 1 to n
      invariant rs[0] == x
      invariant forall k :: 1 <= k < j ==> rs[k] == 0
    {
      rs[j] := 0;
    }
    SumFirstOnly(rs[..]);
  }

  class ConcurrentHashMap {
    /** NCPU: the available parallelism, at least 1. */
    const ncpu: bv64
    /** The bins; null until the first initialisation. */
    var table: array?<Bin>
    /** The table being filled by a resize; null between operations. */
    var nextTable: array?<Bin>
    /** The base counter, used while there are no counter cells. */
    var baseCount: int
    /** Sizing control: the initial capacity (0 for the default) while the table is null,
        -1 while initialising, negative with a resize stamp while resizing, otherwise the
        element count at which to resize next. */
    var sizeCtl: Isize
    /** The next table index (plus one) to split while resizing. */
    var transferIndex: Isize
    /** The spin lock guarding creation of the counter cells: 0 when free. */
    var cellsBusy: int
    /** The counter cells; null until the base counter is first contended. */
    var counterCells: array?<int>

    /** The invariant every operation keeps between two calls. */
    ghost predicate Valid()
      reads this
    {
      ncpu != 0
      && (table == null ==> sizeCtl >= 0 && (sizeCtl > 0 ==> IsPowerOfTwo(sizeCtl)))
      && (table != null ==> table.Length < TWO_64 && IsPowerOfTwo(table.Length))
      && nextTable == null
      && (counterCells != null ==> IsPowerOfTwo(counterCells.Length))
    }

    /** The number of elements the counter records: the base plus every cell. */
    ghost function Count(): int
      reads this, counterCells
    {
      baseCount + if counterCells == null then 0 else Sum(counterCells[..])
    }

    /** new: every field at its default, with NCPU the probed parallelism, or 1 when the probe
        reports none. */
    constructor (parallelism: bv64)
      ensures Valid()
      ensures ncpu == if parallelism == 0 then 1 else parallelism
      ensures table == null && nextTable == null && counterCells == null
      ensures baseCount == 0 && sizeCtl == 0 && transferIndex == 0 && cellsBusy == 0
      ensures Count() == 0
    {
      ncpu := if parallelism == 0 then 1 else parallelism;
      table := null;
      nextTable := null;
      baseCount := 0;
      sizeCtl := 0;
      transferIndex := 0;
      cellsBusy := 0;
      counterCells := null;
    }

    /** init_table: a present table is returned untouched. Otherwise size_ctl is claimed (set
        to -1) and a table of size_ctl bins, or DEFAULT_CAPACITY when it is 0, is created, with
        the threshold n - n/4 stored back; if the allocation fails size_ctl is restored and the
        panic propagates. */
    method InitTable(allocFails: bool) returns (o: Outcome, t: array?<Bin>)
      requires Valid()
      modifies this
      ensures Valid()
      ensures old(table) != null ==> o == Ok && t == table && unchanged(this)
      ensures old(table) == null && !allocFails ==>
        o == Ok && t == table && fresh(table)
        && table.Length == (if old(sizeCtl) > 0 then old(sizeCtl) else DEFAULT_CAPACITY)
        && (forall i :: 0 <= i < table.Length ==> table[i] == Empty)
        && sizeCtl == Threshold(table.Length)
      ensures old(table) == null && allocFails ==>
        o == Panicked && t == null && table == null && sizeCtl == old(sizeCtl)
      ensures baseCount == old(baseCount) && counterCells == old(counterCells)
      ensures cellsBusy == old(cellsBusy) && transferIndex == old(transferIndex)
    {
      if table != null {
        return Ok, table;
      }
      // Valid rules out sc < 0 with no table, the state in which the source spins
      var sc := sizeCtl;
      sizeCtl := -1;
      var n := if sc > 0 then sc else DEFAULT_CAPACITY;
      assert DEFAULT_CAPACITY == Pow2(4);
      if allocFails {
        sizeCtl := sc;
        return Panicked, null;
      }
      table := new Bin[n](_ => Empty);
      sizeCtl := Threshold(n);
      return Ok, table;
    }

    /** sum_count: the base counter plus every counter cell. */
    method SumCount() returns (sum: int)
      requires Valid()
      ensures sum == Count()
    {
      sum := baseCount;
      if counterCells != null {
        var cc := counterCells;
        for i := 0 to cc.Length
          invariant sum == baseCount + Sum(cc[..i])
        {
          SumPrefix(cc[..], i);
          sum := sum + cc[i];
        }
        assert cc[..cc.Length] == cc[..];
      }
    }

    /** size: the counted elements, or 0 when the count is negative. */
    method Size() returns (s: nat)
      requires Valid()
      ensures s == Max(Count(), 0)
      ensures Count() >= 0 ==> s == Count()
    {
      var n := SumCount();
      if n < 0 {
        s := 0;
      } else {
        s := n;
      }
    }

    /** add_count: without counter cells, the base counter is bumped, or, when that
        compare-and-swap is contended, full_add_count takes over; with cells, the cell the
        thread hash selects is bumped (and the sum is recomputed when check > 1). Either way
        the count grows by exactly x unless creating the cells fails. */
    method AddCount(x: int, check: int, h: Usize, contended: bool, allocFails: bool)
      returns (o: Outcome)
      requires Valid()
      modifies this, counterCells
      ensures Valid()
      ensures o == Ok ==> Count() == old(Count()) + x
      ensures o == Panicked ==> Count() == old(Count()) && counterCells == null
      ensures o == Panicked ==> old(counterCells) == null && contended && allocFails
      ensures old(counterCells) == null && !contended ==>
        o == Ok && baseCount == old(baseCount) + x && counterCells == null
      ensures old(counterCells) == null && contended && old(cellsBusy) != 0 ==>
        o == Ok && counterCells == null && baseCount == old(baseCount) + x
      ensures old(counterCells) == null && contended && old(cellsBusy) == 0 && !allocFails ==>
        o == Ok && fresh(counterCells) && baseCount == old(baseCount)
        && CellsFor(ncpu, counterCells.Length)
        && counterCells[0] == x && (forall j :: 1 <= j < counterCells.Length ==> counterCells[j] == 0)
      ensures old(counterCells) != null ==>
        o == Ok && counterCells == old(counterCells) && baseCount == old(baseCount)
        && counterCells[..] == old(counterCells[..])[CellIndex(h, counterCells.Length) :=
            old(counterCells[CellIndex(h, counterCells.Length)]) + x]
      ensures cellsBusy == old(cellsBusy)
      ensures table == old(table) && sizeCtl == old(sizeCtl) && transferIndex == old(transferIndex)
    {
      if counterCells == null {
        var b := baseCount;
        var s := b + x;
        if contended {
          o := FullAddCount(x, h, allocFails);
          return;
        }
        baseCount := s;
        return Ok;
      }
      var cc := counterCells;
      var i := CellIndex(h, cc.Length);
      SumAdd(cc[..], i, x);
      cc[i] := cc[i] + x;
      o := Ok;
      if check <= 1 {
        return;
      }
      var s := SumCount();
    }

    /** full_add_count: with counter cells present the selected cell is bumped. Otherwise, if
        the cell lock is free, it is taken, cells of length table_size_for(NCPU) are created
        holding x in slot 0 and zero elsewhere, and the lock is released (also when the
        allocation fails, after which the panic propagates and x is not counted). With the lock
        held elsewhere x goes to the base counter. */
    method FullAddCount(x: int, h: Usize, allocFails: bool) returns (o: Outcome)
      requires Valid()
      modifies this, counterCells
      ensures Valid()
      ensures o == Ok ==> Count() == old(Count()) + x
      ensures o == Panicked ==>
        Count() == old(Count()) && counterCells == null && old(counterCells) == null
        && old(cellsBusy) == 0 && allocFails
      ensures old(counterCells) != null ==>
        o == Ok && counterCells == old(counterCells) && baseCount == old(baseCount)
        && counterCells[..] == old(counterCells[..])[CellIndex(h, counterCells.Length) :=
            old(counterCells[CellIndex(h, counterCells.Length)]) + x]
      ensures old(counterCells) == null && old(cellsBusy) == 0 && !allocFails ==>
        o == Ok && fresh(counterCells) && baseCount == old(baseCount)
        && CellsFor(ncpu, counterCells.Length)
        && counterCells[0] == x && (forall j :: 1 <= j < counterCells.Length ==> counterCells[j] == 0)
      ensures old(counterCells) == null && old(cellsBusy) != 0 ==>
        o == Ok && counterCells == null && baseCount == old(baseCount) + x
      ensures cellsBusy == old(cellsBusy)
      ensures table == old(table) && sizeCtl == old(sizeCtl) && transferIndex == old(transferIndex)
    {
      if counterCells != null {
        var cc := counterCells;
        var i := CellIndex(h, cc.Length);
        SumAdd(cc[..], i, x);
        cc[i] := cc[i] + x;
        return Ok;
      }
      if cellsBusy != 0 {
        baseCount := baseCount + x;
        return Ok;
      }
      cellsBusy := 1;
      // re-checked under the lock: still no cells
      var n := CellCount(ncpu);
      if allocFails {
        cellsBusy := 0;
        return Panicked;
      }
      var rs := NewCells(n, x);
      counterCells := rs;
      cellsBusy := 0;
      o := Ok;
    }

    /** The initiator of a resize stores (resize_stamp(n) << RESIZE_STAMP_SHIFT) + 2 in
        size_ctl: a negative word naming the table length and one active resizer. */
    method BeginResize()
      requires Valid() && table != null && table.Length <= MAXIMUM_CAPACITY
      modifies this
      ensures table == old(table) && nextTable == old(nextTable) && baseCount == old(baseCount)
      ensures sizeCtl == ResizeControl(table.Length) && sizeCtl < 0
      ensures counterCells == old(counterCells) && cellsBusy == old(cellsBusy)
      ensures transferIndex == old(transferIndex)
    {
      sizeCtl := ResizeControl(table.Length);
    }

    /** A helper joins a running resize by adding one to the (negative) control word. */
    method JoinResize()
      requires sizeCtl < 0
      modifies this
      ensures sizeCtl == old(sizeCtl) + 1
      ensures table == old(table) && nextTable == old(nextTable) && baseCount == old(baseCount)
      ensures counterCells == old(counterCells) && cellsBusy == old(cellsBusy)
      ensures transferIndex == old(transferIndex)
    {
      sizeCtl := sizeCtl + 1;
    }

    /** A resizer leaves by subtracting one (a wrapping fetch_add); it is the last one out when
        the word it replaced, less 2, is the shifted stamp of the table length. */
    method LeaveResize() returns (last: bool)
      requires table != null && table.Length < TWO_63
      modifies this
      ensures table == old(table) && nextTable == old(nextTable) && baseCount == old(baseCount)
      ensures sizeCtl == WrapIsize(old(sizeCtl) - 1)
      ensures last == IsLastLeaver(old(sizeCtl), table.Length)
      ensures counterCells == old(counterCells) && cellsBusy == old(cellsBusy)
      ensures transferIndex == old(transferIndex)
    {
      var sc: int := sizeCtl;
      sizeCtl := WrapIsize(sc - 1);
      last := sc - 2 == StampShifted(ResizeStamp(table.Length));
    }

    /** transfer, as initiated by try_presize, with the next table twice the current length:
        the committed table has 2n empty bins and size_ctl becomes (n << 1) - (n >> 1), which
        is the threshold 3/4 of the new length. If the allocation fails size_ctl is set to
        isize::MAX, so that no further resize is attempted, and the panic propagates. */
    method Transfer(allocFails: bool) returns (o: Outcome)
      requires Valid() && table != null && table.Length <= MAXIMUM_CAPACITY
      modifies this
      ensures Valid()
      ensures !allocFails ==>
        o == Ok && fresh(table) && table.Length == 2 * old(table.Length)
        && (forall i :: 0 <= i < table.Length ==> table[i] == Empty)
        && sizeCtl == CommitThreshold(old(table.Length)) && sizeCtl == Threshold(table.Length)
      ensures allocFails ==> o == Panicked && table == old(table) && sizeCtl == TWO_63 - 1
      ensures nextTable == null && baseCount == old(baseCount) && counterCells == old(counterCells)
      ensures cellsBusy == old(cellsBusy) && transferIndex == old(transferIndex)
    {
      var n := table.Length;
      if allocFails {
        sizeCtl := TWO_63 - 1;
        return Panicked;
      }
      ghost var k: nat :| n == Pow2(k);
      assert 2 * n == Pow2(k + 1);
      var nt := new Bin[2 * n](_ => Empty);
      nextTable := nt;
      // the sweep over the old bins (node migration) is not modelled
      nextTable := null;
      table := nt;
      sizeCtl := CommitThreshold(n);
      o := Ok;
    }

    /** try_presize: the target c is MAXIMUM_CAPACITY or the power-of-two ceiling of
        size + size/2 + 1, and the retry loop (PresizeLoop) works towards it. */
    method TryPresize(size: bv64, allocFails: bool) returns (o: Outcome, ghost c: int)
      requires Valid()
      modifies this
      ensures 1 <= c <= MAXIMUM_CAPACITY && IsPowerOfTwo(c) && IsPresizeCapacity(size, c)
      ensures Valid()
      ensures !allocFails ==> o == Ok
      ensures old(sizeCtl) < 0 ==> o == Ok && table == old(table) && sizeCtl == old(sizeCtl)
      ensures old(table) != null && 0 <= c <= old(sizeCtl) ==>
        o == Ok && table == old(table) && sizeCtl == old(sizeCtl)
      ensures o == Ok && old(table) == null ==>
        table != null && table.Length == Max(old(sizeCtl), c)
      ensures o == Ok && old(table) != null && old(sizeCtl) >= 0 ==>
        table != null && table.Length >= old(table.Length)
        && (c <= sizeCtl || table.Length > MAXIMUM_CAPACITY)
      ensures o == Ok && table != old(table) ==>
        table != null && fresh(table) && (forall i :: 0 <= i < table.Length ==> table[i] == Empty)
        && sizeCtl == Threshold(table.Length)
      ensures o == Ok && old(table) != null && table != old(table) ==>
        old(sizeCtl) < c && table.Length / 2 <= MAXIMUM_CAPACITY
        && (table.Length == 2 * old(table.Length) || Threshold(table.Length / 2) < c)
      ensures o == Panicked && old(table) == null ==> table == null && sizeCtl == old(sizeCtl)
      ensures o == Panicked && old(table) != null ==> table != null && sizeCtl == TWO_63 - 1
      ensures baseCount == old(baseCount) && counterCells == old(counterCells)
      ensures cellsBusy == old(cellsBusy) && transferIndex == old(transferIndex)
    {
      var ct := PresizeCapacity(size);
      c := ct;
      o := PresizeLoop(ct, allocFails);
    }

    /** try_presize's retry loop towards the target capacity c: with no table, one of
        max(size_ctl, c) bins is created; otherwise the table is doubled until size_ctl reaches
        c or the table exceeds MAXIMUM_CAPACITY. The branch for joining a resize in progress is
        guarded by size_ctl < 0 inside a loop that only runs while size_ctl >= 0, and is left
        out. */
    method PresizeLoop(c: int, allocFails: bool) returns (o: Outcome)
      requires Valid() && 1 <= c <= MAXIMUM_CAPACITY && IsPowerOfTwo(c)
      modifies this
      ensures Valid()
      ensures !allocFails ==> o == Ok
      ensures old(sizeCtl) < 0 ==> o == Ok && table == old(table) && sizeCtl == old(sizeCtl)
      ensures old(table) != null && 0 <= c <= old(sizeCtl) ==>
        o == Ok && table == old(table) && sizeCtl == old(sizeCtl)
      ensures o == Ok && old(table) == null ==>
        table != null && table.Length == Max(old(sizeCtl), c)
      ensures o == Ok && old(table) != null && old(sizeCtl) >= 0 ==>
        table != null && table.Length >= old(table.Length)
        && (c <= sizeCtl || table.Length > MAXIMUM_CAPACITY)
      ensures o == Ok && table != old(table) ==>
        table != null && fresh(table) && (forall i :: 0 <= i < table.Length ==> table[i] == Empty)
        && sizeCtl == Threshold(table.Length)
      ensures o == Ok && old(table) != null && table != old(table) ==>
        old(sizeCtl) < c && table.Length / 2 <= MAXIMUM_CAPACITY
        && (table.Length == 2 * old(table.Length) || Threshold(table.Length / 2) < c)
      ensures o == Panicked && old(table) == null ==> table == null && sizeCtl == old(sizeCtl)
      ensures o == Panicked && old(table) != null ==> table != null && sizeCtl == TWO_63 - 1
      ensures baseCount == old(baseCount) && counterCells == old(counterCells)
      ensures cellsBusy == old(cellsBusy) && transferIndex == old(transferIndex)
    {
      o := Ok;
      while sizeCtl >= 0
        invariant Valid()
        invariant o == Ok
        invariant baseCount == old(baseCount) && counterCells == old(counterCells)
        invariant cellsBusy == old(cellsBusy) && transferIndex == old(transferIndex)
        invariant table == null ==> sizeCtl == old(sizeCtl)
        invariant old(table) == null ==> table == null
        invariant old(table) != null ==> table != null && table.Length >= old(table.Length)
        invariant sizeCtl >= 0 || (table == old(table) && sizeCtl == old(sizeCtl))
        invariant table == old(table) ==> sizeCtl == old(sizeCtl)
        invariant old(sizeCtl) < 0 || (old(table) != null && c <= old(sizeCtl)) ==>
          table == old(table)
        invariant table != old(table) ==>
          table != null && fresh(table) && (forall i :: 0 <= i < table.Length ==> table[i] == Empty)
          && sizeCtl == Threshold(table.Length)
        invariant table != old(table) ==>
          old(sizeCtl) < c && table.Length / 2 <= MAXIMUM_CAPACITY
          && (table.Length == 2 * old(table.Length) || Threshold(table.Length / 2) < c)
        decreases TWO_64 - (if table == null then 0 else table.Length)
      {
        var sc := sizeCtl;
        if table == null {
          var n := if sc > c then sc else c;
          o := PresizeEmpty(n, allocFails);
          return;
        } else if c <= sc {
          break;
        } else {
          var n := table.Length;
          if n > MAXIMUM_CAPACITY {
            break;
          }
          o := PresizeGrow(allocFails);
          if o == Panicked {
            return;
          }
        }
      }
    }

    /** try_presize's branch for a map with no table: size_ctl is claimed with -1, a table of n
        empty bins is created and size_ctl becomes n - (n >> 2); if the allocation fails size_ctl
        is restored and the panic propagates. */
    method PresizeEmpty(n: int, allocFails: bool) returns (o: Outcome)
      requires Valid() && table == null && 1 <= n < TWO_63 && IsPowerOfTwo(n)
      modifies this
      ensures Valid()
      ensures !allocFails ==>
        o == Ok && table != null && fresh(table) && table.Length == n
        && (forall i :: 0 <= i < table.Length ==> table[i] == Empty)
        && sizeCtl == Threshold(n)
      ensures allocFails ==> o == Panicked && table == null && sizeCtl == old(sizeCtl)
      ensures nextTable == null && baseCount == old(baseCount) && counterCells == old(counterCells)
      ensures cellsBusy == old(cellsBusy) && transferIndex == old(transferIndex)
    {
      var sc := sizeCtl;
      sizeCtl := -1;
      if allocFails {
        sizeCtl := sc;
        return Panicked;
      }
      table := new Bin[n](_ => Empty);
      sizeCtl := Threshold(n);
      o := Ok;
    }

    /** try_presize's branch for a table below the target: size_ctl is swapped for the resize
        control word and transfer is run. */
    method PresizeGrow(allocFails: bool) returns (o: Outcome)
      requires Valid() && table != null && table.Length <= MAXIMUM_CAPACITY
      modifies this
      ensures Valid()
      ensures !allocFails ==>
        o == Ok && fresh(table) && table.Length == 2 * old(table.Length)
        && (forall i :: 0 <= i < table.Length ==> table[i] == Empty)
        && sizeCtl == Threshold(table.Length)
      ensures allocFails ==> o == Panicked && table == old(table) && sizeCtl == TWO_63 - 1
      ensures nextTable == null && baseCount == old(baseCount) && counterCells == old(counterCells)
      ensures cellsBusy == old(cellsBusy) && transferIndex == old(transferIndex)
    {
      BeginResize();
      o := Transfer(allocFails);
    }
  }

  /** The two control fields try_presize's loop reads once the table exists. */
  datatype Control = Control(tableLen: nat, sizeCtl: int)

  /** How one pass of that loop ends: leaving the loop, or going round again in a new state. */
  datatype Round = Exit | Again(next: Control)

  /** One pass of try_presize's loop over a present table with transfer as written: the
      next table is allocated with length n (not 2n) and committed at once, since `finishing`
      starts out true, and size_ctl becomes (n << 1) - (n >> 1). */
  function PresizeRoundAsWritten(st: Control, c: int): (r: Round)
    requires 0 <= st.sizeCtl && st.tableLen < TWO_63
    ensures r.Again? ==>
      st.sizeCtl < c && r.next == Control(st.tableLen, Threshold(2 * st.tableLen))
  {
    if c <= st.sizeCtl || st.tableLen > MAXIMUM_CAPACITY then Exit
    else Again(Control(st.tableLen, CommitThreshold(st.tableLen)))
  }

  /** With transfer as written, a target above 3/2 of the table length is never reached: after
      one pass the table length is unchanged and every further pass returns to the same state,
      so the loop never exits. */
  lemma PresizeStallsAsWritten(n: nat, sc: int, c: int)
    requires 1 <= n <= MAXIMUM_CAPACITY && 0 <= sc < c && Threshold(2 * n) < c
    ensures PresizeRoundAsWritten(Control(n, sc), c) == Again(Control(n, Threshold(2 * n)))
    ensures PresizeRoundAsWritten(Control(n, Threshold(2 * n)), c) == Again(Control(n, Threshold(2 * n)))
  {
  }

  /** The smallest instance: a default table of 16 bins (size_ctl 12) asked to presize for 100
      elements, a target of table_size_for(151) == 256 bins. */
  lemma PresizeStallsFromDefaultTable()
    ensures PresizeRoundAsWritten(Control(16, 12), 256) == Again(Control(16, 24))
    ensures PresizeRoundAsWritten(Control(16, 24), 256) == Again(Control(16, 24))
  {
    PresizeStallsAsWritten(16, 12, 256);
  }
}
