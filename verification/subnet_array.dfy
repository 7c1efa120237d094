/** The C layout of a realm's slot array, kept apart from the pool model to
    show how found_ip_realm's scan behaves on it as written. generate_subnet
    mallocs `count` cells, fills only the slots it creates and never writes
    a NULL terminator; found_ip_realm stops only at a NULL cell. */
module SubnetArray {
  import opened Wrappers
  import opened CStrings
  import opened Ranges
  import opened Pool
  import opened Allocation
  import opened Search

  /** A cell of the `subnet` array: a slot pointer, NULL, or never written. */
  datatype Cell = Entry(slot: Slot) | Null | Uninitialised

  /** The array as generate_subnet leaves it: the created slots, then the
      remaining `count - |pool|` cells of the allocation untouched. */
  function AsAllocated(pool: seq<Slot>, count: int): (cells: seq<Cell>)
    ensures |cells| == if count > |pool| then count else |pool|
    ensures forall i :: 0 <= i < |pool| ==> cells[i] == Entry(pool[i])
    ensures forall i :: |pool| <= i < |cells| ==> cells[i] == Uninitialised
  {
    seq(|pool|, i requires 0 <= i < |pool| => Entry(pool[i]))
      + seq(if count > |pool| then count - |pool| else 0, _ => Uninitialised)
  }

  /** The array with the terminator found_ip_realm relies on. */
  function Terminated(pool: seq<Slot>): (cells: seq<Cell>)
    ensures |cells| == |pool| + 1 && cells[|pool|] == Null
    ensures forall i :: 0 <= i < |pool| ==> cells[i] == Entry(pool[i])
  {
    seq(|pool|, i requires 0 <= i < |pool| => Entry(pool[i])) + [Null]
  }

  /** What the scan does: finds a free slot, stops at NULL, or reads a cell
      that was never written (or lies past the allocation). */
  datatype Scan = Found(index: nat) | NotFound | UndefinedRead

  /** The loop of found_ip_realm as written, from cell `i`. */
  function ScanAsWritten(cells: seq<Cell>, i: nat): Scan
    decreases |cells| - i
  {
    if i >= |cells| then UndefinedRead
    else match cells[i]
      case Null => NotFound
      case Uninitialised => UndefinedRead
      case Entry(s) => if !s.used then Found(i) else ScanAsWritten(cells, i + 1)
  }

  lemma {:induction false} ScanPastUsed(cells: seq<Cell>, pool: seq<Slot>, i: nat)
    requires i <= |pool| <= |cells|
    requires forall k :: 0 <= k < |pool| ==> cells[k] == Entry(pool[k])
    requires forall k :: i <= k < |pool| ==> pool[k].used
    ensures ScanAsWritten(cells, i) == ScanAsWritten(cells, |pool|)
    decreases |pool| - i
  {
    if i < |pool| {
      ScanPastUsed(cells, pool, i + 1);
    }
  }

  lemma {:induction false} ScanFindsFirstFree(cells: seq<Cell>, pool: seq<Slot>, i: nat)
    requires i <= |pool| <= |cells|
    requires forall k :: 0 <= k < |pool| ==> cells[k] == Entry(pool[k])
    requires FirstIndex(pool, (s: Slot) => !s.used).Some? && i <= FirstIndex(pool, (s: Slot) => !s.used).value
    ensures ScanAsWritten(cells, i) == Found(FirstIndex(pool, (s: Slot) => !s.used).value)
    decreases |pool| - i
  {
    if i < FirstIndex(pool, (s: Slot) => !s.used).value {
      assert pool[i].used;
      ScanFindsFirstFree(cells, pool, i + 1);
    }
  }

  /** While a slot is free the scan as written finds the same slot as the
      model's first-fit acquire, whatever follows the created slots. */
  lemma ScanAgreesWhileFree(pool: seq<Slot>, count: int, name: CString)
    requires exists k :: 0 <= k < |pool| && !pool[k].used
    ensures Acquire(pool, name).index.Some?
    ensures ScanAsWritten(AsAllocated(pool, count), 0) == Found(Acquire(pool, name).index.value)
  {
    ScanFindsFirstFree(AsAllocated(pool, count), pool, 0);
  }

  /** The defect: once every created slot of a realm is used, the scan as
      written runs past them into memory generate_subnet never wrote, for
      every realm whatsoever, instead of returning NULL as the model's
      acquire does. */
  lemma ExhaustedScanReadsUninitialised(r: Range, pool: seq<Slot>, name: CString)
    requires |pool| == |Generate(r)|
    requires forall k :: 0 <= k < |pool| ==> pool[k].used
    ensures ScanAsWritten(AsAllocated(pool, Rows(r) * Cols(r)), 0) == UndefinedRead
    ensures Acquire(pool, name) == Acquired(pool, None)
  {
    var cells := AsAllocated(pool, Rows(r) * Cols(r));
    GenerateBelowCount(r);
    ScanPastUsed(cells, pool, 0);
    if |pool| < |cells| {
      assert cells[|pool|] == Uninitialised;
    }
  }

  /** With the terminator in place the scan is exactly the model's acquire:
      the first free slot, or NULL when the pool is full. */
  lemma TerminatedScanIsAcquire(pool: seq<Slot>, name: CString)
    ensures Acquire(pool, name).index.None? ==> ScanAsWritten(Terminated(pool), 0) == NotFound
    ensures Acquire(pool, name).index.Some? ==>
      ScanAsWritten(Terminated(pool), 0) == Found(Acquire(pool, name).index.value)
  {
    var cells := Terminated(pool);
    if Acquire(pool, name).index.None? {
      ScanPastUsed(cells, pool, 0);
    } else {
      ScanFindsFirstFree(cells, pool, 0);
    }
  }

  /** A concrete instance: network 10.0.0.0 with netmask 255.255.255.251
      gives five cells (10.0.0.0 to 10.0.0.4) and one slot, 10.0.0.2; after
      one lease the next scan reads the second, unwritten cell. */
  lemma OneSlotRealmOverrun()
    ensures var r := Derive([10, 0, 0, 0], [255, 255, 255, 251]);
      && Generate(r) == [FreeSlot([10, 0, 0, 2])]
      && Rows(r) * Cols(r) == 5
      && var leased := Acquire(Generate(r), "client1").pool;
         ScanAsWritten(AsAllocated(leased, 5), 0) == UndefinedRead
  {
    var r := Derive([10, 0, 0, 0], [255, 255, 255, 251]);
    assert r.end == [10, 0, 0, 4];
    assert Generate(r) == [FreeSlot([10, 0, 0, 2])];
  }
}
