/** found_ip_realm (first-fit acquire) and the slot release of client_disconnect. */
module Allocation {
  import opened Wrappers
  import opened CStrings
  import opened Pool
  import opened Search

  /** The pool after an acquire attempt and the index of the slot handed
      out, `None` standing for the NULL return. */
  datatype Acquired = Acquired(pool: seq<Slot>, index: Option<nat>)

  /** A slot carries a holder exactly while it is used. */
  ghost predicate WellFormed(pool: seq<Slot>)
  {
    forall i :: 0 <= i < |pool| ==> (pool[i].used <==> pool[i].holder.Some?)
  }

  /** found_ip_realm: marks the lowest-index free slot used and held by
      `name`, leaving every other slot as it was; when every slot is used
      nothing changes and no slot is returned. */
  function Acquire(pool: seq<Slot>, name: CString): (r: Acquired)
    ensures |r.pool| == |pool|
    ensures r.index.None? <==> forall i :: 0 <= i < |pool| ==> pool[i].used
    ensures r.index.None? ==> r.pool == pool
    ensures r.index.Some? ==>
      && r.index.value < |pool|
      && !pool[r.index.value].used
      && (forall i :: 0 <= i < r.index.value ==> pool[i].used)
      && r.pool[r.index.value] == Slot(pool[r.index.value].address, true, Some(name))
      && (forall i :: 0 <= i < |pool| && i != r.index.value ==> r.pool[i] == pool[i])
    ensures WellFormed(pool) ==> WellFormed(r.pool)
  {
    match FirstIndex(pool, (s: Slot) => !s.used)
    case None => Acquired(pool, None)
    case Some(k) => Acquired(pool[k := pool[k].(used := true, holder := Some(name))], Some(k))
  }

  /** The release in client_disconnect: the slot becomes free and loses its
      holder, its address stays, and no other slot changes. */
  function Release(pool: seq<Slot>, k: nat): (r: seq<Slot>)
    requires k < |pool|
    ensures |r| == |pool|
    ensures !r[k].used && r[k].holder.None? && r[k].address == pool[k].address
    ensures forall i :: 0 <= i < |pool| && i != k ==> r[i] == pool[i]
    ensures WellFormed(pool) ==> WellFormed(r)
  {
    pool[k := FreeSlot(pool[k].address)]
  }

  /** Releasing twice is releasing once. */
  lemma ReleaseIdempotent(pool: seq<Slot>, k: nat)
    requires k < |pool|
    ensures Release(Release(pool, k), k) == Release(pool, k)
  {
  }

  /** Acquire then release of the acquired slot gives back the pool, so the
      same address is the next one handed out. */
  lemma AcquireReleaseRoundTrip(pool: seq<Slot>, name: CString)
    requires WellFormed(pool)
    ensures Acquire(pool, name).index.Some? ==>
      Release(Acquire(pool, name).pool, Acquire(pool, name).index.value) == pool
  {
    var a := Acquire(pool, name);
    if a.index.Some? {
      var k := a.index.value;
      assert pool[k] == FreeSlot(pool[k].address);
    }
  }

  /** Two acquires in a row hand out strictly increasing indices. */
  lemma AcquireAscending(pool: seq<Slot>, first: CString, second: CString)
    ensures var a := Acquire(pool, first);
      var b := Acquire(a.pool, second);
      a.index.Some? && b.index.Some? ==> a.index.value < b.index.value
  {
  }

  /** Acquires for a list of names, in order: the pool at the end and the
      index each call returned. */
  function AcquireEach(pool: seq<Slot>, names: seq<CString>): (seq<Slot>, seq<Option<nat>>)
    decreases |names|
  {
    if |names| == 0 then (pool, [])
    else
      var a := Acquire(pool, names[0]);
      var rest := AcquireEach(a.pool, names[1..]);
      (rest.0, [a.index] + rest.1)
  }

  /** The pool is used exactly on its first `m` slots. */
  ghost predicate FilledUpTo(pool: seq<Slot>, m: nat)
  {
    forall i :: 0 <= i < |pool| ==> (pool[i].used <==> i < m)
  }

  /** On a pool used exactly on its first `m` slots, acquire takes slot `m`
      and the pool becomes used on its first `m + 1`. */
  lemma AcquireFilled(pool: seq<Slot>, name: CString, m: nat)
    requires m <= |pool| && FilledUpTo(pool, m)
    ensures Acquire(pool, name).index == (if m < |pool| then Some(m) else None)
    ensures FilledUpTo(Acquire(pool, name).pool, if m < |pool| then m + 1 else m)
  {
    var a := Acquire(pool, name);
    if m < |pool| {
      assert !pool[m].used;
      assert a.index == Some(m);
    } else {
      assert a.index == None;
    }
  }

  /** The index the i-th acquire returns on a pool filled up to `m`. */
  function Expected(m: nat, n: nat, i: nat): Option<nat>
  {
    if m + i < n then Some(m + i) else None
  }

  /** Successive acquires on a pool used exactly on its first `m` slots
      return `m`, `m + 1`, ... while slots last, then exhaustion. */
  lemma {:induction false} AcquireEachFrom(pool: seq<Slot>, names: seq<CString>, m: nat)
    requires m <= |pool| && FilledUpTo(pool, m)
    ensures |AcquireEach(pool, names).1| == |names|
    ensures forall i :: 0 <= i < |names| ==> AcquireEach(pool, names).1[i] == Expected(m, |pool|, i)
    decreases |names|
  {
    if |names| > 0 {
      var a := Acquire(pool, names[0]);
      var m' := if m < |pool| then m + 1 else m;
      AcquireFilled(pool, names[0], m);
      AcquireEachFrom(a.pool, names[1..], m');
      AcquireEachUnfold(pool, names);
      ShiftExpected(AcquireEach(pool, names).1, AcquireEach(a.pool, names[1..]).1, m, m', |pool|);
    }
  }

  /** Index bookkeeping of one induction step: prepending the first
      acquire's index to the rest shifts the expected indices by one. */
  lemma ShiftExpected(out: seq<Option<nat>>, tail: seq<Option<nat>>, m: nat, m': nat, n: nat)
    requires m <= n && m' == (if m < n then m + 1 else m)
    requires out == [Expected(m, n, 0)] + tail
    requires forall i :: 0 <= i < |tail| ==> tail[i] == Expected(m', n, i)
    ensures forall i :: 0 <= i < |out| ==> out[i] == Expected(m, n, i)
  {
    forall i | 1 <= i < |out|
      ensures out[i] == Expected(m, n, i)
    {
      assert out[i] == tail[i - 1] == Expected(m', n, i - 1);
    }
  }

  /** One step of AcquireEach, named so that proofs need not unfold it. */
  lemma AcquireEachUnfold(pool: seq<Slot>, names: seq<CString>)
    requires |names| > 0
    ensures AcquireEach(pool, names).1
      == [Acquire(pool, names[0]).index] + AcquireEach(Acquire(pool, names[0]).pool, names[1..]).1
  {
  }

  /** First-fit on a fresh pool: the i-th acquire gets slot i while slots
      last, so all handed-out slots differ and follow pool order, and every
      acquire after the pool is full reports exhaustion. */
  lemma AcquireEachFresh(pool: seq<Slot>, names: seq<CString>)
    requires forall i :: 0 <= i < |pool| ==> !pool[i].used
    ensures |AcquireEach(pool, names).1| == |names|
    ensures forall i :: 0 <= i < |names| ==>
      AcquireEach(pool, names).1[i] == (if i < |pool| then Some(i) else None)
  {
    AcquireEachFrom(pool, names, 0);
  }
}
