/** generate_subnet: the leasable slots of one realm. */
module Pool {
  import opened Wrappers
  import opened CStrings
  import opened Ranges

  /** One leasable address; `holder` is the common name of the client that
      holds it (the C `common_name` pointer). */
  datatype Slot = Slot(address: Quad, used: bool, holder: Option<CString>)

  /** A slot as generate_subnet creates it: free and held by nobody. */
  function FreeSlot(a: Quad): Slot
  {
    Slot(a, false, None)
  }

  /** The positions (octet 2, octet 3) generate_subnet never hands out, in
      the order of its if/else-if chain: network, gateway, broadcast, DHCP. */
  predicate Reserved(r: Range, j: int, k: int)
  {
    || (j == r.start[2] && k == r.start[3])
    || (j == r.start[2] && k == r.start[3] + 1)
    || (j == r.end[2] && k == r.end[3])
    || (j == r.end[2] && k == r.end[3] - 1)
  }

  predicate InGrid(r: Range, j: int, k: int)
  {
    r.start[2] <= j <= r.end[2] && r.start[3] <= k <= r.end[3]
  }

  /** The address of grid position (j, k): the first two octets come from
      the network. */
  function AddressAt(r: Range, j: int, k: int): Quad
  {
    [r.start[0], r.start[1], j, k]
  }

  /** An address the realm's pool offers. */
  predicate PoolAddress(r: Range, a: Quad)
  {
    a == AddressAt(r, a[2], a[3]) && InGrid(r, a[2], a[3]) && !Reserved(r, a[2], a[3])
  }

  /** Iteration order: octet 2 outer, octet 3 inner, both ascending. */
  predicate Before(a: Quad, b: Quad)
  {
    a[2] < b[2] || (a[2] == b[2] && a[3] < b[3])
  }

  /** The inner loop: row `j` from octet-3 value `k` to the end. */
  function RowFrom(r: Range, j: int, k: int): seq<Slot>
    decreases r.end[3] - k + 1
  {
    if k > r.end[3] then []
    else (if Reserved(r, j, k) then [] else [FreeSlot(AddressAt(r, j, k))]) + RowFrom(r, j, k + 1)
  }

  /** The outer loop: rows from octet-2 value `j` to the end. */
  function GridFrom(r: Range, j: int): seq<Slot>
    decreases r.end[2] - j + 1
  {
    if j > r.end[2] then [] else RowFrom(r, j, r.start[3]) + GridFrom(r, j + 1)
  }

  /** generate_subnet for one realm: the pool has exactly as many entries as
      slots were created. */
  function Generate(r: Range): seq<Slot>
  {
    GridFrom(r, r.start[2])
  }

  /** A slot of row `j` at or after octet-3 value `k`, as generate_subnet
      creates it. */
  predicate RowSlot(r: Range, j: int, k: int, s: Slot)
  {
    && s == FreeSlot(AddressAt(r, j, s.address[3]))
    && k <= s.address[3] <= r.end[3]
    && !Reserved(r, j, s.address[3])
  }

  lemma {:induction false} RowSound(r: Range, j: int, k: int)
    ensures forall i :: 0 <= i < |RowFrom(r, j, k)| ==> RowSlot(r, j, k, RowFrom(r, j, k)[i])
    decreases r.end[3] - k + 1
  {
    if k <= r.end[3] {
      RowSound(r, j, k + 1);
      var rest := RowFrom(r, j, k + 1);
      var row := RowFrom(r, j, k);
      var d := if Reserved(r, j, k) then 0 else 1;
      assert |row| == |rest| + d;
      forall i | 0 <= i < |row|
        ensures RowSlot(r, j, k, row[i])
      {
        if i >= d {
          assert row[i] == rest[i - d];
          assert RowSlot(r, j, k + 1, rest[i - d]);
        }
      }
    }
  }

  lemma {:induction false} RowSorted(r: Range, j: int, k: int)
    ensures forall i, i' :: 0 <= i < i' < |RowFrom(r, j, k)| ==>
      RowFrom(r, j, k)[i].address[3] < RowFrom(r, j, k)[i'].address[3]
    decreases r.end[3] - k + 1
  {
    if k <= r.end[3] {
      RowSorted(r, j, k + 1);
      RowSound(r, j, k + 1);
      var rest := RowFrom(r, j, k + 1);
      var row := RowFrom(r, j, k);
      var d := if Reserved(r, j, k) then 0 else 1;
      forall i, i' | 0 <= i < i' < |row|
        ensures row[i].address[3] < row[i'].address[3]
      {
        assert row[i'] == rest[i' - d];
        assert RowSlot(r, j, k + 1, rest[i' - d]);
        if i >= d {
          assert row[i] == rest[i - d];
        }
      }
    }
  }

  lemma {:induction false} RowComplete(r: Range, j: int, k: int, k': int)
    requires k <= k' <= r.end[3] && !Reserved(r, j, k')
    ensures exists i :: 0 <= i < |RowFrom(r, j, k)| && RowFrom(r, j, k)[i].address == AddressAt(r, j, k')
    decreases r.end[3] - k + 1
  {
    var row := RowFrom(r, j, k);
    if k' == k {
      assert row[0].address == AddressAt(r, j, k');
    } else {
      RowComplete(r, j, k + 1, k');
      var rest := RowFrom(r, j, k + 1);
      var d := if Reserved(r, j, k) then 0 else 1;
      var i :| 0 <= i < |rest| && rest[i].address == AddressAt(r, j, k');
      assert row[i + d] == rest[i];
    }
  }

  /** A slot of the rows from `j` on. */
  predicate GridSlot(r: Range, j: int, s: Slot)
  {
    s == FreeSlot(s.address) && PoolAddress(r, s.address) && j <= s.address[2]
  }

  lemma {:induction false} GridSound(r: Range, j: int)
    requires r.start[2] <= j
    ensures forall i :: 0 <= i < |GridFrom(r, j)| ==> GridSlot(r, j, GridFrom(r, j)[i])
    decreases r.end[2] - j + 1
  {
    if j <= r.end[2] {
      GridSound(r, j + 1);
      RowSound(r, j, r.start[3]);
      var row, rest := RowFrom(r, j, r.start[3]), GridFrom(r, j + 1);
      var g := GridFrom(r, j);
      forall i | 0 <= i < |g|
        ensures GridSlot(r, j, g[i])
      {
        if i < |row| {
          assert g[i] == row[i];
          assert RowSlot(r, j, r.start[3], row[i]);
        } else {
          assert g[i] == rest[i - |row|];
          assert GridSlot(r, j + 1, rest[i - |row|]);
        }
      }
    }
  }

  lemma {:induction false} GridSorted(r: Range, j: int)
    requires r.start[2] <= j
    ensures forall i, i' :: 0 <= i < i' < |GridFrom(r, j)| ==> Before(GridFrom(r, j)[i].address, GridFrom(r, j)[i'].address)
    decreases r.end[2] - j + 1
  {
    if j <= r.end[2] {
      GridSorted(r, j + 1);
      GridSound(r, j + 1);
      RowSound(r, j, r.start[3]);
      RowSorted(r, j, r.start[3]);
      var row, rest := RowFrom(r, j, r.start[3]), GridFrom(r, j + 1);
      var g := GridFrom(r, j);
      forall i, i' | 0 <= i < i' < |g|
        ensures Before(g[i].address, g[i'].address)
      {
        if i' < |row| {
          assert g[i] == row[i] && g[i'] == row[i'];
          assert RowSlot(r, j, r.start[3], row[i]) && RowSlot(r, j, r.start[3], row[i']);
        } else if i < |row| {
          assert g[i] == row[i] && g[i'] == rest[i' - |row|];
          assert RowSlot(r, j, r.start[3], row[i]);
          assert GridSlot(r, j + 1, rest[i' - |row|]);
        } else {
          assert g[i] == rest[i - |row|] && g[i'] == rest[i' - |row|];
        }
      }
    }
  }

  lemma {:induction false} GridComplete(r: Range, j: int, a: Quad)
    requires PoolAddress(r, a) && j <= a[2]
    ensures exists i :: 0 <= i < |GridFrom(r, j)| && GridFrom(r, j)[i].address == a
    decreases r.end[2] - j + 1
  {
    var row, rest := RowFrom(r, j, r.start[3]), GridFrom(r, j + 1);
    var g := GridFrom(r, j);
    assert g == row + rest;
    if a[2] == j {
      RowComplete(r, j, r.start[3], a[3]);
      var i :| 0 <= i < |row| && row[i].address == AddressAt(r, j, a[3]);
      assert g[i] == row[i];
    } else {
      GridComplete(r, j + 1, a);
      var i :| 0 <= i < |rest| && rest[i].address == a;
      assert g[i + |row|] == rest[i];
    }
  }

  /** The pool generate_subnet builds: every slot is free and carries a
      non-reserved grid address `start0.start1.j.k`; every such address has a
      slot; slots run in octet-2-outer, octet-3-inner ascending order (so no
      address appears twice). */
  lemma GenerateContents(r: Range)
    ensures forall i :: 0 <= i < |Generate(r)| ==>
      Generate(r)[i] == FreeSlot(Generate(r)[i].address) && PoolAddress(r, Generate(r)[i].address)
    ensures forall a :: PoolAddress(r, a) <==> exists i :: 0 <= i < |Generate(r)| && Generate(r)[i].address == a
    ensures forall i, i' :: 0 <= i < i' < |Generate(r)| ==> Before(Generate(r)[i].address, Generate(r)[i'].address)
  {
    var g := Generate(r);
    GridSound(r, r.start[2]);
    GridSorted(r, r.start[2]);
    forall a | PoolAddress(r, a)
      ensures exists i :: 0 <= i < |g| && g[i].address == a
    {
      GridComplete(r, r.start[2], a);
    }
    forall i | 0 <= i < |g|
      ensures g[i] == FreeSlot(g[i].address) && PoolAddress(r, g[i].address)
    {
      assert GridSlot(r, r.start[2], g[i]);
    }
  }

  /** Number of rows and columns of the grid generate_subnet walks; its
      `count` is their product. */
  function Rows(r: Range): int { Span(r, 2) }
  function Cols(r: Range): int { Span(r, 3) }

  /** How many reserved positions row `j` holds from octet-3 value `k` on. */
  ghost function ReservedIn(r: Range, j: int, k: int): nat
    decreases r.end[3] - k + 1
  {
    if k > r.end[3] then 0
    else (if Reserved(r, j, k) then 1 else 0) + ReservedIn(r, j, k + 1)
  }

  lemma {:induction false} RowLength(r: Range, j: int, k: int)
    requires k <= r.end[3] + 1
    ensures |RowFrom(r, j, k)| + ReservedIn(r, j, k) == r.end[3] - k + 1
    decreases r.end[3] - k + 1
  {
    if k <= r.end[3] {
      RowLength(r, j, k + 1);
    }
  }

  /** The grid is large enough for the four reserved positions to be
      distinct grid cells: at least two columns and, for a single row, at
      least four. */
  predicate Roomy(r: Range)
  {
    Cols(r) >= 2 && (Rows(r) >= 2 || (Rows(r) == 1 && Cols(r) >= 4))
  }

  /** In a roomy grid the first row loses network and gateway, the last
      row loses broadcast and DHCP, and no other row loses anything. */
  lemma {:induction false} RowReserved(r: Range, j: int, k: int)
    requires Roomy(r) && r.start[3] <= k <= r.end[3] + 1
    ensures ReservedIn(r, j, k) ==
      (if j == r.start[2] && k <= r.start[3] then 1 else 0)
      + (if j == r.start[2] && k <= r.start[3] + 1 then 1 else 0)
      + (if j == r.end[2] && k <= r.end[3] - 1 then 1 else 0)
      + (if j == r.end[2] && k <= r.end[3] then 1 else 0)
    decreases r.end[3] - k + 1
  {
    if k <= r.end[3] {
      RowReserved(r, j, k + 1);
    }
  }

  lemma {:induction false} GridLength(r: Range, j: int)
    requires Roomy(r) && r.start[2] <= j <= r.end[2] + 1
    ensures |GridFrom(r, j)| ==
      (r.end[2] - j + 1) * Cols(r)
      - (if j == r.start[2] then 2 else 0)
      - (if j <= r.end[2] then 2 else 0)
    decreases r.end[2] - j + 1
  {
    if j <= r.end[2] {
      GridLength(r, j + 1);
      RowLength(r, j, r.start[3]);
      RowReserved(r, j, r.start[3]);
      assert (r.end[2] - j + 1) * Cols(r) == Cols(r) + (r.end[2] - j) * Cols(r);
    }
  }

  /** The pool size is the grid size minus the four reserved positions,
      whenever they are four distinct grid cells. */
  lemma GenerateSize(r: Range)
    requires Roomy(r)
    ensures |Generate(r)| == Rows(r) * Cols(r) - 4
  {
    GridLength(r, r.start[2]);
  }

  /** Outside a roomy grid the pool is still smaller than the `count` cells
      generate_subnet allocates, because the network position always falls
      in a non-empty grid; an empty grid gives an empty pool. */
  lemma GenerateBelowCount(r: Range)
    ensures Rows(r) >= 1 && Cols(r) >= 1 ==> |Generate(r)| <= Rows(r) * Cols(r) - 1
    ensures !(Rows(r) >= 1 && Cols(r) >= 1) ==> Generate(r) == []
  {
    if Rows(r) >= 1 && Cols(r) >= 1 {
      GridBound(r, r.start[2]);
    } else if Rows(r) >= 1 {
      EmptyRows(r, r.start[2]);
    }
  }

  lemma {:induction false} EmptyRows(r: Range, j: int)
    requires Cols(r) < 1
    ensures GridFrom(r, j) == []
    decreases r.end[2] - j + 1
  {
    if j <= r.end[2] {
      EmptyRows(r, j + 1);
    }
  }

  lemma {:induction false} GridBound(r: Range, j: int)
    requires Rows(r) >= 1 && Cols(r) >= 1 && r.start[2] <= j <= r.end[2] + 1
    ensures |GridFrom(r, j)| <= (r.end[2] - j + 1) * Cols(r) - (if j == r.start[2] then 1 else 0)
    decreases r.end[2] - j + 1
  {
    if j <= r.end[2] {
      GridBound(r, j + 1);
      RowLength(r, j, r.start[3]);
      if j == r.start[2] {
        assert Reserved(r, j, r.start[3]);
        assert ReservedIn(r, j, r.start[3]) >= 1;
      }
      assert (r.end[2] - j + 1) * Cols(r) == Cols(r) + (r.end[2] - j) * Cols(r);
    }
  }
}
