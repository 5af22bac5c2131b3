/** Column tables in the layout the mesh classes use: `t[r][i]` is row `r`
    (a vertex corner, a key component, an owner ...) of entity `i`, as in
    the C++ `unsigned long *tri_[3]`, `edges_[4]` and friends. */
module Tables {

  /** `t` has `rows` rows, each holding one entry per entity `0 .. n-1`. */
  ghost predicate Columns(t: seq<seq<nat>>, rows: nat, n: nat)
  {
    |t| == rows && forall r :: 0 <= r < rows ==> |t[r]| == n
  }

  /** Overwriting one entry keeps the shape. */
  lemma {:induction false} ColumnsUpdate(t: seq<seq<nat>>, rows: nat, n: nat, r: nat, i: nat, v: nat)
    requires Columns(t, rows, n) && r < rows && i < n
    ensures var row: seq<nat> := t[r][i := v];
      Columns(t[r := row], rows, n)
  {
  }

  /** `s` is the local slot the second pass of a builder records for entity
      `e` in element `elem` after scanning slots `0 .. upto-1`: the last of
      them whose entry in `conn` is `e`, or `|conn|` (the number of slots,
      the initial fill) when none is. */
  ghost predicate LastSlotOf(conn: seq<seq<nat>>, elem: nat, e: nat, upto: nat, s: nat)
    requires upto <= |conn| && forall r :: 0 <= r < |conn| ==> elem < |conn[r]|
  {
    if s == |conn| then forall j :: 0 <= j < upto ==> conn[j][elem] != e
    else s < upto && conn[s][elem] == e && forall j :: s < j < upto ==> conn[j][elem] != e
  }
}

/** The bookkeeping both connectivity builders share: every element slot
    yields a sorted key; keys are numbered in the order in which they are
    first met, the element of the first slot that meets a key is its owner
    and the element of the last later slot that meets it is its neighbour. */
module Discovery {

  ghost predicate NoDuplicates<K>(d: seq<K>)
  {
    forall a, b :: 0 <= a < b < |d| ==> d[a] != d[b]
  }

  /** The distinct keys of `ks`, in order of first occurrence. */
  function Distinct<K(==)>(ks: seq<K>): (d: seq<K>)
    ensures forall i :: 0 <= i < |d| ==> d[i] in ks
    ensures NoDuplicates(d)
    ensures |d| <= |ks|
    decreases |ks|
  {
    if ks == [] then []
    else
      var d0 := Distinct(ks[..|ks| - 1]);
      var k := ks[|ks| - 1];
      if k in d0 then d0 else d0 + [k]
  }

  /** Position of the first occurrence of `k` in `ks`. */
  function FirstIndex<K(==)>(ks: seq<K>, k: K): (r: nat)
    requires k in ks
    ensures r < |ks| && ks[r] == k
    ensures forall s :: 0 <= s < r ==> ks[s] != k
    decreases |ks|
  {
    if k in ks[..|ks| - 1] then FirstIndex(ks[..|ks| - 1], k) else |ks| - 1
  }

  /** Position of the last occurrence of `k` in `ks`. */
  function LastIndex<K(==)>(ks: seq<K>, k: K): (r: nat)
    requires k in ks
    ensures r < |ks| && ks[r] == k
    ensures forall s :: r < s < |ks| ==> ks[s] != k
    decreases |ks|
  {
    if ks[|ks| - 1] == k then |ks| - 1 else LastIndex(ks[..|ks| - 1], k)
  }

  /** The element (slot index divided by the number of slots per element)
      that first met `k`. */
  function Owner<K(==)>(ks: seq<K>, k: K, slots: nat): nat
    requires k in ks && slots > 0
  {
    FirstIndex(ks, k) / slots
  }

  /** The element of the last slot after the first one that met `k`, or
      `sentinel` when only one slot met it (a boundary key). */
  function Neighbour<K(==)>(ks: seq<K>, k: K, slots: nat, sentinel: nat): nat
    requires k in ks && slots > 0
  {
    if FirstIndex(ks, k) == LastIndex(ks, k) then sentinel else LastIndex(ks, k) / slots
  }

  /** Every key of `ks` has a number. */
  lemma {:induction false} DistinctCovers<K>(ks: seq<K>, k: K)
    requires k in ks
    ensures k in Distinct(ks)
    decreases |ks|
  {
    var init := ks[..|ks| - 1];
    if k in init {
      DistinctCovers(init, k);
    }
  }

  /** One more slot: a key met before keeps its number, a new key gets the
      next one. */
  lemma {:induction false} DistinctSnoc<K>(ks: seq<K>, k: K)
    ensures Distinct(ks + [k]) == if k in ks then Distinct(ks) else Distinct(ks) + [k]
  {
    assert (ks + [k])[..|ks + [k]| - 1] == ks;
    if k in ks {
      DistinctCovers(ks, k);
    }
  }

  lemma {:induction false} FirstIndexSnoc<K>(ks: seq<K>, k: K, x: K)
    requires x in ks
    ensures FirstIndex(ks + [k], x) == FirstIndex(ks, x)
  {
    assert (ks + [k])[..|ks|] == ks;
  }

  lemma {:induction false} LastIndexSnoc<K>(ks: seq<K>, k: K, x: K)
    requires x in ks + [k]
    ensures LastIndex(ks + [k], x) == if x == k then |ks| else LastIndex(ks, x)
  {
    assert (ks + [k])[..|ks|] == ks;
  }

  /** Numbering is stable: the keys met in a prefix of the slots are numbered
      exactly as in the whole run. */
  lemma {:induction false} DistinctPrefix<K>(ks: seq<K>, m: nat)
    requires m <= |ks|
    ensures Distinct(ks[..m]) <= Distinct(ks)
    decreases |ks| - m
  {
    if m < |ks| {
      DistinctPrefix(ks, m + 1);
      assert ks[..m + 1] == ks[..m] + [ks[m]];
      DistinctSnoc(ks[..m], ks[m]);
    } else {
      assert ks[..m] == ks;
    }
  }

  /** Keys are numbered in order of first discovery: a smaller number means
      an earlier first slot. */
  lemma {:induction false} DistinctInDiscoveryOrder<K>(ks: seq<K>, a: nat, b: nat)
    requires a < b < |Distinct(ks)|
    ensures FirstIndex(ks, Distinct(ks)[a]) < FirstIndex(ks, Distinct(ks)[b])
    decreases |ks|
  {
    var d := Distinct(ks);
    var init := ks[..|ks| - 1];
    var last := ks[|ks| - 1];
    assert ks == init + [last];
    DistinctSnoc(init, last);
    var d0 := Distinct(init);
    if b < |d0| {
      DistinctInDiscoveryOrder(init, a, b);
      FirstIndexSnoc(init, last, d[a]);
      FirstIndexSnoc(init, last, d[b]);
    } else {
      // d[b] is the key of the last slot, met there for the first time
      assert last !in init && d[b] == last;
      FirstIndexSnoc(init, last, d[a]);
    }
  }

  /** The number of keys is the number of distinct keys among the slots. */
  lemma {:induction false} DistinctCount<K>(ks: seq<K>)
    ensures |Distinct(ks)| == |set k | k in ks|
  {
    var d := Distinct(ks);
    forall k | k in ks
      ensures k in d
    {
      DistinctCovers(ks, k);
    }
    assert (set k | k in ks) == (set k | k in d);
    NoDuplicatesCard(d);
  }

  lemma {:induction false} NoDuplicatesCard<K>(d: seq<K>)
    requires NoDuplicates(d)
    ensures |set k | k in d| == |d|
    decreases |d|
  {
    if d != [] {
      var init := d[..|d| - 1];
      NoDuplicatesCard(init);
      assert (set k | k in d) == (set k | k in init) + {d[|d| - 1]};
      assert d[|d| - 1] !in init;
    }
  }

  /** The number of slots of `ks` that met a key of `d`, summed over `d`. */
  function Occurrences<K(==)>(d: seq<K>, ks: seq<K>): nat
    decreases |d|
  {
    if d == [] then 0 else Occurrences(d[..|d| - 1], ks) + multiset(ks)[d[|d| - 1]]
  }

  /** One more slot adds one to the sum when its key is among `d`. */
  lemma {:induction false} OccurrencesSnoc<K>(d: seq<K>, ks: seq<K>, x: K)
    requires NoDuplicates(d)
    ensures Occurrences(d, ks + [x]) == Occurrences(d, ks) + (if x in d then 1 else 0)
    decreases |d|
  {
    if d != [] {
      var init := d[..|d| - 1];
      var y := d[|d| - 1];
      assert d == init + [y];
      assert NoDuplicates(init);
      OccurrencesSnoc(init, ks, x);
      assert y !in init;
      assert x in d <==> x in init || x == y;
    }
  }

  /** Every slot is counted once: the occurrences of the distinct keys add
      up to the number of slots. */
  lemma {:induction false} DistinctOccurrences<K>(ks: seq<K>)
    ensures Occurrences(Distinct(ks), ks) == |ks|
    decreases |ks|
  {
    if ks != [] {
      var init := ks[..|ks| - 1];
      var x := ks[|ks| - 1];
      assert ks == init + [x];
      DistinctOccurrences(init);
      DistinctSnoc(init, x);
      var d0 := Distinct(init);
      OccurrencesSnoc(d0, init, x);
      if x in init {
        DistinctCovers(init, x);
      } else {
        var d := d0 + [x];
        assert d[..|d| - 1] == d0;
        assert x !in d0;
      }
    }
  }

  /** A key is met in a single slot exactly when its first and last
      occurrences coincide. */
  lemma {:induction false} SingleOccurrence<K>(ks: seq<K>, k: K)
    requires k in ks
    ensures FirstIndex(ks, k) == LastIndex(ks, k) <==> multiset(ks)[k] == 1
    decreases |ks|
  {
    var init := ks[..|ks| - 1];
    var x := ks[|ks| - 1];
    assert ks == init + [x];
    if x != k {
      SingleOccurrence(init, k);
    }
  }
}
