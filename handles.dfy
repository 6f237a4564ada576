/**
 * The handle registry: short handles typed by the user ("1", "2", ...) mapped
 * to permanent product ids. Handles are the decimal text of positive integers.
 *
 * Webbshop.py picks the handle of a new product as `str(len(id_map) + 1)`
 * (NextHandle below). That handle is fresh while the registered handles are
 * exactly "1".."n", and collides with a registered one once any handle but the
 * last has been released. FreshHandle is the corrected choice: the first
 * unregistered handle from `len(id_map) + 1` upwards.
 */
module Handles {
  import opened Decimal

  /** Handle -> permanent id. */
  type Registry = map<string, string>

  /** The handle text of number n, `str(n)`. */
  function Handle(n: nat): string {
    NatToDecimal(n)
  }

  /** The handles of lo, lo+1, ..., hi-1. */
  function HandleRange(lo: nat, hi: nat): set<string> {
    set i: nat | lo <= i < hi :: Handle(i)
  }

  lemma {:induction false} HandleRangeSize(lo: nat, hi: nat)
    requires lo <= hi
    ensures |HandleRange(lo, hi)| == hi - lo
    decreases hi - lo
  {
    if lo < hi {
      var below := HandleRange(lo, hi - 1);
      HandleRangeSize(lo, hi - 1);
      HandleRangeExtend(lo, hi - 1);
      forall i: nat | lo <= i < hi - 1
        ensures Handle(i) != Handle(hi - 1)
      {
        NatToDecimalInjective(i, hi - 1);
      }
      assert Handle(hi - 1) !in below;
    } else {
      assert HandleRange(lo, hi) == {};
    }
  }

  lemma HandleRangeExtend(lo: nat, hi: nat)
    requires lo <= hi
    ensures HandleRange(lo, hi + 1) == HandleRange(lo, hi) + {Handle(hi)}
  {
  }

  /** A registry holds at most as many handles as it has entries. */
  lemma CoveredRangeFitsRegistry(m: Registry, lo: nat, hi: nat)
    requires lo <= hi
    requires forall j: nat :: lo <= j < hi ==> Handle(j) in m
    ensures hi - lo <= |m|
  {
    HandleRangeSize(lo, hi);
    assert HandleRange(lo, hi) <= m.Keys;
    SubsetSize(HandleRange(lo, hi), m.Keys);
  }

  lemma {:induction false} SubsetSize<T>(a: set<T>, b: set<T>)
    requires a <= b
    ensures |a| <= |b|
    decreases |b|
  {
    if a != {} {
      var x :| x in a;
      SubsetSize(a - {x}, b - {x});
    }
  }

  /** The handle add_product registers, `str(len(id_map) + 1)`, as written. */
  function NextHandle(m: Registry): (h: string)
    ensures IsCanonical(h) && DecimalValue(h) == |m| + 1
  {
    DecimalValueOfNatToDecimal(|m| + 1);
    Handle(|m| + 1)
  }

  /** While the registered handles are exactly "1".."n", NextHandle is unregistered. */
  lemma NextHandleFreshWhenDense(m: Registry, n: nat)
    requires m.Keys == HandleRange(1, n + 1)
    ensures NextHandle(m) !in m
  {
    HandleRangeSize(1, n + 1);
    assert |m| == |m.Keys| == n;
    if NextHandle(m) in m {
      var i: nat :| 1 <= i < n + 1 && Handle(i) == Handle(n + 1);
      NatToDecimalInjective(i, n + 1);
    }
  }

  /**
   * After releasing any handle j other than the last one n of a dense
   * registry "1".."n", NextHandle is "n", which is still registered: the next
   * add overwrites the mapping of handle n.
   */
  lemma RemovalMakesNextHandleCollide(m: Registry, n: nat, j: nat)
    requires m.Keys == HandleRange(1, n + 1)
    requires 1 <= j < n
    ensures NextHandle(m - {Handle(j)}) == Handle(n)
    ensures Handle(n) in m - {Handle(j)}
  {
    HandleRangeSize(1, n + 1);
    assert Handle(j) in m.Keys;
    assert |m - {Handle(j)}| == n - 1;
    assert Handle(n) in m.Keys;
    NatToDecimalInjective(j, n);
  }

  /** The first unregistered handle at k or above; one exists by 2 * |m| + 1. */
  function FreeFrom(m: Registry, k: nat): (h: string)
    requires |m| + 1 <= k <= 2 * |m| + 1
    requires forall j: nat :: |m| + 1 <= j < k ==> Handle(j) in m
    ensures h !in m
    ensures exists i: nat :: k <= i && h == Handle(i) && forall j: nat :: k <= j < i ==> Handle(j) in m
    decreases 2 * |m| + 1 - k
  {
    if Handle(k) !in m then Handle(k)
    else
      CoveredRangeFitsRegistry(m, |m| + 1, k + 1);
      FreeFrom(m, k + 1)
  }

  /**
   * Corrected handle choice: the first unregistered handle from
   * `len(id_map) + 1` upwards, so never a registered handle, and the same as
   * NextHandle whenever that one is free.
   */
  function FreshHandle(m: Registry): (h: string)
    ensures h !in m
    ensures exists i: nat :: |m| + 1 <= i && h == Handle(i) && forall j: nat :: |m| + 1 <= j < i ==> Handle(j) in m
    ensures NextHandle(m) !in m ==> h == NextHandle(m)
  {
    FreeFrom(m, |m| + 1)
  }

  /**
   * The entries load_data registers for rows with these ids: handle str(i)
   * for the i-th row. LoadedHandlesKeys and LoadedHandlesAt state what it holds.
   */
  function LoadedHandles(ids: seq<string>): Registry
    decreases |ids|
  {
    if ids == [] then map[]
    else LoadedHandles(ids[..|ids| - 1])[Handle(|ids|) := ids[|ids| - 1]]
  }

  lemma {:induction false} LoadedHandlesKeys(ids: seq<string>)
    ensures LoadedHandles(ids).Keys == HandleRange(1, |ids| + 1)
    ensures |LoadedHandles(ids)| == |ids|
    decreases |ids|
  {
    HandleRangeSize(1, |ids| + 1);
    if ids == [] {
      assert HandleRange(1, 1) == {};
    } else {
      var n := |ids|;
      LoadedHandlesKeys(ids[..n - 1]);
      HandleRangeExtend(1, n);
    }
  }

  lemma {:induction false} LoadedHandlesAt(ids: seq<string>, i: nat)
    requires 1 <= i <= |ids|
    ensures Handle(i) in LoadedHandles(ids)
    ensures LoadedHandles(ids)[Handle(i)] == ids[i - 1]
    decreases |ids|
  {
    var n := |ids|;
    if i < n {
      var front := ids[..n - 1];
      LoadedHandlesAt(front, i);
      NatToDecimalInjective(i, n);
      assert front[i - 1] == ids[i - 1];
    }
  }
}
