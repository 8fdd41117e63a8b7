/** The per-page selection store: a map from 1-based page number to the
    records selected on that page, and the views derived from it. */
module PageMap {

  /** A row of the table. Selection compares rows by `id`, the table's data
      key; the display fields are never looked at and are not modelled. */
  datatype Record = Record(id: int)

  /** Page number to the records selected on that page. */
  type PageMap = map<int, seq<Record>>

  /** The entry for `page`, or the empty list when there is none. */
  function Lookup(m: PageMap, page: int): (r: seq<Record>)
  {
    if page in m then m[page] else []
  }

  /** The least element of a non-empty set of page numbers. */
  ghost function MinKey(keys: set<int>): (k: int)
    requires exists x :: x in keys
    ensures k in keys
    ensures forall j :: j in keys ==> k <= j
    decreases keys
  {
    var x :| x in keys;
    if exists y :: y in keys && y != x then
      var rest := keys - {x};
      var other :| other in keys && other != x;
      assert other in rest;
      var y := MinKey(rest);
      assert forall j :: j in keys ==> j == x || j in rest;
      if x <= y then x else y
    else
      x
  }

  /** All entries of `m` concatenated in ascending page order: the list whose
      length is shown as the number of selected rows. */
  ghost function Flatten(m: PageMap): (r: seq<Record>)
    ensures r == [] <==> forall k :: k in m ==> m[k] == []
    decreases m.Keys
  {
    if exists k :: k in m then
      var k := MinKey(m.Keys);
      var rest := m - {k};
      assert forall j :: j in m ==> j == k || j in rest;
      m[k] + Flatten(rest)
    else
      []
  }

  /** Number of selected rows over all pages. */
  ghost function TotalSelected(m: PageMap): (n: nat)
    ensures n == 0 <==> forall k :: k in m ==> m[k] == []
  {
    |Flatten(m)|
  }

  /** Entries of pages `lo`, `lo + 1`, ..., `hi - 1`, in that order; an absent
      page contributes nothing. */
  function ConcatPages(m: PageMap, lo: int, hi: int): (r: seq<Record>)
    decreases hi - lo
  {
    if lo >= hi then [] else Lookup(m, lo) + ConcatPages(m, lo + 1, hi)
  }

  /** The total counts every entry exactly once, whichever entry is split off
      first: removing page `k` lowers the total by the size of its entry. */
  lemma {:induction false} TotalSelectedRemove(m: PageMap, k: int)
    requires k in m
    ensures TotalSelected(m) == |m[k]| + TotalSelected(m - {k})
    decreases m.Keys
  {
    var k0 := MinKey(m.Keys);
    if k != k0 {
      var rest := m - {k0};
      assert k in rest;
      TotalSelectedRemove(rest, k);
      var other := m - {k};
      assert k0 in other;
      TotalSelectedRemove(other, k0);
      assert rest - {k} == other - {k0};
    }
  }

  /** Storing `v` under page `k` replaces that page's contribution to the
      total and leaves every other page's contribution as it was. */
  lemma TotalSelectedUpdate(m: PageMap, k: int, v: seq<Record>)
    ensures TotalSelected(m[k := v]) + |Lookup(m, k)| == TotalSelected(m) + |v|
  {
    var m' := m[k := v];
    TotalSelectedRemove(m', k);
    if k in m {
      TotalSelectedRemove(m, k);
      assert m' - {k} == m - {k};
    } else {
      assert m' - {k} == m;
    }
  }

  /** Two maps that agree on pages `lo` .. `hi - 1` concatenate those pages alike. */
  lemma {:induction false} ConcatPagesAgree(m: PageMap, m': PageMap, lo: int, hi: int)
    requires forall p :: lo <= p < hi ==> Lookup(m, p) == Lookup(m', p)
    ensures ConcatPages(m, lo, hi) == ConcatPages(m', lo, hi)
    decreases hi - lo
  {
    if lo < hi {
      ConcatPagesAgree(m, m', lo + 1, hi);
    }
  }

  /** When the pages of `m` are exactly `lo` .. `hi - 1`, the ascending-order
      concatenation is the concatenation of that range. */
  lemma {:induction false} FlattenContiguous(m: PageMap, lo: int, hi: int)
    requires forall p :: p in m <==> lo <= p < hi
    ensures Flatten(m) == ConcatPages(m, lo, hi)
    decreases hi - lo
  {
    if lo < hi {
      assert lo in m;
      var k := MinKey(m.Keys);
      assert k == lo;
      var rest := m - {lo};
      FlattenContiguous(rest, lo + 1, hi);
      ConcatPagesAgree(rest, m, lo + 1, hi);
    }
  }
}
