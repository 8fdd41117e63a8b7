/** Bucketing of the bulk "select the first N rows" result: the item at
    0-based index `i` is stored under page `i / rows + 1`. */
module Paging {
  import opened PageMap

  /** Page (1-based) on which the item at 0-based index `i` appears. */
  function PageOf(i: nat, rows: int): (p: int)
    requires rows > 0
  {
    i / rows + 1
  }

  /** Number of pages that `n` items fill, `ceil(n / rows)`. */
  function PageCount(n: nat, rows: int): (k: nat)
    requires rows > 0
  {
    (n + rows - 1) / rows
  }

  /** Index of the first item of page `p`. */
  function Start(p: int, rows: int): (i: int)
  {
    (p - 1) * rows
  }

  /** Index just past the last item of page `p` in a list of `n` items: the
      start of the next page, or `n` when the list ends first. */
  function End(p: int, rows: int, n: nat): (i: int)
  {
    if p * rows <= n then p * rows else n
  }

  /** The bulk result regrouped page by page, as the `forEach` over the
      fetched items builds it: each item is appended to its page's list,
      which is created on first use. */
  function Partition(items: seq<Record>, rows: int): (m: PageMap)
    requires rows > 0
    decreases |items|
  {
    if items == [] then map[]
    else
      var n := |items| - 1;
      var m := Partition(items[..n], rows);
      var p := PageOf(n, rows);
      m[p := Lookup(m, p) + [items[n]]]
  }

  lemma MulLe(a: int, b: int, c: int)
    requires a <= b && c > 0
    ensures a * c <= b * c
  {
  }

  lemma SlicePrefix(s: seq<Record>, n: int, a: int, b: int)
    requires 0 <= a <= b <= n <= |s|
    ensures s[..n][a..b] == s[a..b]
  {
  }

  lemma SliceExtend(s: seq<Record>, a: int, b: int)
    requires 0 <= a <= b < |s|
    ensures s[a..b] + [s[b]] == s[a..b + 1]
  {
  }

  lemma SliceSplit(s: seq<Record>, a: int, b: int)
    requires 0 <= a <= b <= |s|
    ensures s[a..] == s[a..b] + s[b..]
  {
  }

  /** Euclidean division is determined by quotient and remainder. */
  lemma DivUnique(a: int, rows: int, k: int, t: int)
    requires rows > 0 && 0 <= t < rows && a == k * rows + t
    ensures a / rows == k && a % rows == t
  {
    var q, r := a / rows, a % rows;
    if q < k {
      MulLe(q + 1, k, rows);
    } else if q > k {
      MulLe(k + 1, q, rows);
    }
  }

  /** Page `p` holds at least one of `n` items exactly when it is among the
      first `ceil(n / rows)` pages. */
  lemma PageCountRange(n: nat, rows: int, p: int)
    requires rows > 0
    ensures 1 <= p <= PageCount(n, rows) <==> 1 <= p && Start(p, rows) < n
  {
    var k := PageCount(n, rows);
    var t := (n + rows - 1) % rows;
    assert n + rows - 1 == k * rows + t;
    if 1 <= p <= k {
      MulLe(p - 1, k - 1, rows);
    } else if k < p {
      MulLe(k, p - 1, rows);
    }
  }

  /** How appending the item at index `n` changes the pages: page
      `PageOf(n)` is the only one that gains an item, and its end moves from
      `n` to `n + 1`; every other page keeps its bounds. */
  lemma AppendBounds(n: nat, rows: int, p: int)
    requires rows > 0
    ensures 1 <= p ==> 0 <= Start(p, rows) < p * rows == Start(p, rows) + rows
    ensures (1 <= p && Start(p, rows) < n + 1) <==> ((1 <= p && Start(p, rows) < n) || p == PageOf(n, rows))
    ensures p == PageOf(n, rows) ==> Start(p, rows) <= n && End(p, rows, n + 1) == n + 1
    ensures p == PageOf(n, rows) && Start(p, rows) < n ==> End(p, rows, n) == n
    ensures 1 <= p && Start(p, rows) < n && p != PageOf(n, rows) ==> End(p, rows, n) == End(p, rows, n + 1) == p * rows <= n
  {
    var q, r := n / rows, n % rows;
    assert n == q * rows + r;
    assert (q + 1) * rows == q * rows + rows;
    assert p * rows == Start(p, rows) + rows;
    if 1 <= p {
      MulLe(0, p - 1, rows);
    }
    if 1 <= p && Start(p, rows) == n {
      DivUnique(n, rows, p - 1, 0);
    }
    if 1 <= p && Start(p, rows) < n && p != q + 1 {
      if p - 1 > q {
        MulLe(q + 1, p - 1, rows);
      }
      MulLe(p, q, rows);
    }
  }

  /** Page `p` after appending one item, from what page `p` was before. */
  lemma AppendPage(items: seq<Record>, rows: int, p: int)
    requires rows > 0 && |items| > 0
    requires var before := Partition(items[..|items| - 1], rows);
             && (p in before <==> 1 <= p && Start(p, rows) < |items| - 1)
             && (p in before ==>
                   && 0 <= Start(p, rows) < End(p, rows, |items| - 1) <= |items| - 1
                   && before[p] == items[..|items| - 1][Start(p, rows)..End(p, rows, |items| - 1)])
    ensures p in Partition(items, rows) <==> 1 <= p && Start(p, rows) < |items|
    ensures p in Partition(items, rows) ==>
              && 0 <= Start(p, rows) < End(p, rows, |items|) <= |items|
              && Partition(items, rows)[p] == items[Start(p, rows)..End(p, rows, |items|)]
  {
    var n := |items| - 1;
    var prefix := items[..n];
    var m := Partition(prefix, rows);
    var p0 := PageOf(n, rows);
    assert Partition(items, rows) == m[p0 := Lookup(m, p0) + [items[n]]];
    AppendBounds(n, rows, p);
    if p == p0 {
      if p0 in m {
        SlicePrefix(items, n, Start(p, rows), n);
      }
      SliceExtend(items, Start(p, rows), n);
    } else if p in m {
      SlicePrefix(items, n, Start(p, rows), End(p, rows, n));
    }
  }

  /** Page `p` of the bulk result holds exactly the items from index
      `Start(p)` up to `End(p)`, and a page is present exactly when some item
      falls on it. */
  lemma {:induction false} PartitionContents(items: seq<Record>, rows: int)
    requires rows > 0
    ensures forall p :: p in Partition(items, rows) <==> 1 <= p && Start(p, rows) < |items|
    ensures forall p :: p in Partition(items, rows) ==>
              && 0 <= Start(p, rows) < End(p, rows, |items|) <= |items|
              && Partition(items, rows)[p] == items[Start(p, rows)..End(p, rows, |items|)]
    decreases |items|
  {
    if items != [] {
      PartitionContents(items[..|items| - 1], rows);
      forall p
        ensures p in Partition(items, rows) <==> 1 <= p && Start(p, rows) < |items|
        ensures p in Partition(items, rows) ==>
                  && 0 <= Start(p, rows) < End(p, rows, |items|) <= |items|
                  && Partition(items, rows)[p] == items[Start(p, rows)..End(p, rows, |items|)]
      {
        AppendPage(items, rows, p);
      }
    }
  }

  /** The pages of the bulk result are exactly 1 .. ceil(n / rows). */
  lemma PartitionKeys(items: seq<Record>, rows: int)
    requires rows > 0
    ensures forall p :: p in Partition(items, rows) <==> 1 <= p <= PageCount(|items|, rows)
  {
    PartitionContents(items, rows);
    forall p
      ensures p in Partition(items, rows) <==> 1 <= p <= PageCount(|items|, rows)
    {
      PageCountRange(|items|, rows, p);
    }
  }

  /** The item at index `i` lies on page `PageOf(i)`, `i % rows` places
      after that page's first index. */
  lemma PlacementBounds(n: nat, rows: int, i: int)
    requires rows > 0 && 0 <= i < n
    ensures PageOf(i, rows) >= 1
    ensures Start(PageOf(i, rows), rows) == i - i % rows
    ensures i < End(PageOf(i, rows), rows, n)
  {
    var q, r := i / rows, i % rows;
    assert i == q * rows + r;
    assert (q + 1) * rows == q * rows + rows;
  }

  /** The item at index `i` lands on page `i / rows + 1`, at position
      `i % rows` within that page. */
  lemma PartitionPlacement(items: seq<Record>, rows: int, i: int)
    requires rows > 0 && 0 <= i < |items|
    ensures PageOf(i, rows) in Partition(items, rows)
    ensures i % rows < |Partition(items, rows)[PageOf(i, rows)]|
    ensures Partition(items, rows)[PageOf(i, rows)][i % rows] == items[i]
  {
    PartitionContents(items, rows);
    PlacementBounds(|items|, rows, i);
    var m, p := Partition(items, rows), PageOf(i, rows);
    assert p in m;
    assert m[p] == items[Start(p, rows)..End(p, rows, |items|)];
  }

  /** Every page but the last holds exactly `rows` items; the last holds
      between 1 and `rows`. */
  lemma PartitionShape(items: seq<Record>, rows: int)
    requires rows > 0
    ensures forall p :: p in Partition(items, rows) <==> 1 <= p <= PageCount(|items|, rows)
    ensures forall p :: 1 <= p < PageCount(|items|, rows) ==> |Partition(items, rows)[p]| == rows
    ensures var k := PageCount(|items|, rows);
            k >= 1 ==> 1 <= |Partition(items, rows)[k]| <= rows
  {
    PartitionKeys(items, rows);
    PartitionContents(items, rows);
    var n, k := |items|, PageCount(|items|, rows);
    forall p | 1 <= p < k
      ensures |Partition(items, rows)[p]| == rows
    {
      PageCountRange(n, rows, p + 1);
    }
    if k >= 1 {
      PageCountRange(n, rows, k);
      PageCountRange(n, rows, k + 1);
      assert Start(k + 1, rows) == Start(k, rows) + rows;
    }
  }

  /** Pages `lo` .. `ceil(n / rows)` concatenated give the items from the
      first one of page `lo` onwards. */
  lemma {:induction false} PartitionSuffix(items: seq<Record>, rows: int, lo: int)
    requires rows > 0
    requires 1 <= lo <= PageCount(|items|, rows) + 1
    ensures 0 <= End(lo - 1, rows, |items|) <= |items|
    ensures ConcatPages(Partition(items, rows), lo, PageCount(|items|, rows) + 1)
            == items[End(lo - 1, rows, |items|)..]
    decreases PageCount(|items|, rows) + 1 - lo
  {
    var n, k := |items|, PageCount(|items|, rows);
    SuffixBounds(n, rows, lo);
    if lo <= k {
      PartitionLookup(items, rows, lo);
      PartitionSuffix(items, rows, lo + 1);
      SliceSplit(items, Start(lo, rows), End(lo, rows, n));
    }
  }

  /** The page arithmetic behind one step of PartitionSuffix: the previous
      page ends where page lo starts, and past the last page nothing is left. */
  lemma SuffixBounds(n: nat, rows: int, lo: int)
    requires rows > 0
    requires 1 <= lo <= PageCount(n, rows) + 1
    ensures 0 <= End(lo - 1, rows, n) <= n
    ensures lo <= PageCount(n, rows) ==> End(lo - 1, rows, n) == Start(lo, rows)
    ensures lo == PageCount(n, rows) + 1 ==> End(lo - 1, rows, n) == n
  {
    MulLe(0, lo - 1, rows);
    PageCountRange(n, rows, lo);
  }

  /** Reading the pages back in order reproduces the fetched list: same
      items, same order, nothing lost or repeated. */
  lemma PartitionRoundTrip(items: seq<Record>, rows: int)
    requires rows > 0
    ensures ConcatPages(Partition(items, rows), 1, PageCount(|items|, rows) + 1) == items
    ensures Flatten(Partition(items, rows)) == items
    ensures TotalSelected(Partition(items, rows)) == |items|
  {
    PartitionSuffix(items, rows, 1);
    PartitionKeys(items, rows);
    FlattenContiguous(Partition(items, rows), 1, PageCount(|items|, rows) + 1);
  }

  /** What a page shows after a bulk selection: its run of the fetched items
      when the items reach it, nothing otherwise. */
  lemma PartitionLookup(items: seq<Record>, rows: int, page: int)
    requires rows > 0
    ensures 1 <= page <= PageCount(|items|, rows) ==>
              0 <= Start(page, rows) < End(page, rows, |items|) <= |items|
    ensures Lookup(Partition(items, rows), page)
            == if 1 <= page <= PageCount(|items|, rows)
               then items[Start(page, rows)..End(page, rows, |items|)]
               else []
  {
    PartitionKeys(items, rows);
    PartitionContents(items, rows);
  }
}
