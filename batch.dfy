/** The three shapes of batch function behind the request loaders.

    A batch function receives the keys a loader has collected and the rows
    one bulk read returned, in the order the store returned them, and must
    answer with one result per key, slot i answering keys[i]:

    - AlignById: one row (or absence) per key, looked up in a map built from
      the rows;
    - GroupByKey: the rows whose foreign key is the key, in fetch order, or
      the empty sequence;
    - GroupByLinks: the rows holding a link that names the key, once per such
      link, in fetch order, or the empty sequence.

    Each shape is given by an executable definition that follows the source
    and by an independent reference definition (LastIndexOf, MatchingRows,
    LinkedRows) it is proved to agree with. */
module Batch {
  import opened Wrappers

  /** Every slot of a batch answer lines up with its key: the same length,
      and equal keys receive equal results. */
  ghost predicate Aligned<K, T>(keys: seq<K>, results: seq<T>)
  {
    && |results| == |keys|
    && forall i, j :: 0 <= i < |keys| && 0 <= j < |keys| && keys[i] == keys[j] ==> results[i] == results[j]
  }

  // ---------------------------------------------------------------------
  // Single-valued lookup
  // ---------------------------------------------------------------------

  /** Reference: the index of the last row whose key is k, or -1 when none is. */
  function LastIndexOf<K(==), R>(rows: seq<R>, key: R -> K, k: K): (n: int)
    ensures -1 <= n < |rows|
    ensures n >= 0 ==> key(rows[n]) == k
    ensures forall j :: n < j < |rows| ==> key(rows[j]) != k
  {
    if rows == [] then -1
    else if key(rows[|rows| - 1]) == k then |rows| - 1
    else LastIndexOf(rows[..|rows| - 1], key, k)
  }

  /** The map `new Map(rows.map(r => [key(r), r]))`: entries are set in
      fetch order, so a later row with the same key replaces an earlier one. */
  function BuildMap<K(==), R>(rows: seq<R>, key: R -> K): map<K, R>
  {
    if rows == [] then map[]
    else
      var last := rows[|rows| - 1];
      BuildMap(rows[..|rows| - 1], key)[key(last) := last]
  }

  /** A key is in the built map exactly when some fetched row has it, and it
      is bound to the last such row. */
  lemma {:induction false} BuildMapLastWins<K, R>(rows: seq<R>, key: R -> K, k: K)
    ensures k in BuildMap(rows, key) <==> LastIndexOf(rows, key, k) >= 0
    ensures k in BuildMap(rows, key) ==> BuildMap(rows, key)[k] == rows[LastIndexOf(rows, key, k)]
  {
    if rows != [] {
      BuildMapLastWins(rows[..|rows| - 1], key, k);
    }
  }

  /** `map.get(k)`: the stored row, or absence. */
  function Get<K(==), R>(m: map<K, R>, k: K): Option<R>
  {
    if k in m then Some(m[k]) else None
  }

  /** `keys.map(k => map.get(k))` over the map built from the fetched rows.
      Slot i is the last fetched row whose key is keys[i], or absence exactly
      when no fetched row has that key. */
  function AlignById<K(==), R>(keys: seq<K>, rows: seq<R>, key: R -> K): (r: seq<Option<R>>)
    ensures Aligned(keys, r)
    ensures forall i :: 0 <= i < |keys| ==>
      (r[i].None? <==> forall j :: 0 <= j < |rows| ==> key(rows[j]) != keys[i])
    ensures forall i :: 0 <= i < |keys| && r[i].Some? ==>
      key(r[i].value) == keys[i] && r[i].value in rows
    ensures forall i :: 0 <= i < |keys| && r[i].Some? ==>
      r[i].value == rows[LastIndexOf(rows, key, keys[i])]
  {
    var m := BuildMap(rows, key);
    assert forall i :: 0 <= i < |keys| ==>
      (keys[i] in m <==> LastIndexOf(rows, key, keys[i]) >= 0) &&
      (keys[i] in m ==> m[keys[i]] == rows[LastIndexOf(rows, key, keys[i])]) by {
      forall i | 0 <= i < |keys| {
        BuildMapLastWins(rows, key, keys[i]);
      }
    }
    seq(|keys|, i requires 0 <= i < |keys| => Get(m, keys[i]))
  }

  // ---------------------------------------------------------------------
  // One-to-many grouping by a foreign key
  // ---------------------------------------------------------------------

  /** Reference: the rows whose key is k, as a subsequence of rows in order. */
  function MatchingRows<K(==), R>(rows: seq<R>, key: R -> K, k: K): (r: seq<R>)
    ensures |r| <= |rows|
  {
    if rows == [] then []
    else
      var last := rows[|rows| - 1];
      MatchingRows(rows[..|rows| - 1], key, k) + (if key(last) == k then [last] else [])
  }

  /** The dictionary lookup `record[k] || []`: a key never seen yields the
      empty sequence, never absence. */
  function BucketOrEmpty<K(==), R>(buckets: map<K, seq<R>>, k: K): seq<R>
  {
    if k in buckets then buckets[k] else []
  }

  lemma MatchingRowsSnoc<K, R>(rows: seq<R>, x: R, key: R -> K, k: K)
    ensures MatchingRows(rows + [x], key, k)
         == MatchingRows(rows, key, k) + (if key(x) == k then [x] else [])
  {
    assert (rows + [x])[..|rows|] == rows;
  }

  /** Fill a dictionary bucket by bucket in fetch order (creating a bucket on
      first sight and appending the row), then map every key to its bucket
      or to the empty sequence. Slot i is exactly the subsequence of fetched
      rows whose key is keys[i]. */
  method GroupByKey<K(==, !new), R>(keys: seq<K>, rows: seq<R>, key: R -> K) returns (r: seq<seq<R>>)
    ensures Aligned(keys, r)
    ensures forall i :: 0 <= i < |keys| ==> r[i] == MatchingRows(rows, key, keys[i])
  {
    var buckets: map<K, seq<R>> := map[];
    var n := 0;
    while n < |rows|
      invariant 0 <= n <= |rows|
      invariant forall k :: BucketOrEmpty(buckets, k) == MatchingRows(rows[..n], key, k)
    {
      var row := rows[n];
      if key(row) !in buckets {
        buckets := buckets[key(row) := []];
      }
      buckets := buckets[key(row) := buckets[key(row)] + [row]];
      assert rows[..n + 1] == rows[..n] + [row];
      forall k ensures BucketOrEmpty(buckets, k) == MatchingRows(rows[..n + 1], key, k) {
        MatchingRowsSnoc(rows[..n], row, key, k);
      }
      n := n + 1;
    }
    assert rows[..n] == rows;
    r := seq(|keys|, i requires 0 <= i < |keys| => BucketOrEmpty(buckets, keys[i]));
  }

  /** Grouping preserves fetch order: the group of a concatenation is the
      concatenation of the groups. */
  lemma {:induction false} MatchingRowsAppend<K, R>(a: seq<R>, b: seq<R>, key: R -> K, k: K)
    ensures MatchingRows(a + b, key, k) == MatchingRows(a, key, k) + MatchingRows(b, key, k)
    decreases |b|
  {
    if b == [] {
      assert a + b == a;
    } else {
      var b' := b[..|b| - 1];
      var x := b[|b| - 1];
      var tail := if key(x) == k then [x] else [];
      assert b == b' + [x];
      assert a + b == (a + b') + [x];
      calc {
        MatchingRows(a + b, key, k);
        { MatchingRowsSnoc(a + b', x, key, k); }
        MatchingRows(a + b', key, k) + tail;
        { MatchingRowsAppend(a, b', key, k); }
        MatchingRows(a, key, k) + MatchingRows(b', key, k) + tail;
        { MatchingRowsSnoc(b', x, key, k); }
        MatchingRows(a, key, k) + MatchingRows(b, key, k);
      }
    }
  }

  /** Every fetched row with key k appears in k's group exactly as often as
      it was fetched (once when fetched once); no other row appears. */
  lemma {:induction false} MatchingRowsMultiplicity<K, R>(rows: seq<R>, key: R -> K, k: K, x: R)
    ensures multiset(MatchingRows(rows, key, k))[x]
         == if key(x) == k then multiset(rows)[x] else 0
  {
    if rows != [] {
      var p := rows[..|rows| - 1];
      var last := rows[|rows| - 1];
      assert rows == p + [last];
      MatchingRowsMultiplicity(p, key, k, x);
      MatchingRowsSnoc(p, last, key, k);
    }
  }

  lemma MatchingRowsMember<K, R>(rows: seq<R>, key: R -> K, k: K, x: R)
    ensures x in MatchingRows(rows, key, k) <==> x in rows && key(x) == k
  {
    MatchingRowsMultiplicity(rows, key, k, x);
    assert x in MatchingRows(rows, key, k) <==> x in multiset(MatchingRows(rows, key, k));
    assert x in rows <==> x in multiset(rows);
  }

  /** A row is in k's group exactly when it was fetched and its key is k;
      so the group is empty exactly when no fetched row has key k. */
  lemma {:induction false} MatchingRowsMembers<K, R>(rows: seq<R>, key: R -> K, k: K)
    ensures forall x :: x in MatchingRows(rows, key, k) <==> x in rows && key(x) == k
    ensures MatchingRows(rows, key, k) == [] <==> forall x :: x in rows ==> key(x) != k
  {
    var g := MatchingRows(rows, key, k);
    forall x ensures x in g <==> x in rows && key(x) == k {
      MatchingRowsMember(rows, key, k, x);
    }
    if g != [] {
      MatchingRowsMember(rows, key, k, g[0]);
    }
  }

  /** A fetched row whose key is not k has no effect on k's group, wherever
      it stands in the fetch order. */
  lemma MatchingRowsIgnoresOtherKeys<K, R>(a: seq<R>, x: R, b: seq<R>, key: R -> K, k: K)
    requires key(x) != k
    ensures MatchingRows(a + [x] + b, key, k) == MatchingRows(a + b, key, k)
  {
    MatchingRowsAppend(a + [x], b, key, k);
    MatchingRowsSnoc(a, x, key, k);
    MatchingRowsAppend(a, b, key, k);
  }

  // ---------------------------------------------------------------------
  // Many-to-many grouping through link records
  // ---------------------------------------------------------------------

  /** The number of links in ls whose key is k. */
  function LinkCount<K(==), L>(ls: seq<L>, linkKey: L -> K, k: K): (c: nat)
    ensures c <= |ls|
  {
    if ls == [] then 0
    else LinkCount(ls[..|ls| - 1], linkKey, k) + (if linkKey(ls[|ls| - 1]) == k then 1 else 0)
  }

  /** A link count is zero exactly when no link names k. */
  lemma {:induction false} LinkCountZero<K, L>(ls: seq<L>, linkKey: L -> K, k: K)
    ensures LinkCount(ls, linkKey, k) == 0 <==> forall l :: l in ls ==> linkKey(l) != k
  {
    if ls != [] {
      var p := ls[..|ls| - 1];
      var last := ls[|ls| - 1];
      LinkCountZero(p, linkKey, k);
      assert ls == p + [last];
      assert forall l :: l in ls <==> l in p || l == last;
    }
  }

  /** n copies of x. */
  function Repeat<R>(x: R, n: nat): (r: seq<R>)
    ensures |r| == n
  {
    if n == 0 then [] else Repeat(x, n - 1) + [x]
  }

  /** Reference: every row, in fetch order, repeated once for each of its
      links whose key is k. */
  function LinkedRows<K(==), R, L>(rows: seq<R>, links: R -> seq<L>, linkKey: L -> K, k: K): (r: seq<R>)
  {
    if rows == [] then []
    else
      var last := rows[|rows| - 1];
      LinkedRows(rows[..|rows| - 1], links, linkKey, k) + Repeat(last, LinkCount(links(last), linkKey, k))
  }

  lemma LinkCountSnoc<K, L>(ls: seq<L>, l: L, linkKey: L -> K, k: K)
    ensures LinkCount(ls + [l], linkKey, k) == LinkCount(ls, linkKey, k) + (if linkKey(l) == k then 1 else 0)
  {
    assert (ls + [l])[..|ls|] == ls;
  }

  lemma LinkedRowsSnoc<K, R, L>(rows: seq<R>, x: R, links: R -> seq<L>, linkKey: L -> K, k: K)
    ensures LinkedRows(rows + [x], links, linkKey, k)
         == LinkedRows(rows, links, linkKey, k) + Repeat(x, LinkCount(links(x), linkKey, k))
  {
    assert (rows + [x])[..|rows|] == rows;
  }

  /** One step of the walk over a row's links, seen from bucket k:
      appending the row to the bucket of link m's key extends the relation
      from ls[..m] to ls[..m+1]. */
  lemma FiledAt<K, R, L>(buckets: map<K, seq<R>>, prev: map<K, seq<R>>, row: R, ls: seq<L>, m: nat, linkKey: L -> K, k: K)
    requires m < |ls|
    requires BucketOrEmpty(prev, k) == BucketOrEmpty(buckets, k) + Repeat(row, LinkCount(ls[..m], linkKey, k))
    ensures BucketOrEmpty(prev[linkKey(ls[m]) := BucketOrEmpty(prev, linkKey(ls[m])) + [row]], k)
         == BucketOrEmpty(buckets, k) + Repeat(row, LinkCount(ls[..m + 1], linkKey, k))
  {
    var k0 := linkKey(ls[m]);
    var after := prev[k0 := BucketOrEmpty(prev, k0) + [row]];
    var c := LinkCount(ls[..m], linkKey, k);
    assert ls[..m + 1] == ls[..m] + [ls[m]];
    LinkCountSnoc(ls[..m], ls[m], linkKey, k);
    if k == k0 {
      assert LinkCount(ls[..m + 1], linkKey, k) == c + 1;
      assert Repeat(row, c + 1) == Repeat(row, c) + [row];
      calc {
        BucketOrEmpty(after, k);
        BucketOrEmpty(prev, k) + [row];
        (BucketOrEmpty(buckets, k) + Repeat(row, c)) + [row];
        BucketOrEmpty(buckets, k) + (Repeat(row, c) + [row]);
      }
    } else {
      assert LinkCount(ls[..m + 1], linkKey, k) == c;
      assert BucketOrEmpty(after, k) == BucketOrEmpty(prev, k);
    }
  }

  /** The inner walk over one row's links: append the row to the bucket of
      each link's key, creating the bucket on first sight. Each bucket grows
      by one copy of the row per link naming its key. */
  method FileUnderLinks<K(==, !new), R, L>(buckets: map<K, seq<R>>, row: R, ls: seq<L>, linkKey: L -> K)
    returns (after: map<K, seq<R>>)
    ensures forall k :: BucketOrEmpty(after, k) == BucketOrEmpty(buckets, k) + Repeat(row, LinkCount(ls, linkKey, k))
  {
    after := buckets;
    var m := 0;
    while m < |ls|
      invariant 0 <= m <= |ls|
      invariant forall k :: BucketOrEmpty(after, k) == BucketOrEmpty(buckets, k) + Repeat(row, LinkCount(ls[..m], linkKey, k))
    {
      ghost var prev := after;
      var k0 := linkKey(ls[m]);
      if k0 !in after {
        after := after[k0 := []];
      }
      after := after[k0 := after[k0] + [row]];
      assert after == prev[k0 := BucketOrEmpty(prev, k0) + [row]];
      forall k ensures BucketOrEmpty(after, k) == BucketOrEmpty(buckets, k) + Repeat(row, LinkCount(ls[..m + 1], linkKey, k)) {
        FiledAt(buckets, prev, row, ls, m, linkKey, k);
      }
      m := m + 1;
    }
    assert ls[..m] == ls;
  }

  /** Walk the fetched rows and, for each, its links in order, appending the
      row to the bucket of every link's key (creating the bucket on first
      sight); then map every key to its bucket or to the empty sequence.
      Slot i holds each fetched row once per link naming keys[i], in fetch
      order. */
  method GroupByLinks<K(==, !new), R, L>(keys: seq<K>, rows: seq<R>, links: R -> seq<L>, linkKey: L -> K)
    returns (r: seq<seq<R>>)
    ensures Aligned(keys, r)
    ensures forall i :: 0 <= i < |keys| ==> r[i] == LinkedRows(rows, links, linkKey, keys[i])
  {
    var buckets: map<K, seq<R>> := map[];
    var n := 0;
    while n < |rows|
      invariant 0 <= n <= |rows|
      invariant forall k :: BucketOrEmpty(buckets, k) == LinkedRows(rows[..n], links, linkKey, k)
    {
      var row := rows[n];
      var ls := links(row);
      assert rows[..n + 1] == rows[..n] + [row];
      forall k ensures BucketOrEmpty(buckets, k) + Repeat(row, LinkCount(ls, linkKey, k))
                    == LinkedRows(rows[..n + 1], links, linkKey, k) {
        LinkedRowsSnoc(rows[..n], row, links, linkKey, k);
      }
      buckets := FileUnderLinks(buckets, row, ls, linkKey);
      n := n + 1;
    }
    assert rows[..n] == rows;
    r := seq(|keys|, i requires 0 <= i < |keys| => BucketOrEmpty(buckets, keys[i]));
  }

  /** Many-to-many grouping preserves fetch order as well. */
  lemma {:induction false} LinkedRowsAppend<K, R, L>(a: seq<R>, b: seq<R>, links: R -> seq<L>, linkKey: L -> K, k: K)
    ensures LinkedRows(a + b, links, linkKey, k)
         == LinkedRows(a, links, linkKey, k) + LinkedRows(b, links, linkKey, k)
    decreases |b|
  {
    if b == [] {
      assert a + b == a;
    } else {
      var b' := b[..|b| - 1];
      var x := b[|b| - 1];
      var tail := Repeat(x, LinkCount(links(x), linkKey, k));
      assert b == b' + [x];
      assert a + b == (a + b') + [x];
      calc {
        LinkedRows(a + b, links, linkKey, k);
        { LinkedRowsSnoc(a + b', x, links, linkKey, k); }
        LinkedRows(a + b', links, linkKey, k) + tail;
        { LinkedRowsAppend(a, b', links, linkKey, k); }
        LinkedRows(a, links, linkKey, k) + LinkedRows(b', links, linkKey, k) + tail;
        { LinkedRowsSnoc(b', x, links, linkKey, k); }
        LinkedRows(a, links, linkKey, k) + LinkedRows(b, links, linkKey, k);
      }
    }
  }

  lemma RepeatMultiplicity<R>(x: R, n: nat, y: R)
    ensures multiset(Repeat(x, n))[y] == if y == x then n else 0
  {
    if n > 0 {
      RepeatMultiplicity(x, n - 1, y);
    }
  }

  lemma MulPositive(a: nat, c: nat)
    ensures a * c > 0 <==> a > 0 && c > 0
  {
  }

  lemma MulSucc(a: int, c: int)
    ensures (a + 1) * c == a * c + c
  {
  }

  /** Appending one row x to the fetched rows adds, to the count of y in
      k's group, the number of x's links naming k when y is x. */
  lemma LinkedRowsMultiplicityStep<K, R, L>(p: seq<R>, last: R, links: R -> seq<L>, linkKey: L -> K, k: K, x: R)
    ensures multiset(LinkedRows(p + [last], links, linkKey, k))[x]
         == multiset(LinkedRows(p, links, linkKey, k))[x] + (if x == last then LinkCount(links(last), linkKey, k) else 0)
  {
    var extra := Repeat(last, LinkCount(links(last), linkKey, k));
    LinkedRowsSnoc(p, last, links, linkKey, k);
    RepeatMultiplicity(last, LinkCount(links(last), linkKey, k), x);
    assert multiset(LinkedRows(p, links, linkKey, k) + extra)
        == multiset(LinkedRows(p, links, linkKey, k)) + multiset(extra);
  }

  lemma MultisetSnoc<R>(p: seq<R>, last: R, x: R)
    ensures multiset(p + [last])[x] == multiset(p)[x] + (if x == last then 1 else 0)
  {
    assert multiset(p + [last]) == multiset(p) + multiset{last};
  }

  /** The counting step of the multiplicity proof, on plain integers. */
  lemma CountStep(g: int, gp: int, m: int, mp: int, c: int, last: bool)
    requires gp == mp * c
    requires g == gp + (if last then c else 0)
    requires m == mp + (if last then 1 else 0)
    ensures g == m * c
  {
    if last {
      MulSucc(mp, c);
    }
  }

  /** A fetched row appears in k's group once per fetched copy of it and per
      link of it naming k; links naming other keys contribute nothing. */
  lemma {:induction false} LinkedRowsMultiplicity<K, R, L>(rows: seq<R>, links: R -> seq<L>, linkKey: L -> K, k: K, x: R)
    ensures multiset(LinkedRows(rows, links, linkKey, k))[x]
         == multiset(rows)[x] * LinkCount(links(x), linkKey, k)
  {
    if rows != [] {
      var p := rows[..|rows| - 1];
      var last := rows[|rows| - 1];
      assert rows == p + [last];
      LinkedRowsMultiplicity(p, links, linkKey, k, x);
      LinkedRowsMultiplicityStep(p, last, links, linkKey, k, x);
      MultisetSnoc(p, last, x);
      CountStep(multiset(LinkedRows(rows, links, linkKey, k))[x],
                multiset(LinkedRows(p, links, linkKey, k))[x],
                multiset(rows)[x], multiset(p)[x],
                LinkCount(links(x), linkKey, k), x == last);
    }
  }

  lemma LinkedRowsMember<K, R, L>(rows: seq<R>, links: R -> seq<L>, linkKey: L -> K, k: K, x: R)
    ensures x in LinkedRows(rows, links, linkKey, k) <==>
      x in rows && exists l :: l in links(x) && linkKey(l) == k
  {
    var g := LinkedRows(rows, links, linkKey, k);
    LinkedRowsMultiplicity(rows, links, linkKey, k, x);
    LinkCountZero(links(x), linkKey, k);
    MulPositive(multiset(rows)[x], LinkCount(links(x), linkKey, k));
    assert x in g <==> x in multiset(g);
    assert x in rows <==> x in multiset(rows);
  }

  /** A row is in k's group exactly when it was fetched and has a link
      naming k; so the group is empty exactly when no fetched row has one. */
  lemma LinkedRowsMembers<K, R, L>(rows: seq<R>, links: R -> seq<L>, linkKey: L -> K, k: K)
    ensures forall x :: x in LinkedRows(rows, links, linkKey, k) <==>
      x in rows && exists l :: l in links(x) && linkKey(l) == k
    ensures LinkedRows(rows, links, linkKey, k) == [] <==>
      forall x, l :: x in rows && l in links(x) ==> linkKey(l) != k
  {
    var g := LinkedRows(rows, links, linkKey, k);
    forall x ensures x in g <==> x in rows && exists l :: l in links(x) && linkKey(l) == k {
      LinkedRowsMember(rows, links, linkKey, k, x);
    }
    if g != [] {
      assert g[0] in g;
    }
  }

  /** A fetched row none of whose links names k has no effect on k's group,
      wherever it stands in the fetch order. */
  lemma LinkedRowsIgnoresUnlinked<K, R, L>(a: seq<R>, x: R, b: seq<R>, links: R -> seq<L>, linkKey: L -> K, k: K)
    requires forall l :: l in links(x) ==> linkKey(l) != k
    ensures LinkedRows(a + [x] + b, links, linkKey, k) == LinkedRows(a + b, links, linkKey, k)
  {
    LinkCountZero(links(x), linkKey, k);
    LinkedRowsAppend(a + [x], b, links, linkKey, k);
    LinkedRowsSnoc(a, x, links, linkKey, k);
    assert Repeat(x, 0) == [];
    assert LinkedRows(a, links, linkKey, k) + [] == LinkedRows(a, links, linkKey, k);
    LinkedRowsAppend(a, b, links, linkKey, k);
  }

  /** Grouping by a foreign key is grouping through links when every row
      carries the single link that is itself. */
  lemma {:induction false} MatchingRowsAsLinkedRows<K, R>(rows: seq<R>, key: R -> K, k: K)
    ensures MatchingRows(rows, key, k) == LinkedRows(rows, (x: R) => [x], key, k)
  {
    if rows != [] {
      var p := rows[..|rows| - 1];
      var last := rows[|rows| - 1];
      MatchingRowsAsLinkedRows(p, key, k);
      assert [last][..0] == [];
      assert LinkCount([last], key, k) == if key(last) == k then 1 else 0;
    }
  }
}
