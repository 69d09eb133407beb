/** Arrays of key/item pairs, as the nodes of the directory B+tree hold them
    (nvfuse_bp_tree.c). Key 0 marks an unused pair. */
module BpPairs {

  const FANOUT: nat := 337             // (4096 - 40) / 12, made odd
  const HALF: nat := 169               // (FANOUT + 1) / 2
  const MAX_KEY: nat := 0xFFFF_FFFF_FFFF_FFFF

  datatype Pair = Pair(key: nat, item: nat)

  const NULL: Pair := Pair(0, 0)

  /** Strictly ascending keys, none of them 0. */
  ghost predicate Ascending(s: seq<Pair>) {
    && (forall i :: 0 <= i < |s| ==> s[i].key > 0)
    && forall i, j :: 0 <= i < j < |s| ==> s[i].key < s[j].key
  }

  ghost predicate HasKey(s: seq<Pair>, key: nat) {
    exists i :: 0 <= i < |s| && s[i].key == key
  }

  /** An array of `n` pairs that holds `s` and then unused pairs. */
  function Padded(s: seq<Pair>, n: nat): (r: seq<Pair>)
    requires |s| <= n
    ensures |r| == n && r[..|s|] == s && forall i :: |s| <= i < n ==> r[i] == NULL
  {
    s + seq(n - |s|, _ => NULL)
  }

  lemma PaddedIs(r: seq<Pair>, s: seq<Pair>)
    requires |s| <= |r| && r[..|s|] == s && forall i :: |s| <= i < |r| ==> r[i] == NULL
    ensures r == Padded(s, |r|)
  {
    assert forall i :: 0 <= i < |s| ==> r[i] == r[..|s|][i];
  }

  /** How many keys of `s` are smaller than `key`. */
  function Rank(s: seq<Pair>, key: nat): (i: nat)
    ensures i <= |s|
  {
    if s == [] || s[0].key >= key then 0 else 1 + Rank(s[1..], key)
  }

  lemma {:induction false} RankSplits(s: seq<Pair>, key: nat)
    requires Ascending(s)
    ensures forall i :: 0 <= i < |s| ==> (i < Rank(s, key) <==> s[i].key < key)
  {
    if s != [] && s[0].key < key {
      RankSplits(s[1..], key);
      forall i | 0 <= i < |s| ensures i < Rank(s, key) <==> s[i].key < key {
        assert i > 0 ==> s[i] == s[1..][i - 1];
      }
    }
  }

  lemma RankIs(s: seq<Pair>, key: nat, r: nat)
    requires Ascending(s) && r <= |s| && (r > 0 ==> s[r - 1].key < key) && (r < |s| ==> key <= s[r].key)
    ensures Rank(s, key) == r
  {
    RankSplits(s, key);
    var q := Rank(s, key);
  }

  /** `s` with `p` put where its key belongs. */
  function Inserted(s: seq<Pair>, p: Pair): (r: seq<Pair>)
    ensures |r| == |s| + 1
  {
    var i := Rank(s, p.key);
    s[..i] + [p] + s[i..]
  }

  /** The keys on both sides of the place of a new key. */
  lemma RankParts(s: seq<Pair>, key: nat)
    requires Ascending(s) && !HasKey(s, key)
    ensures var i := Rank(s, key);
      && i <= |s| && (forall k :: 0 <= k < |s[..i]| ==> s[..i][k].key < key) && (forall k :: 0 <= k < |s[i..]| ==> key < s[i..][k].key)
  {
    hide Ascending, Rank;
    RankSplits(s, key);
    var i := Rank(s, key);
    forall k | 0 <= k < |s[i..]| ensures key < s[i..][k].key {
      assert s[i..][k] == s[i + k];
    }
  }

  lemma InsertedAscends(s: seq<Pair>, p: Pair)
    requires Ascending(s) && !HasKey(s, p.key) && p.key > 0
    ensures Ascending(Inserted(s, p))
  {
    hide Rank, Ascending, HasKey;
    RankParts(s, p.key);
    var i := Rank(s, p.key);
    assert s == s[..i] + s[i..];
    AscendingBetween(s[..i], p, s[i..]);
  }

  // ------------------------------------------------------------- binary search

  /** key_compare. */
  function KeyCompare(a: nat, b: nat): (r: int) {
    if a > b then 1 else if a == b then 0 else -1
  }

  /** bp_compare_index_node: 0 when `key` lies above the key before `mid` and not above the
      one at `mid`. */
  function CompareIndexNode(key: nat, pairs: seq<Pair>, mid: nat): (r: int)
    requires mid < |pairs|
  {
    var ret1 := if mid == 0 then 1 else KeyCompare(key, pairs[mid - 1].key);
    var ret2 := KeyCompare(key, pairs[mid].key);
    if ret1 > 0 && ret2 <= 0 then 0 else ret2
  }

  /** bp_bin_search, with the comparison chosen by `index`. */
  method BinSearch(key: nat, pairs: seq<Pair>, max: int, index: bool) returns (r: int)
    requires -1 <= max < |pairs| && Ascending(pairs[..max + 1])
    ensures -1 <= r <= max
    ensures !index ==> if r < 0 then !HasKey(pairs[..max + 1], key) else pairs[r].key == key
    ensures index ==> if r < 0 then Rank(pairs[..max + 1], key) == max + 1 else r == Rank(pairs[..max + 1], key)
  {
    ghost var s := pairs[..max + 1];
    assert forall i :: 0 <= i <= max ==> s[i] == pairs[i];
    var lo, hi := 0, max;
    while hi >= lo
      invariant 0 <= lo <= hi + 1 && hi <= max
      invariant forall i :: 0 <= i < lo ==> s[i].key < key
      invariant forall i :: hi < i < |s| ==> key < s[i].key
      invariant index && hi < max ==> hi >= 0 && key <= s[hi].key
      decreases hi - lo
    {
      var mid := (lo + hi) / 2;
      var c := if index then CompareIndexNode(key, pairs, mid) else KeyCompare(key, pairs[mid].key);
      if c == 0 {
        if index { RankIs(s, key, mid); }
        return mid;
      } else if c < 0 {
        hi := mid - 1;
      } else {
        lo := mid + 1;
      }
    }
    if index { RankIs(s, key, max + 1); }
    return -1;
  }

  // ----------------------------------------------------------------- insertion

  /** The first loop of bp_merge_key2: the place for `key` among pairs[..max - 1]. */
  method FindPlace(pairs: seq<Pair>, key: nat, max: nat) returns (i: nat)
    requires 1 <= max <= |pairs|
    ensures i < max && (Ascending(pairs[..max - 1]) ==> i == Rank(pairs[..max - 1], key))
  {
    ghost var s := pairs[..max - 1];
    assert forall k :: 0 <= k < max - 1 ==> s[k] == pairs[k];
    var at: int := max - 2;
    while at >= 0 && !(pairs[at].key != 0 && pairs[at].key < key)
      invariant -1 <= at <= max - 2 && (Ascending(s) ==> forall k :: at < k < |s| ==> s[k].key >= key)
    {
      at := at - 1;
    }
    if Ascending(s) { RankIs(s, key, at + 1); }
    i := at + 1;
  }

  /** bp_merge_key2 (and the array part of bp_merge_key): puts `p` into its place among the
      first max - 1 pairs, using the unused pair after them. */
  method MergeKey(pairs: seq<Pair>, p: Pair, max: nat) returns (r: seq<Pair>)
    requires 1 <= max <= |pairs|
    ensures |r| == |pairs|
    ensures Ascending(pairs[..max - 1]) && pairs[max - 1] == NULL ==> r == Inserted(pairs[..max - 1], p) + pairs[max..]
    ensures Ascending(pairs[..max - 1]) && Rank(pairs[..max - 1], p.key) == max - 1 && pairs[max - 1].key != 0 ==> r == pairs
  {
    hide Ascending, Rank, Inserted;
    var i := FindPlace(pairs, p.key, max);
    r := pairs;
    var j := max - 1;
    while j > i
      invariant i <= j <= max - 1 && |r| == |pairs|
      invariant (pairs[max - 1] == NULL ==> r[j] == NULL) && (j == max - 1 ==> r == pairs)
      invariant forall k :: 0 <= k < j || max <= k < |r| ==> r[k] == pairs[k]
      invariant forall k :: j <= k < max - 1 ==> r[k + 1] == pairs[k]
    {
      r := r[j := r[j - 1]];
      r := r[j - 1 := NULL];
      j := j - 1;
    }
    if r[i].key == 0 {
      r := r[i := p];
    }
    if Ascending(pairs[..max - 1]) && pairs[max - 1] == NULL {
      assert r[i + 1..max] == pairs[i..max - 1] == pairs[..max - 1][i..];
      MergedIs(pairs[..max - 1], pairs[max..], p, i, r);
    }
  }

  lemma MergedIs(s: seq<Pair>, t: seq<Pair>, p: Pair, i: nat, r: seq<Pair>)
    requires i == Rank(s, p.key) && |r| == |s| + 1 + |t| && r[i] == p
    requires r[..i] == s[..i] && r[i + 1..|s| + 1] == s[i..] && r[|s| + 1..] == t
    ensures r == Inserted(s, p) + t
  {
    hide Rank;
    assert r == r[..i] + [r[i]] + r[i + 1..|s| + 1] + r[|s| + 1..];
  }

  /** Keys of r[lo..hi] do not descend. */
  ghost predicate Ordered(r: seq<Pair>, lo: int, hi: int) {
    0 <= lo <= hi <= |r| && forall k, l :: lo <= k <= l < hi ==> r[k].key <= r[l].key
  }

  /** Pairs from `m` on belong behind all others. */
  ghost predicate TailSorted(r: seq<Pair>, m: int, num: int) {
    Ordered(r, m, num) && forall k, l :: 0 <= k < m <= l < num ==> r[k].key <= r[l].key
  }

  /** `t` holds the first `num` pairs of `r` in some order, and the others as they are. */
  ghost predicate Permuted(r: seq<Pair>, t: seq<Pair>, num: int) {
    0 <= num <= |r| == |t| && multiset(t[..num]) == multiset(r[..num]) && t[num..] == r[num..]
  }

  function Swapped(r: seq<Pair>, j: int): seq<Pair>
    requires 1 <= j < |r|
  {
    r[j := r[j - 1]][j - 1 := r[j]]
  }

  lemma SwapPermutes(r: seq<Pair>, t: seq<Pair>, j: int, num: int)
    requires 1 <= j < num <= |t| && Permuted(r, t, num)
    ensures Permuted(r, Swapped(t, j), num)
  {
    var u := Swapped(t, j);
    var a, b := t[..j - 1], t[j + 1..num];
    assert u[..num] == a + [t[j], t[j - 1]] + b;
    assert t[..num] == a + [t[j - 1], t[j]] + b;
    assert multiset([t[j], t[j - 1]]) == multiset([t[j - 1], t[j]]);
  }

  lemma SwapSettled(t: seq<Pair>, j: int, m: int, num: int)
    requires 1 <= j < m <= num <= |t| && TailSorted(t, m, num)
    ensures TailSorted(Swapped(t, j), m, num)
  {
    var u := Swapped(t, j);
    assert forall k :: 0 <= k < |t| && k != j && k != j - 1 ==> u[k] == t[k];
  }

  /** The last of the first `j` pairs is the largest of them. */
  ghost predicate LastIsMax(t: seq<Pair>, j: int) {
    1 <= j <= |t| && forall k :: 0 <= k < j ==> t[k].key <= t[j - 1].key
  }

  lemma SwapMax(t: seq<Pair>, j: int)
    requires 1 <= j < |t| && LastIsMax(t, j) && t[j - 1].key > t[j].key
    ensures LastIsMax(Swapped(t, j), j + 1)
  {
    var u := Swapped(t, j);
    assert forall k :: 0 <= k < j - 1 ==> u[k] == t[k];
  }

  lemma PassDone(t: seq<Pair>, m: int, num: int)
    requires 1 <= m <= num <= |t| && TailSorted(t, m, num) && LastIsMax(t, m)
    ensures TailSorted(t, m - 1, num) && (Ordered(t, 0, m) ==> Ordered(t, 0, num))
  {
  }

  lemma OrderedMore(t: seq<Pair>, j: int)
    requires 1 <= j < |t| && Ordered(t, 0, j) && t[j - 1].key <= t[j].key
    ensures Ordered(t, 0, j + 1)
  {
  }

  /** One pass of bubble_sort: the largest of the first `m` pairs moves to their end. */
  method BubblePass(r: seq<Pair>, m: nat, num: nat) returns (t: seq<Pair>, swap: bool)
    requires 1 <= m <= num <= |r| && TailSorted(r, m, num)
    ensures Permuted(r, t, num) && TailSorted(t, m - 1, num)
    ensures !swap ==> t == r && Ordered(t, 0, num)
    ensures swap ==> exists k :: 1 <= k < m && r[k - 1].key > r[k].key
  {
    t, swap := r, false;
    assert LastIsMax(t, 1) && Ordered(t, 0, 1) && Permuted(r, t, num);
    hide Permuted, TailSorted, LastIsMax, Ordered;
    ghost var at := 0;
    for j := 1 to m
      invariant |t| == |r| && Permuted(r, t, num) && TailSorted(t, m, num) && LastIsMax(t, j)
      invariant !swap ==> t == r && Ordered(t, 0, j)
      invariant swap ==> 1 <= at < m && r[at - 1].key > r[at].key
    {
      if t[j - 1].key > t[j].key {
        SwapPermutes(r, t, j, num);
        SwapSettled(t, j, m, num);
        SwapMax(t, j);
        if !swap { at := j; }
        t := Swapped(t, j);
        swap := true;
      } else {
        KeepMax(t, j);
        if !swap { OrderedMore(t, j); }
      }
    }
    PassDone(t, m, num);
  }

  lemma KeepMax(t: seq<Pair>, j: int)
    requires 1 <= j < |t| && LastIsMax(t, j) && t[j - 1].key <= t[j].key
    ensures LastIsMax(t, j + 1)
  {
  }

  lemma PermutedTwice(r: seq<Pair>, t: seq<Pair>, u: seq<Pair>, num: int)
    requires Permuted(r, t, num) && Permuted(t, u, num)
    ensures Permuted(r, u, num)
  {
  }

  lemma AllSettled(t: seq<Pair>, num: int)
    requires TailSorted(t, 0, num)
    ensures Ordered(t, 0, num)
  {
  }

  /** bubble_sort: a permutation in ascending order; what is strictly ascending already stays
      as it is. */
  method BubbleSort(pairs: seq<Pair>, num: nat) returns (r: seq<Pair>)
    requires num <= |pairs|
    ensures |r| == |pairs| && Permuted(pairs, r, num) && Ordered(r, 0, num)
    ensures Ascending(pairs[..num]) ==> r == pairs
  {
    r := pairs;
    ghost var sorted := Ascending(pairs[..num]);
    assert sorted ==> forall k :: 1 <= k < num ==> pairs[..num][k - 1].key < pairs[..num][k].key;
    assert Permuted(pairs, r, num) && TailSorted(r, num, num);
    hide Ascending, Permuted, TailSorted, Ordered;
    for i := 0 to num
      invariant |r| == |pairs| && Permuted(pairs, r, num) && TailSorted(r, num - i, num) && (sorted ==> r == pairs)
    {
      ghost var r0 := r;
      var t, swap := BubblePass(r, num - i, num);
      PermutedTwice(pairs, r0, t, num);
      SameLength(r0, t, num);
      r := t;
      if !swap {
        return;
      }
    }
    AllSettled(r, num);
  }

  lemma SameLength(r: seq<Pair>, t: seq<Pair>, num: int)
    requires Permuted(r, t, num)
    ensures |r| == |t|
  {
  }

  // ------------------------------------------------- replacing one pair by two

  /** Keys of `a` are below `key`, keys of `b` above it. */
  ghost predicate Between(a: seq<Pair>, key: nat, b: seq<Pair>) {
    (forall i :: 0 <= i < |a| ==> a[i].key < key) && forall i :: 0 <= i < |b| ==> key < b[i].key
  }

  lemma InsertedBetween(a: seq<Pair>, p: Pair, b: seq<Pair>)
    requires Ascending(a + b) && Between(a, p.key, b)
    ensures Inserted(a + b, p) == a + [p] + b
  {
    var s := a + b;
    assert forall i :: 0 <= i < |a| ==> s[i] == a[i];
    assert forall i :: 0 <= i < |b| ==> s[|a| + i] == b[i];
    assert |a| > 0 ==> s[|a| - 1].key < p.key;
    assert |b| > 0 ==> s[|a|] == b[0];
    RankIs(s, p.key, |a|);
    assert s[..|a|] == a && s[|a|..] == b;
  }

  lemma AscendingRest(a: seq<Pair>, e: Pair, b: seq<Pair>)
    requires Ascending(a + [e] + b)
    ensures Ascending(a + b)
  {
    var s, t := a + [e] + b, a + b;
    assert forall i :: 0 <= i < |t| ==> t[i] == s[if i < |a| then i else i + 1];
  }

  lemma AscendingBetween(a: seq<Pair>, p: Pair, b: seq<Pair>)
    requires Ascending(a + b) && Between(a, p.key, b) && p.key > 0
    ensures Ascending(a + [p] + b)
  {
    var s, t := a + b, a + [p] + b;
    assert forall i :: 0 <= i < |a| ==> s[i] == a[i];
    assert forall i :: 0 <= i < |b| ==> s[|a| + i] == b[i];
    assert forall i :: 0 <= i < |t| ==> t[i] == if i < |a| then a[i] else if i == |a| then p else b[i - |a| - 1];
    forall i, j | 0 <= i < j < |t| ensures t[i].key < t[j].key {
      if i < |a| && j < |a| {
        assert s[i].key < s[j].key;
      } else if i < |a| && j > |a| {
        assert s[i].key < s[j - 1].key;
      } else if i > |a| {
        assert s[i - 1].key < s[j - 1].key;
      }
    }
  }

  /** Pairs `x` and `y` can be merged between `a` and `b`. */
  ghost predicate Mergeable(a: seq<Pair>, x: Pair, y: Pair, b: seq<Pair>) {
    Ascending(a + b) && Between(a, x.key, b) && Between(a + [x], y.key, b) && x.key > 0
  }

  /** Two merges put `x` and `y` between `a` and `b`, or only `y` behind `es`. */
  method MergeTwo(arr: seq<Pair>, x: Pair, y: Pair, n: nat, ghost a: seq<Pair>, ghost b: seq<Pair>, ghost es: seq<Pair>) returns (r: seq<Pair>)
    requires n + 2 <= |arr|
    ensures |r| == |arr|
    ensures n == |a| + |b| && arr == Padded(a + b, |arr|) && Mergeable(a, x, y, b) ==> r == Padded(a + [x, y] + b, |arr|)
    ensures |es| == n + 1 && arr == Padded(es, |arr|) && AllBefore(es, x, y) ==> r == Padded(es + [y], |arr|)
  {
    hide Ascending, Inserted, Mergeable, Padded;
    r := MergeKey(arr, x, n + 1);
    r := MergeKey(r, y, n + 2);
    if n == |a| + |b| && arr == Padded(a + b, |arr|) && Mergeable(a, x, y, b) {
      MergedTwo(arr, x, y, a, b);
    }
    if |es| == n + 1 && arr == Padded(es, |arr|) && AllBefore(es, x, y) {
      MergedBehind(arr, x, y, es);
    }
  }

  /** The pair `x` has no place among the pairs `es`, whose last one stands where it belongs, and `y` comes
      after all of them. */
  ghost predicate AllBefore(es: seq<Pair>, x: Pair, y: Pair) {
    && es != [] && Ascending(es) && (forall i :: 0 <= i < |es| - 1 ==> es[i].key < x.key)
    && forall i :: 0 <= i < |es| ==> es[i].key < y.key
  }

  lemma MergedBehind(arr: seq<Pair>, x: Pair, y: Pair, es: seq<Pair>)
    requires |es| + 1 <= |arr| && arr == Padded(es, |arr|) && AllBefore(es, x, y)
    ensures var n := |es| - 1;
      && Ascending(arr[..n]) && Rank(arr[..n], x.key) == n && arr[n].key != 0
      && Ascending(arr[..n + 1]) && arr[n + 1] == NULL && Inserted(arr[..n + 1], y) + arr[n + 2..] == Padded(es + [y], |arr|)
  {
    var n := |es| - 1;
    assert arr[..n + 1] == es;
    var s := arr[..n];
    assert forall i :: 0 <= i < n ==> s[i] == es[i];
    assert arr[n] == es[n];
    RankIs(s, x.key, n);
    RankIs(es, y.key, n + 1);
    assert es[..n + 1] == es && es[n + 1..] == [];
    assert Inserted(es, y) == es + [y];
    var r := (es + [y]) + arr[n + 2..];
    assert r[..n + 2] == es + [y];
    PaddedIs(r, es + [y]);
  }

  lemma MergedTwo(arr: seq<Pair>, x: Pair, y: Pair, a: seq<Pair>, b: seq<Pair>)
    requires |a| + |b| + 2 <= |arr| && arr == Padded(a + b, |arr|) && Mergeable(a, x, y, b)
    ensures var n := |a| + |b|; var r1 := Inserted(arr[..n], x) + arr[n + 1..];
      && Ascending(arr[..n]) && arr[n] == NULL && Ascending(r1[..n + 1]) && r1[n + 1] == NULL
      && Inserted(r1[..n + 1], y) + r1[n + 2..] == Padded(a + [x, y] + b, |arr|)
  {
    var n := |a| + |b|;
    InsertedBetween(a, x, b);
    AscendingBetween(a, x, b);
    hide Ascending, Between, Inserted;
    assert arr[..n] == a + b;
    var r1 := Inserted(arr[..n], x) + arr[n + 1..];
    assert r1 == (a + [x] + b) + arr[n + 1..];
    assert a + [x] + b == (a + [x]) + b;
    InsertedBetween(a + [x], y, b);
    assert r1[..n + 1] == a + [x] + b;
    assert r1[n + 1] == arr[n + 1] == NULL;
    assert (a + [x]) + [y] + b == a + [x, y] + b;
    var r := (a + [x, y] + b) + r1[n + 2..];
    assert r1[n + 2..] == arr[n + 2..];
    PaddedIs(r, a + [x, y] + b);
  }

  /** Copies `n` pairs from `from` on into an empty array. */
  method CopyPairs(es: seq<Pair>, from: nat, n: nat) returns (r: seq<Pair>)
    requires from + n <= |es| && n <= FANOUT
    ensures r == Padded(es[from..from + n], FANOUT)
  {
    r := Padded([], FANOUT);
    for i := 0 to n
      invariant |r| == FANOUT && (forall k :: 0 <= k < i ==> r[k] == es[from..][k]) && forall k :: i <= k < FANOUT ==> r[k] == NULL
    {
      r := r[i := es[from + i]];
    }
    assert r[..n] == es[from..][..n] == es[from..from + n];
    PaddedIs(r, es[from..from + n]);
  }

  /** The pairs except number `j`. */
  ghost function Others(es: seq<Pair>, j: nat): seq<Pair>
    requires j < |es|
  {
    es[..j] + es[j + 1..]
  }

  /** Only pair `j` has the item `item`. */
  ghost predicate OnlyItem(es: seq<Pair>, j: nat, item: nat) {
    j < |es| && es[j].item == item && forall i :: 0 <= i < |es| && i != j ==> es[i].item != item
  }

  /** The pairs before number `i`, except number `j`. */
  ghost function Passed(es: seq<Pair>, j: nat, i: nat): seq<Pair>
    requires j < |es| && i <= |es|
  {
    if i <= j then es[..i] else es[..j] + es[j + 1..i]
  }

  lemma PassedMore(es: seq<Pair>, j: nat, i: nat, n: nat)
    requires j < |es| <= n && i < |es|
    ensures |Passed(es, j, i)| == if i <= j then i else i - 1
    ensures i == j ==> Passed(es, j, i + 1) == Passed(es, j, i)
    ensures i != j ==> Padded(Passed(es, j, i), n)[|Passed(es, j, i)| := es[i]] == Padded(Passed(es, j, i + 1), n)
  {
    var s := Passed(es, j, i);
    if i == j {
      assert es[..j] + es[j + 1..j + 1] == es[..j];
    } else {
      assert Passed(es, j, i + 1) == s + [es[i]];
    }
  }

  lemma PassedAll(es: seq<Pair>, j: nat)
    requires j < |es|
    ensures Passed(es, j, 0) == [] && Passed(es, j, |es|) == Others(es, j) && |Others(es, j)| == |es| - 1
  {
  }

  lemma PrefixMore(es: seq<Pair>, i: nat, n: nat)
    requires i < |es| <= n
    ensures Padded(es[..i], n)[i := es[i]] == Padded(es[..i + 1], n)
  {
    PaddedIs(Padded(es[..i], n)[i := es[i]], es[..i + 1]);
  }

  /** The loop that takes a child out of its parent's pairs and remembers its key. */
  method CollectOthers(pairs: seq<Pair>, width: nat, item: nat, ghost j: nat) returns (arr: seq<Pair>, key: nat)
    requires width <= |pairs| && width <= FANOUT
    ensures |arr| == FANOUT + 1
    ensures OnlyItem(pairs[..width], j, item) ==> arr == Padded(Others(pairs[..width], j), FANOUT + 1) && key == pairs[j].key
    ensures (forall i :: 0 <= i < width ==> pairs[i].item != item) ==> arr == Padded(pairs[..width], FANOUT + 1) && key == 0
  {
    arr, key := Padded([], FANOUT + 1), 0;
    ghost var es := pairs[..width];
    ghost var none := forall i :: 0 <= i < width ==> pairs[i].item != item;
    assert es[..0] == [];
    ghost var only := OnlyItem(es, j, item);
    assert only ==> j < width && forall i :: 0 <= i < width ==> (pairs[i].item == item <==> i == j) by {
      assert forall i :: 0 <= i < width ==> es[i] == pairs[i];
    }
    if only { PassedAll(es, j); }
    hide Passed, Padded, Others, OnlyItem;
    var ptr := 0;
    for i := 0 to width
      invariant |arr| == FANOUT + 1 && ptr <= i
      invariant only ==> arr == Padded(Passed(es, j, i), FANOUT + 1) && ptr == |Passed(es, j, i)| == (if i <= j then i else i - 1)
      invariant only && i > j ==> key == pairs[j].key
      invariant none ==> key == 0 && ptr == i && arr == Padded(es[..i], FANOUT + 1)
    {
      assert es[i] == pairs[i];
      if none { PrefixMore(es, i, FANOUT + 1); }
      if only {
        PassedMore(es, j, i, FANOUT + 1);
        if i + 1 < width { PassedMore(es, j, i + 1, FANOUT + 1); }
      }
      if pairs[i].item == item {
        key := pairs[i].key;
      } else {
        arr := arr[ptr := pairs[i]];
        ptr := ptr + 1;
      }
    }
  }

  /** The loops of bp_split_data_node: the child's pair is cleared, then the pairs in use
      are collected. */
  method ClearAndCollect(pairs: seq<Pair>, width: nat, item: nat, ghost j: nat) returns (arr: seq<Pair>, count: nat)
    requires width <= |pairs| && width <= FANOUT && OnlyItem(pairs[..width], j, item) && Ascending(pairs[..width])
    ensures arr == Padded(Others(pairs[..width], j), FANOUT + 1) && count == width - 1
  {
    ghost var es := pairs[..width];
    var ip := pairs;
    for i := 0 to width
      invariant i <= j && ip == pairs
    {
      assert es[i] == pairs[i];
      if ip[i].item == item {
        ip := ip[i := NULL];
        break;
      }
    }
    PassedAll(es, j);
    assert forall k :: 0 <= k < width ==> es[k].key > 0;
    hide Passed, Padded, Others, Ascending, OnlyItem;
    arr, count := Padded([], FANOUT + 1), 0;
    for i := 0 to width
      invariant arr == Padded(Passed(es, j, i), FANOUT + 1) && count == |Passed(es, j, i)| == (if i <= j then i else i - 1)
    {
      assert es[i] == pairs[i];
      PassedMore(es, j, i, FANOUT + 1);
      if i + 1 < width { PassedMore(es, j, i + 1, FANOUT + 1); }
      if ip[i].key != 0 {
        arr := arr[count := ip[i]];
        count := count + 1;
      }
    }
  }
}
