/** What validity of the directory B+tree means: it holds a finite map, it is shallow, and
    its leaves taken from left to right list the keys in ascending order. */
module BpFacts {
  import opened BpPairs
  import opened BpShape
  import opened BpUpdate

  // --------------------------------------------------------------- a finite map

  ghost predicate Unique(s: set<Pair>) {
    forall p, q :: p in s && q in s && p.key == q.key ==> p == q
  }

  ghost predicate HasPair(s: set<Pair>, key: nat) {
    exists p :: p in s && p.key == key
  }

  ghost function ItemOf(s: set<Pair>, key: nat): nat
    requires HasPair(s, key)
  {
    var p :| p in s && p.key == key;
    p.item
  }

  /** The map that a set of pairs stands for. */
  ghost function MapOf(s: set<Pair>): map<nat, nat> {
    map k | k in (set p | p in s :: p.key) && HasPair(s, k) :: ItemOf(s, k)
  }

  lemma MapOfIs(s: set<Pair>, key: nat)
    requires Unique(s)
    ensures key in MapOf(s) <==> HasPair(s, key)
    ensures key in MapOf(s) ==> Pair(key, MapOf(s)[key]) in s
    ensures forall v :: Pair(key, v) in s ==> key in MapOf(s) && MapOf(s)[key] == v
  {
    if HasPair(s, key) {
      var p :| p in s && p.key == key;
      assert key in (set p | p in s :: p.key);
      assert p == Pair(key, p.item);
    }
    forall v | Pair(key, v) in s ensures key in MapOf(s) && MapOf(s)[key] == v {
      assert Pair(key, v).key == key && HasPair(s, key);
    }
  }

  lemma MapPut(s: set<Pair>, key: nat, item: nat)
    requires Unique(s)
    ensures var t := Without(s, key) + {Pair(key, item)}; Unique(t) && MapOf(t) == MapOf(s)[key := item]
  {
    hide MapOf;
    var t := Without(s, key) + {Pair(key, item)};
    MapOfIs(t, key);
    assert Pair(key, item) in t;
    forall k: nat | k != key ensures (k in MapOf(t) <==> k in MapOf(s)) && (k in MapOf(s) ==> MapOf(t)[k] == MapOf(s)[k]) {
      MapSame(s, t, k);
    }
  }

  lemma MapDrop(s: set<Pair>, key: nat)
    requires Unique(s)
    ensures var t := Without(s, key) + {}; Unique(t) && MapOf(t) == MapOf(s) - {key}
  {
    var t := Without(s, key) + {};
    MapOfIs(t, key);
    forall k: nat | k != key ensures (k in MapOf(t) <==> k in MapOf(s)) && (k in MapOf(s) ==> MapOf(t)[k] == MapOf(s)[k]) {
      MapSame(s, t, k);
    }
  }

  lemma MapSame(s: set<Pair>, t: set<Pair>, k: nat)
    requires Unique(s) && Unique(t) && forall v :: Pair(k, v) in s <==> Pair(k, v) in t
    ensures (k in MapOf(t) <==> k in MapOf(s)) && (k in MapOf(s) ==> MapOf(t)[k] == MapOf(s)[k])
  {
    MapOfIs(s, k);
    MapOfIs(t, k);
    hide MapOf;
    if k in MapOf(s) { assert Pair(k, MapOf(s)[k]) in t; }
    if k in MapOf(t) { assert Pair(k, MapOf(t)[k]) in s; }
  }

  lemma LowHigh(es: seq<Pair>, i: nat, j: nat, lo: nat, hi: nat)
    requires Within(es, lo, hi) && i < j < |es|
    ensures High(es, i, hi) <= Low(es, j, lo)
  {
  }

  /** A key is stored once. */
  lemma {:induction false} HeldOnce(nodes: Nodes, off: nat, h: nat, lo: nat, hi: nat, min: nat, top: bool, p: Pair, q: Pair)
    requires Sub(nodes, off, h, lo, hi, min, top) && p in Holds(nodes, off, h) && q in Holds(nodes, off, h) && p.key == q.key
    ensures p == q
    decreases h
  {
    hide *;
    SubKids(nodes, off, h, lo, hi, min, top);
    var es := Entries(nodes[off]);
    if h == 0 {
      OnceInLeaf(es, lo, hi, p, q);
    } else {
      var i := HeldByKid(nodes, es, h - 1, p);
      var j := HeldByKid(nodes, es, h - 1, q);
      KidValid(nodes, es, h - 1, lo, hi, min, i);
      KidValid(nodes, es, h - 1, lo, hi, min, j);
      HeldWithin(nodes, es[i].item, h - 1, Low(es, i, lo), High(es, i, hi), min, false, p);
      HeldWithin(nodes, es[j].item, h - 1, Low(es, j, lo), High(es, j, hi), min, false, q);
      if i < j {
        LowHigh(es, i, j, lo, hi);
      } else if j < i {
        LowHigh(es, j, i, lo, hi);
      } else {
        HeldOnce(nodes, es[i].item, h - 1, Low(es, i, lo), High(es, i, hi), min, false, p, q);
      }
    }
  }

  lemma OnceInLeaf(es: seq<Pair>, lo: nat, hi: nat, p: Pair, q: Pair)
    requires Within(es, lo, hi) && p in es && q in es && p.key == q.key
    ensures p == q
  {
  }

  lemma HoldsUnique(nodes: Nodes, off: nat, h: nat, lo: nat, hi: nat, min: nat, top: bool)
    requires Sub(nodes, off, h, lo, hi, min, top)
    ensures Unique(Holds(nodes, off, h))
  {
    hide Sub, Holds;
    forall p, q | p in Holds(nodes, off, h) && q in Holds(nodes, off, h) && p.key == q.key ensures p == q {
      HeldOnce(nodes, off, h, lo, hi, min, top, p, q);
    }
  }

  /** Only the leaf on the path of `key` can hold it. */
  lemma {:induction false} HeldOnPath(nodes: Nodes, at: Spot, h: nat, min: nat, top: bool, p: Pair)
    requires SubAt(nodes, at, h, min, top) && at.lo < p.key <= at.hi
    ensures p in Holds(nodes, at.off, h) <==> p in Holds(nodes, Down(nodes, at, p.key, h).off, 0)
    decreases h
  {
    hide Sub, Kids, Holds, HoldsAll, Reach, ReachAll, Within, Bound, Leaves, LeavesAll, Below, Without, Entries, Route, SubAt;
    if h > 0 {
      SubAtIs(nodes, at, h, min, top);
      SubKids(nodes, at.off, h, at.lo, at.hi, min, top);
      var a, e, b := BelowIsChild(nodes, at, h, min, top, p.key);
      KidsParts(nodes, a, e, b, h - 1, at.lo, at.hi, min);
      OthersWithout(nodes, a, e, b, h - 1, at.lo, at.hi, min, p.key);
      NotIn(HoldsAll(nodes, a, h - 1), p);
      NotIn(HoldsAll(nodes, b, h - 1), p);
      BelowIsSub(nodes, at, h, min, top, p.key);
      HeldOnPath(nodes, Below(nodes, at, p.key), h - 1, min, false, p);
    }
  }

  lemma SubAtIs(nodes: Nodes, at: Spot, h: nat, min: nat, top: bool)
    requires SubAt(nodes, at, h, min, top)
    ensures Sub(nodes, at.off, h, at.lo, at.hi, min, top)
  {
  }

  lemma NotIn(s: set<Pair>, p: Pair)
    requires Without(s, p.key) == s
    ensures p !in s
  {
    assert p in Without(s, p.key) ==> p.key != p.key;
  }

  // ------------------------------------------------------------------- height

  ghost function Power(b: nat, n: nat): nat {
    if n == 0 then 1 else b * Power(b, n - 1)
  }

  /** A subtree of height `h` needs an interval of at least HALF^h keys. */
  lemma {:induction false} Room(nodes: Nodes, off: nat, h: nat, lo: nat, hi: nat, min: nat)
    requires Sub(nodes, off, h, lo, hi, min, false) && min >= 1
    ensures hi - lo >= Power(HALF, h)
    decreases h, 0, 0
  {
    hide Sub, Kids, Within, Holds, HoldsAll, Reach, ReachAll, Leaves, LeavesAll, Entries, Shaped;
    SubKids(nodes, off, h, lo, hi, min, false);
    NodeFacts(nodes, off, h, lo, hi, min, false);
    var es := Entries(nodes[off]);
    if h == 0 {
      WithinAt(es, 0, lo, hi);
    } else {
      RoomAll(nodes, es, h - 1, lo, hi, min, |es|);
      Scale(|es|, HALF, Power(HALF, h - 1));
    }
  }

  lemma Scale(n: nat, m: nat, p: nat)
    requires n >= m
    ensures n * p >= m * p
  {
  }

  lemma {:induction false} RoomAll(nodes: Nodes, es: seq<Pair>, h: nat, lo: nat, hi: nat, min: nat, n: nat)
    requires Kids(nodes, es, h, lo, hi, min) && Within(es, lo, hi) && min >= 1 && 1 <= n <= |es|
    ensures High(es, n - 1, hi) - lo >= n * Power(HALF, h)
    decreases h, 1, n
  {
    hide Sub, Kids, Power;
    KidValid(nodes, es, h, lo, hi, min, n - 1);
    Room(nodes, es[n - 1].item, h, Low(es, n - 1, lo), High(es, n - 1, hi), min);
    if n > 1 {
      RoomAll(nodes, es, h, lo, hi, min, n - 1);
      LowHigh(es, n - 2, n - 1, lo, hi);
    }
    assert n * Power(HALF, h) == (n - 1) * Power(HALF, h) + Power(HALF, h);
  }

  /** The key space bounds the height, and with it the path stack. */
  lemma Shallow(nodes: Nodes, off: nat, h: nat, min: nat)
    requires Sub(nodes, off, h, 0, MAX_KEY, min, true) && min >= 1
    ensures h <= 9
  {
    if h >= 10 {
      hide Sub, Kids, Within;
      SubKids(nodes, off, h, 0, MAX_KEY, min, true);
      var es := Entries(nodes[off]);
      RoomAll(nodes, es, h - 1, 0, MAX_KEY, min, |es|);
      PowerGrows(h - 1);
      Scale(|es|, 1, Power(HALF, h - 1));
    }
  }

  lemma {:induction false} PowerGrows(n: nat)
    requires n >= 9
    ensures Power(HALF, n) > MAX_KEY
    decreases n
  {
    if n == 9 {
      assert Power(HALF, 3) == 4826809;
      assert Power(HALF, 6) == 4826809 * 4826809;
      assert Power(HALF, 9) == 4826809 * 4826809 * 4826809;
    } else {
      PowerGrows(n - 1);
    }
  }
}
