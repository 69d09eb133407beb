/** Logical block numbers and their paths through the pointer tree (nvfuse_block_to_path). */
module BlockPath {
  import opened PointerTree
  import opened FileTree

  const P1: nat := 1024            // PTRS_PER_BLOCK
  const P2: nat := 1048576         // PTRS_PER_BLOCK^2
  const P3: nat := 1073741824      // PTRS_PER_BLOCK^3
  const MAX_BLOCKS: nat := DIRECT + P1 + P2 + P3

  /** nvfuse_block_to_path: the offsets; none when the number is negative or too big. */
  function BlockToPath(block: int): (path: seq<nat>)
    ensures path == [] <==> !(0 <= block < MAX_BLOCKS)
  {
    if block < 0 then []
    else if block < DIRECT then [block]
    else if block - DIRECT < P1 then [11, block - DIRECT]
    else if block - DIRECT - P1 < P2 then
      var b := block - DIRECT - P1;
      [12, b / P1, b % P1]
    else
      var b := block - DIRECT - P1 - P2;
      if b / P2 < P1 then [13, b / P2, (b / P1) % P1, b % P1] else []
  }

  /** The first and last paths of each kind. */
  lemma Borders()
    ensures MAX_BLOCKS == 1074791435
    ensures BlockToPath(-1) == [] == BlockToPath(1074791435) && BlockToPath(4294967295) == []
    ensures BlockToPath(0) == [0] && BlockToPath(10) == [10]
    ensures BlockToPath(11) == [11, 0] && BlockToPath(1034) == [11, 1023]
    ensures BlockToPath(1035) == [12, 0, 0] && BlockToPath(1049610) == [12, 1023, 1023]
    ensures BlockToPath(1049611) == [13, 0, 0, 0] && BlockToPath(1074791434) == [13, 1023, 1023, 1023]
  {
  }

  /** The boundary result of nvfuse_block_to_path: slots left in the same array. */
  function Boundary(block: int): (n: int)
    requires 0 <= block < MAX_BLOCKS
    ensures 0 <= n < PTRS
  {
    if block < DIRECT then DIRECT - 1 - block
    else if block - DIRECT < P1 then P1 - 1 - (block - DIRECT) % P1
    else if block - DIRECT - P1 < P2 then P1 - 1 - (block - DIRECT - P1) % P1
    else P1 - 1 - (block - DIRECT - P1 - P2) % P1
  }

  /** A path that ends at a data block. */
  ghost predicate IsFull(path: seq<nat>) {
    IsPath(path) && |path| == 1 + Level(path[0])
  }

  function PathToBlock(path: seq<nat>): int
    requires 1 <= |path| <= 4
  {
    match |path|
    case 1 => path[0]
    case 2 => DIRECT + path[1]
    case 3 => DIRECT + P1 + path[1] * P1 + path[2]
    case _ => DIRECT + P1 + P2 + path[1] * P2 + path[2] * P1 + path[3]
  }

  /** Lexicographic order of paths. */
  ghost predicate Precedes(p: seq<nat>, q: seq<nat>) {
    p != [] && q != [] && (p[0] < q[0] || (p[0] == q[0] && Precedes(p[1..], q[1..])))
  }

  lemma PathOfBlock(b: int)
    requires 0 <= b < MAX_BLOCKS
    ensures IsFull(BlockToPath(b)) && PathToBlock(BlockToPath(b)) == b
  {
    var p := BlockToPath(b);
    assert InRange(p[1..]);
  }

  lemma BlockOfPath(p: seq<nat>)
    requires IsFull(p)
    ensures |p| <= 4 && 0 <= PathToBlock(p) < MAX_BLOCKS && BlockToPath(PathToBlock(p)) == p
  {
    var t := p[1..];
    assert forall i :: 0 <= i < |t| ==> t[i] == p[i + 1] && t[i] < PTRS;
    if |p| == 4 {
      var b := p[1] * P2 + p[2] * P1 + p[3];
      assert b / P2 == p[1] && b / P1 == p[1] * P1 + p[2] && (b / P1) % P1 == p[2] && b % P1 == p[3];
    }
  }

  /** nvfuse_block_to_path preserves order in both directions, so it is injective. */
  lemma PathsOrdered(a: int, b: int)
    requires 0 <= a < MAX_BLOCKS && 0 <= b < MAX_BLOCKS
    ensures a < b <==> Precedes(BlockToPath(a), BlockToPath(b))
    ensures a == b <==> BlockToPath(a) == BlockToPath(b)
  {
    PathOfBlock(a);
    PathOfBlock(b);
    var p, q := BlockToPath(a), BlockToPath(b);
    PrecedesMeans(p, q);
    PrecedesMeans(q, p);
  }

  lemma PrecedesMeans(p: seq<nat>, q: seq<nat>)
    requires IsFull(p) && IsFull(q)
    ensures |p| <= 4 && |q| <= 4
    ensures Precedes(p, q) ==> PathToBlock(p) < PathToBlock(q)
    ensures !Precedes(p, q) ==> PathToBlock(q) <= PathToBlock(p)
  {
    BlockOfPath(p);
    BlockOfPath(q);
    assert forall i :: 1 <= i < |p| ==> p[i] == p[1..][i - 1] < PTRS;
    assert forall i :: 1 <= i < |q| ==> q[i] == q[1..][i - 1] < PTRS;
    if p[0] == q[0] {
      var p1, q1 := p[1..], q[1..];
      assert Precedes(p, q) <==> Precedes(p1, q1);
      if |p| > 1 {
        assert Precedes(p1, q1) <==> p1[0] < q1[0] || (p1[0] == q1[0] && Precedes(p1[1..], q1[1..]));
        if |p| > 2 {
          var p2, q2 := p1[1..], q1[1..];
          assert Precedes(p2, q2) <==> p2[0] < q2[0] || (p2[0] == q2[0] && Precedes(p2[1..], q2[1..]));
          if |p| > 3 {
            var p3, q3 := p2[1..], q2[1..];
            assert Precedes(p3, q3) <==> p3[0] < q3[0] || (p3[0] == q3[0] && Precedes(p3[1..], q3[1..]));
          }
        }
      }
    }
  }

  /** The path of the slot `i` places further on in the same array. */
  ghost function Along(path: seq<nat>, i: nat): seq<nat>
    requires path != []
  {
    path[..|path| - 1] + [path[|path| - 1] + i]
  }

  lemma SameArray(x: nat, i: nat)
    requires x % P1 + i < P1
    ensures (x + i) / P1 == x / P1 && (x + i) % P1 == x % P1 + i && (x + i) / P2 == x / P2
  {
  }

  /** The next Boundary(b) blocks use the next slots of the same array; the block after
      them starts another array. */
  lemma BoundaryCounts(b: int, i: nat)
    requires 0 <= b < MAX_BLOCKS && i <= Boundary(b)
    ensures b + i < MAX_BLOCKS && BlockToPath(b + i) == Along(BlockToPath(b), i)
  {
    if b < DIRECT {
    } else if b - DIRECT < P1 {
      SameArray(b - DIRECT, i);
    } else if b - DIRECT - P1 < P2 {
      SameArray(b - DIRECT - P1, i);
    } else {
      SameArray(b - DIRECT - P1 - P2, i);
    }
  }

  lemma BoundaryEnds(b: int)
    requires 0 <= b < MAX_BLOCKS && b + Boundary(b) + 1 < MAX_BLOCKS
    ensures var next := BlockToPath(b + Boundary(b) + 1); next[|next| - 1] == 0
  {
  }
}
