/** Extended attributes packed into the inode (nvfuse_xattr.c). */
module Xattr {

  const AREA_SIZE: nat := 3972
  const MAX_SIZE: nat := 3968          // NVFUSE_XATTR_MAX_SIZE
  const NAME_MAX: nat := 256
  const VALUE_MAX: nat := 512
  const ERANGE: int := 34
  const U32: int := 0x1_0000_0000

  type Byte = b: int | 0 <= b < 256

  datatype Attr = Attr(name: seq<Byte>, value: seq<Byte>)

  /** A little-endian u32. */
  function Le(n: nat): (r: seq<Byte>)
    requires n < U32
    ensures |r| == 4
  {
    [n % 256, (n / 256) % 256, (n / 256 / 256) % 256, n / 256 / 256 / 256]
  }

  function ReadLe(r: seq<Byte>): (n: nat)
    requires |r| == 4
    ensures n < U32
  {
    (r[0] as int) + 256 * (r[1] as int) + 65536 * (r[2] as int) + 16777216 * (r[3] as int)
  }

  lemma LeRoundTrip(n: nat)
    requires n < U32
    ensures ReadLe(Le(n)) == n
  {
  }

  /** The bytes of one entry: name length, value length, name and value. */
  lemma EntryBytes()
    ensures Enc(Attr([120, 121], [97])) == [2, 0, 0, 0, 1, 0, 0, 0, 120, 121, 0, 97, 0]
    ensures Le(0x0102_0304) == [4, 3, 2, 1]
  {
  }

  /** A C string: no zero byte inside. */
  ghost predicate IsText(s: seq<Byte>) {
    forall i :: 0 <= i < |s| ==> s[i] != 0
  }

  ghost predicate IsAttr(a: Attr) {
    && 1 <= |a.name| <= NAME_MAX && 1 <= |a.value| <= VALUE_MAX && IsText(a.name) && IsText(a.value)
  }

  /** One entry: both lengths, then name and value, each with a terminating zero. */
  function Enc(a: Attr): (r: seq<Byte>)
    requires |a.name| < U32 && |a.value| < U32
    ensures |r| == 10 + |a.name| + |a.value|
  {
    Le(|a.name|) + Le(|a.value|) + a.name + [0] + a.value + [0]
  }

  ghost predicate AllAttrs(s: seq<Attr>) {
    forall i :: 0 <= i < |s| ==> IsAttr(s[i])
  }

  ghost function EncAll(s: seq<Attr>): seq<Byte>
    requires AllAttrs(s)
  {
    if s == [] then [] else Enc(s[0]) + EncAll(s[1..])
  }

  function Zeros(n: nat): (r: seq<Byte>)
    ensures |r| == n && forall i :: 0 <= i < n ==> r[i] == 0
  {
    seq(n, _ => 0)
  }

  ghost predicate DistinctNames(s: seq<Attr>) {
    forall i, j :: 0 <= i < j < |s| ==> s[i].name != s[j].name
  }

  /** The area holds the attributes `s` and then zeros; the last four bytes always stay zero. */
  ghost predicate Packed(area: seq<Byte>, s: seq<Attr>) {
    && AllAttrs(s) && DistinctNames(s) && |EncAll(s)| <= MAX_SIZE
    && |area| == AREA_SIZE && area == EncAll(s) + Zeros(AREA_SIZE - |EncAll(s)|)
  }

  lemma {:induction false} EncJoin(a: seq<Attr>, b: seq<Attr>)
    requires AllAttrs(a) && AllAttrs(b)
    ensures AllAttrs(a + b) && EncAll(a + b) == EncAll(a) + EncAll(b)
    decreases |a|
  {
    if a == [] {
      assert a + b == b;
    } else {
      assert AllAttrs(a[1..]);
      assert (a + b)[1..] == a[1..] + b;
      EncJoin(a[1..], b);
    }
  }

  // ---------------------------------------------------------------- positions

  /** Where entry `i` starts. */
  ghost function At(s: seq<Attr>, i: nat): nat
    requires AllAttrs(s) && i <= |s|
  {
    |EncAll(s[..i])|
  }

  lemma Split(s: seq<Attr>, i: nat)
    requires AllAttrs(s) && i < |s|
    ensures AllAttrs(s[..i]) && AllAttrs(s[i + 1..]) && AllAttrs(s[..i + 1])
    ensures EncAll(s) == EncAll(s[..i]) + Enc(s[i]) + EncAll(s[i + 1..])
    ensures At(s, i + 1) == At(s, i) + |Enc(s[i])| <= |EncAll(s)|
    ensures s == s[..i] + [s[i]] + s[i + 1..]
  {
    assert s == s[..i] + [s[i]] + s[i + 1..];
    assert s[..i + 1] == s[..i] + [s[i]];
    assert AllAttrs([s[i]]) && EncAll([s[i]]) == Enc(s[i]) by { assert [s[i]][1..] == []; }
    EncJoin(s[..i], [s[i]]);
    EncJoin(s[..i] + [s[i]], s[i + 1..]);
  }

  /** Part of a sequence in the middle of others. */
  lemma Window(pre: seq<Byte>, e: seq<Byte>, rest: seq<Byte>, x: nat, y: nat)
    requires x <= y <= |e|
    ensures (pre + e + rest)[|pre| + x..|pre| + y] == e[x..y]
  {
  }

  lemma AttrOf(area: seq<Byte>, s: seq<Attr>, i: nat)
    requires Packed(area, s) && i < |s|
    ensures AllAttrs(s) && IsAttr(s[i]) && |area| == AREA_SIZE
  {
  }

  lemma AreaSplit(area: seq<Byte>, s: seq<Attr>, i: nat)
    requires Packed(area, s) && i < |s|
    ensures AllAttrs(s[..i]) && AllAttrs(s[i + 1..]) && At(s, i + 1) == At(s, i) + |Enc(s[i])| <= MAX_SIZE
    ensures |EncAll(s)| <= MAX_SIZE
    ensures area == EncAll(s[..i]) + Enc(s[i]) + (EncAll(s[i + 1..]) + Zeros(AREA_SIZE - |EncAll(s)|))
  {
    Split(s, i);
    hide EncAll, Enc, Zeros;
  }

  /** What the area shows at the start of entry `i`. */
  lemma EntryAt(area: seq<Byte>, s: seq<Attr>, i: nat)
    requires Packed(area, s) && i < |s|
    ensures var o, a := At(s, i), s[i];
      && o + |Enc(a)| <= MAX_SIZE && area[o..o + |Enc(a)|] == Enc(a)
      && ReadLe(area[o..o + 4]) == |a.name| && ReadLe(area[o + 4..o + 8]) == |a.value|
      && area[o + 8..o + 8 + |a.name|] == a.name && At(s, i + 1) == o + |Enc(a)|
  {
    hide EncAll, Enc, Packed, AllAttrs, Zeros, Le, ReadLe;
    AreaSplit(area, s, i);
    AttrOf(area, s, i);
    var a, pre, e := s[i], EncAll(s[..i]), Enc(s[i]);
    var rest := EncAll(s[i + 1..]) + Zeros(AREA_SIZE - |EncAll(s)|);
    EncParts(a);
    Window(pre, e, rest, 0, |e|);
    Window(pre, e, rest, 0, 4);
    Window(pre, e, rest, 4, 8);
    Window(pre, e, rest, 8, 8 + |a.name|);
    assert e[0..|e|] == e && e[0..4] == e[..4];
    LeRoundTrip(|a.name|);
    LeRoundTrip(|a.value|);
  }

  lemma EncParts(a: Attr)
    requires IsAttr(a)
    ensures |Enc(a)| == 10 + |a.name| + |a.value|
    ensures var e := Enc(a);
      && e[..4] == Le(|a.name|) && e[4..8] == Le(|a.value|) && e[8..8 + |a.name|] == a.name
      && e[8..] == a.name + [0] + a.value + [0] && e[8..8 + |a.name| + 1] == a.name + [0]
  {
  }

  /** The entry after the last one is the zero terminator. */
  lemma EndAt(area: seq<Byte>, s: seq<Attr>)
    requires Packed(area, s)
    ensures At(s, |s|) == |EncAll(s)| <= MAX_SIZE && ReadLe(area[At(s, |s|)..At(s, |s|) + 4]) == 0
  {
    assert s[..|s|] == s;
    var o := At(s, |s|);
    hide EncAll;
    assert area[o..o + 4] == Zeros(4);
  }

  lemma StartAt(s: seq<Attr>)
    requires AllAttrs(s)
    ensures At(s, 0) == 0
  {
  }

  // ------------------------------------------------------ what the bytes mean

  /** The bytes determine the attributes: two readings of an area are the same. */
  lemma {:induction false} PackedOnce(area: seq<Byte>, s: seq<Attr>, t: seq<Attr>)
    requires Packed(area, s) && Packed(area, t)
    ensures s == t
  {
    SameUpTo(area, s, t, |s|);
    SameUpTo(area, t, s, |t|);
    assert s[..|s|] == s && t[..|t|] == t;
  }

  lemma {:induction false} SameUpTo(area: seq<Byte>, s: seq<Attr>, t: seq<Attr>, i: nat)
    requires Packed(area, s) && Packed(area, t) && i <= |s|
    ensures i <= |t| && s[..i] == t[..i]
    decreases i
  {
    if i > 0 {
      SameUpTo(area, s, t, i - 1);
      SameNext(area, s, t, i - 1);
      assert s[..i] == s[..i - 1] + [s[i - 1]] && t[..i] == t[..i - 1] + [t[i - 1]];
    }
  }

  lemma SameNext(area: seq<Byte>, s: seq<Attr>, t: seq<Attr>, i: nat)
    requires Packed(area, s) && Packed(area, t) && i < |s| && i <= |t| && s[..i] == t[..i]
    ensures i < |t| && s[i] == t[i]
  {
    hide Packed, AllAttrs, EncAll, Enc, ReadLe;
    EntryFacts(area, s, i);
    PackedAttrs(area, t);
    EndAt(area, t);
    assert t[..|t|] == t;
    assert At(s, i) == At(t, i);
    if i < |t| {
      EntryFacts(area, t, i);
      SameEntry(s[i], t[i]);
    }
  }

  lemma PackedAttrs(area: seq<Byte>, s: seq<Attr>)
    requires Packed(area, s)
    ensures AllAttrs(s) && |area| == AREA_SIZE
  {
  }

  lemma EntryFacts(area: seq<Byte>, s: seq<Attr>, i: nat)
    requires Packed(area, s) && i < |s|
    ensures AllAttrs(s) && IsAttr(s[i]) && |area| == AREA_SIZE
    ensures var o, a := At(s, i), s[i];
      && o + |Enc(a)| <= MAX_SIZE && area[o..o + |Enc(a)|] == Enc(a) && ReadLe(area[o..o + 4]) == |a.name|
      && ReadLe(area[o + 4..o + 8]) == |a.value|
  {
    hide Packed, EncAll, Enc, ReadLe;
    AttrOf(area, s, i);
    EntryAt(area, s, i);
  }

  lemma SameEntry(a: Attr, b: Attr)
    requires IsAttr(a) && IsAttr(b) && |a.name| == |b.name| && |a.value| == |b.value| && Enc(a) == Enc(b)
    ensures a == b
  {
    EncParts(a);
    EncParts(b);
    var x, y := Enc(a)[8..], Enc(b)[8..];
    assert x[|a.name| + 1..|x| - 1] == a.value && y[|b.name| + 1..|y| - 1] == b.value;
  }

  // -------------------------------------------------------- editing the bytes

  ghost function Drop(s: seq<Attr>, i: nat): seq<Attr>
    requires i < |s|
  {
    s[..i] + s[i + 1..]
  }

  lemma DropKeeps(s: seq<Attr>, i: nat)
    requires AllAttrs(s) && DistinctNames(s) && i < |s|
    ensures AllAttrs(Drop(s, i)) && DistinctNames(Drop(s, i)) && |EncAll(Drop(s, i))| == |EncAll(s)| - |Enc(s[i])|
    ensures forall j :: 0 <= j < |Drop(s, i)| ==> Drop(s, i)[j].name != s[i].name
    ensures AllAttrs(s[..i]) && AllAttrs(s[i + 1..]) && EncAll(Drop(s, i)) == EncAll(s[..i]) + EncAll(s[i + 1..])
  {
    hide EncAll, Enc, DistinctNames;
    Split(s, i);
    EncJoin(s[..i], s[i + 1..]);
    DropNames(s, i);
  }

  lemma DropNames(s: seq<Attr>, i: nat)
    requires DistinctNames(s) && i < |s|
    ensures DistinctNames(Drop(s, i)) && forall j :: 0 <= j < |Drop(s, i)| ==> Drop(s, i)[j].name != s[i].name
  {
    var t := Drop(s, i);
    assert forall j :: 0 <= j < |t| ==> t[j] == if j < i then s[j] else s[j + 1];
    forall j | 0 <= j < |t| ensures t[j].name != s[i].name {
    }
  }

  lemma CutBytes(a: seq<Byte>, e: seq<Byte>, b: seq<Byte>, z: seq<Byte>, area: seq<Byte>)
    requires area == a + e + (b + z)
    ensures area[..|a|] == a && area[|a| + |e|..|a| + |e| + |b|] == b && area[|a| + |e| + |b|..] == z
  {
  }

  lemma ZerosJoin(m: nat, n: nat)
    ensures Zeros(m) + Zeros(n) == Zeros(m + n)
  {
  }

  /** Moving the following entries down and clearing what they leave removes entry `i`. */
  lemma RemovedBytes(area: seq<Byte>, s: seq<Attr>, i: nat, area': seq<Byte>)
    requires Packed(area, s) && i < |s|
    requires var o, n, last := At(s, i), At(s, i + 1), |EncAll(s)|;
      o <= n <= last <= |area| && area' == area[..o] + area[n..last] + Zeros(n - o) + area[last..]
    ensures Packed(area', Drop(s, i))
  {
    hide EncAll, Enc, Zeros, Packed;
    AreaSplit(area, s, i);
    PackedAttrs(area, s);
    PackedNames(area, s);
    DropKeeps(s, i);
    Split(s, i);
    var a, b, z := EncAll(s[..i]), EncAll(s[i + 1..]), Zeros(AREA_SIZE - |EncAll(s)|);
    CutBytes(a, Enc(s[i]), b, z, area);
    ZerosJoin(|Enc(s[i])|, |z|);
    var t := Drop(s, i);
    assert area' == a + b + (Zeros(|Enc(s[i])|) + z);
    assert area' == EncAll(t) + Zeros(AREA_SIZE - |EncAll(t)|);
    IsPacked(area', t);
  }

  lemma IsPacked(area: seq<Byte>, s: seq<Attr>)
    requires AllAttrs(s) && DistinctNames(s) && |EncAll(s)| <= MAX_SIZE && |area| == AREA_SIZE
    requires area == EncAll(s) + Zeros(AREA_SIZE - |EncAll(s)|)
    ensures Packed(area, s)
  {
  }

  lemma PackedNames(area: seq<Byte>, s: seq<Attr>)
    requires Packed(area, s)
    ensures AllAttrs(s) && DistinctNames(s) && |EncAll(s)| <= MAX_SIZE && |area| == AREA_SIZE
    ensures area[..|EncAll(s)|] == EncAll(s) && area[|EncAll(s)|..] == Zeros(AREA_SIZE - |EncAll(s)|)
  {
  }

  ghost predicate Absent(s: seq<Attr>, name: seq<Byte>) {
    forall j :: 0 <= j < |s| ==> s[j].name != name
  }

  /** Writing an entry over the terminator appends it. */
  lemma AppendedBytes(area: seq<Byte>, s: seq<Attr>, a: Attr, area': seq<Byte>)
    requires Packed(area, s) && IsAttr(a) && Absent(s, a.name) && |EncAll(s)| + |Enc(a)| <= MAX_SIZE
    requires var last := |EncAll(s)|; |area| == AREA_SIZE && area' == area[..last] + Enc(a) + area[last + |Enc(a)|..]
    ensures Packed(area', s + [a])
  {
    PackedNames(area, s);
    assert AllAttrs([a]) && EncAll([a]) == Enc(a) by { assert [a][1..] == []; }
    hide EncAll, Enc, Packed;
    EncJoin(s, [a]);
    var last, n := |EncAll(s)|, |Enc(a)|;
    assert area[last + n..] == area[last..][n..];
    assert Zeros(AREA_SIZE - last)[n..] == Zeros(AREA_SIZE - last - n);
    assert area' == EncAll(s + [a]) + Zeros(AREA_SIZE - last - n);
    NamesGrow(s, a);
    IsPacked(area', s + [a]);
  }

  lemma NamesGrow(s: seq<Attr>, a: Attr)
    requires DistinctNames(s) && Absent(s, a.name)
    ensures DistinctNames(s + [a])
  {
  }

  // ------------------------------------------------------------ the operations

  /** The position of `name`, or the number of attributes. */
  ghost function IndexOf(s: seq<Attr>, name: seq<Byte>): (i: nat)
    ensures i <= |s| && (i < |s| ==> s[i].name == name) && forall j :: 0 <= j < i ==> s[j].name != name
  {
    if s == [] || s[0].name == name then 0 else
      var i := IndexOf(s[1..], name);
      assert forall j :: 1 <= j <= i ==> s[j] == s[1..][j - 1] || j == |s|;
      i + 1
  }

  lemma IndexIs(s: seq<Attr>, name: seq<Byte>, i: nat)
    requires i <= |s| && DistinctNames(s) && (i < |s| ==> s[i].name == name) && (i == |s| ==> Absent(s, name))
    ensures IndexOf(s, name) == i
  {
  }

  /** When nvfuse_set_xattr succeeds. */
  ghost predicate CanSet(s: seq<Attr>, name: seq<Byte>, value: seq<Byte>)
    requires AllAttrs(s)
  {
    var i, free := IndexOf(s, name), MAX_SIZE - |EncAll(s)|;
    1 <= |name| <= NAME_MAX && 1 <= |value| <= VALUE_MAX &&
    if i == |s| then 10 + |name| + |value| <= free
    else |s[i].value| <= |value| && |value| - |s[i].value| <= free
  }

  /** The attributes after a successful set: a replaced one moves to the end. */
  ghost function AfterSet(s: seq<Attr>, name: seq<Byte>, value: seq<Byte>): seq<Attr> {
    var i := IndexOf(s, name);
    (if i < |s| then Drop(s, i) else s) + [Attr(name, value)]
  }

  ghost function Size(s: seq<Attr>): nat
    requires AllAttrs(s)
  {
    |EncAll(s)|
  }

  /** Setting succeeds exactly when the lengths are those of an attribute, the result fits and, for an existing name,
      the new value is not shorter than the old one: the difference of the lengths is taken modulo 2^32. */
  lemma SetSucceedsIff(s: seq<Attr>, name: seq<Byte>, value: seq<Byte>)
    requires AllAttrs(s) && DistinctNames(s) && Size(s) <= MAX_SIZE && IsText(name) && IsText(value)
    ensures AllAttrs(AfterSet(s, name, value)) <==> IsAttr(Attr(name, value))
    ensures var i := IndexOf(s, name);
      CanSet(s, name, value) <==>
        && IsAttr(Attr(name, value)) && AllAttrs(AfterSet(s, name, value)) && Size(AfterSet(s, name, value)) <= 3968
        && !(i < |s| && |value| < |s[i].value|)
  {
    var i, a := IndexOf(s, name), Attr(name, value);
    var rest := if i < |s| then Drop(s, i) else s;
    if i < |s| { DropKeeps(s, i); }
    assert AfterSet(s, name, value) == rest + [a] && (rest + [a])[|rest|] == a;
    if IsAttr(a) {
      assert AllAttrs([a]) && EncAll([a]) == Enc(a) by { assert [a][1..] == []; }
      hide EncAll, Enc;
      EncJoin(rest, [a]);
    }
  }

  /** The limits, in numbers: an empty area takes names of 1 to 256 bytes and values of 1 to 512, and no others;
      beside other attributes a new one takes 10 bytes more than its name and value, of 3968. */
  lemma SetLimits(s: seq<Attr>, name: seq<Byte>, value: seq<Byte>)
    requires AllAttrs(s) && DistinctNames(s) && IsText(name) && IsText(value)
    ensures CanSet([], name, value) <==> 1 <= |name| <= 256 && 1 <= |value| <= 512
    ensures (forall j :: 0 <= j < |s| ==> s[j].name != name) ==>
      (CanSet(s, name, value) <==> 1 <= |name| <= 256 && 1 <= |value| <= 512 && Size(s) + 10 + |name| + |value| <= 3968)
  {
    assert IndexOf([], name) == 0;
  }

  /** Replacing "ab" by "a" is refused although there is room. */
  lemma ShorterValueRefused()
    ensures var s := [Attr([120], [97, 98])];
      AllAttrs(s) && DistinctNames(s) && Size(s) <= MAX_SIZE && !CanSet(s, [120], [97]) &&
      AllAttrs(AfterSet(s, [120], [97])) && Size(AfterSet(s, [120], [97])) < Size(s)
  {
    var s: seq<Attr> := [Attr([120], [97, 98])];
    var t: seq<Attr> := [Attr([120], [97])];
    assert IsAttr(s[0]) && IsAttr(t[0]);
    assert s[1..] == [] && t[1..] == [];
    assert EncAll(s) == Enc(s[0]) && EncAll(t) == Enc(t[0]);
    assert IndexOf(s, [120]) == 0;
    assert AfterSet(s, [120], [97]) == t;
  }

  // ------------------------------------------------------------------ a finite map

  ghost function AsMap(s: seq<Attr>): map<seq<Byte>, seq<Byte>> {
    map n | n in (set a | a in s :: a.name) && IndexOf(s, n) < |s| :: s[IndexOf(s, n)].value
  }

  lemma AsMapIs(s: seq<Attr>, i: nat)
    requires DistinctNames(s) && i < |s|
    ensures s[i].name in AsMap(s) && AsMap(s)[s[i].name] == s[i].value
  {
    assert s[i] in s;
    assert s[i].name in (set a | a in s :: a.name);
    IndexIs(s, s[i].name, i);
  }

  lemma AsMapHas(s: seq<Attr>, name: seq<Byte>)
    requires DistinctNames(s)
    ensures name in AsMap(s) <==> IndexOf(s, name) < |s|
    ensures IndexOf(s, name) < |s| ==> AsMap(s)[name] == s[IndexOf(s, name)].value
  {
    if IndexOf(s, name) < |s| { AsMapIs(s, IndexOf(s, name)); }
  }

  lemma InMap(s: seq<Attr>, n: seq<Byte>)
    requires DistinctNames(s)
    ensures n in AsMap(s) ==> Attr(n, AsMap(s)[n]) in s
    ensures forall v :: Attr(n, v) in s ==> n in AsMap(s) && AsMap(s)[n] == v
  {
    AsMapHas(s, n);
    var i := IndexOf(s, n);
    if i < |s| { assert s[i] == Attr(n, s[i].value); }
    forall v | Attr(n, v) in s ensures n in AsMap(s) && AsMap(s)[n] == v {
      var k :| 0 <= k < |s| && s[k] == Attr(n, v);
      AsMapIs(s, k);
    }
  }

  lemma DropHolds(s: seq<Attr>, i: nat)
    requires DistinctNames(s) && i < |s|
    ensures forall a :: a in Drop(s, i) <==> a in s && a.name != s[i].name
  {
    DropNames(s, i);
    assert s == s[..i] + [s[i]] + s[i + 1..];
    hide DistinctNames;
    assert forall a :: a in s <==> a in s[..i] || a == s[i] || a in s[i + 1..];
  }

  lemma AbsentIs(s: seq<Attr>, name: seq<Byte>)
    requires IndexOf(s, name) == |s|
    ensures forall a :: a in s ==> a.name != name
  {
  }

  /** Setting acts as a map update ... */
  lemma SetIsUpdate(s: seq<Attr>, name: seq<Byte>, value: seq<Byte>)
    requires DistinctNames(s)
    ensures DistinctNames(AfterSet(s, name, value)) && AsMap(AfterSet(s, name, value)) == AsMap(s)[name := value]
  {
    var i, added := IndexOf(s, name), Attr(name, value);
    var d := if i < |s| then Drop(s, i) else s;
    if i < |s| { DropNames(s, i); DropHolds(s, i); } else { AbsentIs(s, name); }
    NamesGrow(d, added);
    var t := AfterSet(s, name, value);
    assert t == d + [added];
    hide AsMap, DistinctNames, Drop, IndexOf, AfterSet;
    assert forall a :: a in t <==> a == added || (a in s && a.name != name);
    SameMap(t, name, value, s);
  }

  lemma SameMap(t: seq<Attr>, name: seq<Byte>, value: seq<Byte>, s: seq<Attr>)
    requires DistinctNames(s) && DistinctNames(t)
    requires forall a :: a in t <==> a == Attr(name, value) || (a in s && a.name != name)
    ensures AsMap(t) == AsMap(s)[name := value]
  {
    hide AsMap, DistinctNames;
    forall n: seq<Byte> ensures n in AsMap(t) <==> n == name || n in AsMap(s) { InMap(s, n); InMap(t, n); }
    forall n: seq<Byte> | n in AsMap(t) ensures AsMap(t)[n] == if n == name then value else AsMap(s)[n] { InMap(s, n); InMap(t, n); }
  }

  /** ... and removing as a deletion. */
  lemma RemoveIsDelete(s: seq<Attr>, i: nat)
    requires DistinctNames(s) && i < |s|
    ensures DistinctNames(Drop(s, i)) && AsMap(Drop(s, i)) == AsMap(s) - {s[i].name}
  {
    hide AsMap, DistinctNames, Drop, IndexOf;
    DropNames(s, i);
    DropHolds(s, i);
    SmallerMap(Drop(s, i), s[i].name, s);
  }

  lemma SmallerMap(t: seq<Attr>, name: seq<Byte>, s: seq<Attr>)
    requires DistinctNames(s) && DistinctNames(t) && forall a :: a in t <==> a in s && a.name != name
    ensures AsMap(t) == AsMap(s) - {name}
  {
    hide AsMap, DistinctNames;
    forall n: seq<Byte> ensures n in AsMap(t) <==> n != name && n in AsMap(s) { InMap(s, n); InMap(t, n); }
    forall n: seq<Byte> | n in AsMap(t) ensures AsMap(t)[n] == AsMap(s)[n] { InMap(s, n); InMap(t, n); }
  }

  // --------------------------------------------------------------------- the area

  class Area {
    const xattr: array<Byte>
    ghost var attrs: seq<Attr>

    ghost predicate Valid()
      reads this, xattr
    {
      xattr.Length == AREA_SIZE && Packed(xattr[..], attrs)
    }

    constructor ()
      ensures Valid() && fresh(xattr) && attrs == []
    {
      xattr := new Byte[AREA_SIZE](_ => 0);
      attrs := [];
      new;
      assert xattr[..] == EncAll([]) + Zeros(AREA_SIZE);
    }

    method ReadU32(o: nat) returns (n: nat)
      requires o + 4 <= xattr.Length
      ensures n == ReadLe(xattr[..][o..o + 4])
    {
      assert xattr[o..o + 4] == xattr[..][o..o + 4];
      n := ReadLe(xattr[o..o + 4]);
    }

    /** memcmp. */
    method IsName(o: nat, name: seq<Byte>) returns (same: bool)
      requires o + |name| <= xattr.Length
      ensures same == (xattr[..][o..o + |name|] == name)
    {
      for i := 0 to |name|
        invariant xattr[..][o..o + i] == name[..i]
      {
        assert name[..i + 1] == name[..i] + [name[i]];
        assert xattr[..][o..o + i + 1] == xattr[..][o..o + i] + [xattr[o + i]];
        if xattr[o + i] != name[i] {
          assert xattr[..][o..o + |name|][i] != name[i];
          return false;
        }
      }
      assert name[..|name|] == name;
      same := true;
    }

    /** e_name_len of the entry at the cursor; 0 at the terminator. */
    method NameLen(o: nat, ghost i: nat) returns (n: nat)
      requires Cursor(xattr[..], attrs, i, o)
      ensures (n == 0 <==> i == |attrs|) && (i < |attrs| ==> n == |attrs[i].name|)
    {
      n := ReadU32(o);
    }

    /** Compares the name of the entry at the cursor. */
    method HasName(o: nat, nameLen: nat, name: seq<Byte>, ghost i: nat) returns (same: bool)
      requires Cursor(xattr[..], attrs, i, o) && i < |attrs| && nameLen == |attrs[i].name|
      ensures same == (attrs[i].name == name)
    {
      same := false;
      if nameLen == |name| {
        same := IsName(o + 8, name);
      }
    }

    /** XATTR_NEXT_ENTRY. */
    method NextEntry(o: nat, nameLen: nat, ghost i: nat) returns (next: nat)
      requires Cursor(xattr[..], attrs, i, o) && i < |attrs| && nameLen == |attrs[i].name|
      ensures next == o + 10 + |attrs[i].name| + |attrs[i].value|
    {
      var valueSize := ReadU32(o + 4);
      next := o + (4 + 4 + nameLen + 1 + valueSize + 1);
    }

    /** The loop of list_for_each_xattr that looks for `name`. */
    method FindEntry(name: seq<Byte>) returns (here: nat, found: bool, ghost i: nat)
      requires Valid()
      ensures AllAttrs(attrs) && here == At(attrs, IndexOf(attrs, name)) && found == (IndexOf(attrs, name) < |attrs|)
      ensures i == IndexOf(attrs, name) && Cursor(xattr[..], attrs, i, here)
    {
      hide Packed, EncAll, IndexOf, DistinctNames, At, AllAttrs, Absent, Cursor;
      PackedNames(xattr[..], attrs);
      StartAt(attrs);
      here, found, i := 0, false, 0;
      CursorAt(xattr[..], attrs, 0);
      var nameLen := NameLen(here, i);
      while nameLen != 0
        invariant i <= |attrs| && here == At(attrs, i) && Cursor(xattr[..], attrs, i, here)
        invariant (nameLen == 0 <==> i == |attrs|) && (i < |attrs| ==> nameLen == |attrs[i].name|)
        invariant forall j :: 0 <= j < i ==> attrs[j].name != name
        decreases |attrs| - i
      {
        var same := HasName(here, nameLen, name, i);
        if same {
          found := true;
          IndexIs(attrs, name, i);
          return;
        }
        CursorAt(xattr[..], attrs, i);
        here := NextEntry(here, nameLen, i);
        i := i + 1;
        CursorAt(xattr[..], attrs, i);
        nameLen := NameLen(here, i);
      }
      AbsentUpTo(attrs, name);
      IndexIs(attrs, name, i);
    }

    /** The loop that finds the end of the entries. */
    method FindLast(here: nat, ghost k: nat) returns (last: nat)
      requires Valid() && AllAttrs(attrs) && k <= |attrs| && here == At(attrs, k)
      ensures last == |EncAll(attrs)| <= MAX_SIZE
    {
      hide Packed, EncAll, IndexOf, DistinctNames, At, AllAttrs, Absent, Cursor;
      PackedNames(xattr[..], attrs);
      last := here;
      ghost var i := k;
      CursorAt(xattr[..], attrs, i);
      var nameLen := NameLen(last, i);
      while nameLen != 0
        invariant i <= |attrs| && last == At(attrs, i) && Cursor(xattr[..], attrs, i, last)
        invariant (nameLen == 0 <==> i == |attrs|) && (i < |attrs| ==> nameLen == |attrs[i].name|)
        decreases |attrs| - i
      {
        CursorAt(xattr[..], attrs, i);
        last := NextEntry(last, nameLen, i);
        i := i + 1;
        CursorAt(xattr[..], attrs, i);
        nameLen := NameLen(last, i);
      }
      CursorAt(xattr[..], attrs, i);
    }

    /** memmove of what lies in next..last down to `here`, memset of what is left behind. */
    method ShiftDown(here: nat, next: nat, last: nat)
      requires here <= next <= last <= xattr.Length
      modifies xattr
      ensures xattr[..] == old(xattr[..here]) + old(xattr[next..last]) + Zeros(next - here) + old(xattr[last..])
    {
      ghost var area := xattr[..];
      var shrink := next - here;
      forall k | 0 <= k < last - next { xattr[here + k] := xattr[next + k]; }
      forall k | 0 <= k < shrink { xattr[last - shrink + k] := 0; }
      MovedDown(area, xattr[..], here, next, last);
    }

    /** Takes out entry `i`. */
    method RemoveEntry(here: nat, last: nat, ghost i: nat) returns (last': nat)
      requires Valid() && AllAttrs(attrs) && i < |attrs| && here == At(attrs, i) && last == |EncAll(attrs)|
      modifies this, xattr
      ensures Valid() && attrs == Drop(old(attrs), i) && AllAttrs(attrs) && last' == |EncAll(attrs)|
      ensures last' == last - (10 + |old(attrs)[i].name| + |old(attrs)[i].value|)
    {
      hide Packed, EncAll, Enc, DistinctNames, At, AllAttrs, Cursor, Zeros;
      ghost var area, s := xattr[..], attrs;
      PackedNames(area, s);
      CursorAt(area, s, i);
      SplitEnds(s, i);
      var nameLen := NameLen(here, i);
      var next := NextEntry(here, nameLen, i);
      last' := last - (next - here);
      ShiftDown(here, next, last);
      RemovedBytes(area, s, i, xattr[..]);
      DropKeeps(s, i);
      attrs := Drop(s, i);
    }

    /** The stores of a new entry into zeroed bytes; the two terminating zeros are there already. */
    method StoreEntry(last: nat, name: seq<Byte>, value: seq<Byte>)
      requires IsAttr(Attr(name, value)) && last + 10 + |name| + |value| <= xattr.Length
      requires forall k :: last <= k < xattr.Length ==> xattr[k] == 0
      modifies xattr
      ensures xattr[..] == old(xattr[..last]) + Enc(Attr(name, value)) + old(xattr[last + 10 + |name| + |value|..])
    {
      hide Le, Enc, IsAttr;
      ghost var area, a := xattr[..], Attr(name, value);
      SmallLengths(a);
      EncLength(a);
      var nl, vl := Le(|name|), Le(|value|);
      CopyIn(last, nl);
      CopyIn(last + 8, name);
      CopyIn(last + 8 + |name| + 1, value);
      CopyIn(last + 4, vl);
      forall k | 0 <= k < xattr.Length
        ensures xattr[k] == if last <= k < last + |Enc(a)| then Enc(a)[k - last] else area[k]
      {
        if last <= k < last + |Enc(a)| { EncAt(a, k - last); }
      }
      assert xattr[..] == area[..last] + Enc(a) + area[last + |Enc(a)|..];
    }

    /** memcpy. */
    method CopyIn(o: nat, src: seq<Byte>)
      requires o + |src| <= xattr.Length
      modifies xattr
      ensures forall k :: 0 <= k < xattr.Length ==> xattr[k] == if o <= k < o + |src| then src[k - o] else old(xattr[k])
    {
      forall k | 0 <= k < |src| { xattr[o + k] := src[k]; }
    }

    /** Writes a new entry over the terminator. */
    method WriteEntry(last: nat, name: seq<Byte>, value: seq<Byte>)
      requires Valid() && AllAttrs(attrs) && last == |EncAll(attrs)| && IsAttr(Attr(name, value)) && Absent(attrs, name)
      requires last + 10 + |name| + |value| <= MAX_SIZE
      modifies this, xattr
      ensures Valid() && attrs == old(attrs) + [Attr(name, value)]
    {
      hide Packed, EncAll, Enc, DistinctNames, AllAttrs, Cursor, Zeros, Le;
      ghost var area, s, a := xattr[..], attrs, Attr(name, value);
      PackedNames(area, s);
      EncLength(a);
      StoreEntry(last, name, value);
      AppendedBytes(area, s, a, xattr[..]);
      attrs := s + [a];
    }

    /** nvfuse_set_xattr, on the inode's area. The lengths are u32, so that a shorter new value
        makes the difference wrap around. */
    method Set(name: seq<Byte>, value: seq<Byte>) returns (res: int)
      requires Valid() && IsText(name) && IsText(value) && |name| < U32 && |value| < U32
      modifies this, xattr
      ensures Valid() && AllAttrs(old(attrs)) && res == if CanSet(old(attrs), name, value) then 0 else -1
      ensures attrs == if CanSet(old(attrs), name, value) then AfterSet(old(attrs), name, value) else old(attrs)
    {
      hide Packed, EncAll, Enc, DistinctNames, AllAttrs, Cursor, IsText, IndexOf, At, Absent;
      PackedNames(xattr[..], attrs);
      if |name| > NAME_MAX || |name| < 1 || |value| > VALUE_MAX || |value| < 1 {
        return -1;
      }
      ghost var s := attrs;
      var here, found;
      ghost var i;
      here, found, i := FindEntry(name);
      IndexMeans(s, name);
      var last := here;
      if !found {
        CursorAt(xattr[..], attrs, i);
        var free := MAX_SIZE - last;
        if 4 + 4 + |name| + 1 + |value| + 1 > free {
          return -1;
        }
      } else {
        StartAt(attrs);
        last := FindLast(0, 0);
        var free := MAX_SIZE - last;
        var oldSize := ValueSize(here, i);
        if (|value| - oldSize) % U32 > free {
          return -1;
        }
        last := RemoveEntry(here, last, i);
        DropAbsent(s, i);
      }
      WriteEntry(last, name, value);
      res := 0;
    }

    /** e_value_size of the entry at the cursor. */
    method ValueSize(o: nat, ghost i: nat) returns (n: nat)
      requires Cursor(xattr[..], attrs, i, o) && i < |attrs|
      ensures n == |attrs[i].value|
    {
      n := ReadU32(o + 4);
    }

    /** nvfuse_remove_xattr. */
    method Remove(name: seq<Byte>) returns (res: int)
      requires Valid()
      modifies this, xattr
      ensures Valid()
      ensures var ok := 1 <= |name| <= NAME_MAX && IndexOf(old(attrs), name) < |old(attrs)|;
        res == (if ok then 0 else -1) && attrs == if ok then Drop(old(attrs), IndexOf(old(attrs), name)) else old(attrs)
    {
      hide Packed, EncAll, Enc, DistinctNames, AllAttrs, Cursor, IndexOf, At, Drop;
      PackedNames(xattr[..], attrs);
      if |name| > NAME_MAX || |name| < 1 {
        return -1;
      }
      var here, found;
      ghost var i;
      here, found, i := FindEntry(name);
      if !found {
        return -1;
      }
      var last := FindLast(here, i);
      var _ := RemoveEntry(here, last, i);
      res := 0;
    }

    /** nvfuse_get_xattr: the bytes of name and value, each with its zero. */
    method Get(name: seq<Byte>, bufSize: nat) returns (res: int, buffer: seq<Byte>)
      requires Valid()
      ensures var i := IndexOf(attrs, name);
        if !(1 <= |name| <= NAME_MAX) || i == |attrs| then res == -1 && buffer == []
        else if 10 + |attrs[i].name| + |attrs[i].value| > bufSize then res == ERANGE && buffer == []
        else res == 0 && var text := attrs[i].name + [0] + attrs[i].value + [0];
          |text| <= bufSize && buffer == text + Zeros(bufSize - |text|)
    {
      hide Packed, EncAll, Enc, DistinctNames, AllAttrs, Cursor, IndexOf, At;
      PackedNames(xattr[..], attrs);
      if |name| > NAME_MAX || |name| < 1 {
        return -1, [];
      }
      var here, found;
      ghost var i;
      here, found, i := FindEntry(name);
      if !found {
        return -1, [];
      }
      TextAt(xattr[..], attrs, i);
      var nameLen := NameLen(here, i);
      var next := NextEntry(here, nameLen, i);
      if next - here > bufSize {
        return ERANGE, [];
      }
      assert xattr[here + 8..next] == xattr[..][here + 8..next];
      var text := xattr[here + 8..next];
      buffer := text + Zeros(bufSize - |text|);
      res := 0;
    }

    /** nvfuse_list_xattr: all names, each with its zero, as long as they fit. */
    method List(bufSize: nat) returns (res: int, buffer: seq<Byte>)
      requires Valid()
      ensures res == if |Names(attrs)| <= bufSize then 0 else -1
      ensures |buffer| == bufSize && (res == 0 ==> buffer == Names(attrs) + Zeros(bufSize - |Names(attrs)|))
      ensures exists k :: ListedUpTo(buffer, attrs, k)
    {
      hide Packed, EncAll, Enc, DistinctNames, AllAttrs, Cursor, IndexOf, At, Names;
      PackedNames(xattr[..], attrs);
      StartAt(attrs);
      var out: seq<Byte>, o: nat, rest := [], 0, bufSize;
      ghost var i := 0;
      CursorAt(xattr[..], attrs, 0);
      NoNames(attrs);
      var nameLen := NameLen(o, i);
      while nameLen != 0
        invariant i <= |attrs| && o == At(attrs, i) && Cursor(xattr[..], attrs, i, o)
        invariant (nameLen == 0 <==> i == |attrs|) && (i < |attrs| ==> nameLen == |attrs[i].name|)
        invariant out == Names(attrs[..i]) && rest == bufSize - |out| && rest >= 0
        decreases |attrs| - i
      {
        NamesMore(attrs, i);
        TextAt(xattr[..], attrs, i);
        if nameLen + 1 > rest {
          buffer := out + Zeros(rest);
          assert ListedUpTo(buffer, attrs, i);
          return -1, buffer;
        }
        assert xattr[o + 8..o + 8 + nameLen + 1] == xattr[..][o + 8..o + 8 + nameLen + 1];
        out := out + xattr[o + 8..o + 8 + nameLen + 1];
        rest := rest - (nameLen + 1);
        CursorAt(xattr[..], attrs, i);
        o := NextEntry(o, nameLen, i);
        i := i + 1;
        CursorAt(xattr[..], attrs, i);
        nameLen := NameLen(o, i);
      }
      assert attrs[..|attrs|] == attrs;
      buffer := out + Zeros(rest);
      assert ListedUpTo(buffer, attrs, i);
      res := 0;
    }
  }

  /** The names of attributes, one after the other. */
  ghost function Names(s: seq<Attr>): seq<Byte> {
    if s == [] then [] else Names(s[..|s| - 1]) + s[|s| - 1].name + [0]
  }

  /** The buffer holds the names of `s` and then zeros. */
  ghost predicate Listed(buffer: seq<Byte>, s: seq<Attr>) {
    |Names(s)| <= |buffer| && buffer == Names(s) + Zeros(|buffer| - |Names(s)|)
  }

  /** ... and `k` is how many names fit. */
  ghost predicate ListedUpTo(buffer: seq<Byte>, s: seq<Attr>, k: int) {
    0 <= k <= |s| && Listed(buffer, s[..k]) && (k < |s| ==> |Names(s[..k + 1])| > |buffer|)
  }

  /** Each name stands behind the names before it, and a zero behind it. */
  lemma NameListed(s: seq<Attr>, i: nat)
    requires i < |s|
    ensures var all, o, n := Names(s), |Names(s[..i])|, |s[i].name|;
      && o + n < |all| && all[o..o + n] == s[i].name && all[o + n] == 0 && (i == 0 ==> o == 0)
      && |Names(s[..i + 1])| == o + n + 1 && (i == |s| - 1 ==> |all| == o + n + 1)
  {
    NamesMore(s, i);
    NamesPrefix(s, i + 1);
    NoNames(s);
    assert i == |s| - 1 ==> s[..i + 1] == s;
    var o, n := |Names(s[..i])|, |s[i].name|;
    var less, all := Names(s[..i + 1]), Names(s);
    assert all[..|less|] == less;
    assert all[o..o + n] == less[o..o + n];
  }

  lemma {:induction false} NamesPrefix(s: seq<Attr>, i: nat)
    requires i <= |s|
    ensures Names(s[..i]) <= Names(s)
    decreases |s|
  {
    if i == |s| {
      assert s[..i] == s;
    } else {
      NamesPrefix(s[..|s| - 1], i);
      assert s[..|s| - 1][..i] == s[..i];
    }
  }

  lemma NoNames(s: seq<Attr>)
    ensures Names(s[..0]) == []
  {
  }

  lemma NamesMore(s: seq<Attr>, i: nat)
    requires i < |s|
    ensures Names(s[..i + 1]) == Names(s[..i]) + s[i].name + [0] && |Names(s)| >= |Names(s[..i + 1])|
  {
    assert s[..i + 1][..i] == s[..i];
    NamesGrowLong(s, i + 1);
  }

  lemma {:induction false} NamesGrowLong(s: seq<Attr>, i: nat)
    requires i <= |s|
    ensures |Names(s[..i])| <= |Names(s)|
    decreases |s|
  {
    if i < |s| {
      var t := s[..|s| - 1];
      NamesGrowLong(t, i);
      assert t[..i] == s[..i];
    } else {
      assert s[..i] == s;
    }
  }

  lemma SubSlice(a: seq<Byte>, x: nat, y: nat, i: nat, j: nat)
    requires x <= y <= |a| && i <= j <= y - x
    ensures a[x + i..x + j] == a[x..y][i..j]
  {
    var u, v := a[x + i..x + j], a[x..y][i..j];
    forall k | 0 <= k < j - i ensures u[k] == v[k] {
      assert v[k] == a[x..y][i + k] == a[x + (i + k)];
    }
  }

  /** The texts of entry `i`, with their zeros. */
  lemma TextAt(area: seq<Byte>, s: seq<Attr>, i: nat)
    requires Packed(area, s) && i < |s|
    ensures AllAttrs(s) && |area| == AREA_SIZE
    ensures var o, a := At(s, i), s[i]; var n := o + 10 + |a.name| + |a.value|;
      && n <= MAX_SIZE && area[o + 8..n] == a.name + [0] + a.value + [0] && area[o + 8..o + 8 + |a.name| + 1] == a.name + [0]
  {
    hide Packed, EncAll, Enc;
    AttrOf(area, s, i);
    EntryAt(area, s, i);
    var o, a := At(s, i), s[i];
    EncParts(a);
    SubSlice(area, o, o + |Enc(a)|, 8, |Enc(a)|);
    SubSlice(area, o, o + |Enc(a)|, 8, 8 + |a.name| + 1);
  }

  lemma IndexMeans(s: seq<Attr>, name: seq<Byte>)
    requires DistinctNames(s)
    ensures IndexOf(s, name) == |s| ==> Absent(s, name)
    ensures IndexOf(s, name) <= |s| && (IndexOf(s, name) < |s| ==> s[IndexOf(s, name)].name == name)
  {
  }

  lemma DropAbsent(s: seq<Attr>, i: nat)
    requires DistinctNames(s) && i < |s|
    ensures Absent(Drop(s, i), s[i].name)
  {
    DropNames(s, i);
  }

  lemma SplitEnds(s: seq<Attr>, i: nat)
    requires AllAttrs(s) && i < |s|
    ensures At(s, i) <= At(s, i + 1) <= |EncAll(s)|
  {
    Split(s, i);
  }

  lemma MovedDown(area: seq<Byte>, area': seq<Byte>, o: nat, n: nat, last: nat)
    requires o <= n <= last <= |area| == |area'|
    requires forall k :: 0 <= k < o || last <= k < |area| ==> area'[k] == area[k]
    requires forall k :: n <= k < last ==> area'[k - (n - o)] == area[k]
    requires forall k :: last - (n - o) <= k < last ==> area'[k] == 0
    ensures area' == area[..o] + area[n..last] + Zeros(n - o) + area[last..]
  {
    var m := last - (n - o);
    assert area'[..o] == area[..o];
    assert area'[o..m] == area[n..last];
    assert area'[m..last] == Zeros(n - o);
    assert area'[last..] == area[last..];
    assert area' == area'[..o] + area'[o..m] + area'[m..last] + area'[last..];
  }

  lemma SmallLengths(a: Attr)
    requires IsAttr(a)
    ensures |a.name| < U32 && |a.value| < U32
  {
  }

  lemma EncLength(a: Attr)
    requires IsAttr(a)
    ensures |Enc(a)| == 10 + |a.name| + |a.value|
  {
  }

  /** The bytes of an entry, one by one. */
  lemma EncAt(a: Attr, k: nat)
    requires IsAttr(a) && k < 10 + |a.name| + |a.value|
    ensures |Enc(a)| == 10 + |a.name| + |a.value| && |a.name| < U32 && |a.value| < U32
    ensures Enc(a)[k] ==
      if k < 4 then Le(|a.name|)[k]
      else if k < 8 then Le(|a.value|)[k - 4]
      else if k < 8 + |a.name| then a.name[k - 8]
      else if k == 8 + |a.name| then 0
      else if k < 9 + |a.name| + |a.value| then a.value[k - 9 - |a.name|]
      else 0
  {
    hide Le;
  }

  /** What the bytes at the cursor `o` say when it stands at entry `i`, or at the end. */
  ghost predicate Cursor(area: seq<Byte>, s: seq<Attr>, i: nat, o: nat) {
    && i <= |s| && o + 4 <= |area| == AREA_SIZE
    && (i == |s| ==> ReadLe(area[o..o + 4]) == 0)
    && (i < |s| ==> o + 10 + |s[i].name| + |s[i].value| <= MAX_SIZE)
    && (i < |s| ==> ReadLe(area[o..o + 4]) == |s[i].name| != 0 && ReadLe(area[o + 4..o + 8]) == |s[i].value|)
    && (i < |s| ==> area[o + 8..o + 8 + |s[i].name|] == s[i].name)
  }

  lemma CursorAt(area: seq<Byte>, s: seq<Attr>, i: nat)
    requires Packed(area, s) && i <= |s|
    ensures AllAttrs(s) && Cursor(area, s, i, At(s, i))
    ensures i < |s| ==> At(s, i + 1) == At(s, i) + 10 + |s[i].name| + |s[i].value|
    ensures i == |s| ==> At(s, i) == |EncAll(s)|
  {
    hide Packed, EncAll, ReadLe;
    PackedNames(area, s);
    if i < |s| {
      EntryAt(area, s, i);
      AttrOf(area, s, i);
    } else {
      EndAt(area, s);
    }
  }

  lemma AbsentUpTo(s: seq<Attr>, name: seq<Byte>)
    requires forall j :: 0 <= j < |s| ==> s[j].name != name
    ensures Absent(s, name)
  {
  }
}
