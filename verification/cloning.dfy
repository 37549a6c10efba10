/**
 * The block-duplication (copy-move) detector.
 *
 * The grayscale image is tiled into non-overlapping bs × bs blocks scanned row
 * by row; the partial strips at the right and bottom edges are never examined.
 * Each block is keyed by a descriptor (integer mean and standard deviation of
 * its pixels, computed by a library and taken here as a parameter), block
 * origins are grouped by key in first-seen order, and every block whose key is
 * shared with another block is counted and painted 255 in the mask.
 */
module Cloning {
  import opened Grids
  import opened Analyzer

  /** The constructor's default block size, also the one the orchestrator uses. */
  const DefaultBlockSize: nat := 32

  /** Number of duplicated blocks at which the score saturates. */
  const Saturation: nat := 20

  /** Top-left corner of a block: column x, row y. */
  datatype Coord = Coord(x: nat, y: nat)

  /** The block descriptor `(int(mean), int(std))`. */
  datatype Descriptor = Descriptor(mean: int, std: int)

  /** One scanned block: its descriptor and its origin. */
  datatype Entry = Entry(key: Descriptor, at: Coord)

  /** One `(descriptor, coords)` item of the grouping dictionary. */
  datatype Group = Group(key: Descriptor, coords: seq<Coord>)

  datatype CloningResult = CloningResult(suspiciousMask: Grid, cloningCount: nat, confidence: real)

  // ---------------------------------------------------------------------------
  // Euclidean division facts used to reason about `range(0, n, bs)`

  lemma {:induction false} MulAtLeast(d: nat, s: int)
    requires d >= 1 && s > 0
    ensures d * s >= s
  {
    if d > 1 {
      MulAtLeast(d - 1, s);
      assert d * s == (d - 1) * s + s;
    }
  }

  lemma DivModUnique(x: int, s: int, q: int, r: int)
    requires s > 0 && 0 <= r < s && x == q * s + r
    ensures x / s == q && x % s == r
  {
    var q0, r0 := x / s, x % s;
    assert x == q0 * s + r0;
    var d := q - q0;
    assert d * s == q * s - q0 * s;
    assert d * s == r0 - r;
    if d >= 1 {
      MulAtLeast(d, s);
    }
  }

  /** A multiple of s below v + 1 and above v - s is v's block start. */
  lemma AlignedStart(a: int, v: int, s: int)
    requires s > 0 && a % s == 0 && a <= v < a + s
    ensures a == v - v % s
  {
    DivModUnique(a, s, a / s, 0);
    DivModUnique(v, s, a / s, v - a);
  }

  lemma ModAtMost(v: nat, s: int)
    requires s > 0
    ensures v % s <= v
  {
    if v < s {
      DivModUnique(v, s, 0, v);
    }
  }

  /** The origin of the block-aligned square of side s containing (r, c). */
  function AlignedAt(r: nat, c: nat, s: int): (o: Coord)
    requires s > 0
    ensures o.x % s == 0 && o.y % s == 0
    ensures o.x <= c < o.x + s && o.y <= r < o.y + s
  {
    ModAtMost(r, s);
    ModAtMost(c, s);
    var o := Coord(c - c % s, r - r % s);
    DivModUnique(o.x, s, c / s, 0);
    DivModUnique(o.y, s, r / s, 0);
    o
  }

  // ---------------------------------------------------------------------------
  // Block grid enumeration

  /** Python's `range(start, stop, step)` for a positive step. */
  function PyRange(start: nat, stop: int, step: nat): (xs: seq<nat>)
    requires step > 0
    ensures |xs| == 0 <==> stop <= start
    decreases stop - start
  {
    if start >= stop then [] else [start] + PyRange(start + step, stop, step)
  }

  /** The range holds exactly the values from start below stop at whole steps. */
  lemma {:induction false} RangeMembers(a: nat, stop: int, s: nat, v: int)
    requires s > 0
    ensures v in PyRange(a, stop, s) <==> a <= v < stop && (v - a) % s == 0
    decreases stop - a
  {
    if a < stop {
      RangeMembers(a + s, stop, s, v);
      if v == a {
        DivModUnique(0, s, 0, 0);
      } else if a < v < a + s {
        DivModUnique(v - a, s, 0, v - a);
      } else if a + s <= v {
        DivModUnique(v - a, s, (v - a - s) / s + 1, (v - a - s) % s);
      }
    }
  }

  lemma {:induction false} RangeLength(a: nat, stop: int, s: nat)
    requires s > 0
    ensures |PyRange(a, stop, s)| == if stop <= a then 0 else (stop - a - 1) / s + 1
    decreases stop - a
  {
    if a < stop {
      RangeLength(a + s, stop, s);
      if stop <= a + s {
        DivModUnique(stop - a - 1, s, 0, stop - a - 1);
      } else {
        DivModUnique(stop - a - 1, s, (stop - a - s - 1) / s + 1, (stop - a - s - 1) % s);
      }
    }
  }

  lemma {:induction false} RangeAbove(a: nat, stop: int, s: nat)
    requires s > 0
    ensures forall i :: 0 <= i < |PyRange(a, stop, s)| ==> PyRange(a, stop, s)[i] >= a
    decreases stop - a
  {
    if a < stop {
      RangeAbove(a + s, stop, s);
    }
  }

  lemma {:induction false} RangeIncreasing(a: nat, stop: int, s: nat)
    requires s > 0
    ensures forall i, j :: 0 <= i < j < |PyRange(a, stop, s)| ==> PyRange(a, stop, s)[i] < PyRange(a, stop, s)[j]
    decreases stop - a
  {
    if a < stop {
      RangeIncreasing(a + s, stop, s);
      RangeAbove(a + s, stop, s);
    }
  }

  /** The block starts along an axis of length n: `range(0, n - bs + 1, bs)`. */
  function Starts(n: nat, bs: nat): (xs: seq<nat>)
    requires bs > 0
    ensures |xs| == 0 <==> n < bs
  {
    PyRange(0, n - bs + 1, bs)
  }

  /** An axis of length n holds n / bs whole blocks; the remainder is skipped. */
  lemma StartsCount(n: nat, bs: nat)
    requires bs > 0
    ensures |Starts(n, bs)| == n / bs
  {
    RangeLength(0, n - bs + 1, bs);
    if n < bs {
      DivModUnique(n, bs, 0, n);
    } else {
      DivModUnique(n, bs, (n - bs) / bs + 1, (n - bs) % bs);
    }
  }

  function RowOf(xs: seq<nat>, y: nat): (row: seq<Coord>)
    ensures |row| == |xs|
    ensures forall i :: 0 <= i < |xs| ==> row[i] == Coord(xs[i], y)
  {
    seq(|xs|, i requires 0 <= i < |xs| => Coord(xs[i], y))
  }

  /** The nested loops: for each row start y, for each column start x, (x, y). */
  function ScanOrder(ys: seq<nat>, xs: seq<nat>): (os: seq<Coord>)
    ensures |os| == 0 <==> |ys| == 0 || |xs| == 0
  {
    if |ys| == 0 then [] else RowOf(xs, ys[0]) + ScanOrder(ys[1..], xs)
  }

  lemma {:induction false} ScanMembers(ys: seq<nat>, xs: seq<nat>, o: Coord)
    ensures o in ScanOrder(ys, xs) <==> o.y in ys && o.x in xs
  {
    if |ys| > 0 {
      ScanMembers(ys[1..], xs, o);
      assert ys == [ys[0]] + ys[1..];
      if o in RowOf(xs, ys[0]) {
        var i :| 0 <= i < |xs| && RowOf(xs, ys[0])[i] == o;
      }
      if o.y == ys[0] && o.x in xs {
        var i :| 0 <= i < |xs| && xs[i] == o.x;
        assert RowOf(xs, ys[0])[i] == o;
      }
    }
  }

  lemma {:induction false} ScanLength(ys: seq<nat>, xs: seq<nat>)
    ensures |ScanOrder(ys, xs)| == |ys| * |xs|
  {
    if |ys| > 0 {
      ScanLength(ys[1..], xs);
    }
  }

  ghost predicate Distinct<T>(s: seq<T>)
  {
    forall i, j :: 0 <= i < j < |s| ==> s[i] != s[j]
  }

  lemma {:induction false} ScanDistinct(ys: seq<nat>, xs: seq<nat>)
    requires Distinct(ys) && Distinct(xs)
    ensures Distinct(ScanOrder(ys, xs))
  {
    if |ys| > 0 {
      ScanDistinct(ys[1..], xs);
      var row, rest := RowOf(xs, ys[0]), ScanOrder(ys[1..], xs);
      forall i, j | 0 <= i < |row| && 0 <= j < |rest|
        ensures row[i] != rest[j]
      {
        assert rest[j] in rest;
        ScanMembers(ys[1..], xs, rest[j]);
        var k :| 0 <= k < |ys[1..]| && ys[1..][k] == rest[j].y;
        assert ys[k + 1] == rest[j].y;
      }
      var s := row + rest;
      forall i, j | 0 <= i < j < |s|
        ensures s[i] != s[j]
      {
        if j < |row| {
        } else if i < |row| {
          assert s[j] == rest[j - |row|];
        } else {
          assert s[i] == rest[i - |row|] && s[j] == rest[j - |row|];
        }
      }
    }
  }

  /** The origins of all whole blocks, in scan order. */
  function Origins(h: nat, w: nat, bs: nat): (os: seq<Coord>)
    requires bs > 0
    ensures |os| == 0 <==> h < bs || w < bs
  {
    ScanOrder(Starts(h, bs), Starts(w, bs))
  }

  /** Block-aligned and wholly inside the image. */
  predicate IsBlockOrigin(o: Coord, h: nat, w: nat, bs: nat)
    requires bs > 0
  {
    o.x % bs == 0 && o.y % bs == 0 && o.x + bs <= w && o.y + bs <= h
  }

  /** The visited origins are exactly the block-aligned points whose block fits
      in the image: the partial right and bottom strips are never examined. */
  lemma OriginsExactly(h: nat, w: nat, bs: nat, o: Coord)
    requires bs > 0
    ensures o in Origins(h, w, bs) <==> IsBlockOrigin(o, h, w, bs)
  {
    ScanMembers(Starts(h, bs), Starts(w, bs), o);
    RangeMembers(0, h - bs + 1, bs, o.y);
    RangeMembers(0, w - bs + 1, bs, o.x);
  }

  /** There are (h / bs) * (w / bs) block positions, each visited once. */
  lemma OriginsCount(h: nat, w: nat, bs: nat)
    requires bs > 0
    ensures |Origins(h, w, bs)| == (h / bs) * (w / bs)
    ensures Distinct(Origins(h, w, bs))
  {
    StartsCount(h, bs);
    StartsCount(w, bs);
    ScanLength(Starts(h, bs), Starts(w, bs));
    RangeIncreasing(0, h - bs + 1, bs);
    RangeIncreasing(0, w - bs + 1, bs);
    ScanDistinct(Starts(h, bs), Starts(w, bs));
  }

  // ---------------------------------------------------------------------------
  // Blocks and their descriptors

  /** Python's slice `s[a:b]` for non-negative bounds: clipped to the sequence. */
  function Slice<T>(s: seq<T>, a: nat, b: nat): (t: seq<T>)
    ensures a <= b <= |s| ==> t == s[a..b]
  {
    var lo := if a < |s| then a else |s|;
    var hi := if b < |s| then b else |s|;
    if hi <= lo then [] else s[lo..hi]
  }

  /** `gray[y:y+bs, x:x+bs]`. */
  function Block(g: Grid, o: Coord, bs: nat): (b: Grid)
    ensures o.y + bs <= |g| && (forall r :: o.y <= r < o.y + bs ==> o.x + bs <= |g[r]|) ==>
      IsRect(b, bs, bs) && forall i, j :: 0 <= i < bs && 0 <= j < bs ==> b[i][j] == g[o.y + i][o.x + j]
  {
    var rows := Slice(g, o.y, o.y + bs);
    seq(|rows|, i requires 0 <= i < |rows| => Slice(rows[i], o.x, o.x + bs))
  }

  function Entries(g: Grid, os: seq<Coord>, bs: nat, describe: Grid -> Descriptor): (es: seq<Entry>)
    ensures |es| == |os|
    ensures forall i :: 0 <= i < |os| ==> es[i].at == os[i]
  {
    seq(|os|, i requires 0 <= i < |os| => Entry(describe(Block(g, os[i], bs)), os[i]))
  }

  /** Every whole block of the image with its descriptor, in scan order. */
  function BlockEntries(g: Grid, bs: nat, describe: Grid -> Descriptor): seq<Entry>
    requires bs > 0
  {
    Entries(g, Origins(|g|, Width(g), bs), bs, describe)
  }

  // ---------------------------------------------------------------------------
  // Grouping by descriptor (`defaultdict(list)`, insertion ordered)

  /** How many entries carry key k. */
  function KeyCount(es: seq<Entry>, k: Descriptor): nat
  {
    if |es| == 0 then 0
    else KeyCount(es[..|es| - 1], k) + (if es[|es| - 1].key == k then 1 else 0)
  }

  /** The origins of the entries with key k, in order. */
  function CoordsWith(es: seq<Entry>, k: Descriptor): seq<Coord>
  {
    if |es| == 0 then []
    else CoordsWith(es[..|es| - 1], k) + When(es[|es| - 1].key == k, [es[|es| - 1].at])
  }

  /** The reference definition of a duplicated block: the origins of the entries
      of xs whose key occurs at least twice in all, in order. */
  function SharedIn(xs: seq<Entry>, all: seq<Entry>): seq<Coord>
  {
    if |xs| == 0 then []
    else
      var last := xs[|xs| - 1];
      SharedIn(xs[..|xs| - 1], all) + When(KeyCount(all, last.key) >= 2, [last.at])
  }

  function Shared(es: seq<Entry>): seq<Coord>
  {
    SharedIn(es, es)
  }

  /** `hashes[desc].append((x, y))`: extend the first group with that key, or
      add a new group at the end. */
  function Insert(gs: seq<Group>, e: Entry): (r: seq<Group>)
    ensures |gs| <= |r| <= |gs| + 1
    ensures |r| == |gs| + 1 ==> r[|gs|] == Group(e.key, [e.at])
  {
    if |gs| == 0 then [Group(e.key, [e.at])]
    else if gs[0].key == e.key then [Group(gs[0].key, gs[0].coords + [e.at])] + gs[1..]
    else [gs[0]] + Insert(gs[1..], e)
  }

  /** The grouping dictionary after the scan loop. */
  function GroupBy(es: seq<Entry>): (gs: seq<Group>)
    ensures |gs| <= |es|
  {
    if |es| == 0 then [] else Insert(GroupBy(es[..|es| - 1]), es[|es| - 1])
  }

  /** `hashes.get(k, [])`: the coordinates listed under key k. */
  function FindCoords(gs: seq<Group>, k: Descriptor): seq<Coord>
  {
    if |gs| == 0 then []
    else if gs[0].key == k then gs[0].coords
    else FindCoords(gs[1..], k)
  }

  /** What one group contributes to `duplications`. */
  function DupPart(cs: seq<Coord>): seq<Coord>
  {
    if |cs| > 1 then cs else []
  }

  /** The loop over `hashes.items()` building `duplications`. */
  function Duplications(gs: seq<Group>): seq<Coord>
  {
    if |gs| == 0 then [] else DupPart(gs[0].coords) + Duplications(gs[1..])
  }

  /** Only groups of two or more are added, so `duplications` never holds
      exactly one origin. */
  lemma {:induction false} DuplicationsNeverOne(gs: seq<Group>)
    ensures |Duplications(gs)| != 1
  {
    if |gs| > 0 {
      DuplicationsNeverOne(gs[1..]);
    }
  }

  lemma {:induction false} FindAfterInsert(gs: seq<Group>, e: Entry, k: Descriptor)
    ensures FindCoords(Insert(gs, e), k) ==
      FindCoords(gs, k) + (if e.key == k then [e.at] else [])
  {
    if |gs| > 0 && gs[0].key != e.key {
      FindAfterInsert(gs[1..], e, k);
      assert Insert(gs, e)[1..] == Insert(gs[1..], e);
    } else if |gs| > 0 {
      assert Insert(gs, e)[1..] == gs[1..];
    }
  }

  /** After the scan, key k lists exactly the origins of the blocks keyed k, in scan order. */
  lemma {:induction false} GroupByFinds(es: seq<Entry>, k: Descriptor)
    ensures FindCoords(GroupBy(es), k) == CoordsWith(es, k)
  {
    if |es| > 0 {
      GroupByFinds(es[..|es| - 1], k);
      FindAfterInsert(GroupBy(es[..|es| - 1]), es[|es| - 1], k);
    }
  }

  lemma {:induction false} CoordsWithCount(es: seq<Entry>, k: Descriptor)
    ensures |CoordsWith(es, k)| == KeyCount(es, k)
  {
    if |es| > 0 {
      CoordsWithCount(es[..|es| - 1], k);
    }
  }

  /** `s` when `b` holds, else nothing. */
  function When(b: bool, s: seq<Coord>): seq<Coord>
  {
    if b then s else []
  }

  /** Inserting an entry changes the duplications by exactly what its group
      contributes after the insertion minus what it contributed before. */
  lemma {:induction false} InsertDuplications(gs: seq<Group>, e: Entry)
    ensures multiset(Duplications(Insert(gs, e))) + multiset(DupPart(FindCoords(gs, e.key))) ==
      multiset(Duplications(gs)) + multiset(DupPart(FindCoords(gs, e.key) + [e.at]))
  {
    var ins := Insert(gs, e);
    if |gs| == 0 {
      assert ins == [Group(e.key, [e.at])];
      assert Duplications(ins) == DupPart([e.at]) + Duplications([]);
    } else if gs[0].key == e.key {
      var before, after, rest := DupPart(gs[0].coords), DupPart(gs[0].coords + [e.at]), Duplications(gs[1..]);
      assert ins[0] == Group(gs[0].key, gs[0].coords + [e.at]);
      assert ins[1..] == gs[1..];
      assert Duplications(ins) == after + rest;
      assert FindCoords(gs, e.key) == gs[0].coords;
      assert Duplications(gs) == before + rest;
      assert multiset(after + rest) + multiset(before) == multiset(before + rest) + multiset(after);
    } else {
      var first := DupPart(gs[0].coords);
      var found := FindCoords(gs[1..], e.key);
      InsertDuplications(gs[1..], e);
      assert ins[0] == gs[0];
      assert ins[1..] == Insert(gs[1..], e);
      assert Duplications(ins) == first + Duplications(Insert(gs[1..], e));
      assert FindCoords(gs, e.key) == found;
      assert Duplications(gs) == first + Duplications(gs[1..]);
      var x, y := multiset(DupPart(found)), multiset(DupPart(found + [e.at]));
      var a, b := Duplications(Insert(gs[1..], e)), Duplications(gs[1..]);
      assert multiset(a) + x == multiset(b) + y;
      assert multiset(first + a) == multiset(first) + multiset(a);
      assert multiset(first + b) == multiset(first) + multiset(b);
      MultisetShift(multiset(first), multiset(a), multiset(b), x, y);
    }
  }

  lemma MultisetCancel<T>(a: multiset<T>, b: multiset<T>, x: multiset<T>)
    requires a + x == b + x
    ensures a == b
  {
    forall z ensures a[z] == b[z] {
      assert (a + x)[z] == a[z] + x[z];
      assert (b + x)[z] == b[z] + x[z];
    }
  }

  /** Adding the same p to both sides of a + x == b + y keeps them equal. */
  lemma MultisetShift<T>(p: multiset<T>, a: multiset<T>, b: multiset<T>, x: multiset<T>, y: multiset<T>)
    requires a + x == b + y
    ensures (p + a) + x == (p + b) + y
    ensures (a + p) + x == b + (y + p)
    ensures (a + p) + x == (b + p) + y
  {
    forall z ensures ((p + a) + x)[z] == ((p + b) + y)[z] && ((a + p) + x)[z] == (b + (y + p))[z]
      && ((a + p) + x)[z] == ((b + p) + y)[z] {
      assert (a + x)[z] == (b + y)[z];
    }
  }

  lemma AppendPrefix(es: seq<Entry>, e: Entry)
    ensures (es + [e])[..|es|] == es
    ensures forall k :: KeyCount(es + [e], k) == KeyCount(es, k) + (if e.key == k then 1 else 0)
    ensures forall k :: CoordsWith(es + [e], k) == CoordsWith(es, k) + When(e.key == k, [e.at])
  {
    assert (es + [e])[..|es|] == es;
  }

  /** Raising the count of key k in `all` by one moves the blocks keyed k of xs
      into the shared set exactly when k goes from one occurrence to two. */
  lemma {:induction false} SharedShift(xs: seq<Entry>, all: seq<Entry>, all': seq<Entry>, k: Descriptor)
    requires forall j :: j != k ==> KeyCount(all', j) == KeyCount(all, j)
    requires KeyCount(all', k) == KeyCount(all, k) + 1
    ensures multiset(SharedIn(xs, all')) + multiset(When(KeyCount(all, k) >= 2, CoordsWith(xs, k))) ==
      multiset(SharedIn(xs, all)) + multiset(When(KeyCount(all, k) >= 1, CoordsWith(xs, k)))
  {
    if |xs| > 0 {
      SharedShift(xs[..|xs| - 1], all, all', k);
      SharedShiftStep(xs, all, all', k);
    }
    assert Balanced(xs, all, all', k);
  }

  /** The balance SharedShift maintains, for a prefix of xs. */
  ghost predicate Balanced(xs: seq<Entry>, all: seq<Entry>, all': seq<Entry>, k: Descriptor)
  {
    multiset(SharedIn(xs, all')) + multiset(When(KeyCount(all, k) >= 2, CoordsWith(xs, k))) ==
    multiset(SharedIn(xs, all)) + multiset(When(KeyCount(all, k) >= 1, CoordsWith(xs, k)))
  }

  /** The inductive step of SharedShift: appending one entry keeps the balance. */
  lemma SharedShiftStep(xs: seq<Entry>, all: seq<Entry>, all': seq<Entry>, k: Descriptor)
    requires |xs| > 0
    requires forall j :: j != k ==> KeyCount(all', j) == KeyCount(all, j)
    requires KeyCount(all', k) == KeyCount(all, k) + 1
    requires Balanced(xs[..|xs| - 1], all, all', k)
    ensures Balanced(xs, all, all', k)
  {
    var x := xs[|xs| - 1];
    if x.key != k {
      assert KeyCount(all', x.key) == KeyCount(all, x.key);
      StepOtherKey(xs, all, all', k);
    } else {
      StepSameKey(xs, all, all', k);
    }
  }

  lemma StepOtherKey(xs: seq<Entry>, all: seq<Entry>, all': seq<Entry>, k: Descriptor)
    requires |xs| > 0 && xs[|xs| - 1].key != k
    requires KeyCount(all', xs[|xs| - 1].key) == KeyCount(all, xs[|xs| - 1].key)
    requires Balanced(xs[..|xs| - 1], all, all', k)
    ensures Balanced(xs, all, all', k)
  {
    var init, x := xs[..|xs| - 1], xs[|xs| - 1];
    var n := KeyCount(all, k);
    var a', a, cs := SharedIn(init, all'), SharedIn(init, all), CoordsWith(init, k);
    var t := When(KeyCount(all, x.key) >= 2, [x.at]);
    assert SharedIn(xs, all') == a' + t;
    assert SharedIn(xs, all) == a + t;
    assert CoordsWith(xs, k) == cs;
    var w2, w1 := multiset(When(n >= 2, cs)), multiset(When(n >= 1, cs));
    assert multiset(a') + w2 == multiset(a) + w1;
    Balance(multiset(a'), multiset(a), w2, w1, multiset(t), multiset(t), w2, w1);
    assert multiset(a' + t) == multiset(a') + multiset(t);
    assert multiset(a + t) == multiset(a) + multiset(t);
  }

  lemma StepSameKey(xs: seq<Entry>, all: seq<Entry>, all': seq<Entry>, k: Descriptor)
    requires |xs| > 0 && xs[|xs| - 1].key == k
    requires KeyCount(all', k) == KeyCount(all, k) + 1
    requires Balanced(xs[..|xs| - 1], all, all', k)
    ensures Balanced(xs, all, all', k)
  {
    var init, x := xs[..|xs| - 1], xs[|xs| - 1];
    var n := KeyCount(all, k);
    var a', a, cs := SharedIn(init, all'), SharedIn(init, all), CoordsWith(init, k);
    var t', t := When(n + 1 >= 2, [x.at]), When(n >= 2, [x.at]);
    assert SharedIn(xs, all') == a' + t';
    assert SharedIn(xs, all) == a + t;
    var c := cs + [x.at];
    assert CoordsWith(xs, k) == c;
    var w2, w1 := multiset(When(n >= 2, cs)), multiset(When(n >= 1, cs));
    var v2, v1 := multiset(When(n >= 2, c)), multiset(When(n >= 1, c));
    var o := multiset{x.at};
    assert multiset(c) == multiset(cs) + o;
    if n == 0 {
      assert w1 + multiset(t') + v2 == w2 + multiset(t) + v1;
    } else if n == 1 {
      assert multiset(t') == o && multiset(t) == multiset{};
      assert w2 == multiset{} && v2 == multiset{} && w1 == multiset(cs) && v1 == multiset(cs) + o;
      assert w1 + multiset(t') + v2 == w2 + multiset(t) + v1;
    } else {
      assert t' == t && w2 == w1 && v2 == v1;
    }
    Balance(multiset(a'), multiset(a), w2, w1, multiset(t'), multiset(t), v2, v1);
    assert multiset(a' + t') == multiset(a') + multiset(t');
    assert multiset(a + t) == multiset(a) + multiset(t);
  }

  /** If a' + w2 == a + w1, adding t' and v2 on the left and t and v1 on the
      right keeps the balance whenever w1 + t' + v2 == w2 + t + v1. */
  lemma Balance<T>(a': multiset<T>, a: multiset<T>, w2: multiset<T>, w1: multiset<T>,
                   t': multiset<T>, t: multiset<T>, v2: multiset<T>, v1: multiset<T>)
    requires a' + w2 == a + w1
    requires w1 + t' + v2 == w2 + t + v1
    ensures (a' + t') + v2 == (a + t) + v1
  {
    forall z ensures ((a' + t') + v2)[z] == ((a + t) + v1)[z] {
      assert (a' + w2)[z] == (a + w1)[z];
      assert (w1 + t' + v2)[z] == (w2 + t + v1)[z];
    }
  }

  lemma SharedAppend(es: seq<Entry>, e: Entry)
    ensures multiset(Shared(es + [e])) + multiset(DupPart(CoordsWith(es, e.key))) ==
      multiset(Shared(es)) + multiset(DupPart(CoordsWith(es, e.key) + [e.at]))
  {
    var es' := es + [e];
    var k := e.key;
    var n := KeyCount(es, k);
    var cs := CoordsWith(es, k);
    AppendPrefix(es, e);
    assert Shared(es') == SharedIn(es, es') + When(KeyCount(es', k) >= 2, [e.at]);
    SharedShift(es, es, es', k);
    CoordsWithCount(es, k);
    assert multiset(SharedIn(es, es')) + multiset(When(n >= 2, cs)) ==
      multiset(Shared(es)) + multiset(When(n >= 1, cs));
    assert DupPart(cs) == When(n >= 2, cs);
    assert DupPart(cs + [e.at]) == When(n >= 1, cs + [e.at]);
    var w := multiset(When(n >= 1, [e.at]));
    assert multiset(Shared(es')) == multiset(SharedIn(es, es')) + w;
    assert multiset(When(n >= 1, cs + [e.at])) == multiset(When(n >= 1, cs)) + w;
    MultisetShift(w, multiset(SharedIn(es, es')), multiset(Shared(es)),
      multiset(When(n >= 2, cs)), multiset(When(n >= 1, cs)));
  }

  /** The duplications hold exactly the blocks whose descriptor is shared with
      another block (as a multiset: same blocks, same multiplicities). */
  lemma {:induction false} DuplicationsAreShared(es: seq<Entry>)
    ensures multiset(Duplications(GroupBy(es))) == multiset(Shared(es))
  {
    if |es| > 0 {
      var init, e := es[..|es| - 1], es[|es| - 1];
      assert es == init + [e];
      DuplicationsAreShared(init);
      assert GroupBy(es) == Insert(GroupBy(init), e);
      InsertDuplications(GroupBy(init), e);
      GroupByFinds(init, e.key);
      SharedAppend(init, e);
      var x := multiset(DupPart(CoordsWith(init, e.key)));
      var y := multiset(DupPart(CoordsWith(init, e.key) + [e.at]));
      assert multiset(Duplications(GroupBy(es))) + x == multiset(Shared(init)) + y;
      assert multiset(Shared(es)) + x == multiset(Shared(init)) + y;
      MultisetCancel(multiset(Duplications(GroupBy(es))), multiset(Shared(es)), x);
    }
  }

  lemma {:induction false} DuplicationsConcat(a: seq<Group>, b: seq<Group>)
    ensures Duplications(a + b) == Duplications(a) + Duplications(b)
  {
    if |a| > 0 {
      DuplicationsConcat(a[1..], b);
      assert (a + b)[0] == a[0];
      assert (a + b)[1..] == a[1..] + b;
    } else {
      assert a + b == b;
    }
  }

  /** Taking one group out of the middle removes exactly its duplicated blocks. */
  lemma DuplicationsSplice(p: seq<Group>, g: Group, q: seq<Group>)
    ensures multiset(Duplications(p + [g] + q)) ==
      multiset(DupPart(g.coords)) + multiset(Duplications(p + q))
  {
    DuplicationsConcat(p, [g]);
    DuplicationsConcat(p + [g], q);
    DuplicationsConcat(p, q);
    DuplicationsOne(g);
    MultisetMiddle(Duplications(p), DupPart(g.coords), Duplications(q));
  }

  lemma DuplicationsOne(g: Group)
    ensures Duplications([g]) == DupPart(g.coords)
  {
    assert [g][1..] == [];
  }

  lemma MultisetMiddle<T>(a: seq<T>, b: seq<T>, c: seq<T>)
    ensures multiset(a + b + c) == multiset(b) + multiset(a + c)
  {
    assert multiset(a + b + c) == multiset(a) + multiset(b) + multiset(c);
    assert multiset(a + c) == multiset(a) + multiset(c);
    forall z ensures multiset(a + b + c)[z] == (multiset(b) + multiset(a + c))[z] {
    }
  }

  /** Removing one occurrence of the same element from two equal multisets of
      sequences leaves equal multisets. */
  lemma RemoveFirstAndAt<T>(s: seq<T>, s': seq<T>, j: int)
    requires |s| > 0 && 0 <= j < |s'| && s'[j] == s[0]
    requires multiset(s) == multiset(s')
    ensures multiset(s[1..]) == multiset(s'[..j] + s'[j + 1..])
  {
    var rest' := s'[..j] + s'[j + 1..];
    var m := multiset{s[0]};
    assert s' == s'[..j] + [s'[j]] + s'[j + 1..];
    assert s == [s[0]] + s[1..];
    assert multiset(s') == multiset(rest') + m;
    assert multiset(s) == multiset(s[1..]) + m;
    MultisetCancel(multiset(rest'), multiset(s[1..]), m);
  }

  /** Visiting the groups in any other order yields the same duplicated blocks. */
  lemma {:induction false} DuplicationsOrderFree(gs: seq<Group>, gs': seq<Group>)
    requires multiset(gs) == multiset(gs')
    ensures multiset(Duplications(gs)) == multiset(Duplications(gs'))
    decreases |gs|
  {
    if |gs| == 0 {
      assert |gs'| == |multiset(gs')| == 0;
    } else {
      var g := gs[0];
      assert g in multiset(gs');
      var j :| 0 <= j < |gs'| && gs'[j] == g;
      var p, q := gs'[..j], gs'[j + 1..];
      assert gs' == p + [g] + q;
      RemoveFirstAndAt(gs, gs', j);
      DuplicationsOrderFree(gs[1..], p + q);
      DuplicationsSplice(p, g, q);
      assert Duplications(gs) == DupPart(g.coords) + Duplications(gs[1..]);
    }
  }

  lemma {:induction false} KeyCountPositive(xs: seq<Entry>, i: int)
    requires 0 <= i < |xs|
    ensures KeyCount(xs, xs[i].key) >= 1
  {
    if i < |xs| - 1 {
      KeyCountPositive(xs[..|xs| - 1], i);
    }
  }

  /** Two different positions with the same key make that key occur twice. */
  lemma {:induction false} KeyCountTwo(xs: seq<Entry>, i: int, j: int)
    requires 0 <= i < j < |xs| && xs[i].key == xs[j].key
    ensures KeyCount(xs, xs[i].key) >= 2
  {
    if j < |xs| - 1 {
      KeyCountTwo(xs[..|xs| - 1], i, j);
    } else {
      KeyCountPositive(xs[..|xs| - 1], i);
    }
  }

  /** A block is in the shared list exactly when some scanned entry at that
      origin has a key occurring at least twice. */
  lemma {:induction false} SharedMembers(xs: seq<Entry>, all: seq<Entry>, o: Coord)
    ensures o in SharedIn(xs, all) <==>
      exists i :: 0 <= i < |xs| && xs[i].at == o && KeyCount(all, xs[i].key) >= 2
  {
    if |xs| > 0 {
      var init := xs[..|xs| - 1];
      SharedMembers(init, all, o);
      if exists i :: 0 <= i < |init| && init[i].at == o && KeyCount(all, init[i].key) >= 2 {
        var i :| 0 <= i < |init| && init[i].at == o && KeyCount(all, init[i].key) >= 2;
        assert xs[i] == init[i];
      }
      if exists i :: 0 <= i < |xs| && xs[i].at == o && KeyCount(all, xs[i].key) >= 2 {
        var i :| 0 <= i < |xs| && xs[i].at == o && KeyCount(all, xs[i].key) >= 2;
        if i < |init| {
          assert init[i] == xs[i];
        }
      }
    }
  }

  lemma {:induction false} SharedAtLeast(xs: seq<Entry>, all: seq<Entry>, k: Descriptor)
    requires KeyCount(all, k) >= 2
    ensures |SharedIn(xs, all)| >= KeyCount(xs, k)
  {
    if |xs| > 0 {
      SharedAtLeast(xs[..|xs| - 1], all, k);
    }
  }

  /** A lone duplicated block is impossible: a shared key is shared by two blocks. */
  lemma SharedNeverOne(es: seq<Entry>)
    ensures |Shared(es)| != 1
  {
    if |Shared(es)| > 0 {
      var o := Shared(es)[0];
      SharedMembers(es, es, o);
      var i :| 0 <= i < |es| && es[i].at == o && KeyCount(es, es[i].key) >= 2;
      SharedAtLeast(es, es, es[i].key);
    }
  }

  lemma {:induction false} SharedLength(xs: seq<Entry>, all: seq<Entry>)
    ensures |SharedIn(xs, all)| <= |xs|
  {
    if |xs| > 0 {
      SharedLength(xs[..|xs| - 1], all);
    }
  }

  // ---------------------------------------------------------------------------
  // The suspicion mask

  /** `np.zeros_like(gray)`. */
  function Zeros(h: nat, w: nat): (z: Grid)
    ensures IsRect(z, h, w)
    ensures forall r, c :: 0 <= r < h && 0 <= c < w ==> z[r][c] == 0
  {
    seq(h, r => seq(w, c => 0))
  }

  predicate Covers(o: Coord, bs: nat, r: int, c: int)
  {
    o.y <= r < o.y + bs && o.x <= c < o.x + bs
  }

  ghost predicate CoveredBy(os: seq<Coord>, bs: nat, r: int, c: int)
  {
    exists o :: o in os && Covers(o, bs, r, c)
  }

  /** `mask[y:y+bs, x:x+bs] = 255` (clipped to the mask, like numpy slicing). */
  function Paint(m: Grid, o: Coord, bs: nat): (m': Grid)
    ensures |m'| == |m|
    ensures forall r :: 0 <= r < |m| ==> |m'[r]| == |m[r]|
  {
    seq(|m|, r requires 0 <= r < |m| =>
      seq(|m[r]|, c requires 0 <= c < |m[r]| => if Covers(o, bs, r, c) then 255 else m[r][c]))
  }

  function PaintAll(m: Grid, os: seq<Coord>, bs: nat): (m': Grid)
    ensures |m'| == |m|
    ensures forall r :: 0 <= r < |m| ==> |m'[r]| == |m[r]|
    decreases |os|
  {
    if |os| == 0 then m else PaintAll(Paint(m, os[0], bs), os[1..], bs)
  }

  /** After painting, a cell is 255 if any painted block covers it, and is
      otherwise untouched. */
  lemma {:induction false} PaintAllAt(m: Grid, os: seq<Coord>, bs: nat, r: int, c: int)
    requires 0 <= r < |m| && 0 <= c < |m[r]|
    ensures PaintAll(m, os, bs)[r][c] == if CoveredBy(os, bs, r, c) then 255 else m[r][c]
    decreases |os|
  {
    if |os| > 0 {
      PaintAllAt(Paint(m, os[0], bs), os[1..], bs, r, c);
      assert os == [os[0]] + os[1..];
      if CoveredBy(os[1..], bs, r, c) {
        var o :| o in os[1..] && Covers(o, bs, r, c);
        assert o in os;
      }
    }
  }

  // ---------------------------------------------------------------------------
  // The analyzer

  /** `min(1.0, n / 20.0)`. */
  function Confidence(n: nat): (conf: real)
    ensures 0.0 <= conf <= 1.0
    ensures n >= Saturation ==> conf == 1.0
    ensures n < Saturation ==> conf < 1.0
    ensures n == 0 <==> conf == 0.0
  {
    var ramp := n as real / Saturation as real;
    if 1.0 <= ramp then 1.0 else ramp
  }

  /** More duplicated blocks never lower the score. */
  lemma ConfidenceMonotone(n: nat, n': nat)
    requires n <= n'
    ensures Confidence(n) <= Confidence(n')
  {
  }

  /** `analyze` from the grayscale plane on: scan, group, mark, count, score. */
  function Detect(gray: Grid, bs: nat, describe: Grid -> Descriptor): (res: CloningResult)
    requires bs > 0
    requires Rectangular(gray)
    ensures IsRect(res.suspiciousMask, |gray|, Width(gray))
    ensures 0.0 <= res.confidence <= 1.0
  {
    var dups := Duplications(GroupBy(BlockEntries(gray, bs, describe)));
    CloningResult(PaintAll(Zeros(|gray|, Width(gray)), dups, bs), |dups|, Confidence(|dups|))
  }

  /** `CloningAnalyzer(block_size=bs).analyze(image)`. */
  function Analyze(image: Image, toGray: Pixel -> int, bs: nat, describe: Grid -> Descriptor): (res: CloningResult)
    requires bs > 0
    requires Rectangular(image)
    ensures IsRect(res.suspiciousMask, |image|, Width(image))
    ensures 0.0 <= res.confidence <= 1.0
  {
    Detect(MapPixels(image, toGray), bs, describe)
  }

  /** The result dictionary. */
  function ToDict(res: CloningResult): (d: Dict)
    ensures "confidence" in d && d["confidence"] == Real(res.confidence)
    ensures "suspicious_mask" in d && d["suspicious_mask"] == Plane(res.suspiciousMask)
    ensures "cloning_count" in d && d["cloning_count"] == Int(res.cloningCount)
  {
    map["suspicious_mask" := Plane(res.suspiciousMask),
        "cloning_count" := Int(res.cloningCount),
        "confidence" := Real(res.confidence)]
  }

  // ---------------------------------------------------------------------------
  // Properties of the analyzer

  /** The count is the number of blocks whose descriptor another block shares;
      it is never 1 and never exceeds the number of whole blocks. */
  lemma CountIsShared(gray: Grid, bs: nat, describe: Grid -> Descriptor)
    requires bs > 0
    requires Rectangular(gray)
    ensures var es := BlockEntries(gray, bs, describe);
      Detect(gray, bs, describe).cloningCount == |Shared(es)|
    ensures Detect(gray, bs, describe).cloningCount != 1
    ensures Detect(gray, bs, describe).cloningCount <= (|gray| / bs) * (Width(gray) / bs)
  {
    var es := BlockEntries(gray, bs, describe);
    DuplicationsAreShared(es);
    assert |Duplications(GroupBy(es))| == |multiset(Duplications(GroupBy(es)))|;
    SharedNeverOne(es);
    SharedLength(es, es);
    OriginsCount(|gray|, Width(gray), bs);
  }

  /** Visiting the descriptor groups in any order gives the same count and mask. */
  lemma GroupOrderIrrelevant(gray: Grid, bs: nat, describe: Grid -> Descriptor, gs: seq<Group>)
    requires bs > 0
    requires Rectangular(gray)
    requires multiset(gs) == multiset(GroupBy(BlockEntries(gray, bs, describe)))
    ensures var res := Detect(gray, bs, describe);
      |Duplications(gs)| == res.cloningCount &&
      PaintAll(Zeros(|gray|, Width(gray)), Duplications(gs), bs) == res.suspiciousMask
  {
    var dups := Duplications(GroupBy(BlockEntries(gray, bs, describe)));
    var dups' := Duplications(gs);
    DuplicationsOrderFree(gs, GroupBy(BlockEntries(gray, bs, describe)));
    assert |dups'| == |multiset(dups')| == |multiset(dups)| == |dups|;
    var z := Zeros(|gray|, Width(gray));
    var a, b := PaintAll(z, dups', bs), PaintAll(z, dups, bs);
    forall r | 0 <= r < |a|
      ensures a[r] == b[r]
    {
      forall c | 0 <= c < |a[r]|
        ensures a[r][c] == b[r][c]
      {
        PaintAllAt(z, dups', bs, r, c);
        PaintAllAt(z, dups, bs, r, c);
        if CoveredBy(dups', bs, r, c) {
          var o :| o in dups' && Covers(o, bs, r, c);
          assert o in multiset(dups');
        }
        if CoveredBy(dups, bs, r, c) {
          var o :| o in dups && Covers(o, bs, r, c);
          assert o in multiset(dups);
        }
      }
    }
  }

  /** Every shared block is one of the scanned whole blocks. */
  lemma SharedAreOrigins(gray: Grid, bs: nat, describe: Grid -> Descriptor, o: Coord)
    requires bs > 0
    requires o in Shared(BlockEntries(gray, bs, describe))
    ensures IsBlockOrigin(o, |gray|, Width(gray), bs)
  {
    var es := BlockEntries(gray, bs, describe);
    SharedMembers(es, es, o);
    var i :| 0 <= i < |es| && es[i].at == o && KeyCount(es, es[i].key) >= 2;
    OriginsExactly(|gray|, Width(gray), bs, o);
  }

  /** One cell of the suspicious-region mask. */
  function MaskAt(gray: Grid, bs: nat, describe: Grid -> Descriptor, r: int, c: int): int
    requires bs > 0
    requires Rectangular(gray)
    requires 0 <= r < |gray| && 0 <= c < Width(gray)
  {
    Detect(gray, bs, describe).suspiciousMask[r][c]
  }

  /** A mask cell is 255 exactly when the whole block containing it is shared,
      and 0 otherwise; cells of the partial edge strips stay 0. */
  lemma MaskIsSharedBlocks(gray: Grid, bs: nat, describe: Grid -> Descriptor, r: int, c: int)
    requires bs > 0
    requires Rectangular(gray)
    requires 0 <= r < |gray| && 0 <= c < Width(gray)
    ensures MaskAt(gray, bs, describe, r, c) == 255 <==>
      AlignedAt(r, c, bs) in Shared(BlockEntries(gray, bs, describe))
    ensures MaskAt(gray, bs, describe, r, c) == 0 || MaskAt(gray, bs, describe, r, c) == 255
    ensures var o := AlignedAt(r, c, bs);
      o.y + bs > |gray| || o.x + bs > Width(gray) ==> MaskAt(gray, bs, describe, r, c) == 0
  {
    var es := BlockEntries(gray, bs, describe);
    var dups := Duplications(GroupBy(es));
    var aligned := AlignedAt(r, c, bs);
    PaintAllAt(Zeros(|gray|, Width(gray)), dups, bs, r, c);
    if CoveredBy(dups, bs, r, c) {
      CoveringBlockIsAligned(gray, bs, describe, r, c);
    }
    if aligned in Shared(es) {
      AlignedBlockCovers(gray, bs, describe, r, c);
    }
  }

  /** A duplicated block covering (r, c) is the whole block aligned with it. */
  lemma CoveringBlockIsAligned(gray: Grid, bs: nat, describe: Grid -> Descriptor, r: nat, c: nat)
    requires bs > 0
    requires CoveredBy(Duplications(GroupBy(BlockEntries(gray, bs, describe))), bs, r, c)
    ensures var aligned := AlignedAt(r, c, bs);
      aligned in Shared(BlockEntries(gray, bs, describe)) &&
      IsBlockOrigin(aligned, |gray|, Width(gray), bs)
  {
    var es := BlockEntries(gray, bs, describe);
    var o :| o in Duplications(GroupBy(es)) && Covers(o, bs, r, c);
    DuplicatedIsShared(es, o);
    SharedAreOrigins(gray, bs, describe, o);
    AlignedStart(o.y, r, bs);
    AlignedStart(o.x, c, bs);
  }

  /** An origin in `duplications` is a shared block. */
  lemma DuplicatedIsShared(es: seq<Entry>, o: Coord)
    requires o in Duplications(GroupBy(es))
    ensures o in Shared(es)
  {
    DuplicationsAreShared(es);
    assert o in multiset(Duplications(GroupBy(es)));
  }

  /** The whole block aligned with (r, c), when shared, covers it. */
  lemma AlignedBlockCovers(gray: Grid, bs: nat, describe: Grid -> Descriptor, r: nat, c: nat)
    requires bs > 0
    requires AlignedAt(r, c, bs) in Shared(BlockEntries(gray, bs, describe))
    ensures CoveredBy(Duplications(GroupBy(BlockEntries(gray, bs, describe))), bs, r, c)
  {
    var es := BlockEntries(gray, bs, describe);
    var aligned := AlignedAt(r, c, bs);
    DuplicationsAreShared(es);
    assert aligned in multiset(Duplications(GroupBy(es)));
    assert Covers(aligned, bs, r, c);
  }

  /** An image smaller than one block in either direction has no blocks: zero
      count, zero score, all-zero mask. */
  lemma SmallImageHasNoBlocks(gray: Grid, bs: nat, describe: Grid -> Descriptor)
    requires bs > 0
    requires Rectangular(gray)
    requires |gray| < bs || Width(gray) < bs
    ensures var res := Detect(gray, bs, describe);
      res.cloningCount == 0 && res.confidence == 0.0 &&
      forall r, c :: 0 <= r < |gray| && 0 <= c < Width(gray) ==> res.suspiciousMask[r][c] == 0
  {
    OriginsCount(|gray|, Width(gray), bs);
    assert |gray| / bs == 0 || Width(gray) / bs == 0 by {
      if |gray| < bs { DivModUnique(|gray|, bs, 0, |gray|); }
      else { DivModUnique(Width(gray), bs, 0, Width(gray)); }
    }
    CountIsShared(gray, bs, describe);
    forall r, c | 0 <= r < |gray| && 0 <= c < Width(gray)
      ensures Detect(gray, bs, describe).suspiciousMask[r][c] == 0
    {
      MaskIsSharedBlocks(gray, bs, describe, r, c);
    }
  }

  /** Two different whole blocks with identical pixels get the same descriptor,
      so both are counted and every cell of both is marked 255. */
  lemma IdenticalBlocksFlagged(gray: Grid, bs: nat, describe: Grid -> Descriptor, o1: Coord, o2: Coord)
    requires bs > 0
    requires Rectangular(gray)
    requires IsBlockOrigin(o1, |gray|, Width(gray), bs) && IsBlockOrigin(o2, |gray|, Width(gray), bs)
    requires o1 != o2 && Block(gray, o1, bs) == Block(gray, o2, bs)
    ensures var es := BlockEntries(gray, bs, describe);
      o1 in Shared(es) && o2 in Shared(es)
    ensures Detect(gray, bs, describe).cloningCount >= 2
    ensures forall r, c :: o1.y <= r < o1.y + bs && o1.x <= c < o1.x + bs ==>
      Detect(gray, bs, describe).suspiciousMask[r][c] == 255
    ensures forall r, c :: o2.y <= r < o2.y + bs && o2.x <= c < o2.x + bs ==>
      Detect(gray, bs, describe).suspiciousMask[r][c] == 255
  {
    var es := BlockEntries(gray, bs, describe);
    IdenticalBlocksShared(gray, bs, describe, o1, o2);
    CountIsShared(gray, bs, describe);
    SharedNeverOne(es);
    assert |Shared(es)| >= 1 by { assert o1 in Shared(es); }
    forall r, c | o1.y <= r < o1.y + bs && o1.x <= c < o1.x + bs
      ensures Detect(gray, bs, describe).suspiciousMask[r][c] == 255
    {
      SharedBlockPainted(gray, bs, describe, o1, r, c);
    }
    forall r, c | o2.y <= r < o2.y + bs && o2.x <= c < o2.x + bs
      ensures Detect(gray, bs, describe).suspiciousMask[r][c] == 255
    {
      SharedBlockPainted(gray, bs, describe, o2, r, c);
    }
  }

  lemma IdenticalBlocksShared(gray: Grid, bs: nat, describe: Grid -> Descriptor, o1: Coord, o2: Coord)
    requires bs > 0
    requires Rectangular(gray)
    requires IsBlockOrigin(o1, |gray|, Width(gray), bs) && IsBlockOrigin(o2, |gray|, Width(gray), bs)
    requires o1 != o2 && Block(gray, o1, bs) == Block(gray, o2, bs)
    ensures var es := BlockEntries(gray, bs, describe);
      o1 in Shared(es) && o2 in Shared(es)
  {
    var os := Origins(|gray|, Width(gray), bs);
    var es := BlockEntries(gray, bs, describe);
    OriginsExactly(|gray|, Width(gray), bs, o1);
    OriginsExactly(|gray|, Width(gray), bs, o2);
    var i :| 0 <= i < |os| && os[i] == o1;
    var j :| 0 <= j < |os| && os[j] == o2;
    assert es[i].key == es[j].key;
    if i < j { KeyCountTwo(es, i, j); } else { KeyCountTwo(es, j, i); }
    SharedMembers(es, es, o1);
    SharedMembers(es, es, o2);
  }

  /** Every cell of a shared whole block is marked in the mask. */
  lemma SharedBlockPainted(gray: Grid, bs: nat, describe: Grid -> Descriptor, o: Coord, r: int, c: int)
    requires bs > 0
    requires Rectangular(gray)
    requires IsBlockOrigin(o, |gray|, Width(gray), bs)
    requires o in Shared(BlockEntries(gray, bs, describe))
    requires o.y <= r < o.y + bs && o.x <= c < o.x + bs
    ensures Detect(gray, bs, describe).suspiciousMask[r][c] == 255
  {
    AlignedStart(o.y, r, bs);
    AlignedStart(o.x, c, bs);
    assert AlignedAt(r, c, bs) == o;
    MaskIsSharedBlocks(gray, bs, describe, r, c);
  }
}
