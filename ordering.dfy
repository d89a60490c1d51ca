/** Ordering and shifting of cell addresses: the `sortDim` comparator, the
    stable sort the registry applies with it, order-preserving filters, and
    the map that results from shifting a set of cells by one offset. */
module Ordering {
  import opened Address

  /** `Cell.sortDim(axis, reverse)` on the two cells' addresses: 0 when they
      are level on `axis`, -1 when `x` comes first in the requested order. */
  function SortDim(axis: Direction, reverse: bool, x: CellAddress, y: CellAddress): (r: int)
    ensures r == 0 <==> Get(x, axis) == Get(y, axis)
    ensures r == -1 <==> Get(x, axis) != Get(y, axis) && ((Get(x, axis) < Get(y, axis)) != reverse)
    ensures r == 1 <==> Get(x, axis) != Get(y, axis) && ((Get(x, axis) < Get(y, axis)) == reverse)
  {
    if Get(x, axis) == Get(y, axis) then 0
    else if (Get(x, axis) < Get(y, axis)) != reverse then -1 else 1
  }

  /** The comparator is antisymmetric, and `reverse` flips its sign. */
  lemma SortDimAntisymmetric(axis: Direction, reverse: bool, x: CellAddress, y: CellAddress)
    ensures SortDim(axis, reverse, x, y) == -SortDim(axis, reverse, y, x)
    ensures SortDim(axis, !reverse, x, y) == -SortDim(axis, reverse, x, y)
  {
  }

  /** `x` may stand before `y`: ascending, or descending when `reverse`. */
  predicate Le(axis: Direction, reverse: bool, x: CellAddress, y: CellAddress) {
    if reverse then Get(x, axis) >= Get(y, axis) else Get(x, axis) <= Get(y, axis)
  }

  lemma SortDimLe(axis: Direction, reverse: bool, x: CellAddress, y: CellAddress)
    ensures SortDim(axis, reverse, x, y) <= 0 <==> Le(axis, reverse, x, y)
  {
  }

  predicate Sorted(s: seq<CellAddress>, axis: Direction, reverse: bool) {
    forall i, j :: 0 <= i < j < |s| ==> Le(axis, reverse, s[i], s[j])
  }

  predicate NoDup<T(==)>(s: seq<T>) {
    forall i, j :: 0 <= i < j < |s| ==> s[i] != s[j]
  }

  /** Insert `x` after every element the comparator does not put after it,
      so equal elements keep their order. */
  function Insert(s: seq<CellAddress>, x: CellAddress, axis: Direction, reverse: bool): (t: seq<CellAddress>)
    decreases |s|
  {
    if s == [] then [x]
    else if SortDim(axis, reverse, s[|s| - 1], x) <= 0 then s + [x]
    else Insert(s[..|s| - 1], x, axis, reverse) + [s[|s| - 1]]
  }

  /** A stable sort by the comparator, as `Array.prototype.sort` performs it. */
  function SortBy(s: seq<CellAddress>, axis: Direction, reverse: bool): seq<CellAddress>
    decreases |s|
  {
    if s == [] then [] else Insert(SortBy(s[..|s| - 1], axis, reverse), s[|s| - 1], axis, reverse)
  }

  lemma {:induction false} InsertMultiset(s: seq<CellAddress>, x: CellAddress, axis: Direction, reverse: bool)
    ensures multiset(Insert(s, x, axis, reverse)) == multiset(s) + multiset{x}
    decreases |s|
  {
    if s != [] && SortDim(axis, reverse, s[|s| - 1], x) > 0 {
      var p := s[..|s| - 1];
      assert s == p + [s[|s| - 1]];
      InsertMultiset(p, x, axis, reverse);
    }
  }

  /** Every element of `q` may stand before `last`. */
  lemma AllBefore(q: seq<CellAddress>, p: seq<CellAddress>, x: CellAddress, last: CellAddress, axis: Direction, reverse: bool)
    requires multiset(q) == multiset(p) + multiset{x}
    requires forall i :: 0 <= i < |p| ==> Le(axis, reverse, p[i], last)
    requires Le(axis, reverse, x, last)
    ensures forall i :: 0 <= i < |q| ==> Le(axis, reverse, q[i], last)
  {
    forall i | 0 <= i < |q| ensures Le(axis, reverse, q[i], last) {
      assert q[i] in multiset(q);
      if q[i] != x {
        assert q[i] in multiset(p);
        assert q[i] in p;
      }
    }
  }

  lemma {:induction false} InsertFacts(s: seq<CellAddress>, x: CellAddress, axis: Direction, reverse: bool)
    requires Sorted(s, axis, reverse)
    ensures Sorted(Insert(s, x, axis, reverse), axis, reverse)
    ensures multiset(Insert(s, x, axis, reverse)) == multiset(s) + multiset{x}
    decreases |s|
  {
    InsertMultiset(s, x, axis, reverse);
    if s != [] {
      var p, last := s[..|s| - 1], s[|s| - 1];
      SortDimLe(axis, reverse, last, x);
      if SortDim(axis, reverse, last, x) > 0 {
        InsertFacts(p, x, axis, reverse);
        var q := Insert(p, x, axis, reverse);
        assert Le(axis, reverse, x, last);
        AllBefore(q, p, x, last, axis, reverse);
        var r := q + [last];
        assert Insert(s, x, axis, reverse) == r;
        forall i, j | 0 <= i < j < |r| ensures Le(axis, reverse, r[i], r[j]) {
          if j < |q| { assert r[i] == q[i] && r[j] == q[j]; } else { assert r[i] == q[i]; }
        }
      }
    }
  }

  /** The sort orders its input and keeps exactly its elements. */
  lemma {:induction false} SortByFacts(s: seq<CellAddress>, axis: Direction, reverse: bool)
    ensures Sorted(SortBy(s, axis, reverse), axis, reverse)
    ensures multiset(SortBy(s, axis, reverse)) == multiset(s)
    decreases |s|
  {
    if s != [] {
      SortByFacts(s[..|s| - 1], axis, reverse);
      InsertFacts(SortBy(s[..|s| - 1], axis, reverse), s[|s| - 1], axis, reverse);
      assert s == s[..|s| - 1] + [s[|s| - 1]];
    }
  }

  lemma MultisetNoDup<T>(s: seq<T>, t: seq<T>)
    requires NoDup(s) && multiset(s) == multiset(t)
    ensures NoDup(t) && (forall x :: x in s <==> x in t)
  {
    forall x ensures x in s <==> x in t {
      assert x in s <==> x in multiset(s);
      assert x in t <==> x in multiset(t);
    }
    MultisetNoDupCount(s);
    forall i, j | 0 <= i < j < |t| ensures t[i] != t[j] {
      if t[i] == t[j] {
        TwoCopies(t, i, j);
        assert false;
      }
    }
  }

  lemma MultisetNoDupCount<T>(s: seq<T>)
    requires NoDup(s)
    ensures forall x :: multiset(s)[x] <= 1
    decreases |s|
  {
    if s != [] {
      var p := s[..|s| - 1];
      assert s == p + [s[|s| - 1]];
      MultisetNoDupCount(p);
      assert s[|s| - 1] !in p;
    }
  }

  lemma TwoCopies<T>(t: seq<T>, i: int, j: int)
    requires 0 <= i < j < |t| && t[i] == t[j]
    ensures multiset(t)[t[i]] >= 2
  {
    assert t == t[..i] + [t[i]] + t[i + 1..j] + [t[j]] + t[j + 1..];
  }

  /** The elements of `s` that satisfy `p`, in their order. */
  function Filter(s: seq<CellAddress>, p: CellAddress -> bool): (t: seq<CellAddress>)
    ensures forall x :: x in t <==> x in s && p(x)
    ensures NoDup(s) ==> NoDup(t)
    decreases |s|
  {
    if s == [] then []
    else
      var rest := Filter(s[..|s| - 1], p);
      assert forall x :: x in s <==> x in s[..|s| - 1] || x == s[|s| - 1];
      if p(s[|s| - 1]) then rest + [s[|s| - 1]] else rest
  }

  // -------------------------------------------------------------------------
  // Shifting a set of cells

  /** The addresses listed in `s`. */
  function Elems(s: seq<CellAddress>): (e: set<CellAddress>)
    ensures forall a :: a in e <==> a in s
  {
    set a | a in s
  }

  /** One more element listed. */
  lemma ElemsPrefix(s: seq<CellAddress>, i: int)
    requires 0 <= i < |s|
    ensures Elems(s[..i + 1]) == Elems(s[..i]) + {s[i]}
  {
    assert s[..i + 1] == s[..i] + [s[i]];
  }

  function Image(s: set<CellAddress>, delta: CellAddress): set<CellAddress> {
    set a | a in s :: AddAddress(a, delta)
  }

  /** The map after every key in `s` moved by `delta`; keys outside `s` stay. */
  function ShiftMap<V>(m: map<CellAddress, V>, s: set<CellAddress>, delta: CellAddress): map<CellAddress, V>
    requires s <= m.Keys
  {
    map b | b in (m.Keys - s) + Image(s, delta) ::
      if SubtractAddress(b, delta) in s then m[SubtractAddress(b, delta)] else m[b]
  }

  /** Shifting re-files values; it makes none up. */
  lemma ShiftMapValues<V>(m: map<CellAddress, V>, s: set<CellAddress>, delta: CellAddress)
    requires s <= m.Keys
    ensures ShiftMap(m, s, delta).Values <= m.Values
  {
    var r := ShiftMap(m, s, delta);
    forall v | v in r.Values ensures v in m.Values {
      var b :| b in r && r[b] == v;
      if SubtractAddress(b, delta) !in s && b in Image(s, delta) {
        var a :| a in s && b == AddAddress(a, delta);
        SubtractUndoesAdd(a, delta);
      }
    }
  }

  lemma ShiftNothing<V>(m: map<CellAddress, V>, delta: CellAddress)
    ensures ShiftMap(m, {}, delta) == m
  {
  }

  /** `x` may move next by `delta`, after the keys in `p`: it has not moved,
      no moved key landed on it, and its target is free. */
  ghost predicate CanShift<V>(m: map<CellAddress, V>, p: set<CellAddress>, x: CellAddress, delta: CellAddress) {
    p <= m.Keys && x in m && x !in p &&
    AddAddress(x, delta) !in m.Keys - p && x !in Image(p, delta)
  }

  /** One more key moved: what `_moveCell(x, x + delta)` does to the map when
      the target is free and `x` still holds its own cell. */
  lemma {:induction false} ShiftStep<V>(m: map<CellAddress, V>, p: set<CellAddress>, x: CellAddress, delta: CellAddress)
    requires CanShift(m, p, x, delta)
    ensures x in ShiftMap(m, p, delta) && ShiftMap(m, p, delta)[x] == m[x]
    ensures AddAddress(x, delta) !in ShiftMap(m, p, delta)
    ensures (ShiftMap(m, p, delta) - {x})[AddAddress(x, delta) := m[x]] == ShiftMap(m, p + {x}, delta)
  {
    var t := AddAddress(x, delta);
    SubtractUndoesAdd(x, delta);
    var before := ShiftMap(m, p, delta);
    forall y | y in p ensures AddAddress(y, delta) != x && AddAddress(y, delta) != t {
      assert AddAddress(y, delta) in Image(p, delta);
      SubtractUndoesAdd(y, delta);
    }
    assert AddAddress(SubtractAddress(x, delta), delta) == x;
    assert SubtractAddress(x, delta) !in p;
    assert t !in Image(p, delta);
    var after := (before - {x})[t := m[x]];
    var want := ShiftMap(m, p + {x}, delta);
    assert Image(p + {x}, delta) == Image(p, delta) + {t};
    forall b | b in after ensures b in want && after[b] == want[b] {
      if b != t {
        assert b in before && b != x;
        if SubtractAddress(b, delta) in p {
        } else {
          assert b in m.Keys - p;
          assert SubtractAddress(b, delta) != x;
        }
      }
    }
    forall b | b in want ensures b in after {
      if b != t {
        if b in Image(p, delta) {
          var y :| y in p && AddAddress(y, delta) == b;
          SubtractUndoesAdd(y, delta);
          assert b in before;
          assert b != x;
        }
      }
    }
  }

  /** The cells of `m` whose coordinate on axis `d` is `k`: one bucket of the
      row index (`d` vertical) or of the column index (`d` horizontal). */
  function Line<V>(m: map<CellAddress, V>, d: Direction, k: int): map<CellAddress, V>
  {
    map a | a in m && Get(a, d) == k :: m[a]
  }

  lemma LineUpdate<V>(m: map<CellAddress, V>, d: Direction, k: int, a: CellAddress, v: V)
    ensures Line(m[a := v], d, k) == if Get(a, d) == k then Line(m, d, k)[a := v] else Line(m, d, k)
  {
  }

  lemma LineRemove<V>(m: map<CellAddress, V>, d: Direction, k: int, a: CellAddress)
    ensures Line(m - {a}, d, k) == Line(m, d, k) - {a}
  {
  }

  lemma LineEmpty<V>(m: map<CellAddress, V>, d: Direction, k: int)
    requires forall a :: a in m ==> Get(a, d) != k
    ensures Line(m, d, k) == map[]
  {
  }

  /** A step of `k` along `d` changes only the coordinate on `d`. */
  lemma StepAlong(x: CellAddress, k: int, d: Direction)
    ensures Get(AddAddress(x, RelAddress(k, d)), d) == Get(x, d) + k
    ensures Get(AddAddress(x, RelAddress(k, d)), Other(d)) == Get(x, Other(d))
  {
    match d
    case Vertical =>
    case Horizontal =>
  }

  /** Whatever satisfies `p` still does `k` steps further along `d`. */
  ghost predicate Upward(p: CellAddress -> bool, d: Direction, k: int) {
    forall a :: p(a) ==> p(AddAddress(a, RelAddress(k, d)))
  }

  /** In a list sorted farthest-first along `d` of the cells that satisfy an
      upward-closed `p`, the cell `k >= 1` steps further than `s[i]` is
      either absent or already earlier in the list, and no earlier cell
      lands on `s[i]`. */
  lemma FarthestFirstBy(keys: set<CellAddress>, s: seq<CellAddress>, p: CellAddress -> bool,
                        d: Direction, k: int, i: int)
    requires Sorted(s, d, true) && NoDup(s) && k >= 1 && Upward(p, d, k)
    requires forall a :: a in s <==> a in keys && p(a)
    requires 0 <= i < |s|
    ensures AddAddress(s[i], RelAddress(k, d)) in keys ==> AddAddress(s[i], RelAddress(k, d)) in s[..i]
    ensures s[i] !in Image(Elems(s[..i]), RelAddress(k, d))
  {
    var delta := RelAddress(k, d);
    var x := s[i];
    var t := AddAddress(x, delta);
    StepAlong(x, k, d);
    forall j | i <= j < |s| ensures Get(s[j], d) <= Get(x, d) {
      if j > i { assert Le(d, true, s[i], s[j]); }
    }
    if t in keys {
      assert p(t);
      assert t in s;
      assert s == s[..i] + s[i..];
      assert t !in s[i..];
    }
    forall y | y in s[..i] ensures AddAddress(y, delta) != x {
      var j :| 0 <= j < i && s[j] == y;
      assert Le(d, true, s[j], s[i]);
      StepAlong(y, k, d);
    }
  }

  /** The line case: the cells at or after `origin` on its line, moved one step. */
  lemma FarthestFirst(keys: set<CellAddress>, s: seq<CellAddress>, origin: CellAddress, d: Direction, i: int)
    requires Sorted(s, d, true) && NoDup(s)
    requires forall a :: a in s <==> a in keys && CellAtOrAfterDim(a, origin, d)
    requires 0 <= i < |s|
    ensures AddAddress(s[i], RelAddress(1, d)) in keys ==> AddAddress(s[i], RelAddress(1, d)) in s[..i]
    ensures s[i] !in Image(Elems(s[..i]), RelAddress(1, d))
  {
    var p := a => CellAtOrAfterDim(a, origin, d);
    forall a | p(a) ensures p(AddAddress(a, RelAddress(1, d))) {
      StepAlong(a, 1, d);
      CellAtOrAfterDimMeaning(a, origin, d);
      CellAtOrAfterDimMeaning(AddAddress(a, RelAddress(1, d)), origin, d);
    }
    FarthestFirstBy(keys, s, p, d, 1, i);
  }

  /** The keys of `m` that lie at or after `origin` along `d`. */
  function AtOrAfter(keys: set<CellAddress>, origin: CellAddress, d: Direction): (s: set<CellAddress>)
    ensures s <= keys
    ensures forall a :: a in s <==> a in keys && CellAtOrAfterDim(a, origin, d)
  {
    set a | a in keys && CellAtOrAfterDim(a, origin, d)
  }

  /** After the shift the origin, which every shifted cell leaves behind, is free. */
  lemma ShiftFreesOrigin<V>(m: map<CellAddress, V>, origin: CellAddress, d: Direction)
    ensures origin !in ShiftMap(m, AtOrAfter(m.Keys, origin, d), RelAddress(1, d))
  {
    var delta := RelAddress(1, d);
    var s := AtOrAfter(m.Keys, origin, d);
    CellAtOrAfterDimMeaning(origin, origin, d);
    forall y | y in s ensures AddAddress(y, delta) != origin {
      CellAtOrAfterDimMeaning(y, origin, d);
      SubtractUndoesAdd(y, delta);
    }
  }

  /** Shifting keeps every key off the origin's line, moves every key on it
      at or after the origin one step, and keeps the cells before it. */
  lemma ShiftLine<V>(m: map<CellAddress, V>, origin: CellAddress, d: Direction, a: CellAddress)
    requires a in m
    ensures CellAtOrAfterDim(a, origin, d) ==>
      AddAddress(a, RelAddress(1, d)) in ShiftMap(m, AtOrAfter(m.Keys, origin, d), RelAddress(1, d)) &&
      ShiftMap(m, AtOrAfter(m.Keys, origin, d), RelAddress(1, d))[AddAddress(a, RelAddress(1, d))] == m[a]
    ensures !CellAtOrAfterDim(a, origin, d) ==>
      a in ShiftMap(m, AtOrAfter(m.Keys, origin, d), RelAddress(1, d)) &&
      ShiftMap(m, AtOrAfter(m.Keys, origin, d), RelAddress(1, d))[a] == m[a]
  {
    var delta := RelAddress(1, d);
    var s := AtOrAfter(m.Keys, origin, d);
    SubtractUndoesAdd(a, delta);
    if CellAtOrAfterDim(a, origin, d) {
      assert AddAddress(a, delta) in Image(s, delta);
    } else {
      var b := SubtractAddress(a, delta);
      assert AddAddress(b, delta) == a;
      CellAtOrAfterDimMeaning(a, origin, d);
      CellAtOrAfterDimMeaning(b, origin, d);
      SubtractUndoesAdd(b, delta);
      assert b !in s;
    }
  }

  /** Inserting a line loses no value: each is filed where it was or one
      step further. */
  lemma ShiftLineValues<V>(m: map<CellAddress, V>, origin: CellAddress, d: Direction)
    ensures m.Values <= ShiftMap(m, AtOrAfter(m.Keys, origin, d), RelAddress(1, d)).Values
  {
    var r := ShiftMap(m, AtOrAfter(m.Keys, origin, d), RelAddress(1, d));
    forall v | v in m.Values ensures v in r.Values {
      var a :| a in m && m[a] == v;
      ShiftLine(m, origin, d, a);
      if CellAtOrAfterDim(a, origin, d) {
        assert r[AddAddress(a, RelAddress(1, d))] == v;
      } else {
        assert r[a] == v;
      }
    }
  }

  // -------------------------------------------------------------------------
  // The three indices of a sheet

  /** No value is filed under two keys. */
  ghost predicate Injective<V>(m: map<CellAddress, V>) {
    forall a, b :: a in m && b in m && m[a] == m[b] ==> a == b
  }

  /** A bucket of a line index, or the fresh empty one when it is missing. */
  function Bucket<V>(index: map<int, map<CellAddress, V>>, k: int): (b: map<CellAddress, V>)
    ensures k !in index ==> b == map[]
  {
    if k in index then index[k] else map[]
  }

  /** Every bucket of `index` holds exactly the keys of `m` on its line along `d`. */
  ghost predicate LinesAgree<V>(m: map<CellAddress, V>, index: map<int, map<CellAddress, V>>, d: Direction) {
    (forall a :: a in m ==> Get(a, d) in index) &&
    (forall k :: k in index ==> index[k] == Line(m, d, k))
  }

  /** The row index (`rows`) and the column index (`cols`) hold exactly the
      rows and columns of `m`. */
  ghost predicate IndexAgree<V>(m: map<CellAddress, V>, rows: map<int, map<CellAddress, V>>, cols: map<int, map<CellAddress, V>>) {
    LinesAgree(m, rows, Vertical) && LinesAgree(m, cols, Horizontal)
  }

  lemma LinesAdd<V>(m: map<CellAddress, V>, index: map<int, map<CellAddress, V>>, d: Direction, a: CellAddress, v: V)
    requires LinesAgree(m, index, d)
    ensures LinesAgree(m[a := v], index[Get(a, d) := Bucket(index, Get(a, d))[a := v]], d)
  {
    var k0 := Get(a, d);
    var index' := index[k0 := Bucket(index, k0)[a := v]];
    if k0 !in index { LineEmpty(m, d, k0); }
    assert Bucket(index, k0) == Line(m, d, k0);
    forall k | k in index' ensures index'[k] == Line(m[a := v], d, k) {
      LineUpdate(m, d, k, a, v);
    }
  }

  lemma LinesRemove<V>(m: map<CellAddress, V>, index: map<int, map<CellAddress, V>>, d: Direction, a: CellAddress)
    requires LinesAgree(m, index, d) && a in m
    ensures LinesAgree(m - {a}, index[Get(a, d) := index[Get(a, d)] - {a}], d)
  {
    var k0 := Get(a, d);
    var index' := index[k0 := index[k0] - {a}];
    forall k | k in index' ensures index'[k] == Line(m - {a}, d, k) {
      LineRemove(m, d, k, a);
      if k == k0 {
        assert index'[k] == Line(m, d, k) - {a};
      } else {
        assert index'[k] == index[k] == Line(m, d, k);
        assert Line(m, d, k) - {a} == Line(m, d, k);
      }
    }
    assert forall b :: b in m - {a} ==> Get(b, d) in index';
  }

  lemma IndexAdd<V>(m: map<CellAddress, V>, rows: map<int, map<CellAddress, V>>, cols: map<int, map<CellAddress, V>>, a: CellAddress, v: V)
    requires IndexAgree(m, rows, cols)
    ensures IndexAgree(m[a := v], rows[a.r := Bucket(rows, a.r)[a := v]], cols[a.c := Bucket(cols, a.c)[a := v]])
  {
    LinesAdd(m, rows, Vertical, a, v);
    LinesAdd(m, cols, Horizontal, a, v);
  }

  lemma IndexRemove<V>(m: map<CellAddress, V>, rows: map<int, map<CellAddress, V>>, cols: map<int, map<CellAddress, V>>, a: CellAddress)
    requires IndexAgree(m, rows, cols) && a in m
    ensures IndexAgree(m - {a}, rows[a.r := rows[a.r] - {a}], cols[a.c := cols[a.c] - {a}])
  {
    LinesRemove(m, rows, Vertical, a);
    LinesRemove(m, cols, Horizontal, a);
  }

  function Without(s: seq<CellAddress>, a: CellAddress): (t: seq<CellAddress>)
    ensures forall x :: x in t <==> x in s && x != a
    ensures NoDup(s) ==> NoDup(t)
  {
    Filter(s, x => x != a)
  }

  /** `order` lists the keys, each once: the order `Object.keys` reports. */
  ghost predicate OrderAgrees(order: seq<CellAddress>, keys: set<CellAddress>) {
    NoDup(order) && forall a :: a in order <==> a in keys
  }

  lemma OrderAdd(order: seq<CellAddress>, keys: set<CellAddress>, a: CellAddress)
    requires OrderAgrees(order, keys)
    ensures OrderAgrees(if a in keys then order else order + [a], keys + {a})
  {
  }

  lemma OrderRemove(order: seq<CellAddress>, keys: set<CellAddress>, a: CellAddress)
    requires OrderAgrees(order, keys)
    ensures OrderAgrees(Without(order, a), keys - {a})
  {
  }
  // -------------------------------------------------------------------------
  // The orders the sheet lists cells in

  /** The keys of one line in filing order, sorted along the line: what
      `_getRow` (`d` vertical, row `k`) and `_getCol` (`d` horizontal,
      column `k`) list. */
  function LineOrder(order: seq<CellAddress>, d: Direction, k: int): seq<CellAddress> {
    SortBy(Filter(order, a => Get(a, d) == k), Other(d), false)
  }

  /** A line lists each of its keys once, in strictly increasing position
      along the line. */
  lemma LineOrderFacts(order: seq<CellAddress>, keys: set<CellAddress>, d: Direction, k: int)
    requires OrderAgrees(order, keys)
    ensures NoDup(LineOrder(order, d, k))
    ensures forall a :: a in LineOrder(order, d, k) <==> a in keys && Get(a, d) == k
    ensures forall i, j :: 0 <= i < j < |LineOrder(order, d, k)| ==>
      Get(LineOrder(order, d, k)[i], Other(d)) < Get(LineOrder(order, d, k)[j], Other(d))
  {
    var f := Filter(order, a => Get(a, d) == k);
    var s := SortBy(f, Other(d), false);
    SortByFacts(f, Other(d), false);
    MultisetNoDup(f, s);
    forall i, j | 0 <= i < j < |s| ensures Get(s[i], Other(d)) < Get(s[j], Other(d)) {
      assert Le(Other(d), false, s[i], s[j]);
      assert s[i] in f && s[j] in f && s[i] != s[j];
    }
  }

  /** The keys `insertCellMoveDim` moves, farthest along `d` first. */
  function ShiftOrder(order: seq<CellAddress>, origin: CellAddress, d: Direction): seq<CellAddress> {
    SortBy(Filter(order, a => CellAtOrAfterDim(a, origin, d)), d, true)
  }

  /** The keys to move are exactly those at or after the origin, each once,
      farthest first. */
  lemma ShiftOrderFacts(order: seq<CellAddress>, keys: set<CellAddress>, origin: CellAddress, d: Direction)
    requires OrderAgrees(order, keys)
    ensures Sorted(ShiftOrder(order, origin, d), d, true) && NoDup(ShiftOrder(order, origin, d))
    ensures forall a :: a in ShiftOrder(order, origin, d) <==> a in keys && CellAtOrAfterDim(a, origin, d)
  {
    var f := Filter(order, a => CellAtOrAfterDim(a, origin, d));
    SortByFacts(f, d, true);
    MultisetNoDup(f, SortBy(f, d, true));
  }

  /** Moving the keys farthest first, each next key can move once the keys
      before it have. */
  lemma ShiftOrderStep<V>(m: map<CellAddress, V>, order: seq<CellAddress>, origin: CellAddress, d: Direction, i: int)
    requires OrderAgrees(order, m.Keys) && 0 <= i < |ShiftOrder(order, origin, d)|
    ensures var keys := ShiftOrder(order, origin, d);
      CanShift(m, Elems(keys[..i]), keys[i], RelAddress(1, d))
  {
    var keys := ShiftOrder(order, origin, d);
    ShiftOrderFacts(order, m.Keys, origin, d);
    FarthestFirst(m.Keys, keys, origin, d, i);
  }

  /** The keys moved are exactly those at or after the origin. */
  lemma ShiftOrderCovers<V>(m: map<CellAddress, V>, order: seq<CellAddress>, origin: CellAddress, d: Direction)
    requires OrderAgrees(order, m.Keys)
    ensures Elems(ShiftOrder(order, origin, d)) == AtOrAfter(m.Keys, origin, d)
  {
    ShiftOrderFacts(order, m.Keys, origin, d);
  }

  // -------------------------------------------------------------------------
  // Shifting a band of cells

  /** The keys of `m` that `copyRange` pushes out of the way: at or after the
      start of `range` along `d`, within its span on the other axis. */
  function AtOrAfterRange(keys: set<CellAddress>, range: RangeAddress, d: Direction): (s: set<CellAddress>)
    ensures s <= keys
    ensures forall a :: a in s <==> a in keys && CellAtOrAfterRangeDim(a, range, d)
  {
    set a | a in keys && CellAtOrAfterRangeDim(a, range, d)
  }

  /** The keys `copyRange` moves, farthest along `d` first. */
  function BandOrder(order: seq<CellAddress>, range: RangeAddress, d: Direction): seq<CellAddress> {
    SortBy(Filter(order, a => CellAtOrAfterRangeDim(a, range, d)), d, true)
  }

  /** The keys to move are exactly those of the band, each once, farthest first. */
  lemma BandOrderFacts(order: seq<CellAddress>, keys: set<CellAddress>, range: RangeAddress, d: Direction)
    requires OrderAgrees(order, keys)
    ensures Sorted(BandOrder(order, range, d), d, true) && NoDup(BandOrder(order, range, d))
    ensures forall a :: a in BandOrder(order, range, d) <==> a in keys && CellAtOrAfterRangeDim(a, range, d)
  {
    var f := Filter(order, a => CellAtOrAfterRangeDim(a, range, d));
    SortByFacts(f, d, true);
    MultisetNoDup(f, SortBy(f, d, true));
  }

  /** Moving the band `k >= 1` steps, farthest first, each next key can move
      once the keys before it have. */
  lemma BandOrderStep<V>(m: map<CellAddress, V>, order: seq<CellAddress>, range: RangeAddress, d: Direction, k: int, i: int)
    requires OrderAgrees(order, m.Keys) && k >= 1 && 0 <= i < |BandOrder(order, range, d)|
    ensures var keys := BandOrder(order, range, d);
      CanShift(m, Elems(keys[..i]), keys[i], RelAddress(k, d))
  {
    var keys := BandOrder(order, range, d);
    BandOrderFacts(order, m.Keys, range, d);
    var p := a => CellAtOrAfterRangeDim(a, range, d);
    forall a | p(a) ensures p(AddAddress(a, RelAddress(k, d))) {
      StepAlong(a, k, d);
    }
    FarthestFirstBy(m.Keys, keys, p, d, k, i);
  }

  /** The keys moved are exactly those of the band. */
  lemma BandOrderCovers<V>(m: map<CellAddress, V>, order: seq<CellAddress>, range: RangeAddress, d: Direction)
    requires OrderAgrees(order, m.Keys)
    ensures Elems(BandOrder(order, range, d)) == AtOrAfterRange(m.Keys, range, d)
  {
    BandOrderFacts(order, m.Keys, range, d);
  }
}
