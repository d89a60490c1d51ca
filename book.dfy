/** `Workbook.ts`: scope discovery from the cells of every sheet, placement
    of the scopes into one tree, and the interpolation that expands the
    templates into cells. */
module Book {
  import opened Address
  import opened Kinds
  import opened Template
  import opened Ordering
  import opened Registry
  import opened Scopes

  // -------------------------------------------------------------------------
  // Scope discovery

  /** `parseScopeCell(sheet)(cell)`: the single-cell scope `ref:ref` of a
      cell template, with the cell's value as its template. */
  function ParseScopeCell(sheet: string, ref: string, template: string): (n: Node)
    requires CanonicalRef(ref)
    ensures Shaped(n) && Ordered(n.address) && n.isScope && n.parent.None? && n.children == []
    ensures Range(n) == ref + ":" + ref && n.sheet == sheet && n.template == template && n.kind == CellKind
    ensures HasRow(ref) && n.address == RangeAddress(GetCellAddress(ref), GetCellAddress(ref))
  {
    RefRoundTrip(ref);
    RefNoColon(GetCellAddress(ref));
    SplitPair(ref, ref);
    NewScope(ref + ":" + ref, sheet, template, CellKind)
  }

  /** The range group of a range-template formula, when it reads as an
      ordered range. */
  predicate ReadableRange(m: RangeMatch) {
    m.range.Some? && IsRangeRef(m.range.value) && Ordered(GetRangeAddress(m.range.value))
  }

  /** `parseScopeRange(sheet)(cell)`: the scope named by a range-template
      formula, with the range and template of its two groups. A formula
      that does not match, or whose range group is missing or unreadable,
      is an error. */
  function ParseScopeRange(sheet: string, formula: string): (r: Result<Node>)
    ensures r.Ok? <==> MatchRangeTemplate(formula).Some? && ReadableRange(MatchRangeTemplate(formula).value)
    ensures r.Err? ==> r.error == MalformedScope(formula)
    ensures r.Ok? ==>
      var m := MatchRangeTemplate(formula).value;
      Shaped(r.value) && Ordered(r.value.address) && r.value.isScope &&
      r.value.parent.None? && r.value.children == [] &&
      Range(r.value) == m.range.value && r.value.sheet == sheet &&
      r.value.template == m.template && r.value.kind == RangeKind
  {
    match MatchRangeTemplate(formula)
    case None => Err(MalformedScope(formula))
    case Some(m) =>
      if ReadableRange(m) then Ok(NewScope(m.range.value, sheet, m.template, RangeKind))
      else Err(MalformedScope(formula))
  }

  /** The formula written for an ordered range `r` and template `t` gives
      the range scope `r` with template `t`. */
  lemma ParseRangeFormula(sheet: string, kw: string, r: string, t: string)
    requires SameIgnoringCase(kw, Keyword) && r != [] && NoLineTerminator(r)
    requires NoLineTerminator(t) && forall i :: 0 <= i < |t| ==> t[i] != ')'
    requires IsRangeRef(r) && Ordered(GetRangeAddress(r))
    ensures var s := ParseScopeRange(sheet, kw + r + "), \"" + t + "\")");
      s.Ok? && Range(s.value) == r && s.value.template == t && s.value.kind == RangeKind &&
      s.value.address == GetRangeAddress(r)
  {
    MatchRangeFormula(kw, r, t);
    var s := ParseScopeRange(sheet, kw + r + "), \"" + t + "\")");
    ShapedRange(s.value);
  }

  /** The first of the range cells `rs`, from `from` on, whose formula does
      not read as a scope (`|rs|` when they all do). */
  function FirstMalformed(sheet: string, rs: seq<Cell>, from: nat): (k: nat)
    requires from <= |rs|
    ensures from <= k <= |rs|
    ensures forall i :: from <= i < k ==> ParseScopeRange(sheet, rs[i].form).Ok?
    ensures k < |rs| ==> ParseScopeRange(sheet, rs[k].form).Err?
    decreases |rs| - from
  {
    if from == |rs| then from
    else if ParseScopeRange(sheet, rs[from].form).Err? then from
    else FirstMalformed(sheet, rs, from + 1)
  }

  /** `scopeRanges.map(parseScopeRange(sheet))`: the first unreadable
      formula is an error. */
  function RangeScopes(sheet: string, rs: seq<Cell>): (r: Result<seq<Node>>)
    ensures r.Ok? <==> forall i :: 0 <= i < |rs| ==> ParseScopeRange(sheet, rs[i].form).Ok?
    ensures r.Ok? ==> |r.value| == |rs|
    ensures r.Ok? ==> forall i :: 0 <= i < |rs| ==> ParseScopeRange(sheet, rs[i].form) == Ok(r.value[i])
    ensures r.Err? ==> exists i :: 0 <= i < |rs| && ParseScopeRange(sheet, rs[i].form) == Err(r.error)
  {
    var k := FirstMalformed(sheet, rs, 0);
    if k < |rs| then Err(ParseScopeRange(sheet, rs[k].form).error)
    else Ok(seq(|rs|, i requires 0 <= i < |rs| => ParseScopeRange(sheet, rs[i].form).value))
  }

  /** A scope as discovery builds it: ordered, shaped and not yet linked. */
  predicate Discovered(n: Node) {
    n.isScope && Shaped(n) && Ordered(n.address) && n.parent.None? && n.children == []
  }

  /** `scopeCells.map(parseScopeCell(sheet))`. */
  function CellScopes(sheet: string, cs: seq<Cell>): (ns: seq<Node>)
    requires forall i :: 0 <= i < |cs| ==> CanonicalRef(cs[i].Ref())
    reads cs
    ensures |ns| == |cs| &&
      forall i :: 0 <= i < |cs| ==> ns[i] == ParseScopeCell(sheet, cs[i].Ref(), ToText(cs[i].value))
    ensures forall i :: 0 <= i < |ns| ==> Discovered(ns[i]) && ns[i].kind == CellKind
  {
    seq(|cs|, i reads cs requires 0 <= i < |cs| && CanonicalRef(cs[i].Ref()) =>
      ParseScopeCell(sheet, cs[i].Ref(), ToText(cs[i].value)))
  }

  // -------------------------------------------------------------------------
  // Placement

  /** The first of the nodes `cs` whose scope contains scope `s` (`|cs|`
      when there is none): the child `some` stops at. */
  function FirstContaining(nodes: seq<Node>, cs: seq<nat>, s: nat): (i: nat)
    requires WellFormed(nodes) && 0 < s < |nodes| && forall k :: 0 <= k < |cs| ==> 0 < cs[k] < |nodes|
    ensures i <= |cs|
    ensures forall k :: 0 <= k < i ==> !ContainsScope(nodes[cs[k]], nodes[s])
    ensures i < |cs| ==> ContainsScope(nodes[cs[i]], nodes[s])
  {
    FirstContainingFrom(nodes, cs, s, 0)
  }

  function FirstContainingFrom(nodes: seq<Node>, cs: seq<nat>, s: nat, from: nat): (i: nat)
    requires WellFormed(nodes) && 0 < s < |nodes| && forall k :: 0 <= k < |cs| ==> 0 < cs[k] < |nodes|
    requires from <= |cs|
    ensures from <= i <= |cs|
    ensures forall k :: from <= k < i ==> !ContainsScope(nodes[cs[k]], nodes[s])
    ensures i < |cs| ==> ContainsScope(nodes[cs[i]], nodes[s])
    decreases |cs| - from
  {
    assert Placed(nodes[s], s, |nodes|);
    if from == |cs| then from
    else
      assert Placed(nodes[cs[from]], cs[from], |nodes|);
      if ContainsScope(nodes[cs[from]], nodes[s]) then from
      else FirstContainingFrom(nodes, cs, s, from + 1)
  }

  /** Where `place(p)(s)` attaches `s`: the first child of `p` that contains
      `s` takes it further down; with none, `p` itself. */
  ghost function PlaceTarget(nodes: seq<Node>, p: nat, s: nat): nat
    requires WellFormed(nodes) && p < s < |nodes| && Closed(nodes, s)
    decreases s - p
  {
    var cs := nodes[p].children;
    var k := FirstContaining(nodes, cs, s);
    if k < |cs| then PlaceTarget(nodes, cs[k], s) else p
  }

  /** `s` goes to `p` or to a scope that contains it, strictly before it, and
      none of the children of that node contains `s`. */
  lemma {:induction false} PlaceTargetFacts(nodes: seq<Node>, p: nat, s: nat)
    requires WellFormed(nodes) && p < s < |nodes| && Closed(nodes, s)
    ensures var q := PlaceTarget(nodes, p, s);
      p <= q < s && (q == p || (q > 0 && ContainsScope(nodes[q], nodes[s])))
    ensures var q := PlaceTarget(nodes, p, s);
      forall k :: 0 <= k < |nodes[q].children| ==>
        0 < nodes[q].children[k] < s && !ContainsScope(nodes[nodes[q].children[k]], nodes[s])
    decreases s - p
  {
    var cs := nodes[p].children;
    assert After(cs, p, s);
    var k := FirstContaining(nodes, cs, s);
    if k < |cs| {
      PlaceTargetFacts(nodes, cs[k], s);
    }
  }

  /** A node without its links. */
  function Bare(n: Node): Node {
    n.(parent := None, children := [])
  }

  /** Node `i` hangs in the tree: its parent lies before it, lists it, and
      is the root or a scope that contains it (judged on the nodes `n0` as
      they were discovered). */
  ghost predicate Attached(nodes: seq<Node>, n0: seq<Node>, i: nat)
    requires WellFormed(n0) && |nodes| == |n0| && 0 < i < |nodes|
  {
    nodes[i].parent.Some? &&
    var q := nodes[i].parent.value;
    q < i && i in nodes[q].children &&
    (q == 0 || (assert Placed(n0[q], q, |n0|) && Placed(n0[i], i, |n0|); ContainsScope(n0[q], n0[i])))
  }

  /** `createScopeTree` has placed the scopes before `j` and not yet touched
      the rest: only links changed, and the root has no parent. */
  ghost predicate PlacedUpTo(nodes: seq<Node>, n0: seq<Node>, j: nat) {
    WellFormed(n0) && WellFormed(nodes) && |nodes| == |n0| && 1 <= j <= |nodes| && Closed(nodes, j) &&
    nodes[0].parent.None? && Linked(nodes) &&
    (forall i :: 0 <= i < |nodes| ==> Bare(nodes[i]) == Bare(n0[i])) &&
    (forall i :: j <= i < |nodes| ==> nodes[i].parent.None? && nodes[i].children == []) &&
    (forall i :: 0 < i < j ==> Attached(nodes, n0, i))
  }

  /** Containment ignores links. */
  lemma ContainsBare(a: Node, b: Node, x: Node, y: Node)
    requires Shaped(a) && Shaped(b) && Bare(a) == Bare(x) && Bare(b) == Bare(y)
    ensures Shaped(x) && Shaped(y) && (ContainsScope(a, b) <==> ContainsScope(x, y))
  {
    assert a.address == x.address && a.text == x.text && a.synced == x.synced && a.sheet == x.sheet;
    assert b.address == y.address && b.text == y.text && b.synced == y.synced && b.sheet == y.sheet;
  }

  /** `after` is `before` with `j` attached as the last child of `q`. */
  ghost predicate Attaches(before: seq<Node>, after: seq<Node>, j: nat, q: nat) {
    q < j < |before| && |after| == |before| &&
    after[j] == before[j].(parent := Some(q)) &&
    after[q] == before[q].(children := before[q].children + [j]) &&
    forall i :: 0 <= i < |after| && i != q && i != j ==> after[i] == before[i]
  }

  lemma ClosedAfterAttach(before: seq<Node>, after: seq<Node>, j: nat, q: nat)
    requires Attaches(before, after, j, q) && Closed(before, j) && before[j].children == []
    ensures Closed(after, j + 1)
  {
    forall i | 0 <= i < j + 1 ensures After(after[i].children, i, j + 1) {
      if i < j {
        assert After(before[i].children, i, j);
      }
    }
  }

  lemma LinkedAfterAttach(before: seq<Node>, after: seq<Node>, j: nat, q: nat)
    requires Attaches(before, after, j, q) && Closed(before, j) && Linked(before) && before[j].children == []
    requires forall i :: j <= i < |before| ==> before[i].children == []
    ensures Linked(after)
  {
    forall i, k | 0 <= i < |after| && 0 <= k < |after[i].children|
      ensures after[i].children[k] < |after| && after[after[i].children[k]].parent == Some(i)
    {
      if i != q || k < |before[q].children| {
        assert i < j;
        assert after[i].children[k] == before[i].children[k];
        assert After(before[i].children, i, j);
      }
    }
    forall i, k, l | 0 <= i < |after| && 0 <= k < l < |after[i].children|
      ensures after[i].children[k] != after[i].children[l]
    {
      if i == q && l == |before[q].children| {
        assert After(before[q].children, q, j);
      }
    }
  }

  lemma AttachedAfterAttach(before: seq<Node>, after: seq<Node>, n0: seq<Node>, j: nat, q: nat)
    requires Attaches(before, after, j, q) && WellFormed(n0) && |n0| == |before| && 0 < j
    requires forall i :: 0 < i < j ==> Attached(before, n0, i)
    requires q == 0 || (assert Placed(n0[q], q, |n0|) && Placed(n0[j], j, |n0|); ContainsScope(n0[q], n0[j]))
    ensures forall i :: 0 < i < j + 1 ==> Attached(after, n0, i)
  {
    forall i | 0 < i < j + 1 ensures Attached(after, n0, i) {
      if i < j {
        assert Attached(before, n0, i);
        var p := before[i].parent.value;
        assert after[i].parent == before[i].parent;
        assert before[p].children <= after[p].children;
      }
    }
  }

  /** One `place(root)(j)` that attaches `j` to `q` extends the placed prefix by `j`. */
  lemma PlaceStep(before: seq<Node>, after: seq<Node>, n0: seq<Node>, j: nat, q: nat)
    requires PlacedUpTo(before, n0, j) && j < |before| && WellFormed(after) && Attaches(before, after, j, q)
    requires q == 0 || (assert Placed(before[q], q, |before|) && Placed(before[j], j, |before|); ContainsScope(before[q], before[j]))
    ensures PlacedUpTo(after, n0, j + 1)
  {
    assert Placed(before[j], j, |before|);
    if q > 0 {
      assert Placed(before[q], q, |before|);
      ContainsBare(before[q], before[j], n0[q], n0[j]);
    }
    ClosedAfterAttach(before, after, j, q);
    LinkedAfterAttach(before, after, j, q);
    AttachedAfterAttach(before, after, n0, j, q);
    assert forall i :: 0 <= i < |after| ==> Bare(after[i]) == Bare(before[i]);
  }

  /** The entries of `cs` below `j`, in order. */
  function Under(cs: seq<nat>, j: nat): (r: seq<nat>)
    ensures forall x :: x in r ==> x in cs && x < j
    decreases |cs|
  {
    if cs == [] then []
    else
      var last := cs[|cs| - 1];
      Under(cs[..|cs| - 1], j) + (if last < j then [last] else [])
  }

  lemma {:induction false} UnderAll(cs: seq<nat>, j: nat)
    requires forall k :: 0 <= k < |cs| ==> cs[k] < j
    ensures Under(cs, j) == cs
    decreases |cs|
  {
    if cs != [] {
      UnderAll(cs[..|cs| - 1], j);
    }
  }

  lemma UnderPast(cs: seq<nat>, x: nat, j: nat)
    requires x >= j
    ensures Under(cs + [x], j) == Under(cs, j)
  {
    assert (cs + [x])[..|cs|] == cs;
  }

  /** The arena as `createScopeTree` had it when scope `j` came up for
      placing: the scopes before `j` with their parents, and no link to a
      scope from `j` on. */
  ghost function Stage(nodes: seq<Node>, j: nat): (r: seq<Node>)
    requires WellFormed(nodes) && j <= |nodes|
    ensures |r| == |nodes| && WellFormed(r) && Closed(r, j)
  {
    var r := seq(|nodes|, i requires 0 <= i < |nodes| =>
      nodes[i].(parent := if i < j then nodes[i].parent else None, children := Under(nodes[i].children, j)));
    assert forall i :: 0 <= i < |r| ==> Placed(r[i], i, |r|) && (i < j ==> After(r[i].children, i, j)) by {
      forall i | 0 <= i < |r| ensures Placed(r[i], i, |r|) && (i < j ==> After(r[i].children, i, j)) {
        assert Placed(nodes[i], i, |nodes|);
        forall k | 0 <= k < |r[i].children| ensures i < r[i].children[k] < |r| && r[i].children[k] < j {
          assert r[i].children[k] in r[i].children;
        }
      }
    }
    r
  }

  /** Each scope before `j` hangs where `place(root)` put it, judged on the
      arena as it stood when that scope came up: under the deepest chain of
      first containing children. */
  ghost predicate PlacedFirstFit(nodes: seq<Node>, j: nat)
    requires WellFormed(nodes) && j <= |nodes|
  {
    forall i :: 0 < i < j ==> nodes[i].parent == Some(PlaceTarget(Stage(nodes, i), 0, i))
  }

  /** Before scope `j` is placed, the arena is its own stage. */
  lemma StageNow(nodes: seq<Node>, n0: seq<Node>, j: nat)
    requires PlacedUpTo(nodes, n0, j)
    ensures Stage(nodes, j) == nodes
  {
    var r := Stage(nodes, j);
    forall i | 0 <= i < |nodes| ensures r[i] == nodes[i] {
      if i < j {
        assert After(nodes[i].children, i, j);
        UnderAll(nodes[i].children, j);
      }
    }
  }

  /** Attaching `j` leaves the stages of the scopes up to `j` as they were. */
  lemma StageKept(before: seq<Node>, after: seq<Node>, j: nat, q: nat, i: nat)
    requires WellFormed(before) && WellFormed(after) && Attaches(before, after, j, q) && i <= j
    ensures Stage(after, i) == Stage(before, i)
  {
    var a, b := Stage(after, i), Stage(before, i);
    forall x | 0 <= x < |a| ensures a[x] == b[x] {
      if x == q {
        UnderPast(before[q].children, j, i);
      }
    }
  }

  /** Placing `j` where `place(root)` puts it extends the first-fit placement by `j`. */
  lemma FirstFitStep(before: seq<Node>, after: seq<Node>, n0: seq<Node>, j: nat, q: nat)
    requires PlacedUpTo(before, n0, j) && j < |before| && WellFormed(after) && Attaches(before, after, j, q)
    requires q == PlaceTarget(before, 0, j) && PlacedFirstFit(before, j)
    ensures PlacedFirstFit(after, j + 1)
  {
    StageNow(before, n0, j);
    forall i | 0 < i < j + 1 ensures after[i].parent == Some(PlaceTarget(Stage(after, i), 0, i)) {
      StageKept(before, after, j, q, i);
    }
  }

  /** `place(root)(j)` as `Place` states it keeps the placement going. */
  lemma PlaceRoot(before: seq<Node>, after: seq<Node>, n0: seq<Node>, j: nat, q: nat)
    requires PlacedUpTo(before, n0, j) && j < |before| && WellFormed(after) && |after| == |before|
    requires q == PlaceTarget(before, 0, j) && PlacedFirstFit(before, j)
    requires after[j] == before[j].(parent := Some(q))
    requires after[q] == before[q].(children := before[q].children + [j])
    requires forall i :: 0 <= i < |after| && i != q && i != j ==> after[i] == before[i]
    ensures PlacedUpTo(after, n0, j + 1) && PlacedFirstFit(after, j + 1)
  {
    PlaceTargetFacts(before, 0, j);
    assert Attaches(before, after, j, q);
    PlaceStep(before, after, n0, j, q);
    FirstFitStep(before, after, n0, j, q);
  }

  // -------------------------------------------------------------------------
  // Moving a list of scopes

  /** How far `forEach(s => s.move(a))` over `list` moves node `i`: the
      number of paths that reach it from each listed scope. A listed scope
      nested under another listed scope is reached twice. */
  function Moves(kids: seq<seq<nat>>, list: seq<nat>, i: nat): nat
    requires forall k :: 0 <= k < |list| ==> list[k] < |kids|
    decreases |list|
  {
    if list == [] then 0
    else Moves(kids, list[..|list| - 1], i) + Paths(kids, list[|list| - 1], i)
  }

  /** Every listed scope moves at least once. */
  lemma {:induction false} ListedMoves(kids: seq<seq<nat>>, list: seq<nat>, k: nat)
    requires forall j :: 0 <= j < |list| ==> list[j] < |kids|
    requires k < |list|
    ensures Moves(kids, list, list[k]) >= 1
    decreases |list|
  {
    if k < |list| - 1 {
      ListedMoves(kids, list[..|list| - 1], k);
    }
  }

  /** A node no listed scope reaches does not move. */
  lemma {:induction false} UnreachedStays(kids: seq<seq<nat>>, list: seq<nat>, i: nat)
    requires forall j :: 0 <= j < |list| ==> list[j] < |kids|
    requires forall j :: 0 <= j < |list| ==> Paths(kids, list[j], i) == 0
    ensures Moves(kids, list, i) == 0
    decreases |list|
  {
    if list != [] {
      UnreachedStays(kids, list[..|list| - 1], i);
    }
  }

  /** A child `x` of `s` passes every path from it on to `s`. */
  lemma {:induction false} PathsThrough(kids: seq<seq<nat>>, s: nat, cs: seq<nat>, x: nat, i: nat)
    requires s < x < |kids| && x in cs
    ensures PathsFrom(kids, s, cs, i) >= Paths(kids, x, i)
    decreases |cs|
  {
    if cs[|cs| - 1] != x {
      var k :| 0 <= k < |cs| && cs[k] == x;
      assert cs[..|cs| - 1][k] == x;
      PathsThrough(kids, s, cs[..|cs| - 1], x, i);
    }
  }

  /** Each listed scope adds its paths to the moves. */
  lemma {:induction false} ListedPaths(kids: seq<seq<nat>>, list: seq<nat>, k: nat, i: nat)
    requires forall j :: 0 <= j < |list| ==> list[j] < |kids|
    requires k < |list|
    ensures Moves(kids, list, i) >= Paths(kids, list[k], i)
    decreases |list|
  {
    if k < |list| - 1 {
      ListedPaths(kids, list[..|list| - 1], k, i);
    }
  }

  /** Two places of the list add the paths of both. */
  lemma {:induction false} TwoListedPaths(kids: seq<seq<nat>>, list: seq<nat>, a: nat, b: nat, i: nat)
    requires forall j :: 0 <= j < |list| ==> list[j] < |kids|
    requires a < b < |list|
    ensures Moves(kids, list, i) >= Paths(kids, list[a], i) + Paths(kids, list[b], i)
    decreases |list|
  {
    var init := list[..|list| - 1];
    if b == |list| - 1 {
      ListedPaths(kids, init, a, i);
    } else {
      TwoListedPaths(kids, init, a, b, i);
    }
  }

  /** A scope listed together with its parent moves twice: once on its
      own and once more with its parent. */
  lemma NestedListedMovesTwice(kids: seq<seq<nat>>, list: seq<nat>, p: nat, c: nat)
    requires forall j :: 0 <= j < |list| ==> list[j] < |kids|
    requires p < c < |kids| && c in kids[p] && p in list && c in list
    ensures Moves(kids, list, c) >= 2
  {
    var a :| 0 <= a < |list| && list[a] == p;
    var b :| 0 <= b < |list| && list[b] == c;
    PathsThrough(kids, p, kids[p], c, c);
    if a < b {
      TwoListedPaths(kids, list, a, b, c);
    } else {
      TwoListedPaths(kids, list, b, a, c);
    }
  }

  /** One more listed scope moved: its paths add to every node's count. */
  lemma {:induction false} MoveListStep(n0: seq<Node>, before: seq<Node>, after: seq<Node>,
                                        kids: seq<seq<nat>>, list: seq<nat>, k: nat, a: CellAddress)
    requires WellFormed(n0) && WellFormed(before) && |before| == |n0| && |after| == |n0| && |kids| == |n0| && a.c >= 0 && a.r >= 0
    requires k < |list| && forall j :: 0 <= j < |list| ==> list[j] < |kids|
    requires forall i :: 0 <= i < |n0| ==> before[i] == Shift(n0[i], Moves(kids, list[..k], i), a)
    requires forall i :: 0 <= i < |n0| ==> after[i] == Shift(before[i], Paths(kids, list[k], i), a)
    ensures forall i :: 0 <= i < |n0| ==> after[i] == Shift(n0[i], Moves(kids, list[..k + 1], i), a)
  {
    var p := list[..k + 1];
    assert p[..k] == list[..k] && p[k] == list[k];
    forall i | 0 <= i < |n0|
      ensures after[i] == Shift(n0[i], Moves(kids, list[..k + 1], i), a)
    {
      assert Moves(kids, p, i) == Moves(kids, list[..k], i) + Paths(kids, list[k], i);
      assert Placed(n0[i], i, |n0|);
      ShiftTwice(n0[i], Moves(kids, list[..k], i), Paths(kids, list[k], i), a);
    }
  }

  /** The arena after `grow(a)` on scope `s`. */
  ghost function GrowAt(nodes: seq<Node>, s: nat, a: CellAddress): (g: seq<Node>)
    requires WellFormed(nodes) && s < |nodes| && a.c >= 0 && a.r >= 0
    ensures |g| == |nodes| && forall i :: 0 <= i < |g| ==> ValidRange(g[i].address)
  {
    var up := Ancestry(Ups(nodes), s);
    seq(|nodes|, i requires 0 <= i < |nodes| =>
      assert Placed(nodes[i], i, |nodes|); if i in up then Grown(nodes[i], a) else nodes[i])
  }

  /** `filter(p)` over a list of scopes, keeping the order. */
  function SelectScopes(ks: seq<nat>, p: nat -> bool): (r: seq<nat>)
    ensures |r| <= |ks| && forall x :: x in r <==> x in ks && p(x)
    decreases |ks|
  {
    if ks == [] then []
    else
      var last := ks[|ks| - 1];
      assert ks == ks[..|ks| - 1] + [last];
      SelectScopes(ks[..|ks| - 1], p) + (if p(last) then [last] else [])
  }

  /** `Scope.isAfterDim(to, d)` and `onSheet(sheet)` as one filter over arena indices. */
  function AfterCellOf(nodes: seq<Node>, to: CellAddress, d: Direction, sheet: string): nat -> bool {
    (x: nat) => x < |nodes| && RangeAfterCellDim(to, nodes[x].address, d) && nodes[x].sheet == sheet
  }

  /** The arena after the scope half of `cloneCell`: `s` and its scope
      ancestors grown by one along `d`, then every listed scope of the
      sheet that starts past `to` (judged after the growth) moved by one,
      once for each such scope whose subtree holds it. */
  ghost function GrownAndShifted(n0: seq<Node>, scopes: seq<nat>, s: nat, to: CellAddress, d: Direction, sheet: string): (r: seq<Node>)
    requires WellFormed(n0) && 0 < s < |n0| && forall x :: x in scopes ==> 0 < x < |n0|
    ensures |r| == |n0|
  {
    var a := RelAddress(1, d);
    var g := GrowAt(n0, s, a);
    var list := SelectScopes(scopes, AfterCellOf(g, to, d, sheet));
    assert forall k :: 0 <= k < |list| ==> list[k] in scopes;
    seq(|n0|, i requires 0 <= i < |n0| => Shift(g[i], Moves(Kids(n0), list, i), a))
  }

  /** The arena after `moveDim` on scope `s` by `a`: each node moved once
      per path from `s` (in a linked arena, each node of the subtree of `s`
      once), the links kept. */
  ghost function MovedAt(nodes: seq<Node>, s: nat, a: CellAddress): (m: seq<Node>)
    requires WellFormed(nodes) && 0 < s < |nodes| && a.c >= 0 && a.r >= 0
    ensures WellFormed(m) && |m| == |nodes| && Kids(m) == Kids(nodes) && Ups(m) == Ups(nodes)
    ensures forall i :: 0 <= i < |m| ==> m[i] == Shift(nodes[i], Paths(Kids(nodes), s, i), a)
  {
    var kids := Kids(nodes);
    var m := seq(|nodes|, i requires 0 <= i < |nodes| =>
      assert Placed(nodes[i], i, |nodes|); Shift(nodes[i], Paths(kids, s, i), a));
    forall i | 0 <= i < |m|
      ensures Placed(m[i], i, |m|) && m[i].children == nodes[i].children && m[i].parent == nodes[i].parent &&
        m[i].isScope == nodes[i].isScope
    {
      assert Placed(nodes[i], i, |nodes|);
    }
    assert Kids(m) == kids;
    assert Ups(m) == Ups(nodes);
    m
  }

  /** `moveDim` takes scope `s` itself once along `a`. */
  lemma MovedSelf(nodes: seq<Node>, s: nat, a: CellAddress)
    requires WellFormed(nodes) && 0 < s < |nodes| && a.c >= 0 && a.r >= 0
    ensures MovedAt(nodes, s, a)[s].address ==
      RangeAddress(AddAddress(a, nodes[s].address.near), AddAddress(a, nodes[s].address.far))
  {
    PathsBefore(Kids(nodes), s, s);
    assert Placed(nodes[s], s, |nodes|);
    assert CellAddress(1 * a.c, 1 * a.r) == a;
  }

  /** `Scope.isAtOrAfterRangeDim(range of s, d)`, `onSheet(sheet of s)` and
      `s !== scope` as one filter over arena indices. */
  function AtOrAfterOf(nodes: seq<Node>, s: nat, d: Direction): nat -> bool {
    (x: nat) => x < |nodes| && s < |nodes| && x != s && IsRangeRef(Range(nodes[s])) &&
      IsAtOrAfterRangeDim(nodes[x], Range(nodes[s]), d) && nodes[x].sheet == nodes[s].sheet
  }

  /** `if (scope.parentScope instanceof Scope) scope.parentScope.growDim(...)`
      for scope `s`, growing by `a`. */
  ghost function GrowParentAt(m: seq<Node>, s: nat, a: CellAddress): (g: seq<Node>)
    requires WellFormed(m) && s < |m| && a.c >= 0 && a.r >= 0
    ensures |g| == |m| && forall i :: 0 <= i < |g| ==> ValidRange(g[i].address)
  {
    if Up(m, s).Some? then GrowAt(m, Up(m, s).value, a)
    else
      assert forall i :: 0 <= i < |m| ==> ValidRange(m[i].address) by {
        forall i | 0 <= i < |m| ensures ValidRange(m[i].address) {
          assert Placed(m[i], i, |m|);
        }
      }
      m
  }

  /** What `cloneScope` does to the tree once scope `s` has moved: its
      parent, when that is a `Scope`, grows by the span `k` of `s` along `d`
      (and so, through `grow`, do the parent's scope ancestors); then every
      other listed scope on the sheet of `s` at or after the range of `s`
      along `d` (judged after the growth) moves by `k`, once for each
      such scope whose subtree holds it. */
  ghost function Spread(m: seq<Node>, scopes: seq<nat>, s: nat, d: Direction): (r: seq<Node>)
    requires WellFormed(m) && 0 < s < |m| && forall x :: x in scopes ==> 0 < x < |m|
    ensures |r| == |m|
  {
    assert Placed(m[s], s, |m|);
    OrderedDim(m[s].address, d);
    var a := RelAddress(Dim(m[s].address, d), d);
    var g := GrowParentAt(m, s, a);
    var list := SelectScopes(scopes, AtOrAfterOf(g, s, d));
    assert forall k :: 0 <= k < |list| ==> list[k] in scopes;
    seq(|m|, i requires 0 <= i < |m| => Shift(g[i], Moves(Kids(m), list, i), a))
  }

  /** The steps of `Spread`, taken one by one, reach it. */
  lemma SpreadFrom(m: seq<Node>, scopes: seq<nat>, s: nat, d: Direction, g: seq<Node>, r: seq<Node>)
    requires WellFormed(m) && 0 < s < |m| && forall x :: x in scopes ==> 0 < x < |m|
    requires Placed(m[s], s, |m|) && Dim(m[s].address, d) >= 1
    requires g == GrowParentAt(m, s, RelAddress(Dim(m[s].address, d), d)) && Kids(g) == Kids(m)
    requires |r| == |m|
    requires var list := SelectScopes(scopes, AtOrAfterOf(g, s, d));
      (forall k :: 0 <= k < |list| ==> list[k] < |m|) &&
      forall i :: 0 <= i < |m| ==> r[i] == Shift(g[i], Moves(Kids(g), list, i), RelAddress(Dim(m[s].address, d), d))
    ensures r == Spread(m, scopes, s, d)
  {
  }

  /** The arena growth of `grow` relocates nodes and nothing more. */
  lemma GrowAtRelocates(nodes: seq<Node>, s: nat, a: CellAddress)
    requires WellFormed(nodes) && s < |nodes| && a.c >= 0 && a.r >= 0
    ensures Relocations(nodes, GrowAt(nodes, s, a))
  {
    var g := GrowAt(nodes, s, a);
    forall i | 0 <= i < |nodes| ensures Relocated(g[i], nodes[i]) {
      assert Placed(nodes[i], i, |nodes|);
    }
  }

  /** `moveDim` relocates nodes and nothing more. */
  lemma MovedAtRelocates(nodes: seq<Node>, s: nat, a: CellAddress)
    requires WellFormed(nodes) && 0 < s < |nodes| && a.c >= 0 && a.r >= 0
    ensures Relocations(nodes, MovedAt(nodes, s, a))
  {
    var m := MovedAt(nodes, s, a);
    forall i | 0 <= i < |nodes| ensures Relocated(m[i], nodes[i]) {
      assert Placed(nodes[i], i, |nodes|);
    }
  }

  /** The scope half of `cloneCell` relocates nodes and nothing more. */
  lemma GrownAndShiftedRelocates(n0: seq<Node>, scopes: seq<nat>, s: nat, to: CellAddress, d: Direction, sheet: string)
    requires WellFormed(n0) && 0 < s < |n0| && forall x :: x in scopes ==> 0 < x < |n0|
    ensures Relocations(n0, GrownAndShifted(n0, scopes, s, to, d, sheet))
  {
    var a := RelAddress(1, d);
    var g := GrowAt(n0, s, a);
    GrowAtRelocates(n0, s, a);
    var r := GrownAndShifted(n0, scopes, s, to, d, sheet);
    var list := SelectScopes(scopes, AfterCellOf(g, to, d, sheet));
    assert forall k :: 0 <= k < |list| ==> list[k] in scopes;
    forall i | 0 <= i < |n0| ensures Relocated(r[i], n0[i]) {
      assert r[i] == Shift(g[i], Moves(Kids(n0), list, i), a);
    }
  }

  /** Two attribute maps that differ at most in `r` agree once `r` is set. */
  lemma RekeyedRef(a: map<string, string>, b: map<string, string>, r: string)
    requires a - {"r"} == b - {"r"}
    ensures a["r" := r] == b["r" := r]
  {
    forall k: string | k != "r" ensures (k in a <==> k in b) && (k in a ==> a[k] == b[k]) {
      assert k in a <==> k in a - {"r"};
      assert k in b <==> k in b - {"r"};
      if k in a {
        assert (a - {"r"})[k] == a[k] && (b - {"r"})[k] == b[k];
      }
    }
  }

  /** Every cell of `cells` kept its attributes, except perhaps `r` when
      `renamed` holds, and every one not in `written` kept its value. */
  twostate predicate CellsKept(cells: set<Cell>, renamed: bool, written: set<Cell>)
    reads cells
  {
    forall c :: c in cells ==>
      (if renamed then c.attributes - {"r"} == old(c.attributes) - {"r"} else c.attributes == old(c.attributes)) &&
      (c !in written ==> c.value == old(c.value))
  }

  /** `copy`, filed at `at`, carries the attributes `source` had, with `r`
      naming `at`, and the formula of `source`. */
  twostate predicate CopiedAt(source: Cell, new copy: Cell, at: CellAddress)
    reads source, copy
  {
    ValidAddress(at) && copy.attributes == old(source.attributes)["r" := GetCellRef(at)] && copy.form == source.form
  }

  /** The cell half of `cloneCell` took `m0` to `m`: the cells at or past
      `to` along `d` moved one step on, a fresh copy of the anchor cell is
      filed at `to` with its value, and every cell of `m0` kept its
      attributes, up to `r`, and its value. */
  twostate predicate CellCopied(m0: map<CellAddress, Cell>, new m: map<CellAddress, Cell>, anchor: CellAddress,
    to: CellAddress, d: Direction)
    reads m0.Values, m.Values
  {
    CellCloned(m0, m, anchor, to, d) && fresh(m[to]) && m[to].value == old(m0[anchor].value) &&
    CopiedAt(m0[anchor], m[to], to) && CellsKept(m0.Values, true, {})
  }

  /** Item `index` of a line went to the cell at `at` of `m`: that cell
      holds `value` and, past the anchor, is a copy of the anchor; the
      range templates `r0` are kept; every cell of `m0` kept its
      attributes, up to `r` past the anchor, and its value, except the
      anchor itself when `index` is 0. */
  twostate predicate ItemWritten(m0: map<CellAddress, Cell>, new m: map<CellAddress, Cell>, anchor: CellAddress,
    at: CellAddress, index: nat, value: Json, r0: seq<Cell>, new r: seq<Cell>)
    reads m0.Values, m.Values
  {
    anchor in m0 && at in m && m[at].value == value && r == r0 &&
    (index > 0 ==> CopiedAt(m0[anchor], m[at], at)) &&
    CellsKept(m0.Values, index > 0, if index == 0 then {m0[anchor]} else {})
  }

  /** What placing one item past the anchor does: the cells from `to`
      on move one step along `d` and a clone of the anchor fills `to`,
      while scope `s` and its ancestors grow by one step and the scopes
      after `to` move by one step. */
  ghost predicate ItemPlaced(m0: map<CellAddress, Cell>, m: map<CellAddress, Cell>, n0: seq<Node>, n: seq<Node>,
    scopes: seq<nat>, s: nat, anchor: CellAddress, to: CellAddress, d: Direction, sheet: string)
  {
    WellFormed(n0) && 0 < s < |n0| && (forall x :: x in scopes ==> 0 < x < |n0|) &&
    CellCloned(m0, m, anchor, to, d) && n == GrownAndShifted(n0, scopes, s, to, d, sheet)
  }

  /** What placing item `index` of a line leaves: nodes relocated, and
      either nothing changed (`index == 0`, the anchor itself) or the item
      placed at its cell `index` steps past the anchor. */
  ghost predicate Placement(m0: map<CellAddress, Cell>, m: map<CellAddress, Cell>, n0: seq<Node>, n: seq<Node>,
    scopes: seq<nat>, s: nat, anchor: CellAddress, index: nat, d: Direction, sheet: string)
  {
    Relocations(n0, n) && anchor in m && AddAddress(anchor, RelAddress(index, d)) in m &&
    (index == 0 ==> m == m0 && n == n0) &&
    (index > 0 ==> ItemPlaced(m0, m, n0, n, scopes, s, anchor, AddAddress(anchor, RelAddress(index, d)), d, sheet))
  }

  /** The cell map after the cell half of `cloneCell`: everything at or
      after `to` along `d` one step further, and a new cell at `to`. */
  ghost predicate CellCloned(m0: map<CellAddress, Cell>, m: map<CellAddress, Cell>, anchor: CellAddress, to: CellAddress, d: Direction) {
    anchor in m0 && to in m && m == ShiftMap(m0, AtOrAfter(m0.Keys, to, d), RelAddress(1, d))[to := m[to]]
  }

  /** The keys inside the range `from`: the cells `copyRange` clones. */
  function Inside(keys: set<CellAddress>, from: RangeAddress): (s: set<CellAddress>)
    ensures s <= keys && forall a :: a in s <==> a in keys && InRangeAddr(from, a)
  {
    set a | a in keys && InRangeAddr(from, a)
  }

  /** `inRange(from)` as a filter over keys. */
  function InsideOf(from: RangeAddress): CellAddress -> bool {
    a => InRangeAddr(from, a)
  }

  /** The keys `copyRange` clones, in the order `getCells` lists them. */
  lemma InsideOrder(order: seq<CellAddress>, keys: set<CellAddress>, from: RangeAddress)
    requires OrderAgrees(order, keys)
    ensures NoDup(Filter(order, InsideOf(from))) && Elems(Filter(order, InsideOf(from))) == Inside(keys, from)
  {
  }

  /** No key of `ins` moved by `delta` is itself a key of `ins`: the copies
      land clear of the cells they copy. */
  predicate Clear(ins: set<CellAddress>, delta: CellAddress) {
    forall a, b :: a in ins && b in ins ==> AddAddress(a, delta) != b
  }

  /** The cells of a sheet after `copyRange(from, to, d)` took them from
      `m0` to `m`: the cells at or past `to` along `d`, within its span
      across, moved by the span of `from`; then each key inside `from`
      gained a copy `delta` further on, `delta` taking the anchor of `from`
      to that of `to`. Every other key keeps its cell. When the copies land
      beyond `from`, each is a new cell holding its source's value and
      attributes, with `r` naming its new place. */
  ghost predicate RangeCopied(m0: map<CellAddress, Cell>, m: map<CellAddress, Cell>, from: RangeAddress, to: RangeAddress, d: Direction)
    reads m0.Values`value, m0.Values`attributes, m.Values`value, m.Values`attributes
  {
    var moved := ShiftMap(m0, AtOrAfterRange(m0.Keys, to, d), RelAddress(Dim(from, d), d));
    var delta := SubtractAddress(to.near, from.near);
    var ins := Inside(moved.Keys, from);
    ShiftMapValues(m0, AtOrAfterRange(m0.Keys, to, d), RelAddress(Dim(from, d), d));
    m.Keys == moved.Keys + Image(ins, delta) &&
    (forall b :: b in moved && b !in Image(ins, delta) ==> m[b] == moved[b]) &&
    (Beyond(from, delta, d) ==>
      Copies(moved, m, ins, delta) && forall a :: a in ins ==> m[AddAddress(a, delta)] !in moved.Values)
  }

  /** `delta` carries the range `from` straight along `d` past its own
      span, and `from` starts on the grid along `d`. */
  predicate Beyond(from: RangeAddress, delta: CellAddress, d: Direction) {
    Get(from.near, d) >= 0 && Get(delta, Other(d)) == 0 && Get(delta, d) >= Dim(from, d)
  }

  /** A copy `delta` beyond a range lands clear of it. */
  lemma ClearPastRange(keys: set<CellAddress>, from: RangeAddress, delta: CellAddress, d: Direction)
    requires Beyond(from, delta, d)
    ensures Clear(Inside(keys, from), delta)
  {
    forall a, b | a in Inside(keys, from) && b in Inside(keys, from) ensures AddAddress(a, delta) != b {
      SubtractUndoesAdd(a, delta);
      match d
      case Vertical =>
      case Horizontal =>
    }
  }

  /** Each key of `ins` moved by `delta` holds a copy of the cell `src` has
      at that key: its value, and its attributes with `r` naming the new
      place. */
  ghost predicate Copies(src: map<CellAddress, Cell>, m: map<CellAddress, Cell>, ins: set<CellAddress>, delta: CellAddress)
    reads src.Values`value, src.Values`attributes, m.Values`value, m.Values`attributes
  {
    forall a :: a in ins ==>
      a in src && ValidAddress(AddAddress(a, delta)) && AddAddress(a, delta) in m &&
      m[AddAddress(a, delta)].value == src[a].value &&
      m[AddAddress(a, delta)].attributes == src[a].attributes["r" := GetCellRef(AddAddress(a, delta))]
  }

  /** The moving half of `copyRange`: every cell of `sheet` at or after
      `range` along `d`, within its span on the other axis, moves `size`
      further, the farthest first; only their `r` attributes change. */
  method ShiftBand(sheet: WorkSheet, range: RangeAddress, size: nat, d: Direction)
    requires sheet.Valid() && size >= 1
    modifies sheet, sheet.index.cells.Values`attributes
    ensures sheet.Valid() && sheet.ranges == old(sheet.ranges)
    ensures sheet.index.cells ==
      ShiftMap(old(sheet.index.cells), AtOrAfterRange(old(sheet.index.cells).Keys, range, d), RelAddress(size, d))
    ensures forall c :: c in old(sheet.index.cells).Values ==> c.attributes - {"r"} == old(c.attributes) - {"r"}
  {
    var delta := RelAddress(size, d);
    var keys := BandOrder(sheet.index.order, range, d);
    BandOrderFacts(sheet.index.order, sheet.index.cells.Keys, range, d);
    var cells := sheet.CellsOf(keys);
    forall i | 0 <= i < |keys| ensures CanShift(sheet.index.cells, Elems(keys[..i]), keys[i], delta) {
      BandOrderStep(sheet.index.cells, sheet.index.order, range, d, size, i);
    }
    BandOrderCovers(sheet.index.cells, sheet.index.order, range, d);
    sheet.MoveEach(cells, keys, delta, sheet.index.cells);
  }

  /** What a cell holds apart from its place: its value and its attributes. */
  datatype Content = Content(value: Json, attributes: map<string, string>)

  /** `got` records what the cells of `m` hold. */
  ghost predicate Holds(m: map<CellAddress, Cell>, got: map<CellAddress, Content>)
    reads m.Values`value, m.Values`attributes
  {
    got.Keys == m.Keys && forall b :: b in m ==> got[b] == Content(m[b].value, m[b].attributes)
  }

  /** The contents of the cells of `m`, key by key. */
  ghost function Snapshot(m: map<CellAddress, Cell>): (r: map<CellAddress, Content>)
    reads m.Values`value, m.Values`attributes
    ensures Holds(m, r)
  {
    map a | a in m :: Content(m[a].value, m[a].attributes)
  }

  lemma HoldsUpdate(m: map<CellAddress, Cell>, got: map<CellAddress, Content>, k: CellAddress, c: Cell)
    requires Holds(m, got)
    ensures Holds(m[k := c], got[k := Content(c.value, c.attributes)])
  {
  }

  /** The copy of `c` filed at `to`: same value, `r` naming `to`. */
  function Copied(c: Content, to: CellAddress): (r: Content)
    requires ValidAddress(to)
    ensures r.value == c.value && r.attributes.Keys == c.attributes.Keys + {"r"}
    ensures r.attributes["r"] == GetCellRef(to) && forall k :: k in c.attributes && k != "r" ==> r.attributes[k] == c.attributes[k]
  {
    Content(c.value, c.attributes["r" := GetCellRef(to)])
  }

  /** The keys of `ins` moved by `delta`, built up key by key. */
  function Targets(ins: seq<CellAddress>, delta: CellAddress): (t: set<CellAddress>)
    ensures |ins| > 0 ==> AddAddress(ins[|ins| - 1], delta) in t
  {
    if |ins| == 0 then {} else Targets(ins[..|ins| - 1], delta) + {AddAddress(ins[|ins| - 1], delta)}
  }

  lemma TargetsStep(ins: seq<CellAddress>, i: nat, delta: CellAddress)
    requires i < |ins|
    ensures Targets(ins[..i + 1], delta) == Targets(ins[..i], delta) + {AddAddress(ins[i], delta)}
  {
    assert ins[..i + 1][..i] == ins[..i];
  }

  /** Every target comes from some key. */
  lemma {:induction false} TargetSource(ins: seq<CellAddress>, x: CellAddress, delta: CellAddress) returns (j: nat)
    requires x in Targets(ins, delta)
    ensures j < |ins| && x == AddAddress(ins[j], delta)
  {
    var n := |ins| - 1;
    if x == AddAddress(ins[n], delta) {
      j := n;
    } else {
      j := TargetSource(ins[..n], x, delta);
    }
  }

  /** Every key has its target. */
  lemma {:induction false} TargetOf(ins: seq<CellAddress>, j: nat, delta: CellAddress)
    requires j < |ins|
    ensures AddAddress(ins[j], delta) in Targets(ins, delta)
  {
    if j < |ins| - 1 {
      TargetOf(ins[..|ins| - 1], j, delta);
    }
  }

  lemma TargetsImage(ins: seq<CellAddress>, delta: CellAddress)
    ensures Targets(ins, delta) == Image(Elems(ins), delta)
  {
    forall x | x in Targets(ins, delta) ensures x in Image(Elems(ins), delta) {
      var j := TargetSource(ins, x, delta);
      assert ins[j] in Elems(ins);
    }
    forall x | x in Image(Elems(ins), delta) ensures x in Targets(ins, delta) {
      var a :| a in Elems(ins) && x == AddAddress(a, delta);
      var j :| 0 <= j < |ins| && ins[j] == a;
      TargetOf(ins, j, delta);
    }
  }

  /** `Copies` on contents, key by key of `ins`: `got` holds at each key
      moved by `delta` the copy of what `src` holds at that key. */
  predicate CopiedAll(src: map<CellAddress, Content>, got: map<CellAddress, Content>, ins: seq<CellAddress>, delta: CellAddress) {
    forall j :: 0 <= j < |ins| ==>
      ins[j] in src && ValidAddress(AddAddress(ins[j], delta)) && AddAddress(ins[j], delta) in got &&
      got[AddAddress(ins[j], delta)] == Copied(src[ins[j]], AddAddress(ins[j], delta))
  }

  /** One more copy filed, at a target no earlier copy used. */
  lemma CopiedStep(src: map<CellAddress, Content>, got: map<CellAddress, Content>, ins: seq<CellAddress>, i: nat, delta: CellAddress)
    requires i < |ins| && CopiedAll(src, got, ins[..i], delta)
    requires ins[i] in src && ValidAddress(AddAddress(ins[i], delta))
    requires forall j :: 0 <= j < i ==> AddAddress(ins[j], delta) != AddAddress(ins[i], delta)
    ensures CopiedAll(src, got[AddAddress(ins[i], delta) := Copied(src[ins[i]], AddAddress(ins[i], delta))], ins[..i + 1], delta)
  {
  }

  /** Contents that agree with the cells give `Copies` of the cells. */
  lemma CopiesOfContents(src: map<CellAddress, Cell>, base: map<CellAddress, Cell>, made: map<CellAddress, Cell>,
                         ins: seq<CellAddress>, delta: CellAddress, d0: map<CellAddress, Content>, got: map<CellAddress, Content>)
    requires CopiedAll(d0, got, ins, delta) && Holds(src, d0) && Holds(made, got)
    ensures Copies(src, base + made, Elems(ins), delta)
  {
    forall a | a in Elems(ins)
      ensures a in src && ValidAddress(AddAddress(a, delta)) && AddAddress(a, delta) in base + made &&
        (base + made)[AddAddress(a, delta)].value == src[a].value &&
        (base + made)[AddAddress(a, delta)].attributes == src[a].attributes["r" := GetCellRef(AddAddress(a, delta))]
    {
      var j :| 0 <= j < |ins| && ins[j] == a;
    }
  }

  /** `cloneTo` from an occupied source, seen on the cell map alone; the
      cells recorded in `m0` and `made` keep what they hold. */
  method CloneOne(sheet: WorkSheet, from: CellAddress, to: CellAddress,
                  ghost m0: map<CellAddress, Cell>, ghost d0: map<CellAddress, Content>,
                  ghost made: map<CellAddress, Cell>, ghost got: map<CellAddress, Content>)
    requires sheet.Valid() && ValidAddress(to) && from in sheet.index.cells
    requires Holds(m0, d0) && Holds(made, got)
    modifies sheet
    ensures sheet.Valid() && sheet.ranges == old(sheet.ranges)
    ensures to in sheet.index.cells && fresh(sheet.index.cells[to])
    ensures sheet.index.cells == old(sheet.index.cells)[to := sheet.index.cells[to]]
    ensures Content(sheet.index.cells[to].value, sheet.index.cells[to].attributes) ==
      Copied(old(Content(sheet.index.cells[from].value, sheet.index.cells[from].attributes)), to)
    ensures Holds(m0, d0) && Holds(made, got)
  {
    var o := sheet.CloneCell(from, to);
  }

  /** The cloning half of `copyRange`: `cloneTo` from each key of `ins`,
      in order, to that key moved by `delta`. Each clone adds its target
      and keeps every other key; when the targets land clear of `ins`,
      each holds a new copy of the cell at its source. */
  method CloneEach(sheet: WorkSheet, ins: seq<CellAddress>, delta: CellAddress, ghost clear: bool)
    requires sheet.Valid() && delta.c >= 0 && delta.r >= 0 && NoDup(ins) && (clear ==> Clear(Elems(ins), delta))
    requires forall a :: a in ins ==> a in sheet.index.cells
    modifies sheet
    ensures sheet.Valid() && sheet.ranges == old(sheet.ranges)
    ensures sheet.index.cells.Keys == old(sheet.index.cells).Keys + Image(Elems(ins), delta)
    ensures forall b :: b in old(sheet.index.cells) && b !in Image(Elems(ins), delta) ==>
      sheet.index.cells[b] == old(sheet.index.cells)[b]
    ensures clear ==>
      Copies(old(sheet.index.cells), sheet.index.cells, Elems(ins), delta) &&
      forall a :: a in ins ==> sheet.index.cells[AddAddress(a, delta)] !in old(sheet.index.cells).Values
  {
    ghost var m0 := sheet.index.cells;
    ghost var d0 := Snapshot(m0);
    assert forall j :: 0 <= j < |ins| ==> ins[j] in m0 && ValidAddress(ins[j]) by {
      forall j | 0 <= j < |ins| ensures ins[j] in m0 && ValidAddress(ins[j]) {
        assert ins[j] in ins;
      }
    }
    assert ins[..0] == [];
    ghost var made, got := CloneFrom(sheet, ins, 0, delta, m0, d0, map[], map[], clear);
    CloneEachDone(m0, made, d0, got, ins, delta, clear);
    assert sheet.index.cells == m0 + made;
  }

  /** No cell of `made` is a cell of `m0`. */
  ghost predicate Unshared(made: map<CellAddress, Cell>, m0: map<CellAddress, Cell>) {
    forall b :: b in made ==> made[b] !in m0.Values
  }

  lemma UnsharedAdd(made: map<CellAddress, Cell>, m0: map<CellAddress, Cell>, to: CellAddress, c: Cell)
    requires Unshared(made, m0) && c !in m0.Values
    ensures Unshared(made[to := c], m0)
  {
  }

  /** The loop of `CloneEach` from key `i` on, over the bookkeeping maps:
      `made` and `got` record the copies filed for the keys before `i`. */
  method CloneFrom(sheet: WorkSheet, ins: seq<CellAddress>, i: nat, delta: CellAddress,
                   ghost m0: map<CellAddress, Cell>, ghost d0: map<CellAddress, Content>,
                   ghost made: map<CellAddress, Cell>, ghost got: map<CellAddress, Content>, ghost clear: bool)
    returns (ghost made2: map<CellAddress, Cell>, ghost got2: map<CellAddress, Content>)
    requires sheet.Valid() && NoDup(ins) && i <= |ins| && delta.c >= 0 && delta.r >= 0
    requires forall j :: 0 <= j < |ins| ==> ins[j] in m0 && ValidAddress(ins[j])
    requires clear ==> Clear(Elems(ins), delta)
    requires Holds(m0, d0) && Holds(made, got)
    requires sheet.index.cells == m0 + made && made.Keys == Targets(ins[..i], delta)
    requires Unshared(made, m0)
    requires clear ==> CopiedAll(d0, got, ins[..i], delta)
    modifies sheet
    ensures sheet.Valid() && sheet.ranges == old(sheet.ranges)
    ensures Holds(m0, d0) && Holds(made2, got2)
    ensures sheet.index.cells == m0 + made2 && made2.Keys == Targets(ins, delta)
    ensures Unshared(made2, m0)
    ensures clear ==> CopiedAll(d0, got2, ins, delta)
    decreases |ins| - i
  {
    if i == |ins| {
      PrefixWhole(ins);
      return made, got;
    }
    var m1, g1 := CloneStep(sheet, ins, i, delta, m0, d0, made, got, clear);
    made2, got2 := CloneFrom(sheet, ins, i + 1, delta, m0, d0, m1, g1, clear);
  }

  lemma PrefixWhole(ins: seq<CellAddress>)
    ensures ins[..|ins|] == ins
  {
  }

  /** What the finished `CloneEach` loop leaves, stated on the whole of `ins`. */
  lemma CloneEachDone(m0: map<CellAddress, Cell>, made: map<CellAddress, Cell>, d0: map<CellAddress, Content>,
                      got: map<CellAddress, Content>, ins: seq<CellAddress>, delta: CellAddress, clear: bool)
    requires made.Keys == Targets(ins, delta)
    requires Holds(m0, d0) && Holds(made, got) && (clear ==> CopiedAll(d0, got, ins, delta)) && Unshared(made, m0)
    ensures (m0 + made).Keys == m0.Keys + Image(Elems(ins), delta)
    ensures forall b :: b in m0 && b !in Image(Elems(ins), delta) ==> (m0 + made)[b] == m0[b]
    ensures clear ==> Copies(m0, m0 + made, Elems(ins), delta)
    ensures forall a :: a in ins ==> (m0 + made)[AddAddress(a, delta)] !in m0.Values
  {
    TargetsImage(ins, delta);
    if clear {
      CopiesOfContents(m0, m0, made, ins, delta, d0, got);
    }
    forall a | a in ins ensures (m0 + made)[AddAddress(a, delta)] !in m0.Values {
      var j :| 0 <= j < |ins| && ins[j] == a;
      TargetOf(ins, j, delta);
    }
  }

  /** One turn of `CloneEach`: clone `ins[i]` and record the copy and its
      contents. */
  method CloneStep(sheet: WorkSheet, ins: seq<CellAddress>, i: nat, delta: CellAddress,
                   ghost m0: map<CellAddress, Cell>, ghost d0: map<CellAddress, Content>,
                   ghost made: map<CellAddress, Cell>, ghost got: map<CellAddress, Content>, ghost clear: bool)
    returns (ghost made2: map<CellAddress, Cell>, ghost got2: map<CellAddress, Content>)
    requires sheet.Valid() && NoDup(ins) && i < |ins| && delta.c >= 0 && delta.r >= 0
    requires forall j :: 0 <= j < |ins| ==> ins[j] in m0 && ValidAddress(ins[j])
    requires clear ==> Clear(Elems(ins), delta)
    requires Holds(m0, d0) && Holds(made, got)
    requires sheet.index.cells == m0 + made && made.Keys == Targets(ins[..i], delta)
    requires Unshared(made, m0)
    requires clear ==> CopiedAll(d0, got, ins[..i], delta)
    modifies sheet
    ensures sheet.Valid() && sheet.ranges == old(sheet.ranges)
    ensures Holds(m0, d0) && Holds(made2, got2)
    ensures sheet.index.cells == m0 + made2 && made2.Keys == Targets(ins[..i + 1], delta)
    ensures Unshared(made2, m0)
    ensures clear ==> CopiedAll(d0, got2, ins[..i + 1], delta)
  {
    var to := AddAddress(ins[i], delta);
    ghost var before := sheet.index.cells;
    ghost var src := Content(before[ins[i]].value, before[ins[i]].attributes);
    CloneOne(sheet, ins[i], to, m0, d0, made, got);
    CloneTurn(m0, made, before, sheet.index.cells, d0, got, ins, i, delta, clear);
    if clear {
      assert src == d0[ins[i]];
    }
    HoldsUpdate(made, got, to, sheet.index.cells[to]);
    UnsharedAdd(made, m0, to, sheet.index.cells[to]);
    made2 := made[to := sheet.index.cells[to]];
    got2 := got[to := Content(sheet.index.cells[to].value, sheet.index.cells[to].attributes)];
  }

  /** The bookkeeping of one turn of `CloneEach`: the copy of `ins[i]`
      filed at its target joins the copies made so far. */
  lemma CloneTurn(m0: map<CellAddress, Cell>, made: map<CellAddress, Cell>, before: map<CellAddress, Cell>,
                  after: map<CellAddress, Cell>, d0: map<CellAddress, Content>, got: map<CellAddress, Content>,
                  ins: seq<CellAddress>, i: nat, delta: CellAddress, clear: bool)
    requires NoDup(ins) && i < |ins| && delta.c >= 0 && delta.r >= 0
    requires forall j :: 0 <= j < |ins| ==> ins[j] in m0 && ValidAddress(ins[j])
    requires d0.Keys == m0.Keys && (clear ==> Clear(Elems(ins), delta))
    requires before == m0 + made && made.Keys == Targets(ins[..i], delta)
    requires clear ==> CopiedAll(d0, got, ins[..i], delta)
    requires ValidAddress(AddAddress(ins[i], delta))
    requires var to := AddAddress(ins[i], delta); to in after && after == before[to := after[to]]
    ensures var to := AddAddress(ins[i], delta);
      after == m0 + made[to := after[to]] &&
      made[to := after[to]].Keys == Targets(ins[..i + 1], delta) &&
      (clear ==> ins[i] !in made && CopiedAll(d0, got[to := Copied(d0[ins[i]], to)], ins[..i + 1], delta))
  {
    TargetsStep(ins, i, delta);
    var to := AddAddress(ins[i], delta);
    forall j | 0 <= j < i ensures AddAddress(ins[j], delta) != to {
      SubtractUndoesAdd(ins[j], delta);
      SubtractUndoesAdd(ins[i], delta);
    }
    MergeUpdate(m0, made, to, after[to]);
    if clear {
      NoEarlierTarget(ins, i, delta);
      CopiedStep(d0, got, ins, i, delta);
    }
  }

  /** When the copies land clear of `ins`, no key of `ins` is the target of
      an earlier key. */
  lemma NoEarlierTarget(ins: seq<CellAddress>, i: nat, delta: CellAddress)
    requires i < |ins| && Clear(Elems(ins), delta)
    ensures ins[i] !in Targets(ins[..i], delta)
  {
    TargetsImage(ins[..i], delta);
    forall a | a in Elems(ins[..i]) ensures AddAddress(a, delta) != ins[i] {
      assert a in ins && ins[i] in ins;
    }
  }

  lemma MergeUpdate<V>(m: map<CellAddress, V>, n: map<CellAddress, V>, k: CellAddress, v: V)
    ensures (m + n)[k := v] == m + n[k := v]
  {
  }

  // -------------------------------------------------------------------------
  // The workbook

  /** The first `i` items sit, in order, from `anchor` on along `d`: item
      `j` is the value of the cell `j` steps past the anchor. */
  ghost predicate Filled(m: map<CellAddress, Cell>, anchor: CellAddress, d: Direction, items: seq<Json>, i: nat)
    reads m.Values`value
  {
    i <= |items| &&
    forall j :: 0 <= j < i ==>
      AddAddress(anchor, RelAddress(j, d)) in m && m[AddAddress(anchor, RelAddress(j, d))].value == items[j]
  }

  /** Item `i` placed `i` steps past the anchor, with the places before it
      kept, extends a filled line by one. */
  lemma FilledGrows(m0: map<CellAddress, Cell>, m1: map<CellAddress, Cell>, anchor: CellAddress, d: Direction,
                    items: seq<Json>, i: nat)
    requires Filled(m0, anchor, d, items, i) && i < |items|
    requires AddAddress(anchor, RelAddress(i, d)) in m1 && m1[AddAddress(anchor, RelAddress(i, d))].value == items[i]
    requires forall j :: 0 <= j < i && AddAddress(anchor, RelAddress(j, d)) in m0 ==>
      AddAddress(anchor, RelAddress(j, d)) in m1 && m1[AddAddress(anchor, RelAddress(j, d))] == m0[AddAddress(anchor, RelAddress(j, d))]
    ensures Filled(m1, anchor, d, items, i + 1)
  {
  }

  /** Cloning into the place `index > 0` steps past the anchor along `d`
      leaves the anchor and the places before it where they were. */
  lemma LineKept<V>(m0: map<CellAddress, V>, m1: map<CellAddress, V>, anchor: CellAddress, index: nat, d: Direction)
    requires index > 0 && anchor in m0
    requires var at := AddAddress(anchor, RelAddress(index, d));
      at in m1 && m1 == ShiftMap(m0, AtOrAfter(m0.Keys, at, d), RelAddress(1, d))[at := m1[at]]
    ensures anchor in m1 && m1[anchor] == m0[anchor]
    ensures forall j :: 0 <= j < index && AddAddress(anchor, RelAddress(j, d)) in m0 ==>
      AddAddress(anchor, RelAddress(j, d)) in m1 && m1[AddAddress(anchor, RelAddress(j, d))] == m0[AddAddress(anchor, RelAddress(j, d))]
  {
    var at := AddAddress(anchor, RelAddress(index, d));
    ShiftLine(m0, at, d, anchor);
    CellAtOrAfterDimMeaning(anchor, at, d);
    forall j | 0 <= j < index && AddAddress(anchor, RelAddress(j, d)) in m0
      ensures AddAddress(anchor, RelAddress(j, d)) in m1 && m1[AddAddress(anchor, RelAddress(j, d))] == m0[AddAddress(anchor, RelAddress(j, d))]
    {
      var b := AddAddress(anchor, RelAddress(j, d));
      ShiftLine(m0, at, d, b);
      CellAtOrAfterDimMeaning(b, at, d);
    }
  }

  /** The steps of `interpolateRange` compose: what the expansion
      established about the template scope and its clones survives the
      interpolation of the clones, which keeps every scope up to `t`. */
  lemma RangeSteps(n0: seq<Node>, n1: seq<Node>, n2: seq<Node>, s0: seq<nat>, s1: seq<nat>, s2: seq<nat>,
                   clones: seq<nat>, t: nat)
    requires t < |n0| && KeptBelow(n0, n1, t) && ParentsKept(n0, n1) && s1 == s0 + clones
    requires n1[t].template == ScalarText(n0[t].template)
    requires forall i :: 0 <= i < |clones| ==> |n0| <= clones[i] < |n1| && n1[clones[i]].parent == Some(t)
    requires KeptBelow(n1, n2, t + 1) && ParentsKept(n1, n2) && s1 <= s2
    ensures KeptBelow(n0, n2, t) && ParentsKept(n0, n2) && s0 <= s2
    ensures |s2| >= |s0| + |clones| && n2[t].template == ScalarText(n0[t].template)
    ensures forall i :: |s0| <= i < |s0| + |clones| ==> |n0| <= s2[i] < |n2| && n2[s2[i]].parent == Some(t)
    ensures s2[|s0|..|s0| + |clones|] == clones
    ensures n1[t].children == clones ==> n2[t].children == clones
  {
    KeptBelowTrans(n0, n1, n2, t, t + 1);
    assert s2[..|s1|] == s1;
    forall i | |s0| <= i < |s0| + |clones|
      ensures |n0| <= s2[i] < |n2| && n2[s2[i]].parent == Some(t)
    {
      assert s2[i] == s1[i] == clones[i - |s0|];
    }
    assert s2[|s0|..|s0| + |clones|] == s1[|s0|..] == clones;
  }

  /** Adopting the clones changes links only, so they stay item clones. */
  lemma AdoptedItems(ns: seq<Node>, ms: seq<Node>, t: nat, cs: seq<nat>)
    requires |ms| == |ns| && t < |ns| && ms[t] == ns[t].(children := cs)
    requires forall i :: 0 <= i < |cs| ==> ItemClone(ns, t, cs[i], i) && ms[cs[i]] == ns[cs[i]].(parent := Some(t))
    requires forall i :: 0 <= i < |ms| && i != t && i !in cs ==> ms[i] == ns[i]
    ensures forall i :: 0 <= i < |cs| ==> ItemClone(ms, t, cs[i], i)
  {
    forall i | 0 <= i < |ns| ensures ms[i].isScope == ns[i].isScope && ms[i].sheet == ns[i].sheet &&
      ms[i].kind == ns[i].kind && ms[i].template == ns[i].template
    {
      if i in cs {
        var j :| 0 <= j < |cs| && cs[j] == i;
        assert ms[cs[j]] == ns[cs[j]].(parent := Some(t));
      }
    }
    ItemClonesKept(ns, ms, t, cs);
  }

  /** Relocating nodes keeps every list, so a node no list holds stays so. */
  lemma RelocationsUnlisted(n0: seq<Node>, n1: seq<Node>, x: nat)
    requires Relocations(n0, n1) && Unlisted(n0, x)
    ensures Unlisted(n1, x)
  {
    forall i, k | 0 <= i < |n1| && 0 <= k < |n1[i].children| ensures n1[i].children[k] != x {
      assert Relocated(n1[i], n0[i]);
    }
  }

  /** What `interpolate` does with a scope, by the kind of its template:
      fill it with a scalar, repeat it along a direction, or nothing. */
  datatype Step = Fill | Repeat(d: Direction) | Skip

  /** The `switch` of `interpolate`: a scalar template (`${`) fills, a row
      template (`_{`) repeats horizontally, a column template (`|{`)
      repeats vertically, and a scope without a template is skipped. */
  function Dispatch(kind: Option<Kind>): (st: Step)
    ensures st == Fill <==> kind == Some(ScalarKind)
    ensures st == Repeat(Horizontal) <==> kind == Some(RowKind)
    ensures st == Repeat(Vertical) <==> kind == Some(ColumnKind)
    ensures st == Skip <==> kind !in {Some(ScalarKind), Some(RowKind), Some(ColumnKind)}
  {
    match kind
    case Some(ScalarKind) => Fill
    case Some(RowKind) => Repeat(Horizontal)
    case Some(ColumnKind) => Repeat(Vertical)
    case _ => Skip
  }

  /** The step a template's own text selects: `_{` repeats horizontally,
      `|{` vertically, `${` fills, and a template without a marker is
      skipped. */
  lemma DispatchOfTemplate(t: string)
    ensures Dispatch(TemplateType(t)) == Repeat(Horizontal) <==> |t| >= 2 && t[..2] == "_{"
    ensures Dispatch(TemplateType(t)) == Repeat(Vertical) <==> |t| >= 2 && t[..2] == "|{"
    ensures Dispatch(TemplateType(t)) == Fill <==> |t| >= 2 && t[..2] == "${"
  {
  }

  class Workbook {
    /** The worksheets, in the order of the workbook's sheet list. */
    const sheets: seq<WorkSheet>
    /** The scope tree; node 0 is `rootScope`. */
    const tree: ScopeTree
    /** `this.scopes`: every scope discovered or cloned, in order. */
    var scopes: seq<nat>
    /** The data-expression evaluator. */
    const eval: (Json, string) -> Json

    /** Every cell filed on some sheet. */
    ghost function Cells(): set<Cell>
      reads sheets
    {
      set i, c | 0 <= i < |sheets| && c in sheets[i].index.cells.Values :: c
    }

    ghost predicate SheetsValid()
      reads sheets, Cells()`attributes
    {
      (forall i, j :: 0 <= i < j < |sheets| ==> sheets[i] != sheets[j]) &&
      forall i :: 0 <= i < |sheets| ==> sheets[i].Valid()
    }

    /** The tree is well formed, the listed scopes are scopes of it, and
        every sheet is valid. */
    ghost predicate Valid()
      reads this, tree, sheets, Cells()`attributes
    {
      tree.Valid() && (forall k :: k in scopes ==> 0 < k < |tree.nodes|) && SheetsValid()
    }

    /** `sheetNames()`. */
    function Names(): (names: seq<string>)
      ensures |names| == |sheets| && forall k :: 0 <= k < |sheets| ==> names[k] == sheets[k].name
    {
      seq(|sheets|, k requires 0 <= k < |sheets| => sheets[k].name)
    }

    /** `getSheet(name)`: the first sheet of that name, if there is one. */
    function GetSheet(name: string): (k: Option<nat>)
      ensures k.Some? ==> k.value < |sheets| && sheets[k.value].name == name
      ensures k.Some? ==> forall j :: 0 <= j < k.value ==> sheets[j].name != name
      ensures k.None? ==> forall j :: 0 <= j < |sheets| ==> sheets[j].name != name
    {
      var i := IndexOf(Names(), name);
      if i == -1 then None
      else
        assert forall j :: 0 <= j < i ==> Names()[..i][j] == Names()[j];
        Some(i)
    }

    constructor (sheets: seq<WorkSheet>, eval: (Json, string) -> Json)
      requires (forall i, j :: 0 <= i < j < |sheets| ==> sheets[i] != sheets[j])
      requires forall i :: 0 <= i < |sheets| ==> sheets[i].Valid()
      ensures Valid() && fresh(tree) && this.sheets == sheets && this.eval == eval && scopes == []
      ensures tree.nodes == [NewRoot("")]
    {
      this.sheets := sheets;
      this.eval := eval;
      this.scopes := [];
      this.tree := new ScopeTree();
    }

    /** Every cell template of a valid sheet carries a canonical reference. */
    lemma ScopeCellsCanonical(k: nat)
      requires SheetsValid() && k < |sheets|
      ensures sheets[k].Listed()
      ensures var cs := sheets[k].GetScopeCells(); forall i :: 0 <= i < |cs| ==> CanonicalRef(cs[i].Ref())
    {
      assert sheets[k].Valid();
      var cs := sheets[k].GetScopeCells();
      forall i | 0 <= i < |cs| ensures CanonicalRef(cs[i].Ref()) {
        var a :| a in sheets[k].index.cells && sheets[k].index.cells[a] == cs[i];
        cs[i].AddressOfRef(a);
      }
    }

    /** `getRangeScopes` over the first `k` sheet names: each name's sheet
        (the first of that name) contributes its range scopes in order. */
    function RangeScopesUpTo(k: nat): (r: Result<seq<Node>>)
      requires k <= |sheets|
      reads sheets
      ensures r.Ok? ==> forall i :: 0 <= i < |r.value| ==> Discovered(r.value[i]) && r.value[i].kind == RangeKind
    {
      if k == 0 then Ok([])
      else
        var name := sheets[k - 1].name;
        var j := GetSheet(name).value;
        match RangeScopesUpTo(k - 1)
        case Err(e) => Err(e)
        case Ok(ns) =>
          match RangeScopes(name, sheets[j].GetScopeRanges())
          case Err(e) => Err(e)
          case Ok(ms) => Ok(ns + ms)
    }

    /** `getCellScopes` over the first `k` sheet names. */
    function CellScopesUpTo(k: nat): (ns: seq<Node>)
      requires ScopeCellsReady() && k <= |sheets|
      reads sheets, Cells()
      ensures forall i :: 0 <= i < |ns| ==> Discovered(ns[i]) && ns[i].kind == CellKind
    {
      if k == 0 then []
      else
        var name := sheets[k - 1].name;
        var j := GetSheet(name).value;
        CellScopesUpTo(k - 1) + CellScopes(name, sheets[j].GetScopeCells())
    }

    /** Every sheet's indices agree and its cell templates carry canonical
        references: what reading the cell scopes needs. */
    ghost predicate ScopeCellsReady()
      reads sheets, Cells()
    {
      forall j :: 0 <= j < |sheets| ==>
        sheets[j].Listed() && sheets[j].index.cells.Values <= Cells() &&
        forall i :: 0 <= i < |sheets[j].GetScopeCells()| ==> CanonicalRef(sheets[j].GetScopeCells()[i].Ref())
    }

    lemma ScopeCellsReadyValid()
      requires SheetsValid()
      ensures ScopeCellsReady()
    {
      forall j | 0 <= j < |sheets| ensures sheets[j].Listed() && sheets[j].index.cells.Values <= Cells() &&
        forall i :: 0 <= i < |sheets[j].GetScopeCells()| ==> CanonicalRef(sheets[j].GetScopeCells()[i].Ref())
      {
        ScopeCellsCanonical(j);
        CellsOfSheet(j);
      }
    }

    /** The cells filed on sheet `k` are among the workbook's cells. */
    lemma CellsOfSheet(k: nat)
      requires k < |sheets|
      ensures sheets[k].index.cells.Values <= Cells()
    {
    }

    /** `this.scopes` as `readZip` first builds it: every range scope, then
        every cell scope, sheet by sheet. */
    function DiscoveredScopes(): (r: Result<seq<Node>>)
      requires SheetsValid()
      reads sheets, Cells()
      ensures r.Ok? ==> forall i :: 0 <= i < |r.value| ==> Discovered(r.value[i])
    {
      match RangeScopesUpTo(|sheets|)
      case Err(e) => Err(e)
      case Ok(ns) => ScopeCellsReadyValid(); Ok(ns + CellScopesUpTo(|sheets|))
    }

    /** The scope part of `readZip`: discover the scopes, file them in the
        arena in order as `this.scopes`, and build the tree from them. */
    method ReadScopes() returns (o: Outcome)
      requires Valid() && tree.nodes == [NewRoot("")] && scopes == []
      modifies this, tree
      ensures Valid()
      ensures old(DiscoveredScopes()).Err? ==> o == Fail(old(DiscoveredScopes()).error) && tree.nodes == [NewRoot("")]
      ensures old(DiscoveredScopes()).Ok? ==> o == Pass && Built(old(DiscoveredScopes()).value)
    {
      var found := DiscoveredScopes();
      if found.Err? {
        return Fail(found.error);
      }
      FileScopes(found.value);
      o := Pass;
    }

    /** The arena holds the root and the scopes `ns` in order, listed as
        `this.scopes`, linked into a tree in which each scope is listed by
        its parent only and that parent is the root or a scope that
        contains it: the one `place(root)` chose for it when its turn came. */
    ghost predicate Built(ns: seq<Node>)
      reads this, tree
    {
      |tree.nodes| == |ns| + 1 && tree.nodes[0].parent.None? && WellFormed([NewRoot("")] + ns) &&
      (forall i :: 0 < i < |tree.nodes| ==> Bare(tree.nodes[i]) == ns[i - 1]) &&
      |scopes| == |ns| && (forall i :: 0 <= i < |ns| ==> scopes[i] == i + 1) &&
      Linked(tree.nodes) && (forall i :: 0 < i < |tree.nodes| ==> Attached(tree.nodes, [NewRoot("")] + ns, i)) &&
      WellFormed(tree.nodes) && PlacedFirstFit(tree.nodes, |tree.nodes|)
    }

    /** `this.scopes = ...` followed by `createScopeTree(this.scopes)`. */
    method FileScopes(ns: seq<Node>)
      requires tree.Valid() && tree.nodes == [NewRoot("")] && scopes == []
      requires forall i :: 0 <= i < |ns| ==> Discovered(ns[i])
      requires SheetsValid()
      modifies this`scopes, tree
      ensures Valid() && Built(ns)
    {
      AddScopes(ns);
      ghost var n0 := tree.nodes;
      assert forall i :: 0 < i < |n0| ==> n0[i].parent.None? && n0[i].children == [] by {
        assert forall i :: 0 < i < |n0| ==> n0[i] == ns[i - 1];
      }
      CreateScopeTree();
      SheetsUntouched();
      assert forall i :: 0 < i < |tree.nodes| ==> ns[i - 1] == n0[i] == Bare(n0[i]);
    }

    /** File each discovered scope in the arena and list it in `this.scopes`. */
    method AddScopes(ns: seq<Node>)
      requires tree.Valid() && tree.nodes == [NewRoot("")] && scopes == []
      requires forall i :: 0 <= i < |ns| ==> Discovered(ns[i])
      modifies this`scopes, tree
      ensures tree.Valid() && tree.nodes == [NewRoot("")] + ns
      ensures |scopes| == |ns| && forall i :: 0 <= i < |ns| ==> scopes[i] == i + 1
    {
      var k := 0;
      while k < |ns|
        invariant k <= |ns| && tree.Valid() && tree.nodes == [NewRoot("")] + ns[..k]
        invariant |scopes| == k && forall i :: 0 <= i < k ==> scopes[i] == i + 1
      {
        var i := tree.Add(ns[k]);
        scopes := scopes + [i];
        assert ns[..k + 1] == ns[..k] + [ns[k]];
        k := k + 1;
      }
      assert ns[..k] == ns;
    }

    /** `place(parent)(scope)`: hand `s` down to the first child that
        contains it, else append it to `p`'s children. */
    method Place(p: nat, s: nat) returns (ghost q: nat)
      requires tree.Valid() && p < s < |tree.nodes| && Closed(tree.nodes, s)
      modifies tree
      ensures tree.Valid() && q == PlaceTarget(old(tree.nodes), p, s) && |tree.nodes| == |old(tree.nodes)|
      ensures tree.nodes[s] == old(tree.nodes[s]).(parent := Some(q))
      ensures tree.nodes[q] == old(tree.nodes[q]).(children := old(tree.nodes[q].children) + [s])
      ensures forall i :: 0 <= i < |tree.nodes| && i != q && i != s ==> tree.nodes[i] == old(tree.nodes[i])
      decreases s - p
    {
      var cs := tree.nodes[p].children;
      assert After(cs, p, s);
      ghost var n0 := tree.nodes;
      ghost var first := FirstContaining(n0, cs, s);
      assert Placed(n0[s], s, |n0|);
      var k := 0;
      while k < |cs|
        invariant k <= first && tree.nodes == n0
      {
        assert Placed(n0[cs[k]], cs[k], |n0|);
        if ContainsScope(tree.nodes[cs[k]], tree.nodes[s]) {
          assert k == first;
          q := Place(cs[k], s);
          return;
        }
        k := k + 1;
      }
      tree.AddChild(p, s);
      q := p;
    }

    /** `createScopeTree(this.scopes)`: with every discovered scope filed in
        the arena in list order and nothing linked yet, place each one from
        the root. Afterwards only links have changed, every scope is listed
        exactly by its parent, and that parent is the root or a scope that
        contains it: the one `place(root)` chose on the tree as it stood
        when the scope's turn came. */
    method CreateScopeTree()
      requires tree.Valid() && tree.nodes[0].parent.None?
      requires forall i :: 0 <= i < |tree.nodes| ==> tree.nodes[i].parent.None? && tree.nodes[i].children == []
      modifies tree
      ensures tree.Valid() && |tree.nodes| == |old(tree.nodes)| && tree.nodes[0].parent.None?
      ensures forall i :: 0 <= i < |tree.nodes| ==> Bare(tree.nodes[i]) == Bare(old(tree.nodes[i]))
      ensures Linked(tree.nodes)
      ensures forall i :: 0 < i < |tree.nodes| ==> Attached(tree.nodes, old(tree.nodes), i)
      ensures PlacedFirstFit(tree.nodes, |tree.nodes|)
    {
      ghost var n0 := tree.nodes;
      assert Closed(n0, 1) by {
        forall i | 0 <= i < 1 ensures After(n0[i].children, i, 1) {}
      }
      var j := 1;
      while j < |tree.nodes|
        invariant PlacedUpTo(tree.nodes, n0, j) && PlacedFirstFit(tree.nodes, j)
        decreases |tree.nodes| - j
      {
        PlaceNext(j, n0);
        j := j + 1;
      }
    }

    /** One turn of `scopes.forEach(place(root))`: scope `j` is placed and
        the placement so far is kept. */
    method PlaceNext(j: nat, ghost n0: seq<Node>)
      requires PlacedUpTo(tree.nodes, n0, j) && PlacedFirstFit(tree.nodes, j) && j < |tree.nodes|
      modifies tree
      ensures PlacedUpTo(tree.nodes, n0, j + 1) && PlacedFirstFit(tree.nodes, j + 1)
    {
      ghost var before := tree.nodes;
      ghost var q := Place(0, j);
      PlaceRoot(before, tree.nodes, n0, j, q);
    }

    /** `forEach(s => s.move(a))` over the scopes `list`, in order. */
    method MoveScopes(list: seq<nat>, a: CellAddress)
      requires tree.Valid() && a.c >= 0 && a.r >= 0
      requires forall k :: 0 <= k < |list| ==> 0 < list[k] < |tree.nodes|
      modifies tree
      ensures tree.Valid() && |tree.nodes| == |old(tree.nodes)|
      ensures Kids(tree.nodes) == Kids(old(tree.nodes)) && Ups(tree.nodes) == Ups(old(tree.nodes))
      ensures forall i :: 0 <= i < |tree.nodes| ==>
        tree.nodes[i] == Shift(old(tree.nodes[i]), Moves(Kids(old(tree.nodes)), list, i), a)
    {
      ghost var n0 := tree.nodes;
      ghost var kids := Kids(n0);
      var k := 0;
      assert list[..0] == [];
      while k < |list|
        invariant k <= |list| && tree.Valid() && |tree.nodes| == |n0|
        invariant Kids(tree.nodes) == kids && Ups(tree.nodes) == Ups(n0)
        invariant forall i :: 0 <= i < |n0| ==> tree.nodes[i] == Shift(n0[i], Moves(kids, list[..k], i), a)
      {
        ghost var before := tree.nodes;
        tree.Move(list[k], a);
        MoveListStep(n0, before, tree.nodes, kids, list, k, a);
        k := k + 1;
      }
      assert list[..k] == list;
    }

    /** `this.scopes.filter(Scope.isAfterDim(to, d)).filter(s => s.onSheet(sheet))`. */
    function AfterCell(to: CellAddress, d: Direction, sheet: string): (list: seq<nat>)
      reads this, tree
      ensures forall x :: x in list <==>
        x in scopes && x < |tree.nodes| && RangeAfterCellDim(to, tree.nodes[x].address, d) && tree.nodes[x].sheet == sheet
    {
      var nodes := tree.nodes;
      SelectScopes(scopes, AfterCellOf(nodes, to, d, sheet))
    }

    /** `_cloneCell(from, to)` on sheet `k`; the other sheets stay as they are. */
    method CloneCellOn(k: nat, from: CellAddress, to: CellAddress) returns (o: Outcome)
      requires Valid() && k < |sheets| && ValidAddress(to)
      modifies sheets[k]
      ensures Valid() && sheets[k].ranges == old(sheets[k].ranges)
      ensures CellsKept(old(sheets[k].index.cells).Values, false, {})
      ensures from !in old(sheets[k].index.cells) ==> o == Fail(SourceNotOccupied(from)) && unchanged(sheets[k])
      ensures from in old(sheets[k].index.cells) ==>
        var cells := sheets[k].index.cells;
        o == Pass && to in cells && fresh(cells[to]) && cells == old(sheets[k].index.cells)[to := cells[to]] &&
        cells[to].attributes == old(sheets[k].index.cells[from].attributes)["r" := GetCellRef(to)] &&
        cells[to].value == old(sheets[k].index.cells[from].value) && cells[to].form == old(sheets[k].index.cells[from].form)
    {
      o := sheets[k].CloneCell(from, to);
      KeepOtherSheets(k);
    }

    /** `setValue(v)` on a cell of the workbook. */
    method SetCellValue(cell: Cell, v: Json)
      requires Valid()
      modifies cell`value
      ensures Valid() && cell.value == v
    {
      cell.SetValue(v);
    }

    /** `cloneCell(scope, cell, to, d)` for the cell filed at `anchor` on
        sheet `k`: make room at `to`, file a copy of the cell there, grow
        the scope by one along `d`, and move by one each listed scope of
        that sheet that starts past `to` along `d` and spans it. */
    method CloneCell(s: nat, k: nat, anchor: CellAddress, to: CellAddress, d: Direction)
      requires Valid() && 0 < s < |tree.nodes| && k < |sheets| && anchor in sheets[k].index.cells && ValidAddress(to)
      modifies sheets[k], sheets[k].index.cells.Values`attributes, tree
      ensures Valid() && scopes == old(scopes)
      ensures CellCopied(old(sheets[k].index.cells), sheets[k].index.cells, anchor, to, d)
      ensures sheets[k].ranges == old(sheets[k].ranges)
      ensures tree.nodes == GrownAndShifted(old(tree.nodes), old(scopes), s, to, d, sheets[k].name)
    {
      CopyCellInto(k, anchor, to, d);
      GrowAndShift(s, to, d, sheets[k].name);
    }

    /** The cell half of `cloneCell`: `insertCellMoveDim(to, d)`, then
        `cloneTo(to)` from the anchor cell wherever the insertion left it. */
    method CopyCellInto(k: nat, anchor: CellAddress, to: CellAddress, d: Direction)
      requires Valid() && k < |sheets| && anchor in sheets[k].index.cells && ValidAddress(to)
      modifies sheets[k], sheets[k].index.cells.Values`attributes
      ensures Valid()
      ensures CellCopied(old(sheets[k].index.cells), sheets[k].index.cells, anchor, to, d)
      ensures sheets[k].ranges == old(sheets[k].ranges)
    {
      ghost var m0 := sheets[k].index.cells;
      ghost var cell := m0[anchor];
      var from := MakeRoom(k, anchor, to, d);
      ghost var moved := cell.attributes;
      label Shifted:
      var o := CloneCellOn(k, from, to);
      forall c | c in m0.Values ensures c.attributes - {"r"} == old(c.attributes) - {"r"} {
        assert c in old@Shifted(sheets[k].index.cells).Values;
      }
      RekeyedRef(old(cell.attributes), moved, GetCellRef(to));
    }

    /** `insertCellMoveDim(to, d)` ahead of the copy: the anchor cell is
        now filed at `from`, one step further when it lay at or past `to`. */
    method MakeRoom(k: nat, anchor: CellAddress, to: CellAddress, d: Direction) returns (from: CellAddress)
      requires Valid() && k < |sheets| && anchor in sheets[k].index.cells
      modifies sheets[k], sheets[k].index.cells.Values`attributes
      ensures Valid() && sheets[k].ranges == old(sheets[k].ranges)
      ensures sheets[k].index.cells ==
        ShiftMap(old(sheets[k].index.cells), AtOrAfter(old(sheets[k].index.cells).Keys, to, d), RelAddress(1, d))
      ensures from == if CellAtOrAfterDim(anchor, to, d) then AddAddress(anchor, RelAddress(1, d)) else anchor
      ensures from in sheets[k].index.cells && sheets[k].index.cells[from] == old(sheets[k].index.cells[anchor])
      ensures CellsKept(old(sheets[k].index.cells).Values, true, {})
      ensures old(sheets[k].index.cells).Values <= sheets[k].index.cells.Values
    {
      ghost var m0 := sheets[k].index.cells;
      InsertCellMoveDimOn(k, to, d);
      assert unchanged(m0.Values`value);
      ShiftLine(m0, to, d, anchor);
      ShiftLineValues(m0, to, d);
      from := if CellAtOrAfterDim(anchor, to, d) then AddAddress(anchor, RelAddress(1, d)) else anchor;
    }

    /** The scope half of `cloneCell`: `growDim(1, d)` on the scope, then
        the listed scopes of the sheet past `to` each move by one. */
    method GrowAndShift(s: nat, to: CellAddress, d: Direction, sheet: string)
      requires Valid() && 0 < s < |tree.nodes|
      modifies tree
      ensures Valid() && tree.nodes == GrownAndShifted(old(tree.nodes), scopes, s, to, d, sheet)
    {
      GrowAndShiftTree(s, to, d, sheet);
      SheetsUntouched();
    }

    method GrowAndShiftTree(s: nat, to: CellAddress, d: Direction, sheet: string)
      requires tree.Valid() && 0 < s < |tree.nodes| && forall x :: x in scopes ==> 0 < x < |tree.nodes|
      modifies tree
      ensures tree.Valid() && tree.nodes == GrownAndShifted(old(tree.nodes), scopes, s, to, d, sheet)
    {
      ghost var n0 := tree.nodes;
      tree.GrowDim(s, 1, d);
      ghost var g := tree.nodes;
      assert g == GrowAt(n0, s, RelAddress(1, d));
      var list := AfterCell(to, d, sheet);
      forall j | 0 <= j < |list| ensures 0 < list[j] < |tree.nodes| {
        assert list[j] in list;
      }
      MoveScopes(list, RelAddress(1, d));
      assert Kids(g) == Kids(n0);
    }

    /** A change to the tree alone leaves the sheets as they were. */
    twostate lemma SheetsUntouched()
      requires old(SheetsValid())
      requires forall j :: 0 <= j < |sheets| ==> unchanged(sheets[j])
      requires forall j, c :: 0 <= j < |sheets| && c in old(sheets[j].index.cells.Values) ==> unchanged(c)
      ensures SheetsValid()
    {
      forall j | 0 <= j < |sheets| ensures sheets[j].Valid() {
        assert old(sheets[j].Valid());
      }
    }

    /** A cell filed on one sheet is filed on no other. */
    lemma SheetsApart(k: nat)
      requires SheetsValid() && k < |sheets|
      ensures forall j, c :: 0 <= j < |sheets| && j != k && c in sheets[j].index.cells.Values ==>
        c !in sheets[k].index.cells.Values
    {
      forall j, c | 0 <= j < |sheets| && j != k && c in sheets[j].index.cells.Values
        ensures c !in sheets[k].index.cells.Values
      {
        assert c.worksheet == sheets[j];
      }
    }

    /** State changes confined to sheet `k` and its cells keep every other
        sheet valid. */
    twostate lemma KeepOtherSheets(k: nat)
      requires old(SheetsValid()) && k < |sheets|
      requires forall j :: 0 <= j < |sheets| && j != k ==> unchanged(sheets[j])
      requires forall j, c :: 0 <= j < |sheets| && j != k && c in old(sheets[j].index.cells.Values) ==> unchanged(c)
      requires sheets[k].Valid()
      ensures SheetsValid()
    {
      forall j | 0 <= j < |sheets| && j != k ensures sheets[j].Valid() {
        assert old(sheets[j].Valid());
      }
    }

    /** A change confined to sheet `k`, its filing and new cells keeps the
        workbook valid. */
    twostate lemma KeepValid(k: nat)
      requires old(Valid()) && k < |sheets| && unchanged(this, tree)
      requires forall j :: 0 <= j < |sheets| && j != k ==> unchanged(sheets[j])
      requires forall j, c :: 0 <= j < |sheets| && j != k && c in old(sheets[j].index.cells.Values) ==> unchanged(c)
      requires sheets[k].Valid()
      ensures Valid()
    {
      KeepOtherSheets(k);
    }

    /** `insertCellMoveDim` on sheet `k`; the other sheets stay as they are. */
    method InsertCellMoveDimOn(k: nat, origin: CellAddress, d: Direction)
      requires Valid() && k < |sheets|
      modifies sheets[k], sheets[k].index.cells.Values`attributes
      ensures Valid() && sheets[k].ranges == old(sheets[k].ranges)
      ensures sheets[k].index.cells ==
        ShiftMap(old(sheets[k].index.cells), AtOrAfter(old(sheets[k].index.cells).Keys, origin, d), RelAddress(1, d))
      ensures forall c :: c in old(sheets[k].index.cells).Values ==> c.attributes - {"r"} == old(c.attributes) - {"r"}
    {
      var sheet := sheets[k];
      SheetsApart(k);
      sheet.InsertCellMoveDim(origin, d);
      KeepOtherSheets(k);
    }

    /** `ShiftBand` on sheet `k`; the other sheets stay as they are. */
    method ShiftBandOn(k: nat, range: RangeAddress, size: nat, d: Direction)
      requires Valid() && k < |sheets| && size >= 1
      modifies sheets[k], sheets[k].index.cells.Values`attributes
      ensures Valid() && sheets[k].ranges == old(sheets[k].ranges)
      ensures sheets[k].index.cells ==
        ShiftMap(old(sheets[k].index.cells), AtOrAfterRange(old(sheets[k].index.cells).Keys, range, d), RelAddress(size, d))
      ensures forall c :: c in old(sheets[k].index.cells).Values ==> c.attributes - {"r"} == old(c.attributes) - {"r"}
    {
      SheetsApart(k);
      ShiftBand(sheets[k], range, size, d);
      KeepOtherSheets(k);
    }

    /** `CloneEach` on sheet `k`; the other sheets stay as they are. */
    method CloneEachOn(k: nat, ins: seq<CellAddress>, delta: CellAddress, ghost clear: bool)
      requires Valid() && k < |sheets| && delta.c >= 0 && delta.r >= 0 && NoDup(ins)
      requires clear ==> Clear(Elems(ins), delta)
      requires forall a :: a in ins ==> a in sheets[k].index.cells
      modifies sheets[k]
      ensures Valid() && sheets[k].ranges == old(sheets[k].ranges)
      ensures sheets[k].index.cells.Keys == old(sheets[k].index.cells).Keys + Image(Elems(ins), delta)
      ensures forall b :: b in old(sheets[k].index.cells) && b !in Image(Elems(ins), delta) ==>
        sheets[k].index.cells[b] == old(sheets[k].index.cells)[b]
      ensures clear ==>
        Copies(old(sheets[k].index.cells), sheets[k].index.cells, Elems(ins), delta) &&
        forall a :: a in ins ==> sheets[k].index.cells[AddAddress(a, delta)] !in old(sheets[k].index.cells).Values
    {
      CloneEach(sheets[k], ins, delta, clear);
      KeepValid(k);
    }
    /** `copyRange(sheet, from, to, d)` on sheet `k`, for ranges decoded
        from their text: the cells at or past `to` along `d`, within its
        span across, move out of the way by the span of `from`; then every
        cell then inside `from` is cloned `delta` further, `delta` taking
        the anchor of `from` to that of `to`. When the copies land beyond
        `from`, each holds its source's value and attributes, with `r`
        naming its new place. */
    method CopyRange(k: nat, from: RangeAddress, to: RangeAddress, d: Direction)
      requires Valid() && k < |sheets| && Ordered(from)
      requires SubtractAddress(to.near, from.near).c >= 0 && SubtractAddress(to.near, from.near).r >= 0
      modifies sheets[k], sheets[k].index.cells.Values`attributes
      ensures Valid() && sheets[k].ranges == old(sheets[k].ranges)
      ensures RangeCopied(old(sheets[k].index.cells), sheets[k].index.cells, from, to, d)
      ensures forall c :: c in old(sheets[k].index.cells).Values ==> c.attributes - {"r"} == old(c.attributes) - {"r"}
    {
      var delta := SubtractAddress(to.near, from.near);
      var size := Dim(from, d);
      OrderedDim(from, d);
      ShiftBandOn(k, to, size, d);
      CloneInside(k, from, delta, d, Beyond(from, delta, d));
    }

    /** The cloning half of `copyRange`: every cell inside `from`, in
        `getCells` order, cloned `delta` further. */
    method CloneInside(k: nat, from: RangeAddress, delta: CellAddress, d: Direction, ghost beyond: bool)
      requires Valid() && k < |sheets| && delta.c >= 0 && delta.r >= 0 && (beyond ==> Beyond(from, delta, d))
      modifies sheets[k]
      ensures Valid() && sheets[k].ranges == old(sheets[k].ranges)
      ensures var ins := Inside(old(sheets[k].index.cells).Keys, from);
        sheets[k].index.cells.Keys == old(sheets[k].index.cells).Keys + Image(ins, delta) &&
        (forall b :: b in old(sheets[k].index.cells) && b !in Image(ins, delta) ==>
          sheets[k].index.cells[b] == old(sheets[k].index.cells)[b]) &&
        (beyond ==>
          Copies(old(sheets[k].index.cells), sheets[k].index.cells, ins, delta) &&
          forall a :: a in ins ==> sheets[k].index.cells[AddAddress(a, delta)] !in old(sheets[k].index.cells).Values)
    {
      var ins := Filter(sheets[k].index.order, InsideOf(from));
      InsideOrder(sheets[k].index.order, sheets[k].index.cells.Keys, from);
      if beyond {
        ClearPastRange(sheets[k].index.cells.Keys, from, delta, d);
      }
      CloneEachOn(k, ins, delta, beyond);
    }

    /** The sheet `getSheet(name)` finds, as a set: empty when there is none. */
    function Found(name: string): set<WorkSheet> {
      if GetSheet(name).Some? then {sheets[GetSheet(name).value]} else {}
    }

    /** The cells filed on the sheet `getSheet(name)` finds. */
    ghost function FoundCells(name: string): set<Cell>
      reads sheets
    {
      if GetSheet(name).Some? then sheets[GetSheet(name).value].index.cells.Values else {}
    }

    /** `this.scopes.filter(s => s.isAtOrAfterRangeDim(scope.getRange(), d))
        .filter(s => s.onSheet(scope.getSheet())).filter(s => s !== scope)`. */
    function AtOrAfterScope(s: nat, d: Direction): (list: seq<nat>)
      reads this, tree
      requires s < |tree.nodes| && IsRangeRef(Range(tree.nodes[s]))
      ensures forall x :: x in list <==>
        x in scopes && x < |tree.nodes| && x != s && IsAtOrAfterRangeDim(tree.nodes[x], Range(tree.nodes[s]), d) &&
        tree.nodes[x].sheet == tree.nodes[s].sheet
    {
      var nodes := tree.nodes;
      SelectScopes(scopes, AtOrAfterOf(nodes, s, d))
    }

    /** `cloneScope(scope, offset, d)` for scope `s`: move it `offset` along
        `d`; on its sheet, `copyRange` from its old range to its new one;
        grow its parent, when that is a `Scope`, by its span; then move by
        that span every other listed scope of the sheet at or after its new
        range. A sheet the workbook lacks fails the copy once the scope has
        moved. */
    method CloneScope(s: nat, offset: nat, d: Direction) returns (o: Outcome)
      requires Valid() && 0 < s < |tree.nodes|
      modifies tree, Found(tree.nodes[s].sheet), FoundCells(tree.nodes[s].sheet)`attributes
      ensures Valid() && scopes == old(scopes) && Relocations(old(tree.nodes), tree.nodes)
      ensures var name := old(tree.nodes[s].sheet);
        GetSheet(name).None? ==> o == Fail(MissingSheet(name)) && tree.nodes == MovedAt(old(tree.nodes), s, RelAddress(offset, d))
      ensures var name := old(tree.nodes[s].sheet);
        GetSheet(name).Some? ==>
          var k := GetSheet(name).value;
          o == Pass && ScopeCloned(old(tree.nodes), old(sheets[k].index.cells), k, s, offset, d) &&
          forall c :: c in old(sheets[k].index.cells).Values ==> c.attributes - {"r"} == old(c.attributes) - {"r"}
    {
      var name := tree.nodes[s].sheet;
      var k := GetSheet(name);
      if k.None? {
        MoveScope(s, offset, d);
        return Fail(MissingSheet(name));
      }
      CloneScopeOn(k.value, s, offset, d);
      o := Pass;
    }

    /** What `cloneScope` leaves when scope `s` is on sheet `k`: the tree as
        `Spread` has it after the move of `s` by `offset` along `d`, and the
        cells of sheet `k` as `copyRange` from the old range of `s` to the
        moved one leaves them. */
    ghost predicate ScopeCloned(n0: seq<Node>, m0: map<CellAddress, Cell>, k: nat, s: nat, offset: nat, d: Direction)
      requires WellFormed(n0) && 0 < s < |n0| && (forall x :: x in scopes ==> 0 < x < |n0|) && k < |sheets|
      reads this, tree, sheets[k], m0.Values`value, m0.Values`attributes,
        sheets[k].index.cells.Values`value, sheets[k].index.cells.Values`attributes
    {
      var a, from := RelAddress(offset, d), n0[s].address;
      tree.nodes == Spread(MovedAt(n0, s, a), scopes, s, d) &&
      RangeCopied(m0, sheets[k].index.cells, from, RangeAddress(AddAddress(a, from.near), AddAddress(a, from.far)), d)
    }

    /** `cloneScope` for scope `s` when its sheet is sheet `k`. The tree
        half and the copy on sheet `k` touch disjoint state, so the model
        runs the tree half first and hands `copyRange` the moved range as
        `moveDim` leaves it (`MovedSelf`). */
    method CloneScopeOn(k: nat, s: nat, offset: nat, d: Direction)
      requires Valid() && k < |sheets| && 0 < s < |tree.nodes|
      modifies tree, sheets[k], sheets[k].index.cells.Values`attributes
      ensures Valid() && ScopeCloned(old(tree.nodes), old(sheets[k].index.cells), k, s, offset, d)
      ensures Relocations(old(tree.nodes), tree.nodes)
      ensures forall c :: c in old(sheets[k].index.cells).Values ==> c.attributes - {"r"} == old(c.attributes) - {"r"}
    {
      var from := tree.nodes[s].address;
      var a := RelAddress(offset, d);
      var to := RangeAddress(AddAddress(a, from.near), AddAddress(a, from.far));
      assert Placed(tree.nodes[s], s, |tree.nodes|);
      MoveAndSpread(s, offset, d);
      CopyRange(k, from, to, d);
    }

    /** The tree half of `cloneScope`: `moveDim(offset, d)` on scope `s`,
        then `Spread`; the sheets stay as they are. */
    method MoveAndSpread(s: nat, offset: nat, d: Direction)
      requires Valid() && 0 < s < |tree.nodes|
      modifies tree
      ensures Valid() && tree.nodes == Spread(MovedAt(old(tree.nodes), s, RelAddress(offset, d)), scopes, s, d)
      ensures forall c: Cell :: old(allocated(c)) ==> c.attributes == old(c.attributes)
      ensures Relocations(old(tree.nodes), tree.nodes)
    {
      ghost var n0 := tree.nodes;
      MoveScope(s, offset, d);
      ghost var n1 := tree.nodes;
      SpreadScopes(s, d);
      RelocationsTrans(n0, n1, tree.nodes);
    }

    /** `moveDim(offset, d)` on scope `s`; the sheets stay as they are. */
    method MoveScope(s: nat, offset: nat, d: Direction)
      requires Valid() && 0 < s < |tree.nodes|
      modifies tree
      ensures Valid() && tree.nodes == MovedAt(old(tree.nodes), s, RelAddress(offset, d))
      ensures Relocations(old(tree.nodes), tree.nodes)
      ensures forall i {:trigger Below(old(tree.nodes), s, i)} :: 0 <= i < |tree.nodes| ==>
        tree.nodes[i] == if Below(old(tree.nodes), s, i) then Translate(old(tree.nodes[i]), RelAddress(offset, d)) else old(tree.nodes[i])
    {
      ghost var n0 := tree.nodes;
      tree.MoveDim(s, offset, d);
      assert tree.nodes == MovedAt(n0, s, RelAddress(offset, d));
      SheetsUntouched();
    }

    /** The tree half of `cloneScope` after the move, as `Spread` states it;
        the sheets stay as they are. */
    method SpreadScopes(s: nat, d: Direction)
      requires Valid() && 0 < s < |tree.nodes|
      modifies tree
      ensures Valid() && tree.nodes == Spread(old(tree.nodes), scopes, s, d)
      ensures Relocations(old(tree.nodes), tree.nodes)
    {
      SpreadTree(s, d);
      SheetsUntouched();
    }

    method SpreadTree(s: nat, d: Direction)
      requires tree.Valid() && 0 < s < |tree.nodes| && forall x :: x in scopes ==> 0 < x < |tree.nodes|
      modifies tree
      ensures tree.Valid() && tree.nodes == Spread(old(tree.nodes), scopes, s, d)
      ensures Relocations(old(tree.nodes), tree.nodes)
    {
      ghost var m := tree.nodes;
      assert Placed(m[s], s, |m|);
      OrderedDim(m[s].address, d);
      var k: nat := NodeDim(tree.nodes[s], d);
      GrowParent(s, k, d);
      ghost var g := tree.nodes;
      assert Placed(g[s], s, |g|);
      ShapedRange(g[s]);
      MoveAtOrAfter(s, k, d);
      SpreadFrom(m, scopes, s, d, g, tree.nodes);
      RelocationsTrans(m, g, tree.nodes);
    }

    /** The moves of `cloneScope`: each listed scope of the sheet of `s`
        at or after its range along `d`, other than `s`, moved by `k`. */
    method MoveAtOrAfter(s: nat, k: nat, d: Direction)
      requires tree.Valid() && 0 < s < |tree.nodes| && (forall x :: x in scopes ==> 0 < x < |tree.nodes|)
      requires IsRangeRef(Range(tree.nodes[s]))
      modifies tree
      ensures tree.Valid() && |tree.nodes| == |old(tree.nodes)| && Relocations(old(tree.nodes), tree.nodes)
      ensures var list := SelectScopes(scopes, AtOrAfterOf(old(tree.nodes), s, d));
        (forall j :: 0 <= j < |list| ==> list[j] < |tree.nodes|) &&
        forall i :: 0 <= i < |tree.nodes| ==>
          tree.nodes[i] == Shift(old(tree.nodes[i]), Moves(Kids(old(tree.nodes)), list, i), RelAddress(k, d))
    {
      ghost var n0 := tree.nodes;
      var list := AtOrAfterScope(s, d);
      forall j | 0 <= j < |list| ensures 0 < list[j] < |tree.nodes| {
        assert list[j] in list;
      }
      MoveScopes(list, RelAddress(k, d));
      forall i | 0 <= i < |n0| ensures Relocated(tree.nodes[i], n0[i]) {
        assert Placed(n0[i], i, |n0|);
        ShiftRelocates(n0[i], Moves(Kids(n0), list, i), RelAddress(k, d));
      }
    }

    /** `if (scope.parentScope instanceof Scope) scope.parentScope.growDim(k, d)`. */
    method GrowParent(s: nat, k: nat, d: Direction)
      requires tree.Valid() && 0 < s < |tree.nodes|
      modifies tree
      ensures tree.Valid() && tree.nodes == GrowParentAt(old(tree.nodes), s, RelAddress(k, d))
      ensures Kids(tree.nodes) == Kids(old(tree.nodes)) && Relocations(old(tree.nodes), tree.nodes)
    {
      ghost var m := tree.nodes;
      var up := Up(tree.nodes, s);
      if up.Some? {
        assert Placed(m[up.value], up.value, |m|);
        tree.GrowDim(up.value, k, d);
        assert tree.nodes == GrowAt(m, up.value, RelAddress(k, d));
      }
    }

    // -----------------------------------------------------------------------
    // Interpolation

    /** Every cell on a sheet of the workbook names that sheet as its own. */
    lemma OwnedCells()
      requires SheetsValid()
      ensures forall j, c :: 0 <= j < |sheets| && c in sheets[j].index.cells.Values ==> c.worksheet == sheets[j]
    {
      forall j, c | 0 <= j < |sheets| && c in sheets[j].index.cells.Values ensures c.worksheet == sheets[j] {
        assert sheets[j].Valid();
        var a :| a in sheets[j].index.cells && sheets[j].index.cells[a] == c;
      }
    }

    /** `evaluate(context)`: `interpolate(context)` on each child of the
        root, in order; the first failure ends the run, as a throw would.
        `fuel` bounds the depth of nested interpolation. */
    method Evaluate(context: Json, fuel: nat) returns (o: Outcome)
      requires Valid()
      modifies this, tree, sheets, iset c: Cell | c.worksheet in sheets
      ensures Valid() && KeptBelow(old(tree.nodes), tree.nodes, 1) && ParentsKept(old(tree.nodes), tree.nodes)
      ensures old(scopes) <= scopes
      ensures old(tree.nodes[0].children) == [] ==>
        o == Pass && tree.nodes == old(tree.nodes) && scopes == old(scopes) && unchanged(sheets) && unchanged(old(Cells()))
    {
      assert Placed(tree.nodes[0], 0, |tree.nodes|);
      o := InterpolateEach(tree.nodes[0].children, 0, context, fuel);
    }

    /** `list.forEach(this.interpolate(context))` over scopes that all come
        after node `lo`; a failure ends the loop, as a throw would. */
    method InterpolateEach(list: seq<nat>, lo: nat, context: Json, fuel: nat) returns (o: Outcome)
      requires Valid() && forall j :: 0 <= j < |list| ==> lo < list[j] < |tree.nodes|
      modifies this, tree, sheets, iset c: Cell | c.worksheet in sheets
      ensures Valid() && KeptBelow(old(tree.nodes), tree.nodes, lo + 1) && ParentsKept(old(tree.nodes), tree.nodes)
      ensures old(scopes) <= scopes
      ensures list == [] ==>
        o == Pass && tree.nodes == old(tree.nodes) && scopes == old(scopes) && unchanged(sheets) && unchanged(old(Cells()))
      decreases fuel, 1
    {
      ghost var n0, s0 := tree.nodes, scopes;
      o := Pass;
      var i := 0;
      while i < |list|
        invariant 0 <= i <= |list| && Valid()
        invariant forall j :: 0 <= j < |list| ==> lo < list[j] < |tree.nodes|
        invariant KeptBelow(n0, tree.nodes, lo + 1) && ParentsKept(n0, tree.nodes) && s0 <= scopes
        invariant list == [] ==> o == Pass && tree.nodes == n0 && scopes == s0 && unchanged(sheets) && unchanged(old(Cells()))
      {
        ghost var before, s1 := tree.nodes, scopes;
        o := Interpolate(list[i], context, fuel);
        KeptBelowTrans(n0, before, tree.nodes, lo + 1, list[i]);
        assert s0 <= s1 <= scopes;
        if o.Fail? {
          return;
        }
        i := i + 1;
      }
    }

    /** `interpolate(context)(scope)` for scope `t`: evaluate its template
        against `context`, then do what `Dispatch` picks. Only the nodes
        from `t` on change beyond a relocation, and no existing node changes
        its parent. */
    method Interpolate(t: nat, context: Json, fuel: nat) returns (o: Outcome)
      requires Valid() && 0 < t < |tree.nodes|
      modifies this, tree, sheets, iset c: Cell | c.worksheet in sheets
      ensures Valid() && KeptBelow(old(tree.nodes), tree.nodes, t) && ParentsKept(old(tree.nodes), tree.nodes)
      ensures old(scopes) <= scopes
      ensures fuel == 0 ==> o == Fail(Exhausted) && unchanged(this, tree) && unchanged(sheets) && unchanged(old(Cells()))
      ensures fuel > 0 && Dispatch(Scopes.Evaluate(old(tree.nodes[t]), context, eval).kind) == Skip ==>
        o == Pass && unchanged(this, tree) && unchanged(sheets) && unchanged(old(Cells()))
      decreases fuel, 0
    {
      if fuel == 0 {
        return Fail(Exhausted);
      }
      var e := Scopes.Evaluate(tree.nodes[t], context, eval);
      match Dispatch(e.kind)
      case Fill =>
        o := InterpolateScalar(t, e.value, fuel - 1);
      case Repeat(d) =>
        o := InterpolateStack(t, e.value, d, fuel - 1);
      case Skip =>
        o := Pass;
    }

    /** `interpolateScalar(value, scope)` for scope `t`: a range scope
        interpolates its children against `value`; a cell scope sets
        `value` into the cell at its anchor on its sheet, failing when the
        sheet or the cell is not there. */
    method InterpolateScalar(t: nat, value: Json, fuel: nat) returns (o: Outcome)
      requires Valid() && 0 < t < |tree.nodes|
      modifies this, tree, sheets, iset c: Cell | c.worksheet in sheets
      ensures Valid() && KeptBelow(old(tree.nodes), tree.nodes, t + 1) && ParentsKept(old(tree.nodes), tree.nodes)
      ensures old(scopes) <= scopes
      ensures var n := old(tree.nodes[t]); n.kind == CellKind ==>
        tree.nodes == old(tree.nodes) && scopes == old(scopes) &&
        var k := GetSheet(n.sheet);
        (k.None? ==> o == Fail(MissingSheet(n.sheet))) &&
        (k.Some? ==>
          var cells := sheets[k.value].index.cells;
          cells == old(sheets[k.value].index.cells) &&
          (n.address.near !in cells ==> o == Fail(MissingCell(n.address.near))) &&
          (n.address.near in cells ==> o == Pass && cells[n.address.near].value == value))
      ensures var n := old(tree.nodes[t]); n.kind == CellKind ==>
        unchanged(sheets) && unchanged(old(Cells()) - old(AnchorCell(n))) && unchanged(old(AnchorCell(n))`attributes)
      decreases fuel, 3
    {
      var n := tree.nodes[t];
      if n.kind == RangeKind {
        assert Placed(n, t, |tree.nodes|);
        o := InterpolateEach(n.children, t, value, fuel);
      } else if n.kind == CellKind {
        assert Placed(n, t, |tree.nodes|);
        o := FillCell(n, value);
      } else {
        o := Pass;
      }
    }

    /** The cell filed at the anchor of `n` on the sheet `n` names, when
        both are there; nothing otherwise. */
    ghost function AnchorCell(n: Node): (s: set<Cell>)
      reads sheets
      ensures s <= Cells() && |s| <= 1
      ensures s != {} <==> GetSheet(n.sheet).Some? && n.address.near in sheets[GetSheet(n.sheet).value].index.cells
    {
      var k := GetSheet(n.sheet);
      if k.Some? && n.address.near in sheets[k.value].index.cells then
        assert sheets[k.value].index.cells[n.address.near] in sheets[k.value].index.cells.Values;
        {sheets[k.value].index.cells[n.address.near]}
      else {}
    }

    /** The cell branch of `interpolateScalar`: `setValue(value)` on the
        cell at the anchor of `n`, on the sheet `n` names. Only that cell's
        value may change. */
    method FillCell(n: Node, value: Json) returns (o: Outcome)
      requires Valid() && n.kind == CellKind && Shaped(n)
      modifies AnchorCell(n)`value
      ensures Valid() && unchanged(sheets) && unchanged(old(Cells()) - old(AnchorCell(n)))
      ensures unchanged(old(AnchorCell(n))`attributes)
      ensures var k := GetSheet(n.sheet);
        (k.None? ==> o == Fail(MissingSheet(n.sheet))) &&
        (k.Some? ==>
          var cells := sheets[k.value].index.cells;
          (n.address.near !in cells ==> o == Fail(MissingCell(n.address.near))) &&
          (n.address.near in cells ==> o == Pass && cells[n.address.near].value == value))
    {
      var k := GetSheet(n.sheet);
      if k.None? {
        return Fail(MissingSheet(n.sheet));
      }
      var anchor := GetCellAddress(GetAnchor(n));
      if anchor !in sheets[k.value].index.cells {
        return Fail(MissingCell(anchor));
      }
      OwnedCells();
      var cell := sheets[k.value].index.cells[anchor];
      assert AnchorCell(n) == {cell};
      SetCellValue(cell, value);
      o := Pass;
    }

    /** `interpolateStack(value, scope, d)` for scope `t`: nothing for a
        falsy value; otherwise `interpolateRange` for a range scope and
        `interpolateCell` for a cell scope. */
    method InterpolateStack(t: nat, value: Json, d: Direction, fuel: nat) returns (o: Outcome)
      requires Valid() && 0 < t < |tree.nodes|
      modifies this, tree, sheets, iset c: Cell | c.worksheet in sheets
      ensures Valid() && KeptBelow(old(tree.nodes), tree.nodes, t) && ParentsKept(old(tree.nodes), tree.nodes)
      ensures old(scopes) <= scopes
      ensures !Truthy(value) ==> o == Pass && unchanged(this, tree) && unchanged(sheets) && unchanged(old(Cells()))
      decreases fuel, 4
    {
      if !Truthy(value) {
        return Pass;
      }
      var n := tree.nodes[t];
      if n.kind == RangeKind {
        o := InterpolateRange(t, value, d, fuel);
      } else if n.kind == CellKind {
        ghost var n0 := tree.nodes;
        o := InterpolateCell(t, value, d);
        RelocationsTrans(n0, tree.nodes, tree.nodes);
      } else {
        o := Pass;
      }
    }

    /** `interpolateCell(scope, value, d)` for cell scope `t`: item `i` of
        the array `value` goes into the cell `i` steps past the anchor along
        `d`, each cell after the first a `cloneCell` of the anchor. A
        missing sheet fails first, then a value that is no array (it has no
        `forEach`), then a missing anchor cell at the first item. */
    method InterpolateCell(t: nat, value: Json, d: Direction) returns (o: Outcome)
      requires Valid() && 0 < t < |tree.nodes|
      modifies tree, sheets, iset c: Cell | c.worksheet in sheets
      ensures Valid() && Relocations(old(tree.nodes), tree.nodes)
      ensures var n := old(tree.nodes[t]); var k := GetSheet(n.sheet);
        (k.None? ==> o == Fail(MissingSheet(n.sheet))) &&
        (k.Some? && !value.JArray? ==> o == Fail(NotAnArray(n.template))) &&
        (k.Some? && value.JArray? && |value.items| > 0 && n.address.near !in old(sheets[k.value].index.cells) ==>
          o == Fail(MissingCell(n.address.near))) &&
        (o.Pass? <==> k.Some? && value.JArray? && (|value.items| == 0 || n.address.near in old(sheets[k.value].index.cells)))
      ensures o.Fail? ==> unchanged(tree) && unchanged(sheets) && unchanged(old(Cells()))
      ensures o.Pass? ==>
        var n := old(tree.nodes[t]);
        Filled(sheets[GetSheet(n.sheet).value].index.cells, n.address.near, d, value.items, |value.items|)
    {
      var n := tree.nodes[t];
      assert Placed(n, t, |tree.nodes|);
      var k := GetSheet(n.sheet);
      if k.None? {
        return Fail(MissingSheet(n.sheet));
      }
      if !value.JArray? {
        return Fail(NotAnArray(n.template));
      }
      var anchor := GetCellAddress(GetAnchor(n));
      if |value.items| > 0 && anchor !in sheets[k.value].index.cells {
        return Fail(MissingCell(anchor));
      }
      FillLine(t, k.value, anchor, value.items, d);
      o := Pass;
    }

    /** The `forEach` of `interpolateCell`: one `FillOne` per item, in order. */
    method FillLine(t: nat, k: nat, anchor: CellAddress, items: seq<Json>, d: Direction)
      requires Valid() && 0 < t < |tree.nodes| && k < |sheets|
      requires |items| > 0 ==> anchor in sheets[k].index.cells
      modifies tree, sheets[k], iset c: Cell | c.worksheet in sheets
      ensures Valid() && Relocations(old(tree.nodes), tree.nodes)
      ensures Filled(sheets[k].index.cells, anchor, d, items, |items|)
    {
      ghost var n0 := tree.nodes;
      var i := 0;
      while i < |items|
        invariant 0 <= i <= |items| && Valid() && Relocations(n0, tree.nodes)
        invariant |items| > 0 ==> anchor in sheets[k].index.cells
        invariant Filled(sheets[k].index.cells, anchor, d, items, i)
      {
        ghost var before := tree.nodes;
        OwnedCells();
        FillOne(t, k, anchor, items, i, d);
        assert anchor in sheets[k].index.cells;
        RelocationsTrans(n0, before, tree.nodes);
        i := i + 1;
      }
    }

    /** Item `index` of `interpolateCell`: `PlaceItem` past the first item,
        then `setValue` of the item on the cell at its place. */
    method FillOne(t: nat, k: nat, anchor: CellAddress, items: seq<Json>, index: nat, d: Direction)
      requires Valid() && 0 < t < |tree.nodes| && k < |sheets| && anchor in sheets[k].index.cells && index < |items|
      modifies tree, sheets[k], sheets[k].index.cells.Values`attributes, {sheets[k].index.cells[anchor]}`value
      ensures Valid() && Placement(old(sheets[k].index.cells), sheets[k].index.cells, old(tree.nodes), tree.nodes,
        scopes, t, anchor, index, d, sheets[k].name)
      ensures old(Filled(sheets[k].index.cells, anchor, d, items, index)) ==>
        Filled(sheets[k].index.cells, anchor, d, items, index + 1)
      ensures ItemWritten(old(sheets[k].index.cells), sheets[k].index.cells, anchor, AddAddress(anchor, RelAddress(index, d)),
        index, items[index], old(sheets[k].ranges), sheets[k].ranges)
    {
      ghost var m0 := sheets[k].index.cells;
      var at := AddAddress(anchor, RelAddress(index, d));
      if index == 0 {
        assert at == anchor;
        WriteItem(k, anchor, items, index, d, sheets[k].index.cells[at], m0);
      } else {
        FillCopy(t, k, anchor, items, index, d);
      }
    }

    /** Item `index > 0` of `interpolateCell`: `PlaceItem`, then `setValue`
        of the item on the copy. */
    method FillCopy(t: nat, k: nat, anchor: CellAddress, items: seq<Json>, index: nat, d: Direction)
      requires Valid() && 0 < t < |tree.nodes| && k < |sheets| && anchor in sheets[k].index.cells && 0 < index < |items|
      modifies tree, sheets[k], sheets[k].index.cells.Values`attributes
      ensures Valid() && Relocations(old(tree.nodes), tree.nodes)
      ensures ItemPlaced(old(sheets[k].index.cells), sheets[k].index.cells, old(tree.nodes), tree.nodes,
        scopes, t, anchor, AddAddress(anchor, RelAddress(index, d)), d, sheets[k].name)
      ensures old(Filled(sheets[k].index.cells, anchor, d, items, index)) ==>
        Filled(sheets[k].index.cells, anchor, d, items, index + 1)
      ensures ItemWritten(old(sheets[k].index.cells), sheets[k].index.cells, anchor, AddAddress(anchor, RelAddress(index, d)),
        index, items[index], old(sheets[k].ranges), sheets[k].ranges)
    {
      ghost var m0 := sheets[k].index.cells;
      ghost var filled := Filled(m0, anchor, d, items, index);
      PlaceItem(t, k, anchor, index, d);
      assert filled ==> Filled(m0, anchor, d, items, index);
      var at := AddAddress(anchor, RelAddress(index, d));
      WriteItem(k, anchor, items, index, d, sheets[k].index.cells[at], m0);
    }

    /** The `setValue` of item `index` on the cell at its place, a cell
        that was not among the cells `m0` of the sheet unless it is the
        anchor: a line of `m0` filled up to `index`, whose cells keep their
        places, is then filled up to `index + 1`. */
    method WriteItem(k: nat, anchor: CellAddress, items: seq<Json>, index: nat, d: Direction, cell: Cell,
                     ghost m0: map<CellAddress, Cell>)
      requires Valid() && k < |sheets| && index < |items|
      requires AddAddress(anchor, RelAddress(index, d)) in sheets[k].index.cells
      requires sheets[k].index.cells[AddAddress(anchor, RelAddress(index, d))] == cell
      requires index == 0 || cell !in m0.Values
      requires forall j :: 0 <= j < index && AddAddress(anchor, RelAddress(j, d)) in m0 ==>
        AddAddress(anchor, RelAddress(j, d)) in sheets[k].index.cells &&
        sheets[k].index.cells[AddAddress(anchor, RelAddress(j, d))] == m0[AddAddress(anchor, RelAddress(j, d))]
      modifies cell`value
      ensures Valid() && cell.value == items[index]
      ensures CellsKept(m0.Values, false, {cell})
      ensures unchanged(this, tree) && unchanged(sheets[k])
      ensures old(Filled(m0, anchor, d, items, index)) ==> Filled(sheets[k].index.cells, anchor, d, items, index + 1)
    {
      ghost var filled := Filled(m0, anchor, d, items, index);
      SetCellValue(cell, items[index]);
      if filled {
        assert Filled(m0, anchor, d, items, index);
        FilledGrows(m0, sheets[k].index.cells, anchor, d, items, index);
      }
    }

    /** The `cloneCell` of item `index > 0` of `interpolateCell`: the anchor
        cloned to the cell `index` steps past it along `d`, a fresh copy of
        its value, attributes and formula. The anchor and the cells before
        `index` on the line keep their place; no cell that was there changes
        its value, or any attribute but `r`. */
    method PlaceItem(t: nat, k: nat, anchor: CellAddress, index: nat, d: Direction)
      requires Valid() && 0 < t < |tree.nodes| && k < |sheets| && anchor in sheets[k].index.cells && index > 0
      modifies tree, sheets[k], sheets[k].index.cells.Values`attributes
      ensures Valid() && Relocations(old(tree.nodes), tree.nodes)
      ensures ItemPlaced(old(sheets[k].index.cells), sheets[k].index.cells, old(tree.nodes), tree.nodes,
        scopes, t, anchor, AddAddress(anchor, RelAddress(index, d)), d, sheets[k].name)
      ensures var at := AddAddress(anchor, RelAddress(index, d));
        at in sheets[k].index.cells && fresh(sheets[k].index.cells[at]) &&
        CopiedAt(old(sheets[k].index.cells[anchor]), sheets[k].index.cells[at], at) &&
        sheets[k].index.cells[at].value == old(sheets[k].index.cells[anchor].value)
      ensures sheets[k].ranges == old(sheets[k].ranges)
      ensures CellsKept(old(sheets[k].index.cells).Values, true, {})
      ensures forall j :: 0 <= j < index && AddAddress(anchor, RelAddress(j, d)) in old(sheets[k].index.cells) ==>
        AddAddress(anchor, RelAddress(j, d)) in sheets[k].index.cells &&
        sheets[k].index.cells[AddAddress(anchor, RelAddress(j, d))] == old(sheets[k].index.cells)[AddAddress(anchor, RelAddress(j, d))]
    {
      var at := AddAddress(anchor, RelAddress(index, d));
      ghost var m0 := sheets[k].index.cells;
      ghost var n0 := tree.nodes;
      OwnedCells();
      assert ValidAddress(anchor) by {
        assert sheets[k].Valid();
      }
      CloneCell(t, k, anchor, at, d);
      GrownAndShiftedRelocates(n0, scopes, t, at, d, sheets[k].name);
      LineKept(m0, sheets[k].index.cells, anchor, index, d);
    }

    /** `interpolateRange(scope, value, d)` for range scope `t`. A value
        that is no array fails and changes nothing. An array of `n` items
        makes the template of `t` scalar, files `n` scalar clones of `t` in
        `scopes` with `t` as their parent, repeats the `i`-th clone `i`
        spans of `t` along `d` (`cloneScope`), makes the clones, in order,
        the children of `t`, and interpolates each against the whole
        array. */
    method InterpolateRange(t: nat, value: Json, d: Direction, fuel: nat) returns (o: Outcome)
      requires Valid() && 0 < t < |tree.nodes|
      modifies this, tree, sheets, iset c: Cell | c.worksheet in sheets
      ensures Valid() && KeptBelow(old(tree.nodes), tree.nodes, t) && ParentsKept(old(tree.nodes), tree.nodes)
      ensures old(scopes) <= scopes
      ensures !value.JArray? ==>
        o == Fail(NotAnArray(old(tree.nodes[t].template))) && unchanged(this, tree) && unchanged(sheets) && unchanged(old(Cells()))
      ensures value.JArray? ==>
        |scopes| >= |old(scopes)| + |value.items| &&
        tree.nodes[t].template == ScalarText(old(tree.nodes[t].template)) &&
        forall i :: |old(scopes)| <= i < |old(scopes)| + |value.items| ==>
          |old(tree.nodes)| <= scopes[i] < |tree.nodes| && tree.nodes[scopes[i]].parent == Some(t)
      ensures value.JArray? && o.Pass? ==>
        tree.nodes[t].children == scopes[|old(scopes)|..|old(scopes)| + |value.items|]
      decreases fuel, 3
    {
      assert Placed(tree.nodes[t], t, |tree.nodes|);
      OrderedDim(tree.nodes[t].address, d);
      var size: nat := NodeDim(tree.nodes[t], d);
      if !value.JArray? {
        return Fail(NotAnArray(tree.nodes[t].template));
      }
      o := RepeatRange(t, value, size, d, fuel);
    }

    /** `interpolateRange` past its array check, with `size` the span of
        `t` along `d`: expand `t` into its clones, then interpolate each. */
    method RepeatRange(t: nat, value: Json, size: nat, d: Direction, fuel: nat) returns (o: Outcome)
      requires Valid() && 0 < t < |tree.nodes| && value.JArray?
      modifies this, tree, sheets, iset c: Cell | c.worksheet in sheets
      ensures Valid() && KeptBelow(old(tree.nodes), tree.nodes, t) && ParentsKept(old(tree.nodes), tree.nodes)
      ensures old(scopes) <= scopes
      ensures |scopes| >= |old(scopes)| + |value.items| &&
        tree.nodes[t].template == ScalarText(old(tree.nodes[t].template)) &&
        forall i :: |old(scopes)| <= i < |old(scopes)| + |value.items| ==>
          |old(tree.nodes)| <= scopes[i] < |tree.nodes| && tree.nodes[scopes[i]].parent == Some(t)
      ensures o.Pass? ==> tree.nodes[t].children == scopes[|old(scopes)|..|old(scopes)| + |value.items|]
      decreases fuel, 2
    {
      ghost var n0, s0 := tree.nodes, scopes;
      var clones;
      clones, o := Expand(t, |value.items|, size, d);
      ghost var n1, s1 := tree.nodes, scopes;
      if o.Pass? {
        o := InterpolateEach(clones, t, value, fuel);
      }
      RangeSteps(n0, n1, tree.nodes, s0, s1, scopes, clones, t);
    }

    /** The part of `interpolateRange` before the clones are interpolated:
        `makeScalar`, the scalar clones, `cloneScope` of each clone after
        the first, then `removeChildren` and `addChild` of each clone. A
        failed `cloneScope` ends it before the children are replaced. */
    method Expand(t: nat, n: nat, size: nat, d: Direction) returns (clones: seq<nat>, o: Outcome)
      requires Valid() && 0 < t < |tree.nodes|
      modifies this, tree, sheets, iset c: Cell | c.worksheet in sheets
      ensures Valid() && KeptBelow(old(tree.nodes), tree.nodes, t) && ParentsKept(old(tree.nodes), tree.nodes)
      ensures |clones| == n && scopes == old(scopes) + clones
      ensures tree.nodes[t].template == ScalarText(old(tree.nodes[t].template))
      ensures forall i :: 0 <= i < n ==> |old(tree.nodes)| <= clones[i] < |tree.nodes| && tree.nodes[clones[i]].parent == Some(t)
      ensures forall i, j :: 0 <= i < j < n ==> clones[i] < clones[j]
      ensures forall i :: 0 <= i < n ==> ItemClone(tree.nodes, t, clones[i], i)
      ensures n <= 1 ==> o == Pass
      ensures o.Pass? ==> tree.nodes[t].children == clones
    {
      ghost var n0 := tree.nodes;
      clones := ScalarClones(t, n);
      ghost var n1 := tree.nodes;
      o := RepeatClones(clones, size, d);
      ghost var n2 := tree.nodes;
      ItemClonesKept(n1, n2, t, clones);
      if o.Pass? {
        forall i | 0 <= i < |clones| ensures Unlisted(tree.nodes, clones[i]) {
          RelocationsUnlisted(n1, n2, clones[i]);
        }
        Adopt(t, clones);
        AdoptedItems(n2, tree.nodes, t, clones);
      }
    }

    /** `makeScalar()` on `t`, then `value.map((val, index) => ...)`: `n`
        scalar clones of `t` with `t` as their parent, each pushed onto
        `scopes`. */
    method ScalarClones(t: nat, n: nat) returns (clones: seq<nat>)
      requires Valid() && 0 < t < |tree.nodes|
      modifies this, tree
      ensures Valid() && |clones| == n && scopes == old(scopes) + clones && |tree.nodes| >= |old(tree.nodes)|
      ensures forall i :: 0 <= i < |old(tree.nodes)| ==>
        tree.nodes[i] == if i == t then old(tree.nodes[t]).(template := ScalarText(old(tree.nodes[t].template))) else old(tree.nodes[i])
      ensures forall i :: 0 <= i < n ==>
        |old(tree.nodes)| <= clones[i] < |tree.nodes| && tree.nodes[clones[i]].parent == Some(t) &&
        tree.nodes[clones[i]].template == ScalarTemplate(i)
      ensures forall i, j :: 0 <= i < j < n ==> clones[i] < clones[j]
      ensures forall i :: 0 <= i < n ==> Unlisted(tree.nodes, clones[i])
      ensures forall i :: 0 <= i < n ==>
        ItemClone(tree.nodes, t, clones[i], i) && tree.nodes[clones[i]].address == tree.nodes[t].address
    {
      clones := tree.ScalarClones(t, n);
      scopes := scopes + clones;
      SheetsUntouched();
      forall i | 0 <= i < n ensures ItemClone(tree.nodes, t, clones[i], i) && tree.nodes[clones[i]].address == tree.nodes[t].address {
        ScalarCopyIsItem(tree.nodes, t, clones[i], i);
      }
    }

    /** `value.forEach((val, index) => ...)` repeating the clones: each
        clone after the first goes through `cloneScope` by `size * index`
        along `d`; a failure ends the loop. The tree only relocates. */
    method RepeatClones(clones: seq<nat>, size: nat, d: Direction) returns (o: Outcome)
      requires Valid() && forall i :: 0 <= i < |clones| ==> 0 < clones[i] < |tree.nodes|
      modifies tree, sheets, iset c: Cell | c.worksheet in sheets
      ensures Valid() && Relocations(old(tree.nodes), tree.nodes)
      ensures |clones| <= 1 ==> o == Pass && tree.nodes == old(tree.nodes)
    {
      ghost var n0 := tree.nodes;
      o := Pass;
      var i := 1;
      while i < |clones|
        invariant 1 <= i && Valid() && Relocations(n0, tree.nodes)
        invariant |clones| <= 1 ==> o == Pass && tree.nodes == n0
      {
        ghost var before := tree.nodes;
        OwnedCells();
        o := CloneScope(clones[i], size * i, d);
        RelocationsTrans(n0, before, tree.nodes);
        if o.Fail? {
          return;
        }
        i := i + 1;
      }
    }

    /** `removeChildren()` on `t`, then `clones.forEach(s => addChild(s))`. */
    method Adopt(t: nat, clones: seq<nat>)
      requires Valid() && t < |tree.nodes| && forall i :: 0 <= i < |clones| ==> t < clones[i] < |tree.nodes|
      requires forall i, j :: 0 <= i < j < |clones| ==> clones[i] != clones[j]
      requires forall i :: 0 <= i < |clones| ==> Unlisted(tree.nodes, clones[i])
      modifies tree
      ensures Valid() && |tree.nodes| == |old(tree.nodes)|
      ensures tree.nodes[t] == old(tree.nodes[t]).(children := clones)
      ensures forall i :: 0 <= i < |clones| ==> tree.nodes[clones[i]] == old(tree.nodes[clones[i]]).(parent := Some(t))
      ensures forall i :: 0 <= i < |tree.nodes| && i != t && i !in clones ==> tree.nodes[i] == old(tree.nodes[i])
    {
      tree.Adopt(t, clones);
      SheetsUntouched();
    }
  }
}
