/** The scope tree of `RootScope.ts` and `Scope.ts`, held in an arena: node 0
    is the `RootScope`, every other node is a `Scope`, and the child list and
    the parent back-link of a node are arena indices. */
module Scopes {
  import opened Address
  import opened Kinds
  import opened Template

  /** One node of the tree. A `Scope` keeps its range, the decoded corners
      of that range, the sheet it lies on, its template and its kind; the
      root keeps only a template and fixed placeholders for the rest. The
      range text is `text` as constructed until `updateRange` first runs;
      from then on (`synced`) it is the text `getRangeRef` writes for the
      corners, which `Range` computes. */
  datatype Node = Node(
    isScope: bool,
    text: string,
    synced: bool,
    address: RangeAddress,
    sheet: string,
    template: string,
    kind: Kind,
    parent: Option<nat>,
    children: seq<nat>)

  /** The node's `range` field. */
  function Range(n: Node): string {
    if n.synced && ValidRange(n.address) then GetRangeRef(n.address) else n.text
  }

  /** The corners a scope keeps are the decoded corners of its range text. */
  predicate Shaped(n: Node) {
    if n.synced then ValidRange(n.address)
    else IsRangeRef(n.text) && GetRangeAddress(n.text) == n.address
  }

  lemma ShapedRange(n: Node)
    requires Shaped(n)
    ensures IsRangeRef(Range(n)) && GetRangeAddress(Range(n)) == n.address
  {
    if n.synced {
      RangeRoundTrip(n.address);
    }
  }

  const Origin: RangeAddress := RangeAddress(CellAddress(0, 0), CellAddress(0, 0))

  /** The near corner is at or before the far corner on both axes, as in
      every range written top-left to bottom-right. */
  predicate Ordered(ra: RangeAddress) {
    ra.near.c <= ra.far.c && ra.near.r <= ra.far.r
  }

  /** An ordered range spans at least one cell along each axis. */
  lemma OrderedDim(ra: RangeAddress, d: Direction)
    requires Ordered(ra)
    ensures Dim(ra, d) >= 1
  {
  }

  /** `new RootScope(template)`. */
  function NewRoot(template: string): Node {
    Node(false, "", false, Origin, "", template, RangeKind, None, [])
  }

  /** `new Scope(range, sheet, template, type)`: the corners are decoded from
      the range text; there is no parent and there are no children yet. */
  function NewScope(range: string, sheet: string, template: string, kind: Kind): (n: Node)
    requires IsRangeRef(range)
    ensures Shaped(n) && n.isScope && n.parent.None? && n.children == []
    ensures (Range(n), n.sheet, n.template, n.kind) == (range, sheet, template, kind)
  {
    Node(true, range, false, GetRangeAddress(range), sheet, template, kind, None, [])
  }

  // -------------------------------------------------------------------------
  // Queries on one node

  /** `dim(d)`: the span of the scope's range text along `d`. */
  function NodeDim(n: Node, d: Direction): (k: int)
    requires Shaped(n)
    ensures k == Dim(n.address, d)
  {
    ShapedRange(n);
    GetRangeDim(Range(n), d)
  }

  /** `getAnchor`: the first corner of the range text. */
  function GetAnchor(n: Node): (ref: string)
    requires Shaped(n)
    ensures HasRow(ref) && GetCellAddress(ref) == n.address.near
  {
    ShapedRange(n);
    SplitRange(Range(n))[0]
  }

  predicate OnSheet(n: Node, sheet: string) {
    n.sheet == sheet
  }

  /** `containsCell(ref)`: `inRange` of the scope's range. */
  predicate ContainsCell(n: Node, ref: string)
    requires Shaped(n) && HasRow(ref)
  {
    ShapedRange(n);
    InRange(Range(n), ref)
  }

  /** `containsRange(range)`: every cell `getRangeCells(range)` lists is in
      the scope (each listed reference decodes back to its address). */
  predicate ContainsRange(n: Node, range: string)
    requires Shaped(n) && IsRangeRef(range)
  {
    ShapedRange(n);
    forall a :: a in RangeCells(GetRangeAddress(range)) ==> InRangeAddr(GetRangeAddress(Range(n)), a)
  }

  /** `containsScope(o)`: same sheet, and `o`'s range inside this one. */
  predicate ContainsScope(n: Node, o: Node)
    requires Shaped(n) && Shaped(o)
  {
    ShapedRange(o);
    n.sheet == o.sheet && ContainsRange(n, Range(o))
  }

  /** A range with cells is contained exactly when both of its corners are. */
  lemma ContainsRangeCorners(n: Node, range: string)
    requires Shaped(n) && IsRangeRef(range)
    requires var r := GetRangeAddress(range); r.near.c <= r.far.c && r.near.r <= r.far.r
    ensures ContainsRange(n, range) <==>
      InRangeAddr(n.address, GetRangeAddress(range).near) && InRangeAddr(n.address, GetRangeAddress(range).far)
  {
    ShapedRange(n);
    var r := GetRangeAddress(range);
    RangeCellsFacts(r);
    assert r.near in RangeCells(r) && r.far in RangeCells(r);
  }

  lemma ContainsScopeReflexive(n: Node)
    requires Shaped(n)
    ensures ContainsScope(n, n)
  {
    ShapedRange(n);
    RangeCellsFacts(n.address);
  }

  /** Containment is transitive: a cell of `z` lies in `y`, and on each axis
      either `y` bounds it, so some cell of `y` shares that coordinate, or
      `y` is unbounded there, and then so is `x`, which holds `y`'s column or
      row `-1`. */
  lemma ContainsScopeTransitive(x: Node, y: Node, z: Node)
    requires Shaped(x) && Shaped(y) && Shaped(z)
    requires ContainsScope(x, y) && ContainsScope(y, z)
    ensures ContainsScope(x, z)
  {
    ShapedRange(x);
    ShapedRange(y);
    ShapedRange(z);
    var rx, ry, rz := x.address, y.address, z.address;
    RangeCellsFacts(ry);
    RangeCellsFacts(rz);
    forall a | a in RangeCells(rz) ensures InRangeAddr(rx, a) {
      assert InRangeAddr(ry, a);
      var b := CellAddress(if ry.near.c < 0 then ry.near.c else a.c, if ry.near.r < 0 then ry.near.r else a.r);
      assert b in RangeCells(ry);
      assert InRangeAddr(rx, b);
    }
  }

  /** `isAfterDim(ref, d)`: the scope starts strictly past the cell along `d`
      and spans its coordinate on the other axis. */
  predicate IsAfterDim(ref: string, d: Direction, n: Node)
    requires HasRow(ref)
  {
    RangeAfterCellDim(GetCellAddress(ref), n.address, d)
  }

  /** `isAtOrBelowRange(ref)`: the top row at or below `ref`'s top row, and
      the column spans overlap. */
  predicate IsAtOrBelowRange(n: Node, ref: string)
    requires IsRangeRef(ref)
  {
    var r := GetRangeAddress(ref);
    var a := n.address;
    a.near.r >= r.near.r && a.near.c <= r.far.c && r.near.c <= a.far.c
  }

  /** `isAtOrAfterRange(ref)`: the left column at or after `ref`'s left
      column, and the row spans overlap. */
  predicate IsAtOrAfterRange(n: Node, ref: string)
    requires IsRangeRef(ref)
  {
    var r := GetRangeAddress(ref);
    var a := n.address;
    a.near.c >= r.near.c && a.near.r <= r.far.r && r.near.r <= a.far.r
  }

  /** `isAtOrAfterRangeDim(ref, d)`: at or after `ref` along `d`, with the
      spans on the other axis overlapping. */
  predicate IsAtOrAfterRangeDim(n: Node, ref: string, d: Direction)
    requires IsRangeRef(ref)
  {
    match d
    case Horizontal => IsAtOrAfterRange(n, ref)
    case Vertical => IsAtOrBelowRange(n, ref)
  }

  lemma AtOrAfterRangeDimMeaning(n: Node, ref: string, d: Direction)
    requires IsRangeRef(ref)
    ensures var r, a, s := GetRangeAddress(ref), n.address, Other(d);
      IsAtOrAfterRangeDim(n, ref, d) <==>
        Get(a.near, d) >= Get(r.near, d) && Get(a.near, s) <= Get(r.far, s) && Get(r.near, s) <= Get(a.far, s)
  {
  }

  /** What `evaluate` gives: a value and the kind of its template. */
  datatype Evaluation = Evaluation(value: Json, kind: Option<Kind>)

  /** `evaluate(context)`: the root hands the context on as a scalar; a scope
      looks up the path of its template with the expression evaluator. */
  function Evaluate(n: Node, context: Json, eval: (Json, string) -> Json): (e: Evaluation)
    ensures !n.isScope ==> e == Evaluation(context, Some(ScalarKind))
    ensures n.isScope ==> e.kind == TemplateType(n.template) && e.value == eval(context, ParseTemplate(n.template).path)
  {
    if !n.isScope then Evaluation(context, Some(ScalarKind))
    else
      var p := ParseTemplate(n.template);
      Evaluation(eval(context, p.path), p.kind)
  }

  // -------------------------------------------------------------------------
  // Templates

  /** `template.replace(/^[_|]/g, '$')`: a leading `_` or `|` becomes `$`. */
  function ScalarText(t: string): (s: string)
    ensures |s| == |t| && (t != [] ==> s[1..] == t[1..])
    ensures TemplateType(t) in {Some(ColumnKind), Some(RowKind)} ==> TemplateType(s) == Some(ScalarKind)
    ensures TemplateType(t) !in {Some(ColumnKind), Some(RowKind)} && t != [] && t[0] !in "_|" ==> s == t
  {
    if t != [] && t[0] in "_|" then "$" + t[1..] else t
  }

  /** Making a template scalar keeps its data path. */
  lemma ScalarTextKeepsPath(t: string)
    ensures ParseTemplate(ScalarText(t)).path == ParseTemplate(t).path
  {
    var s := ScalarText(t);
    if |t| >= 3 {
      assert s[1] == t[1] && s[|s| - 1] == t[|t| - 1];
      assert s[2..|s| - 1] == t[2..|t| - 1];
    }
  }

  lemma ScalarTextIdempotent(t: string)
    ensures ScalarText(ScalarText(t)) == ScalarText(t)
  {
  }

  /** `'${$[' + index + ']}'`: the template of the `index`-th scalar clone. */
  function ScalarTemplate(index: nat): string {
    "${$[" + NatDigits(index) + "]}"
  }

  lemma ScalarTemplateParses(index: nat)
    ensures ParseTemplate(ScalarTemplate(index)) == Parsed(Some(ScalarKind), "$[" + NatDigits(index) + "]")
  {
    var p := "$[" + NatDigits(index) + "]";
    assert ScalarTemplate(index) == "${" + p + "}";
    assert NoLineTerminator(p) by {
      var ds := NatDigits(index);
      forall i | 0 <= i < |p| ensures !IsLineTerminator(p[i]) {
        if 2 <= i < 2 + |ds| { assert p[i] == ds[i - 2]; assert IsDigit(ds[i - 2]); }
      }
    }
    ParseMarker("${", p);
  }

  // -------------------------------------------------------------------------
  // Moving and growing one node

  /** `move(a)` on one node: both corners shift by `a` and the range text is
      re-derived from them (`updateRange`). */
  function Translate(n: Node, a: CellAddress): (m: Node)
    requires ValidRange(n.address) && a.c >= 0 && a.r >= 0
    ensures Shaped(m) && m.address == RangeAddress(AddAddress(a, n.address.near), AddAddress(a, n.address.far))
  {
    n.(synced := true, address := RangeAddress(AddAddress(a, n.address.near), AddAddress(a, n.address.far)))
  }

  /** `grow(a)` on one node: the far corner shifts by `a`, the near corner
      stays, and the range text is re-derived. */
  function Grown(n: Node, a: CellAddress): (m: Node)
    requires ValidRange(n.address) && a.c >= 0 && a.r >= 0
    ensures Shaped(m) && m.address == RangeAddress(n.address.near, AddAddress(a, n.address.far))
  {
    n.(synced := true, address := RangeAddress(n.address.near, AddAddress(a, n.address.far)))
  }

  /** A move keeps the span on both axes. */
  lemma TranslateKeepsDim(n: Node, a: CellAddress, d: Direction)
    requires ValidRange(n.address) && a.c >= 0 && a.r >= 0
    ensures NodeDim(Translate(n, a), d) == Dim(n.address, d)
  {
  }

  /** `growDim(k, d)` adds `k` to the span along `d` and keeps the other. */
  lemma GrownDim(n: Node, k: nat, d: Direction)
    ensures ValidRange(n.address) ==>
      NodeDim(Grown(n, RelAddress(k, d)), d) == Dim(n.address, d) + k &&
      NodeDim(Grown(n, RelAddress(k, d)), Other(d)) == Dim(n.address, Other(d))
  {
    var a := RelAddress(k, d);
    assert Get(a, d) == k && Get(a, Other(d)) == 0;
    match d
    case Vertical =>
    case Horizontal =>
  }

  /** `k` moves by `a` in a row: one translation by `k * a`. */
  function Shift(n: Node, k: nat, a: CellAddress): (m: Node)
    requires ValidRange(n.address) && a.c >= 0 && a.r >= 0
  {
    if k == 0 then n else Translate(n, CellAddress(k * a.c, k * a.r))
  }

  lemma Distribute(j: int, k: int, x: int)
    ensures j * x + k * x == (j + k) * x
  {
  }

  lemma ShiftTwice(n: Node, j: nat, k: nat, a: CellAddress)
    requires ValidRange(n.address) && a.c >= 0 && a.r >= 0
    ensures ValidRange(Shift(n, j, a).address) && Shift(Shift(n, j, a), k, a) == Shift(n, j + k, a)
  {
    if j > 0 && k > 0 {
      Distribute(j, k, a.c);
      Distribute(j, k, a.r);
    }
  }

  /** `b` keeps the template, the kind, the sheet and the links of `a`, as
      moving or growing a node does. */
  predicate Relocated(b: Node, a: Node) {
    b.template == a.template && b.parent == a.parent && b.children == a.children &&
    b.isScope == a.isScope && b.sheet == a.sheet && b.kind == a.kind
  }

  /** A run of moves and growths relocates a node. */
  lemma ShiftRelocates(n: Node, k: nat, a: CellAddress)
    requires ValidRange(n.address) && a.c >= 0 && a.r >= 0
    ensures Relocated(Shift(n, k, a), n) && Relocated(Grown(n, a), n)
  {
  }

  /** Every node of `n0` is still present in `n1`; the first `t` of them
      are at most relocated. */
  ghost predicate KeptBelow(n0: seq<Node>, n1: seq<Node>, t: nat) {
    |n0| <= |n1| && forall i :: 0 <= i < t && i < |n0| ==> Relocated(n1[i], n0[i])
  }

  /** Every node of `n0` is still present in `n1` with the parent it had. */
  ghost predicate ParentsKept(n0: seq<Node>, n1: seq<Node>) {
    |n0| <= |n1| && forall i :: 0 <= i < |n0| ==> n1[i].parent == n0[i].parent
  }

  /** The same nodes, each at most relocated. */
  ghost predicate Relocations(n0: seq<Node>, n1: seq<Node>) {
    |n1| == |n0| && forall i :: 0 <= i < |n0| ==> Relocated(n1[i], n0[i])
  }

  lemma KeptBelowTrans(n0: seq<Node>, n1: seq<Node>, n2: seq<Node>, t: nat, u: nat)
    requires KeptBelow(n0, n1, t) && KeptBelow(n1, n2, u)
    ensures KeptBelow(n0, n2, if t <= u then t else u)
  {
  }

  lemma RelocationsTrans(n0: seq<Node>, n1: seq<Node>, n2: seq<Node>)
    requires Relocations(n0, n1) && Relocations(n1, n2)
    ensures Relocations(n0, n2) && forall t: nat :: KeptBelow(n0, n2, t)
  {
  }

  // -------------------------------------------------------------------------
  // The shape of the tree

  /** Every child of node `i` comes after it and lies in the arena. */
  predicate After(cs: seq<nat>, i: int, size: int) {
    forall k :: 0 <= k < |cs| ==> i < cs[k] < size
  }

  function Kids(nodes: seq<Node>): (kids: seq<seq<nat>>)
    ensures |kids| == |nodes| && forall i :: 0 <= i < |nodes| ==> kids[i] == nodes[i].children
  {
    seq(|nodes|, i requires 0 <= i < |nodes| => nodes[i].children)
  }

  /** The parent a node hands `grow` on to: its parent when that is a `Scope`. */
  function Up(nodes: seq<Node>, i: nat): Option<nat>
    requires i < |nodes|
  {
    match nodes[i].parent
    case Some(p) => if p < |nodes| && nodes[p].isScope then Some(p) else None
    case None => None
  }

  function Ups(nodes: seq<Node>): (ups: seq<Option<nat>>)
    ensures |ups| == |nodes| && forall i :: 0 <= i < |nodes| ==> ups[i] == Up(nodes, i)
  {
    seq(|nodes|, i requires 0 <= i < |nodes| => Up(nodes, i))
  }

  /** Node `n` sits well at index `i` of an arena of `size` nodes: a `Scope`
      (unless it is the root) whose ordered corners are decoded from its range text,
      with its children after it and its parent before it. */
  predicate Placed(n: Node, i: nat, size: nat) {
    ValidRange(n.address) && (i > 0 <==> n.isScope) && (i > 0 ==> Shaped(n) && Ordered(n.address)) &&
    After(n.children, i, size) && (n.parent.Some? ==> n.parent.value < i)
  }

  /** A well-formed arena: the root first and every node placed well. */
  ghost predicate WellFormed(nodes: seq<Node>) {
    |nodes| >= 1 && forall i :: 0 <= i < |nodes| ==> Placed(nodes[i], i, |nodes|)
  }

  /** How many times `move` from `s` reaches node `i`: once for `s` itself
      and once along every child path; in a tree this is 1 for each
      descendant and 0 elsewhere. (A child link that does not point forward
      never occurs in a well-formed arena and counts nothing.) */
  function Paths(kids: seq<seq<nat>>, s: nat, i: nat): nat
    requires s < |kids|
    decreases |kids| - s, 1, 0
  {
    (if i == s then 1 else 0) + PathsFrom(kids, s, kids[s], i)
  }

  /** The paths to `i` through the children `cs` of `s`. */
  function PathsFrom(kids: seq<seq<nat>>, s: nat, cs: seq<nat>, i: nat): nat
    requires s < |kids|
    decreases |kids| - s, 0, |cs|
  {
    if cs == [] then 0
    else
      var c := cs[|cs| - 1];
      PathsFrom(kids, s, cs[..|cs| - 1], i) + (if s < c < |kids| then Paths(kids, c, i) else 0)
  }

  /** `move` from `s` reaches `s` once and nothing before it. */
  lemma {:induction false} PathsBefore(kids: seq<seq<nat>>, s: nat, i: nat)
    requires s < |kids| && i <= s
    ensures Paths(kids, s, i) == if i == s then 1 else 0
    decreases |kids| - s, 1, 0
  {
    PathsFromBefore(kids, s, kids[s], i);
  }

  lemma {:induction false} PathsFromBefore(kids: seq<seq<nat>>, s: nat, cs: seq<nat>, i: nat)
    requires s < |kids| && i <= s
    ensures PathsFrom(kids, s, cs, i) == 0
    decreases |kids| - s, 0, |cs|
  {
    if cs != [] {
      PathsFromBefore(kids, s, cs[..|cs| - 1], i);
      var c := cs[|cs| - 1];
      if s < c < |kids| {
        PathsBefore(kids, c, i);
      }
    }
  }

  /** The nodes `grow` from `s` reaches: `s` and its chain of `Scope` parents. */
  function Ancestry(ups: seq<Option<nat>>, s: nat): (a: set<nat>)
    requires s < |ups|
    ensures s in a && forall i :: i in a ==> i <= s
    decreases s
  {
    {s} + (if ups[s].Some? && ups[s].value < s then Ancestry(ups, ups[s].value) else {})
  }

  /** Replacing one node by one that sits well keeps the arena well formed. */
  lemma {:induction false} Replace(nodes: seq<Node>, i: nat, n: Node)
    requires WellFormed(nodes) && i < |nodes| && Placed(n, i, |nodes|)
    ensures WellFormed(nodes[i := n])
  {
    var m := nodes[i := n];
    forall j | 0 <= j < |m| ensures Placed(m[j], j, |m|) {
      if j != i {
        assert m[j] == nodes[j];
      }
    }
  }

  /** Every listed child points back at the node that lists it, and no
      child list names a node twice: each node is listed by its parent
      only, and once, as `addChild` keeps it when it is handed a scope no
      list holds. */
  ghost predicate Linked(nodes: seq<Node>) {
    (forall i, k :: 0 <= i < |nodes| && 0 <= k < |nodes[i].children| ==>
      nodes[i].children[k] < |nodes| && nodes[nodes[i].children[k]].parent == Some(i)) &&
    (forall i, k, l :: 0 <= i < |nodes| && 0 <= k < l < |nodes[i].children| ==>
      nodes[i].children[k] != nodes[i].children[l])
  }

  /** No child list holds node `s`. */
  ghost predicate Unlisted(nodes: seq<Node>, s: nat) {
    forall i, k :: 0 <= i < |nodes| && 0 <= k < |nodes[i].children| ==> nodes[i].children[k] != s
  }

  /** Replacing a node by one with the same links keeps the arena linked. */
  lemma SameLinks(nodes: seq<Node>, i: nat, x: Node)
    requires Linked(nodes) && i < |nodes| && x.parent == nodes[i].parent && x.children == nodes[i].children
    ensures Linked(nodes[i := x])
  {
    var m := nodes[i := x];
    forall j, k | 0 <= j < |m| && 0 <= k < |m[j].children|
      ensures m[j].children[k] < |m| && m[m[j].children[k]].parent == Some(j)
    {
      assert m[j].children == nodes[j].children;
    }
  }

  /** A node with no children filed at the end is listed nowhere and
      keeps the arena linked. */
  lemma LinkedAppend(nodes: seq<Node>, n: Node)
    requires WellFormed(nodes) && Linked(nodes) && n.children == []
    ensures Linked(nodes + [n]) && Unlisted(nodes + [n], |nodes|)
  {
    var m := nodes + [n];
    forall i, k | 0 <= i < |m| && 0 <= k < |m[i].children|
      ensures m[i].children[k] < |m| && m[m[i].children[k]].parent == Some(i) && m[i].children[k] != |nodes|
    {
      assert i < |nodes| && m[i] == nodes[i];
      assert After(nodes[i].children, i, |nodes|);
    }
  }

  /** `addChild(s)` on `p` for an `s` no list holds keeps the arena linked. */
  lemma LinkedAttach(nodes: seq<Node>, p: nat, s: nat)
    requires Linked(nodes) && p < |nodes| && s < |nodes| && p != s && Unlisted(nodes, s)
    ensures var m := nodes[s := nodes[s].(parent := Some(p))];
      Linked(m[p := m[p].(children := m[p].children + [s])])
  {
    var m0 := nodes[s := nodes[s].(parent := Some(p))];
    var m := m0[p := m0[p].(children := m0[p].children + [s])];
    forall i, k | 0 <= i < |m| && 0 <= k < |m[i].children|
      ensures m[i].children[k] < |m| && m[m[i].children[k]].parent == Some(i)
    {
      if i != p || k < |nodes[p].children| {
        assert m[i].children[k] == nodes[i].children[k] != s;
      }
    }
  }

  /** Setting the parent of an `s` no list holds keeps the arena linked. */
  lemma LinkedSetParent(nodes: seq<Node>, s: nat, p: nat)
    requires Linked(nodes) && s < |nodes| && Unlisted(nodes, s)
    ensures Linked(nodes[s := nodes[s].(parent := Some(p))])
  {
    var m := nodes[s := nodes[s].(parent := Some(p))];
    forall i, k | 0 <= i < |m| && 0 <= k < |m[i].children|
      ensures m[i].children[k] < |m| && m[m[i].children[k]].parent == Some(i)
    {
      assert m[i].children == nodes[i].children;
    }
  }

  /** Emptying a child list keeps the arena linked. */
  lemma LinkedDetach(nodes: seq<Node>, p: nat)
    requires Linked(nodes) && p < |nodes|
    ensures Linked(nodes[p := nodes[p].(children := [])])
  {
    var m := nodes[p := nodes[p].(children := [])];
    forall i, k | 0 <= i < |m| && 0 <= k < |m[i].children|
      ensures m[i].children[k] < |m| && m[m[i].children[k]].parent == Some(i)
    {
      assert m[i].children == nodes[i].children;
    }
  }

  /** A node no list holds stays so when the lists are kept, up to nodes
      filed after it (whose children all come after them). */
  lemma UnlistedKept(before: seq<Node>, after: seq<Node>, x: nat)
    requires Unlisted(before, x) && x < |before| <= |after| && WellFormed(after)
    requires forall i :: 0 <= i < |before| ==> after[i].children == before[i].children
    ensures Unlisted(after, x)
  {
    forall i, k | 0 <= i < |after| && 0 <= k < |after[i].children| ensures after[i].children[k] != x {
      if i >= |before| {
        assert Placed(after[i], i, |after|);
      }
    }
  }

  /** The first node filed past `before` is held by no list. */
  lemma FreshUnlisted(before: seq<Node>, after: seq<Node>)
    requires WellFormed(before) && WellFormed(after) && |before| < |after|
    requires forall i :: 0 <= i < |before| ==> after[i] == before[i]
    ensures Unlisted(after, |before|)
  {
    forall i, k | 0 <= i < |after| && 0 <= k < |after[i].children| ensures after[i].children[k] != |before| {
      assert Placed(after[i], i, |after|);
      if i < |before| {
        assert Placed(before[i], i, |before|);
      }
    }
  }

  // -------------------------------------------------------------------------
  // Subtrees

  /** Node `i` is `s` or lies in the subtree of `s`, reached through the
      child lists. */
  ghost predicate Below(nodes: seq<Node>, s: nat, i: nat)
    decreases |nodes| - s
  {
    s < |nodes| &&
    (i == s ||
     exists k :: 0 <= k < |nodes[s].children| && s < nodes[s].children[k] < |nodes| &&
       Below(nodes, nodes[s].children[k], i))
  }

  /** Following parent links up from `i` reaches `x`. */
  ghost predicate Above(nodes: seq<Node>, x: nat, i: nat)
    decreases i
  {
    i < |nodes| &&
    (x == i || (nodes[i].parent.Some? && nodes[i].parent.value < i && Above(nodes, x, nodes[i].parent.value)))
  }

  lemma {:induction false} AboveBefore(nodes: seq<Node>, x: nat, i: nat)
    requires Above(nodes, x, i)
    ensures x <= i
    decreases i
  {
    if x != i {
      AboveBefore(nodes, x, nodes[i].parent.value);
    }
  }

  /** Two nodes on the parent chain of `i` lie on one chain. */
  lemma {:induction false} AboveChain(nodes: seq<Node>, x: nat, y: nat, i: nat)
    requires Above(nodes, x, i) && Above(nodes, y, i)
    ensures Above(nodes, x, y) || Above(nodes, y, x)
    decreases i
  {
    if x != i && y != i {
      AboveChain(nodes, x, y, nodes[i].parent.value);
    }
  }

  /** The parent of a node on the chain of `i` is on it too. */
  lemma {:induction false} AboveThrough(nodes: seq<Node>, c: nat, p: nat, i: nat)
    requires Above(nodes, c, i) && c < |nodes| && nodes[c].parent == Some(p) && p < c
    ensures Above(nodes, p, i)
    decreases i
  {
    if c != i {
      AboveThrough(nodes, c, p, nodes[i].parent.value);
    }
  }

  /** In a linked arena, the subtree of `s` hangs from `s` by parent links. */
  lemma {:induction false} BelowAbove(nodes: seq<Node>, s: nat, i: nat)
    requires Linked(nodes) && Below(nodes, s, i)
    ensures Above(nodes, s, i)
    decreases |nodes| - s
  {
    if i != s {
      var k :| 0 <= k < |nodes[s].children| && s < nodes[s].children[k] < |nodes| && Below(nodes, nodes[s].children[k], i);
      var c := nodes[s].children[k];
      BelowAbove(nodes, c, i);
      AboveThrough(nodes, c, s, i);
    }
  }

  /** Two different children of `s` have disjoint subtrees, and neither
      holds `s`. */
  lemma ChildrenApart(nodes: seq<Node>, s: nat, c: nat, e: nat, i: nat)
    requires Linked(nodes) && s < c < |nodes| && s < e < |nodes| && c != e
    requires nodes[c].parent == Some(s) && nodes[e].parent == Some(s)
    ensures !(Below(nodes, c, i) && Below(nodes, e, i)) && !Below(nodes, c, s)
  {
    if Below(nodes, c, i) && Below(nodes, e, i) {
      BelowAbove(nodes, c, i);
      BelowAbove(nodes, e, i);
      AboveChain(nodes, c, e, i);
      if Above(nodes, c, e) {
        AboveBefore(nodes, c, s);
      } else {
        AboveBefore(nodes, e, s);
      }
    }
    if Below(nodes, c, s) {
      BelowAbove(nodes, c, s);
      AboveBefore(nodes, c, s);
    }
  }

  /** In a linked arena `move` reaches each node of the subtree of `s`
      exactly once and no other node. */
  lemma {:induction false} PathsBelow(nodes: seq<Node>, s: nat, i: nat)
    requires WellFormed(nodes) && Linked(nodes) && s < |nodes|
    ensures Paths(Kids(nodes), s, i) == if Below(nodes, s, i) then 1 else 0
    decreases |nodes| - s, 1
  {
    var cs := nodes[s].children;
    assert Placed(nodes[s], s, |nodes|);
    PathsFromBelow(nodes, s, |cs|, i);
    assert cs[..|cs|] == cs;
    if i == s {
      forall k | 0 <= k < |cs| ensures !Below(nodes, cs[k], s) {
        if Below(nodes, cs[k], s) {
          BelowAbove(nodes, cs[k], s);
          AboveBefore(nodes, cs[k], s);
        }
      }
    }
  }

  /** The paths to `i` through the first `n` children of `s`: one when one
      of them holds `i` in its subtree, none otherwise. */
  lemma {:induction false} PathsFromBelow(nodes: seq<Node>, s: nat, n: nat, i: nat)
    requires WellFormed(nodes) && Linked(nodes) && s < |nodes| && n <= |nodes[s].children|
    ensures PathsFrom(Kids(nodes), s, nodes[s].children[..n], i) ==
      if exists k :: 0 <= k < n && Below(nodes, nodes[s].children[k], i) then 1 else 0
    decreases |nodes| - s, 0, n
  {
    var all := nodes[s].children;
    assert Placed(nodes[s], s, |nodes|);
    if n > 0 {
      var c := all[n - 1];
      assert s < c < |nodes|;
      PathsFromBelow(nodes, s, n - 1, i);
      PathsBelow(nodes, c, i);
      EarlierApart(nodes, s, n, i);
      PathsFromSnoc(nodes, Kids(nodes), s, all, n, i);
    }
  }

  /** When the `n`-th child of `s` holds `i` in its subtree, no earlier
      child does. */
  lemma EarlierApart(nodes: seq<Node>, s: nat, n: nat, i: nat)
    requires WellFormed(nodes) && Linked(nodes) && s < |nodes| && 0 < n <= |nodes[s].children|
    ensures Below(nodes, nodes[s].children[n - 1], i) ==>
      forall k :: 0 <= k < n - 1 ==> !Below(nodes, nodes[s].children[k], i)
  {
    var all := nodes[s].children;
    assert Placed(nodes[s], s, |nodes|);
    var c := all[n - 1];
    if Below(nodes, c, i) {
      forall k | 0 <= k < n - 1 ensures !Below(nodes, all[k], i) {
        ChildrenApart(nodes, s, all[k], c, i);
      }
    }
  }

  /** The step of `PathsFromBelow`: when the paths through the first `n - 1`
      children and through the `n`-th are counted by subtree membership, and
      the `n`-th subtree is apart from the earlier ones, so are the paths
      through the first `n`. */
  lemma PathsFromSnoc(nodes: seq<Node>, kids: seq<seq<nat>>, s: nat, cs: seq<nat>, n: nat, i: nat)
    requires 0 < n <= |cs| && s < cs[n - 1] < |kids|
    requires PathsFrom(kids, s, cs[..n - 1], i) ==
      if exists k :: 0 <= k < n - 1 && Below(nodes, cs[k], i) then 1 else 0
    requires Paths(kids, cs[n - 1], i) == if Below(nodes, cs[n - 1], i) then 1 else 0
    requires Below(nodes, cs[n - 1], i) ==> forall k :: 0 <= k < n - 1 ==> !Below(nodes, cs[k], i)
    ensures PathsFrom(kids, s, cs[..n], i) ==
      if exists k :: 0 <= k < n && Below(nodes, cs[k], i) then 1 else 0
  {
    assert cs[..n][..n - 1] == cs[..n - 1];
    if exists k :: 0 <= k < n && Below(nodes, cs[k], i) {
      var k :| 0 <= k < n && Below(nodes, cs[k], i);
      if k < n - 1 {
        assert exists j :: 0 <= j < n - 1 && Below(nodes, cs[j], i);
      }
    }
  }

  /** A count of moves that is the number of paths from `s` moves each
      node of the subtree of `s` once and leaves the rest. */
  lemma MovedOnce(n0: seq<Node>, nodes: seq<Node>, s: nat, a: CellAddress)
    requires WellFormed(n0) && Linked(n0) && s < |n0| == |nodes| && a.c >= 0 && a.r >= 0
    requires forall i :: 0 <= i < |n0| ==> nodes[i] == Shift(n0[i], Paths(Kids(n0), s, i), a)
    ensures forall i :: 0 <= i < |n0| ==> nodes[i] == if Below(n0, s, i) then Translate(n0[i], a) else n0[i]
  {
    assert CellAddress(1 * a.c, 1 * a.r) == a;
    forall i | 0 <= i < |n0| ensures nodes[i] == if Below(n0, s, i) then Translate(n0[i], a) else n0[i] {
      PathsBelow(n0, s, i);
    }
  }

  /** The count of moves of `i` after `move` of `s` has been passed to its first `k` children. */
  function MovedSoFar(kids: seq<seq<nat>>, s: nat, cs: seq<nat>, k: nat, i: nat): nat
    requires s < |kids| && k <= |cs|
  {
    (if i == s then 1 else 0) + PathsFrom(kids, s, cs[..k], i)
  }

  /** A node replaced by one with the same links and role keeps the shape of the arena. */
  lemma {:induction false} SameShape(nodes: seq<Node>, i: nat, x: Node)
    requires i < |nodes| && x.children == nodes[i].children && x.parent == nodes[i].parent && x.isScope == nodes[i].isScope
    ensures Kids(nodes[i := x]) == Kids(nodes) && Ups(nodes[i := x]) == Ups(nodes)
  {
    var m := nodes[i := x];
    forall j | 0 <= j < |m| ensures Up(m, j) == Up(nodes, j) {
      assert m[j].parent == nodes[j].parent;
    }
  }

  /** One more child moved: its paths add to the count of every node. */
  lemma {:induction false} MoveStep(n0: seq<Node>, before: seq<Node>, after: seq<Node>,
                                    kids: seq<seq<nat>>, s: nat, cs: seq<nat>, k: nat, a: CellAddress)
    requires WellFormed(n0) && WellFormed(before) && |before| == |n0| && |after| == |n0| && a.c >= 0 && a.r >= 0
    requires s < |kids| && k < |cs| && s < cs[k] < |kids|
    requires forall i :: 0 <= i < |n0| ==> before[i] == Shift(n0[i], MovedSoFar(kids, s, cs, k, i), a)
    requires forall i :: 0 <= i < |n0| ==> after[i] == Shift(before[i], Paths(kids, cs[k], i), a)
    ensures forall i :: 0 <= i < |n0| ==> after[i] == Shift(n0[i], MovedSoFar(kids, s, cs, k + 1, i), a)
  {
    assert cs[..k + 1][..k] == cs[..k];
    forall i | 0 <= i < |n0|
      ensures after[i] == Shift(n0[i], MovedSoFar(kids, s, cs, k + 1, i), a)
    {
      assert Placed(n0[i], i, |n0|);
      ShiftTwice(n0[i], MovedSoFar(kids, s, cs, k, i), Paths(kids, cs[k], i), a);
    }
  }

  /** `b` was constructed from `a`'s range text, sheet, template and kind. */
  predicate Kin(a: Node, b: Node) {
    b.isScope && Range(b) == Range(a) && b.address == a.address &&
    b.sheet == a.sheet && b.template == a.template && b.kind == a.kind
  }

  /** `b` is `a` with at most its parent link changed. */
  predicate Alike(b: Node, a: Node) {
    b == a.(parent := b.parent)
  }

  /** The first `limit` nodes have all their children among themselves. */
  ghost predicate Closed(nodes: seq<Node>, limit: nat) {
    limit <= |nodes| && forall i :: 0 <= i < limit ==> After(nodes[i].children, i, limit)
  }

  /** Node `y` roots a deep copy of the subtree at `x`: it is kin to `x`,
      and its children, in order, are later nodes wired to it that root
      copies of `x`'s children. */
  ghost predicate CopyOf(nodes: seq<Node>, x: nat, y: nat)
    decreases |nodes| - x
  {
    x < |nodes| && y < |nodes| && Kin(nodes[x], nodes[y]) &&
    |nodes[y].children| == |nodes[x].children| &&
    forall k :: 0 <= k < |nodes[x].children| ==>
      var cx, cy := nodes[x].children[k], nodes[y].children[k];
      x < cx < |nodes| && y < cy < |nodes| && nodes[cy].parent == Some(y) && CopyOf(nodes, cx, cy)
  }

  /** A copy survives changes outside both subtrees: to nodes past the
      closed prefix that hold the original, and past the copy's own range. */
  lemma {:induction false} CopyFrame(ns: seq<Node>, ms: seq<Node>, x: nat, y: nat, limit: nat)
    requires CopyOf(ns, x, y) && x < limit <= y && Closed(ns, limit) && |ns| <= |ms|
    requires forall i :: 0 <= i < limit ==> ms[i] == ns[i]
    requires Alike(ms[y], ns[y]) && forall i :: y < i < |ns| ==> ms[i] == ns[i]
    ensures CopyOf(ms, x, y)
    decreases |ns| - x
  {
    forall k | 0 <= k < |ms[x].children|
      ensures var cx, cy := ms[x].children[k], ms[y].children[k];
        x < cx < |ms| && y < cy < |ms| && ms[cy].parent == Some(y) && CopyOf(ms, cx, cy)
    {
      var cx, cy := ns[x].children[k], ns[y].children[k];
      assert After(ns[x].children, x, limit);
      CopyFrame(ns, ms, cx, cy, limit);
    }
  }

  /** A copy survives appending nodes: nothing it refers to moves. */
  lemma {:induction false} CopyExtended(ns: seq<Node>, ms: seq<Node>, x: nat, y: nat)
    requires CopyOf(ns, x, y) && |ns| <= |ms| && forall i :: 0 <= i < |ns| ==> ms[i] == ns[i]
    ensures CopyOf(ms, x, y)
    decreases |ns| - x
  {
    forall k | 0 <= k < |ms[x].children|
      ensures var cx, cy := ms[x].children[k], ms[y].children[k];
        x < cx < |ms| && y < cy < |ms| && ms[cy].parent == Some(y) && CopyOf(ms, cx, cy)
    {
      CopyExtended(ns, ms, ns[x].children[k], ns[y].children[k]);
    }
  }

  /** `c` copies the subtree of `s` as it now is, up to the template and
      the parent of `c` itself. */
  ghost predicate ScalarCopy(nodes: seq<Node>, s: nat, c: nat) {
    s < |nodes| && c < |nodes| && CopyOf(nodes[c := nodes[c].(template := nodes[s].template)], s, c)
  }

  /** Clone `i` of the expansion of `t`: a scope on the sheet of `t`, of
      its kind, whose template is scalar template `i`. */
  predicate ItemClone(nodes: seq<Node>, t: nat, c: nat, i: nat) {
    t < |nodes| && c < |nodes| && nodes[c].isScope && nodes[c].sheet == nodes[t].sheet &&
    nodes[c].kind == nodes[t].kind && nodes[c].template == ScalarTemplate(i)
  }

  /** A scalar copy filed at its own index is an item clone, still at the
      address of `t`. */
  lemma ScalarCopyIsItem(nodes: seq<Node>, t: nat, c: nat, i: nat)
    requires ScalarCopy(nodes, t, c) && t != c && nodes[c].template == ScalarTemplate(i)
    ensures ItemClone(nodes, t, c, i) && nodes[c].address == nodes[t].address
  {
    var p := nodes[c := nodes[c].(template := nodes[t].template)];
    assert Kin(p[t], p[c]);
    assert p[t] == nodes[t];
  }

  /** Item clones survive changes that keep what each node is. */
  lemma ItemClonesKept(ns: seq<Node>, ms: seq<Node>, t: nat, cs: seq<nat>)
    requires |ns| == |ms| && forall i :: 0 <= i < |ns| ==>
      ms[i].isScope == ns[i].isScope && ms[i].sheet == ns[i].sheet && ms[i].kind == ns[i].kind && ms[i].template == ns[i].template
    requires forall i :: 0 <= i < |cs| ==> ItemClone(ns, t, cs[i], i)
    ensures forall i :: 0 <= i < |cs| ==> ItemClone(ms, t, cs[i], i)
  {
    forall i | 0 <= i < |cs| ensures ItemClone(ms, t, cs[i], i) {
      assert ItemClone(ns, t, cs[i], i);
    }
  }

  /** Scalar copies survive appending nodes. */
  lemma ScalarCopiesKept(ns: seq<Node>, ms: seq<Node>, s: nat, cs: seq<nat>)
    requires |ns| <= |ms| && forall i :: 0 <= i < |ns| ==> ms[i] == ns[i]
    requires forall j :: 0 <= j < |cs| ==> ScalarCopy(ns, s, cs[j])
    ensures forall j :: 0 <= j < |cs| ==> ScalarCopy(ms, s, cs[j])
  {
    forall j | 0 <= j < |cs| ensures ScalarCopy(ms, s, cs[j]) {
      var c := cs[j];
      CopyExtended(ns[c := ns[c].(template := ns[s].template)], ms[c := ms[c].(template := ms[s].template)], s, c);
    }
  }

  /** `cs` are scalar clones of `s` in increasing order, filed at or past
      `lo`: clone `j` has `s` as its parent and scalar template `j`, copies
      `s`, and no list holds it. */
  ghost predicate ScalarClonesOf(nodes: seq<Node>, s: nat, cs: seq<nat>, lo: nat) {
    (forall j :: 0 <= j < |cs| ==>
      lo <= cs[j] < |nodes| && nodes[cs[j]].parent == Some(s) && nodes[cs[j]].template == ScalarTemplate(j) &&
      Unlisted(nodes, cs[j]) && ScalarCopy(nodes, s, cs[j])) &&
    forall j, l :: 0 <= j < l < |cs| ==> cs[j] < cs[l]
  }

  /** One more scalar clone, appended past every node there was. */
  lemma ScalarClonesGrow(ns: seq<Node>, ms: seq<Node>, s: nat, cs: seq<nat>, c: nat, lo: nat)
    requires ScalarClonesOf(ns, s, cs, lo) && WellFormed(ms) && lo <= c == |ns| < |ms|
    requires forall i :: 0 <= i < |ns| ==> ms[i] == ns[i]
    requires ms[c].parent == Some(s) && ms[c].template == ScalarTemplate(|cs|) && Unlisted(ms, c) && ScalarCopy(ms, s, c)
    ensures ScalarClonesOf(ms, s, cs + [c], lo)
  {
    ClonesUnlisted(ns, ms, cs);
    ScalarCopiesKept(ns, ms, s, cs);
    var cs' := cs + [c];
    forall j | 0 <= j < |cs'|
      ensures lo <= cs'[j] < |ms| && ms[cs'[j]].parent == Some(s) && ms[cs'[j]].template == ScalarTemplate(j)
    {
      if j < |cs| {
        assert ms[cs[j]] == ns[cs[j]];
      }
    }
  }

  /** The first `k` children of `y` root copies of the first `k` children of `x`. */
  ghost predicate Wired(nodes: seq<Node>, y: nat, x: nat, k: nat) {
    x < |nodes| && y < |nodes| && k <= |nodes[x].children| && |nodes[y].children| == k &&
    forall j :: 0 <= j < k ==>
      var cx, cy := nodes[x].children[j], nodes[y].children[j];
      x < cx < |nodes| && y < cy < |nodes| && nodes[cy].parent == Some(y) && CopyOf(nodes, cx, cy)
  }

  /** One more child of `s` cloned (into `ct`, past every node that existed
      before) and added to `t`: the first `k + 1` children are now wired. */
  lemma {:induction false} CloneStep(before: seq<Node>, mid: seq<Node>, after: seq<Node>,
                                     s: nat, t: nat, k: nat, ct: nat, limit: nat)
    requires Closed(before, limit) && s < limit <= t < |before| && Wired(before, t, s, k)
    requires k < |before[s].children| && |before| <= ct < |mid| && |mid| == |after|
    requires forall i :: 0 <= i < |before| ==> mid[i] == before[i]
    requires CopyOf(mid, before[s].children[k], ct)
    requires after[ct] == mid[ct].(parent := Some(t))
    requires after[t] == mid[t].(children := mid[t].children + [ct])
    requires forall i :: 0 <= i < |after| && i != t && i != ct ==> after[i] == mid[i]
    ensures Closed(after, limit) && Wired(after, t, s, k + 1)
  {
    assert Closed(mid, limit) by {
      forall i | 0 <= i < limit ensures After(mid[i].children, i, limit) {
        assert mid[i] == before[i];
      }
    }
    forall i | 0 <= i < limit ensures After(after[i].children, i, limit) {
      assert after[i] == mid[i];
    }
    forall j | 0 <= j <= k
      ensures var cx, cy := after[s].children[j], after[t].children[j];
        s < cx < |after| && t < cy < |after| && after[cy].parent == Some(t) && CopyOf(after, cx, cy)
    {
      if j < k {
        var cx, cy := before[s].children[j], before[t].children[j];
        CopyFrame(before, after, cx, cy, limit);
      } else {
        CopyFrame(mid, after, before[s].children[k], ct, limit);
      }
    }
  }

  /** The clones made so far stay out of every list while a new clone is
      filed past them, or while a node's parent alone changes. */
  lemma ClonesUnlisted(before: seq<Node>, after: seq<Node>, clones: seq<nat>)
    requires WellFormed(after) && |before| <= |after|
    requires forall i :: 0 <= i < |before| ==> after[i].children == before[i].children
    requires forall j :: 0 <= j < |clones| ==> clones[j] < |before|
    requires forall j :: 0 <= j < |clones| ==> Unlisted(before, clones[j])
    ensures forall j :: 0 <= j < |clones| ==> Unlisted(after, clones[j])
  {
    forall j | 0 <= j < |clones| ensures Unlisted(after, clones[j]) {
      UnlistedKept(before, after, clones[j]);
    }
  }

  /** Attaching `c` to `p` leaves any other node out of every list. */
  lemma StillUnlisted(before: seq<Node>, after: seq<Node>, p: nat, c: nat, x: nat)
    requires Unlisted(before, x) && c != x && |after| == |before| && p < |before|
    requires after[p] == before[p].(children := before[p].children + [c])
    requires forall i :: 0 <= i < |after| && i != p ==> after[i].children == before[i].children
    ensures Unlisted(after, x)
  {
    forall i, k | 0 <= i < |after| && 0 <= k < |after[i].children| ensures after[i].children[k] != x {
      if i != p || k < |before[p].children| {
        assert after[i].children[k] == before[i].children[k];
      }
    }
  }

  /** One more `addChild` of the loop of `Adopt`: the first `i + 1` of
      `cs` are now the children of `p`, each with `p` as its parent. */
  lemma AdoptStep(n0: seq<Node>, prev: seq<Node>, after: seq<Node>, p: nat, cs: seq<nat>, i: nat)
    requires i < |cs| && |prev| == |n0| && |after| == |n0| && p < |n0|
    requires forall j :: 0 <= j < |cs| ==> p < cs[j] < |n0|
    requires forall j, l :: 0 <= j < l < |cs| ==> cs[j] != cs[l]
    requires prev[p] == n0[p].(children := cs[..i])
    requires forall j :: 0 <= j < i ==> prev[cs[j]] == n0[cs[j]].(parent := Some(p))
    requires forall x :: 0 <= x < |n0| && x != p && x !in cs[..i] ==> prev[x] == n0[x]
    requires forall j :: i <= j < |cs| ==> Unlisted(prev, cs[j])
    requires after[cs[i]] == prev[cs[i]].(parent := Some(p))
    requires after[p] == prev[p].(children := prev[p].children + [cs[i]])
    requires forall x :: 0 <= x < |after| && x != p && x != cs[i] ==> after[x] == prev[x]
    ensures after[p] == n0[p].(children := cs[..i + 1])
    ensures forall j :: 0 <= j < i + 1 ==> after[cs[j]] == n0[cs[j]].(parent := Some(p))
    ensures forall x :: 0 <= x < |n0| && x != p && x !in cs[..i + 1] ==> after[x] == n0[x]
    ensures forall j :: i + 1 <= j < |cs| ==> Unlisted(after, cs[j])
  {
    assert cs[..i + 1] == cs[..i] + [cs[i]];
    forall j | i < j < |cs| ensures Unlisted(after, cs[j]) {
      StillUnlisted(prev, after, p, cs[i], cs[j]);
    }
    forall j | 0 <= j < i ensures after[cs[j]] == n0[cs[j]].(parent := Some(p)) {
      assert after[cs[j]] == prev[cs[j]];
    }
    assert cs[i] !in cs[..i];
    assert prev[cs[i]] == n0[cs[i]];
  }

  // -------------------------------------------------------------------------
  // The arena

  class ScopeTree {
    var nodes: seq<Node>

    /** A well-formed arena in which every listed scope is listed once,
        by its parent. */
    ghost predicate Valid()
      reads this
    {
      WellFormed(nodes) && Linked(nodes)
    }

    /** The workbook's `new RootScope('')`: a root with no parent, kind range
        and no children, alone in the arena. */
    constructor ()
      ensures Valid() && nodes == [NewRoot("")]
      ensures nodes[0].parent.None? && nodes[0].kind == RangeKind && nodes[0].children == []
    {
      nodes := [NewRoot("")];
    }

    /** Files a constructed `Scope` in the arena, unattached; returns its index. */
    method Add(n: Node) returns (i: nat)
      requires Valid() && n.isScope && Shaped(n) && Ordered(n.address) && n.parent.None? && n.children == []
      modifies this
      ensures Valid() && i == |old(nodes)| && nodes == old(nodes) + [n]
    {
      LinkedAppend(nodes, n);
      i := |nodes|;
      nodes := nodes + [n];
    }

    /** `addChild(s)` on node `p`: `s`'s parent becomes `p` and `s` joins the
        end of `p`'s children; nothing else changes. The source hands it
        only scopes that no list holds yet. */
    method AddChild(p: nat, s: nat)
      requires Valid() && p < s < |nodes| && Unlisted(nodes, s)
      modifies this
      ensures Valid() && |nodes| == |old(nodes)|
      ensures nodes[s] == old(nodes[s]).(parent := Some(p))
      ensures nodes[p] == old(nodes[p]).(children := old(nodes[p].children) + [s])
      ensures forall i :: 0 <= i < |nodes| && i != p && i != s ==> nodes[i] == old(nodes[i])
    {
      LinkedAttach(nodes, p, s);
      Replace(nodes, s, nodes[s].(parent := Some(p)));
      nodes := nodes[s := nodes[s].(parent := Some(p))];
      Replace(nodes, p, nodes[p].(children := nodes[p].children + [s]));
      nodes := nodes[p := nodes[p].(children := nodes[p].children + [s])];
    }

    /** `parentScope = p` set directly, as `interpolateRange` does on a
        fresh clone that no list holds. */
    method SetParent(s: nat, p: nat)
      requires Valid() && p < s < |nodes| && Unlisted(nodes, s)
      modifies this
      ensures Valid() && nodes == old(nodes)[s := old(nodes[s]).(parent := Some(p))]
    {
      LinkedSetParent(nodes, s, p);
      Replace(nodes, s, nodes[s].(parent := Some(p)));
      nodes := nodes[s := nodes[s].(parent := Some(p))];
    }

    /** `removeChildren` on node `p`: its child list becomes empty. */
    method RemoveChildren(p: nat)
      requires Valid() && p < |nodes|
      modifies this
      ensures Valid() && nodes == old(nodes)[p := old(nodes[p]).(children := [])]
    {
      LinkedDetach(nodes, p);
      Replace(nodes, p, nodes[p].(children := []));
      nodes := nodes[p := nodes[p].(children := [])];
    }

    /** `makeScalar` on node `s`. */
    method MakeScalar(s: nat)
      requires Valid() && s < |nodes|
      modifies this
      ensures Valid() && nodes == old(nodes)[s := old(nodes[s]).(template := ScalarText(old(nodes[s].template)))]
    {
      SameLinks(nodes, s, nodes[s].(template := ScalarText(nodes[s].template)));
      Replace(nodes, s, nodes[s].(template := ScalarText(nodes[s].template)));
      nodes := nodes[s := nodes[s].(template := ScalarText(nodes[s].template))];
    }

    /** `grow(a)` on scope `s`: `s` and each ancestor reached through `Scope`
        parents gain `a` at their far corner; the root and every other node
        stay as they were. */
    method Grow(s: nat, a: CellAddress)
      requires Valid() && 0 < s < |nodes| && a.c >= 0 && a.r >= 0
      modifies this
      ensures Valid() && |nodes| == |old(nodes)| && Kids(nodes) == Kids(old(nodes)) && Ups(nodes) == Ups(old(nodes))
      ensures forall i :: 0 <= i < |nodes| ==>
        nodes[i] == if i in Ancestry(Ups(old(nodes)), s) then Grown(old(nodes[i]), a) else old(nodes[i])
      decreases s
    {
      ghost var ups := Ups(nodes);
      SameLinks(nodes, s, Grown(nodes[s], a));
      Replace(nodes, s, Grown(nodes[s], a));
      nodes := nodes[s := Grown(nodes[s], a)];
      assert Kids(nodes) == Kids(old(nodes));
      assert Ups(nodes) == ups;
      var up := Up(nodes, s);
      if up.Some? {
        Grow(up.value, a);
      }
    }

    /** `growDim(k, d)`. */
    method GrowDim(s: nat, k: nat, d: Direction)
      requires Valid() && 0 < s < |nodes|
      modifies this
      ensures Valid() && |nodes| == |old(nodes)| && Kids(nodes) == Kids(old(nodes)) && Ups(nodes) == Ups(old(nodes))
      ensures forall i :: 0 <= i < |nodes| ==>
        nodes[i] == if i in Ancestry(Ups(old(nodes)), s) then Grown(old(nodes[i]), RelAddress(k, d)) else old(nodes[i])
    {
      Grow(s, RelAddress(k, d));
    }

    /** `move(a)` on scope `s`: `s` and then, child by child, each child's
        subtree moves by `a`. Each node moves once per path that reaches
        it from `s`; in the linked tree that is each node of the subtree of
        `s` exactly once. */
    method Move(s: nat, a: CellAddress)
      requires Valid() && 0 < s < |nodes| && a.c >= 0 && a.r >= 0
      modifies this
      ensures Valid() && |nodes| == |old(nodes)| && Kids(nodes) == Kids(old(nodes)) && Ups(nodes) == Ups(old(nodes))
      ensures forall i :: 0 <= i < |nodes| ==> nodes[i] == Shift(old(nodes[i]), Paths(Kids(old(nodes)), s, i), a)
      ensures forall i {:trigger Below(old(nodes), s, i)} :: 0 <= i < |nodes| ==> nodes[i] == if Below(old(nodes), s, i) then Translate(old(nodes[i]), a) else old(nodes[i])
      decreases |nodes| - s, 2
    {
      ghost var n0 := nodes;
      SameLinks(nodes, s, Translate(nodes[s], a));
      Replace(nodes, s, Translate(nodes[s], a));
      SameShape(nodes, s, Translate(nodes[s], a));
      nodes := nodes[s := Translate(nodes[s], a)];
      MoveChildren(s, a, n0);
    }

    /** The recursive half of `move`: every child of `s` moves along. */
    method MoveChildren(s: nat, a: CellAddress, ghost n0: seq<Node>)
      requires Valid() && 0 < s < |nodes| && a.c >= 0 && a.r >= 0
      requires WellFormed(n0) && Linked(n0) && |n0| == |nodes| && Kids(nodes) == Kids(n0) && Ups(nodes) == Ups(n0)
      requires forall i :: 0 <= i < |nodes| ==> nodes[i] == Shift(n0[i], if i == s then 1 else 0, a)
      modifies this
      ensures Valid() && |nodes| == |n0| && Kids(nodes) == Kids(n0) && Ups(nodes) == Ups(n0)
      ensures forall i :: 0 <= i < |nodes| ==> nodes[i] == Shift(n0[i], Paths(Kids(n0), s, i), a)
      ensures forall i :: 0 <= i < |nodes| ==> nodes[i] == if Below(n0, s, i) then Translate(n0[i], a) else n0[i]
      decreases |nodes| - s, 1
    {
      MoveEachChild(s, a, n0);
      MovedOnce(n0, nodes, s, a);
    }

    /** The loop of `move` over the children of `s`: each child's subtree
        moves in turn, so each node has moved once per path from `s`. */
    method MoveEachChild(s: nat, a: CellAddress, ghost n0: seq<Node>)
      requires Valid() && 0 < s < |nodes| && a.c >= 0 && a.r >= 0
      requires WellFormed(n0) && |n0| == |nodes| && Kids(nodes) == Kids(n0) && Ups(nodes) == Ups(n0)
      requires forall i :: 0 <= i < |nodes| ==> nodes[i] == Shift(n0[i], if i == s then 1 else 0, a)
      modifies this
      ensures Valid() && |nodes| == |n0| && Kids(nodes) == Kids(n0) && Ups(nodes) == Ups(n0)
      ensures forall i :: 0 <= i < |nodes| ==> nodes[i] == Shift(n0[i], Paths(Kids(n0), s, i), a)
      decreases |nodes| - s, 0
    {
      ghost var kids := Kids(n0);
      var cs := nodes[s].children;
      assert cs[..0] == [];
      var k := 0;
      while k < |cs|
        invariant 0 <= k <= |cs| && Valid() && |nodes| == |n0| && Kids(nodes) == kids && Ups(nodes) == Ups(n0)
        invariant forall i :: 0 <= i < |nodes| ==> nodes[i] == Shift(n0[i], MovedSoFar(kids, s, cs, k, i), a)
      {
        ghost var before := nodes;
        assert Placed(nodes[s], s, |nodes|);
        Move(cs[k], a);
        MoveStep(n0, before, nodes, kids, s, cs, k, a);
        k := k + 1;
      }
      assert cs[..k] == kids[s];
    }

    /** `moveDim(k, d)`. */
    method MoveDim(s: nat, k: nat, d: Direction)
      requires Valid() && 0 < s < |nodes|
      modifies this
      ensures Valid() && |nodes| == |old(nodes)| && Kids(nodes) == Kids(old(nodes)) && Ups(nodes) == Ups(old(nodes))
      ensures forall i :: 0 <= i < |nodes| ==> nodes[i] == Shift(old(nodes[i]), Paths(Kids(old(nodes)), s, i), RelAddress(k, d))
      ensures forall i {:trigger Below(old(nodes), s, i)} :: 0 <= i < |nodes| ==>
        nodes[i] == if Below(old(nodes), s, i) then Translate(old(nodes[i]), RelAddress(k, d)) else old(nodes[i])
    {
      Move(s, RelAddress(k, d));
    }

    /** `clone` of scope `s`: a new unattached scope built from `s`'s range
        text, sheet, template and kind, given clones of `s`'s children in
        order. Every node that existed before is kept. `limit` bounds the
        nodes that hold originals; the copies are all filed past it. */
    method Clone(s: nat, ghost limit: nat) returns (t: nat)
      requires Valid() && 0 < s < limit && Closed(nodes, limit)
      modifies this
      ensures Valid() && t == |old(nodes)| < |nodes| && forall i :: 0 <= i < t ==> nodes[i] == old(nodes[i])
      ensures nodes[t].parent == None && CopyOf(nodes, s, t)
      decreases limit - s, 1
    {
      assert Placed(nodes[s], s, |nodes|);
      ShapedRange(nodes[s]);
      var n := NewScope(Range(nodes[s]), nodes[s].sheet, nodes[s].template, nodes[s].kind);
      t := Add(n);
      CloneChildren(s, t, limit);
    }

    /** The recursive half of `clone`: `addChild(child.clone())` for each
        child of `s`, in order, onto the fresh copy `t`. */
    method CloneChildren(s: nat, t: nat, ghost limit: nat)
      requires Valid() && 0 < s < limit <= t && t == |nodes| - 1 && Closed(nodes, limit)
      requires Kin(nodes[s], nodes[t]) && nodes[t].parent == None && nodes[t].children == []
      modifies this
      ensures Valid() && t < |nodes| && forall i :: 0 <= i < t ==> nodes[i] == old(nodes[i])
      ensures nodes[t].parent == None && CopyOf(nodes, s, t)
      decreases limit - s, 0
    {
      var cx := nodes[s].children;
      var k := 0;
      while k < |cx|
        invariant Valid() && t < |nodes| && 0 <= k <= |cx| && Closed(nodes, limit)
        invariant forall i :: 0 <= i < t ==> nodes[i] == old(nodes[i])
        invariant nodes[t] == old(nodes[t]).(children := nodes[t].children)
        invariant Wired(nodes, t, s, k)
      {
        ghost var before := nodes;
        assert After(nodes[s].children, s, limit);
        var ct := Clone(cx[k], limit);
        ghost var mid := nodes;
        FreshUnlisted(before, nodes);
        AddChild(t, ct);
        CloneStep(before, mid, nodes, s, t, k, ct, limit);
        k := k + 1;
      }
    }

    /** `makeScalar()` on `s`, then `n` clones of it made with
        `cloneAsScalar(index)` for each index from 0 to `n - 1`, each given
        `s` as its parent. The nodes that were there keep everything but
        the template of `s`, which becomes scalar. */
    method ScalarClones(s: nat, n: nat) returns (clones: seq<nat>)
      requires Valid() && 0 < s < |nodes|
      modifies this
      ensures Valid() && |clones| == n && |nodes| >= |old(nodes)|
      ensures forall i :: 0 <= i < |old(nodes)| ==>
        nodes[i] == if i == s then old(nodes[s]).(template := ScalarText(old(nodes[s].template))) else old(nodes[i])
      ensures forall i :: 0 <= i < n ==>
        |old(nodes)| <= clones[i] < |nodes| && nodes[clones[i]].parent == Some(s) &&
        nodes[clones[i]].template == ScalarTemplate(i)
      ensures forall i, j :: 0 <= i < j < n ==> clones[i] < clones[j]
      ensures forall i :: 0 <= i < n ==> Unlisted(nodes, clones[i])
      ensures forall i :: 0 <= i < n ==> ScalarCopy(nodes, s, clones[i])
    {
      MakeScalar(s);
      ghost var n0 := nodes;
      clones := [];
      var i := 0;
      while i < n
        invariant 0 <= i <= n && |clones| == i && Valid()
        invariant |nodes| >= |n0| && forall j :: 0 <= j < |n0| ==> nodes[j] == n0[j]
        invariant ScalarClonesOf(nodes, s, clones, |n0|)
      {
        ghost var before := nodes;
        var c := ScalarClone(s, i);
        ScalarClonesGrow(before, nodes, s, clones, c, |n0|);
        clones := clones + [c];
        i := i + 1;
      }
    }

    /** One item of that `map`: `cloneAsScalar(index)` on `s`, the clone
        then given `s` as its parent. The clone is filed past every node
        that was there, which all stay as they were, and no list holds it. */
    method ScalarClone(s: nat, index: nat) returns (c: nat)
      requires Valid() && 0 < s < |nodes|
      modifies this
      ensures Valid() && c == |old(nodes)| < |nodes| && forall j :: 0 <= j < c ==> nodes[j] == old(nodes[j])
      ensures nodes[c].parent == Some(s) && nodes[c].template == ScalarTemplate(index) && Unlisted(nodes, c)
      ensures ScalarCopy(nodes, s, c)
    {
      ghost var before := nodes;
      assert Closed(before, |before|) by {
        forall i | 0 <= i < |before| ensures After(before[i].children, i, |before|) {
          assert Placed(before[i], i, |before|);
        }
      }
      c := CloneAsScalar(s, index);
      FreshUnlisted(before, nodes);
      ghost var mid := nodes;
      SetParent(c, s);
      UnlistedKept(mid, nodes, c);
      ghost var p0 := mid[c := mid[c].(template := mid[s].template)];
      ghost var p1 := nodes[c := nodes[c].(template := nodes[s].template)];
      assert Closed(p0, c) by {
        forall i | 0 <= i < c ensures After(p0[i].children, i, c) {
          assert p0[i] == before[i];
        }
      }
      CopyFrame(p0, p1, s, c, c);
    }

    /** `removeChildren()` on `p`, then `addChild` of each of `cs`, in
        order: the children of `p` become `cs` and each of them gets `p` as
        its parent. The source hands it fresh clones: different scopes that
        no list holds yet. */
    method Adopt(p: nat, cs: seq<nat>)
      requires Valid() && p < |nodes| && forall i :: 0 <= i < |cs| ==> p < cs[i] < |nodes|
      requires forall i, j :: 0 <= i < j < |cs| ==> cs[i] != cs[j]
      requires forall i :: 0 <= i < |cs| ==> Unlisted(nodes, cs[i])
      modifies this
      ensures Valid() && |nodes| == |old(nodes)|
      ensures nodes[p] == old(nodes[p]).(children := cs)
      ensures forall i :: 0 <= i < |cs| ==> nodes[cs[i]] == old(nodes[cs[i]]).(parent := Some(p))
      ensures forall i :: 0 <= i < |nodes| && i != p && i !in cs ==> nodes[i] == old(nodes[i])
    {
      ghost var n0 := nodes;
      RemoveChildren(p);
      forall j | 0 <= j < |cs| ensures Unlisted(nodes, cs[j]) {
        assert Unlisted(n0, cs[j]);
      }
      var i := 0;
      while i < |cs|
        invariant 0 <= i <= |cs| && Valid() && |nodes| == |n0|
        invariant nodes[p] == n0[p].(children := cs[..i])
        invariant forall j :: 0 <= j < i ==> nodes[cs[j]] == n0[cs[j]].(parent := Some(p))
        invariant forall x :: 0 <= x < |n0| && x != p && x !in cs[..i] ==> nodes[x] == n0[x]
        invariant forall j :: i <= j < |cs| ==> Unlisted(nodes, cs[j])
      {
        ghost var prev := nodes;
        AddChild(p, cs[i]);
        AdoptStep(n0, prev, nodes, p, cs, i);
        i := i + 1;
      }
      assert cs[..i] == cs;
    }

    /** `cloneAsScalar(index)` on scope `s`: a clone whose own template is
        replaced by `${$[index]}`; with that template put back it is a deep
        copy of `s`. */
    method CloneAsScalar(s: nat, index: nat) returns (t: nat)
      requires Valid() && 0 < s < |nodes|
      modifies this
      ensures Valid() && t == |old(nodes)| < |nodes| && forall i :: 0 <= i < t ==> nodes[i] == old(nodes[i])
      ensures nodes[t].parent == None && nodes[t].template == ScalarTemplate(index)
      ensures CopyOf(nodes[t := nodes[t].(template := nodes[s].template)], s, t)
    {
      assert Closed(nodes, |nodes|) by {
        forall i | 0 <= i < |nodes| ensures After(nodes[i].children, i, |nodes|) {
          assert Placed(nodes[i], i, |nodes|);
        }
      }
      t := Clone(s, |nodes|);
      ghost var copy := nodes;
      SameLinks(nodes, t, nodes[t].(template := ScalarTemplate(index)));
      Replace(nodes, t, nodes[t].(template := ScalarTemplate(index)));
      nodes := nodes[t := nodes[t].(template := ScalarTemplate(index))];
      assert nodes[t := nodes[t].(template := nodes[s].template)] == copy;
    }
  }
}
