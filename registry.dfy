/** The per-sheet cell registry: `Cell` objects and the `WorkSheet` that
    files them by address, by row and by column. */
module Registry {
  import opened Address
  import opened Kinds
  import opened Template
  import opened Ordering

  /** The errors the engine throws. */
  datatype Error =
    | OccupiedTarget(at: CellAddress)      // `_moveCell`: target occupied
    | MissingCell(at: CellAddress)         // `_moveCell` of an empty address: the source fails on `undefined`
    | SourceNotOccupied(at: CellAddress)   // `_cloneCell`: nothing to clone
    | MissingLine(k: int)                  // `_getRow`/`_getCol` of a line never filed
    | NotAnArray(template: string)         // `interpolateRange` of a non-array value
    | MissingSheet(name: string)           // a scope on a sheet the workbook does not have
    | MalformedScope(formula: string)      // a range template whose range cannot be read
    | Exhausted                            // the interpolation ran out of its recursion bound

  datatype Outcome = Pass | Fail(error: Error)

  datatype Result<T> = Ok(value: T) | Err(error: Error)

  /** A `c` element of the sheet XML: its attributes and the text of its
      `v` and `f` children. */
  datatype CellNode = CellNode(attributes: map<string, string>, v: string, f: string)

  /** What `parseInt` reads once leading white space is skipped. */
  function Trimmed(v: string): string {
    v[|LeadingSpaces(v)|..]
  }

  /** The text after an optional leading `+` or `-`. */
  function Unsigned(t: string): string {
    if t != [] && (t[0] == '+' || t[0] == '-') then t[1..] else t
  }

  /** `parseInt(value, 10)` on a shared-string index: white space is
      skipped, then an optional sign, then the decimal digits are read up
      to the first other character; with no digits the result is `NaN`
      (`None`). */
  function ParseIndex(v: string): (i: Option<int>)
    ensures i.None? <==> LeadingDigits(Unsigned(Trimmed(v))) == []
    ensures i.Some? ==> i.value < 0 ==> Trimmed(v)[0] == '-'
    ensures i.Some? ==> i.value == DigitsValue(LeadingDigits(Unsigned(Trimmed(v)))) || i.value == -DigitsValue(LeadingDigits(Unsigned(Trimmed(v))))
    ensures i.Some? ==> (Trimmed(v) != [] && i.value ==
      if Trimmed(v)[0] == '-' then -DigitsValue(LeadingDigits(Unsigned(Trimmed(v)))) else DigitsValue(LeadingDigits(Unsigned(Trimmed(v)))))
  {
    var t := Trimmed(v);
    var ds := LeadingDigits(Unsigned(t));
    if ds == [] then None
    else
      DigitsValueBounds(ds);
      Some(if t != [] && t[0] == '-' then -DigitsValue(ds) else DigitsValue(ds))
  }

  /** An index written in decimal, after any white space and an optional
      sign and before any text that is no digit, reads back. */
  lemma ParseIndexReads(w: string, sign: string, n: nat, rest: string)
    requires forall k :: 0 <= k < |w| ==> IsSpace(w[k])
    requires sign == "" || sign == "+" || sign == "-"
    requires rest == [] || !IsDigit(rest[0])
    ensures ParseIndex(w + (sign + NatDigits(n) + rest)) == Some(if sign == "-" then -(n as int) else n as int)
  {
    var ds := NatDigits(n);
    var t := sign + ds + rest;
    SignedDigits(sign, ds, rest);
    TrimmedOf(w, t);
    LeadingDigitsOf(ds, rest);
    DigitsRoundTrip(n);
    ParseIndexOf(w + t, t, ds, sign == "-");
  }

  lemma TrimmedOf(w: string, t: string)
    requires forall k :: 0 <= k < |w| ==> IsSpace(w[k])
    requires t != [] && !IsSpace(t[0])
    ensures Trimmed(w + t) == t
  {
    LeadingSpacesOf(w, t);
  }

  lemma ParseIndexOf(v: string, t: string, ds: string, negative: bool)
    requires Trimmed(v) == t && LeadingDigits(Unsigned(t)) == ds && ds != []
    requires negative <==> t != [] && t[0] == '-'
    ensures ParseIndex(v) == Some(if negative then -DigitsValue(ds) else DigitsValue(ds))
  {
  }

  lemma SignedDigits(sign: string, ds: string, rest: string)
    requires sign == "" || sign == "+" || sign == "-"
    requires ds != [] && AllDigits(ds)
    ensures var t := sign + ds + rest;
      !IsSpace(t[0]) && Unsigned(t) == ds + rest && (t[0] == '-' <==> sign == "-")
  {
    var t := sign + ds + rest;
    assert t[0] == if sign == "" then ds[0] else sign[0];
    if sign != "" {
      assert t[1..] == ds + rest;
    }
  }

  /** A run of white space before text that does not start with any is
      what `LeadingSpaces` takes. */
  lemma {:induction false} LeadingSpacesOf(w: string, t: string)
    requires forall k :: 0 <= k < |w| ==> IsSpace(w[k])
    requires t != [] && !IsSpace(t[0])
    ensures LeadingSpaces(w + t) == w
    decreases |w|
  {
    if w != [] {
      assert (w + t)[1..] == w[1..] + t;
      LeadingSpacesOf(w[1..], t);
    }
  }

  /** The digits `NatDigits` writes, followed by no digit, are the leading digits. */
  lemma {:induction false} LeadingDigitsOf(ds: string, rest: string)
    requires AllDigits(ds) && (rest == [] || !IsDigit(rest[0]))
    ensures LeadingDigits(ds + rest) == ds
    decreases |ds|
  {
    if ds != [] {
      assert (ds + rest)[1..] == ds[1..] + rest;
      LeadingDigitsOf(ds[1..], rest);
    }
  }

  /** `getString(i)`: the `i`-th shared string, empty text when there is
      none (`NaN`, a negative index or one past the table). */
  function SharedString(strings: seq<string>, i: Option<int>): (s: string)
    ensures i.Some? && 0 <= i.value < |strings| ==> s == strings[i.value]
    ensures (i.None? || i.value < 0 || i.value >= |strings|) ==> s == ""
  {
    if i.Some? && 0 <= i.value < |strings| then strings[i.value] else ""
  }

  /** The attributes and value `fromNode` gives a cell: a shared-string cell
      (`t="s"`) takes its text from the table and becomes an inline string. */
  function LoadedCell(node: CellNode, strings: seq<string>): (r: (map<string, string>, Json))
    ensures "t" in node.attributes && node.attributes["t"] == "s" ==>
      r.0 == node.attributes["t" := "str"] && r.1 == JStr(SharedString(strings, ParseIndex(node.v)))
    ensures !("t" in node.attributes && node.attributes["t"] == "s") ==>
      r.0 == node.attributes && r.1 == JStr(node.v)
    ensures r.0.Keys == node.attributes.Keys
  {
    if "t" in node.attributes && node.attributes["t"] == "s" then
      (node.attributes["t" := "str"], JStr(SharedString(strings, ParseIndex(node.v))))
    else (node.attributes, JStr(node.v))
  }

  /** A node the loader can file: its reference is written the way
      `getCellRef` writes one. */
  predicate Filable(n: CellNode) {
    "r" in n.attributes && CanonicalRef(n.attributes["r"])
  }

  /** The address a cell node is filed at. */
  function NodeAddress(n: CellNode): (a: CellAddress)
    requires Filable(n)
    ensures ValidAddress(a) && GetCellRef(a) == n.attributes["r"]
  {
    RefRoundTrip(n.attributes["r"]);
    GetCellAddress(n.attributes["r"])
  }

  /** The range-template nodes, in document order. */
  function RangeNodes(nodes: seq<CellNode>): (rs: seq<CellNode>)
    ensures |rs| <= |nodes|
    ensures forall n :: n in rs <==> n in nodes && IsRangeForm(n.f)
    decreases |nodes|
  {
    if nodes == [] then []
    else
      var last := nodes[|nodes| - 1];
      assert forall n :: n in nodes <==> n in nodes[..|nodes| - 1] || n == last;
      RangeNodes(nodes[..|nodes| - 1]) + (if IsRangeForm(last.f) then [last] else [])
  }

  /** The node each address is loaded from: a later node at the same
      address replaces an earlier one. */
  function Filing(nodes: seq<CellNode>): (m: map<CellAddress, CellNode>)
    ensures forall a :: a in m ==> Filable(m[a]) && !IsRangeForm(m[a].f) && NodeAddress(m[a]) == a
    decreases |nodes|
  {
    if nodes == [] then map[]
    else
      var last := nodes[|nodes| - 1];
      var rest := Filing(nodes[..|nodes| - 1]);
      if IsRangeForm(last.f) || !Filable(last) then rest else rest[NodeAddress(last) := last]
  }

  lemma PrefixSnoc(nodes: seq<CellNode>, i: int)
    requires 0 <= i <= |nodes|
    ensures i < |nodes| ==> nodes[..i + 1] == nodes[..i] + [nodes[i]]
    ensures i == |nodes| ==> nodes[..i] == nodes
  {
  }

  /** Reading one more node: a range template extends `RangeNodes`, any
      other node is filed over whatever was at its address. */
  lemma LoaderSnoc(nodes: seq<CellNode>, n: CellNode)
    requires Filable(n)
    ensures IsRangeForm(n.f) ==> RangeNodes(nodes + [n]) == RangeNodes(nodes) + [n] && Filing(nodes + [n]) == Filing(nodes)
    ensures !IsRangeForm(n.f) ==> RangeNodes(nodes + [n]) == RangeNodes(nodes) && Filing(nodes + [n]) == Filing(nodes)[NodeAddress(n) := n]
  {
    assert (nodes + [n])[..|nodes|] == nodes;
  }

  /** The cells of `cs` that are range templates, in order. */
  function RangeTemplates(cs: seq<Cell>): (ts: seq<Cell>)
    ensures |ts| <= |cs|
    ensures forall i :: 0 <= i < |ts| ==> ts[i] in cs && ts[i].IsRangeTemplate()
    ensures forall i :: 0 <= i < |cs| && cs[i].IsRangeTemplate() ==> cs[i] in ts
    ensures (forall i :: 0 <= i < |cs| ==> cs[i].IsRangeTemplate()) ==> ts == cs
    decreases |cs|
  {
    if cs == [] then []
    else
      var last := cs[|cs| - 1];
      var rest := RangeTemplates(cs[..|cs| - 1]);
      assert forall i :: 0 <= i < |cs| - 1 ==> cs[i] == cs[..|cs| - 1][i];
      assert cs == cs[..|cs| - 1] + [last];
      rest + (if last.IsRangeTemplate() then [last] else [])
  }

  /** The cells of `cs` that are cell templates, in order. */
  function CellTemplates(cs: seq<Cell>): (ts: seq<Cell>)
    reads cs
    ensures |ts| <= |cs|
    ensures forall i :: 0 <= i < |ts| ==> ts[i] in cs && ts[i].IsCellTemplate()
    ensures forall i :: 0 <= i < |cs| && cs[i].IsCellTemplate() ==> cs[i] in ts
    decreases |cs|
  {
    if cs == [] then []
    else
      var last := cs[|cs| - 1];
      var rest := CellTemplates(cs[..|cs| - 1]);
      assert forall i :: 0 <= i < |cs| - 1 ==> cs[i] == cs[..|cs| - 1][i];
      rest + (if last.IsCellTemplate() then [last] else [])
  }

  /** Each cell of `cells` is what `fromNode` makes of the node filed at its address. */
  ghost predicate Mirrors(cells: map<CellAddress, Cell>, filed: map<CellAddress, CellNode>, strings: seq<string>)
    reads cells.Values
  {
    cells.Keys == filed.Keys && forall a :: a in cells ==> Loads(cells[a], filed[a], strings)
  }

  /** Each of `cells` is what `fromNode` makes of the node in the same place of `rs`. */
  ghost predicate Lists(cells: seq<Cell>, rs: seq<CellNode>, strings: seq<string>)
    reads cells
  {
    |cells| == |rs| && forall j :: 0 <= j < |cells| ==> Loads(cells[j], rs[j], strings)
  }

  lemma ListsAdd(cells: seq<Cell>, rs: seq<CellNode>, c: Cell, n: CellNode, strings: seq<string>)
    requires Lists(cells, rs, strings) && Loads(c, n, strings)
    ensures Lists(cells + [c], rs + [n], strings)
  {
  }

  lemma MirrorsAdd(cells: map<CellAddress, Cell>, filed: map<CellAddress, CellNode>, a: CellAddress, c: Cell, n: CellNode, strings: seq<string>)
    requires Mirrors(cells, filed, strings) && Loads(c, n, strings)
    ensures Mirrors(cells[a := c], filed[a := n], strings)
  {
  }

  /** `c` is what `fromNode` makes of `n`. */
  ghost predicate Loads(c: Cell, n: CellNode, strings: seq<string>)
    reads c
  {
    c.form == n.f && (c.attributes, c.value) == LoadedCell(n, strings)
  }

  /** The formula is the range-template convention `IFERROR(N(range), "template")`. */
  predicate IsRangeForm(form: string) {
    MatchRangeTemplate(form).Some?
  }

  class Cell {
    var attributes: map<string, string>
    var value: Json
    const form: string
    const worksheet: WorkSheet

    constructor (attributes: map<string, string>, value: Json, form: string, worksheet: WorkSheet)
      ensures this.attributes == attributes && this.value == value
      ensures this.form == form && this.worksheet == worksheet
    {
      this.attributes := attributes;
      this.value := value;
      this.form := form;
      this.worksheet := worksheet;
    }

    /** `fromNode` with the xpath reads done: the node's attributes, `v` and `f`. */
    static method FromNode(node: CellNode, strings: seq<string>, sheet: WorkSheet) returns (c: Cell)
      ensures fresh(c)
      ensures (c.attributes, c.value) == LoadedCell(node, strings)
      ensures c.form == node.f && c.worksheet == sheet
    {
      var attributes := node.attributes;
      var cellValue := JStr(node.v);
      if "t" in attributes && attributes["t"] == "s" {
        cellValue := JStr(SharedString(strings, ParseIndex(node.v)));
        attributes := attributes["t" := "str"];
      }
      c := new Cell(attributes, cellValue, node.f, sheet);
    }

    /** `ref()`: the `r` attribute. */
    function Ref(): string
      reads this`attributes
    {
      if "r" in attributes then attributes["r"] else ""
    }

    /** The cell carries the canonical reference of `a`. */
    predicate RefIs(a: CellAddress)
      requires ValidAddress(a)
      reads this`attributes
    {
      "r" in attributes && attributes["r"] == GetCellRef(a)
    }

    function Address(): (a: CellAddress)
      requires HasRow(Ref())
      reads this`attributes
    {
      GetCellAddress(Ref())
    }

    lemma AddressOfRef(a: CellAddress)
      requires ValidAddress(a) && RefIs(a)
      ensures HasRow(Ref()) && Address() == a && CanonicalRef(Ref())
    {
      AddressRoundTrip(a);
    }

    /** `setRef` changes the `r` attribute and nothing else. */
    method SetRef(ref: string)
      modifies this`attributes
      ensures attributes == old(attributes)["r" := ref]
    {
      attributes := attributes["r" := ref];
    }

    method SetValue(v: Json)
      modifies this`value
      ensures value == v
    {
      value := v;
    }

    /** A new cell with the attributes overridden by `attrs`, the same value,
        formula and sheet; `this` is left as it is. */
    method Copy(attrs: map<string, string>) returns (c: Cell)
      ensures fresh(c)
      ensures c.attributes == attributes + attrs
      ensures c.value == value && c.form == form && c.worksheet == worksheet
    {
      c := new Cell(attributes + attrs, value, form, worksheet);
    }

    /** `atOrAfterDim(ref, d)` applied to this cell. */
    predicate AtOrAfterDim(origin: CellAddress, d: Direction)
      requires HasRow(Ref())
      reads this`attributes
      ensures AtOrAfterDim(origin, d) <==>
        Get(Address(), Other(d)) == Get(origin, Other(d)) && Get(Address(), d) >= Get(origin, d)
    {
      CellAtOrAfterDimMeaning(Address(), origin, d);
      CellAtOrAfterDim(Address(), origin, d)
    }

    /** `atOrAfterRangeDim(range, d)` applied to this cell. */
    predicate AtOrAfterRangeDim(range: RangeAddress, d: Direction)
      requires HasRow(Ref())
      reads this`attributes
      ensures AtOrAfterRangeDim(range, d) <==>
        Get(range.near, Other(d)) <= Get(Address(), Other(d)) <= Get(range.far, Other(d)) &&
        Get(Address(), d) >= Get(range.near, d)
    {
      CellAtOrAfterRangeDim(Address(), range, d)
    }

    /** `isCellTemplate`: a truthy value whose text starts with a marker prefix. */
    predicate IsCellTemplate()
      reads this`value
      ensures value.JStr? ==> (IsCellTemplate() <==> |value.s| >= 2 && value.s[..2] in ["${", "|{", "_{"])
    {
      Truthy(value) && TemplateType(ToText(value)).Some?
    }

    /** `isRangeTemplate`: the formula follows the range-template convention. */
    predicate IsRangeTemplate()
      ensures IsRangeTemplate() ==> |form| >= |Keyword| && SameIgnoringCase(form[..|Keyword|], Keyword)
      ensures IsRangeTemplate() <==> IsRangeForm(form)
    {
      MatchRangeTemplate(form).Some?
    }

    /** `moveTo`: the sheet moves this cell from its own address to `to`. */
    method MoveTo(to: CellAddress) returns (o: Outcome)
      requires worksheet.Valid() && this in worksheet.index.cells.Values && HasRow(Ref()) && ValidAddress(to)
      modifies worksheet, this`attributes
      ensures worksheet.Valid() && worksheet.ranges == old(worksheet.ranges)
      ensures to in old(worksheet.index.cells) ==>
        o == Fail(OccupiedTarget(to)) && unchanged(worksheet) && attributes == old(attributes)
      ensures to !in old(worksheet.index.cells) ==>
        o == Pass &&
        worksheet.index == IndexWith(IndexWithout(old(worksheet.index), old(Address())), to, this) &&
        attributes == old(attributes)["r" := GetCellRef(to)]
    {
      worksheet.RegisteredAddress(this);
      o := worksheet.MoveCell(Address(), to);
    }

    /** `moveBy(a)`: move to this cell's address plus `a`. */
    method MoveBy(delta: CellAddress) returns (o: Outcome)
      requires worksheet.Valid() && this in worksheet.index.cells.Values && HasRow(Ref())
      requires ValidAddress(AddAddress(delta, Address()))
      modifies worksheet, this`attributes
      ensures worksheet.Valid() && worksheet.ranges == old(worksheet.ranges)
      ensures var to := AddAddress(delta, old(Address()));
        (to in old(worksheet.index.cells) ==>
          o == Fail(OccupiedTarget(to)) && unchanged(worksheet) && attributes == old(attributes)) &&
        (to !in old(worksheet.index.cells) ==>
          o == Pass &&
          worksheet.index == IndexWith(IndexWithout(old(worksheet.index), old(Address())), to, this) &&
          attributes == old(attributes)["r" := GetCellRef(to)])
    {
      AddressRoundTrip(AddAddress(delta, Address()));
      var to := GetCellAddress(GetCellRef(AddAddress(delta, Address())));
      o := MoveTo(to);
    }

    /** `cloneTo`: the sheet files a copy of this cell at `to`. */
    method CloneTo(to: CellAddress) returns (o: Outcome)
      requires worksheet.Valid() && this in worksheet.index.cells.Values && ValidAddress(to)
      modifies worksheet
      ensures worksheet.Valid() && worksheet.ranges == old(worksheet.ranges) && o == Pass
      ensures to in worksheet.index.cells && fresh(worksheet.index.cells[to])
      ensures worksheet.index.cells == old(worksheet.index.cells)[to := worksheet.index.cells[to]]
      ensures worksheet.index.cells[to].attributes == attributes["r" := GetCellRef(to)]
      ensures worksheet.index.cells[to].value == value && worksheet.index.cells[to].form == form
    {
      worksheet.RegisteredAddress(this);
      o := worksheet.CloneCell(Address(), to);
    }
  }

  /** Overwriting a key is invisible once that key is dropped. */
  lemma UpdateThenRemove(m: map<string, string>, k: string, v: string)
    ensures m[k := v] - {k} == m - {k}
  {
  }

  /** Spreading a one-entry object over `m` updates that one key. */
  lemma MergeOne(m: map<string, string>, k: string, v: string)
    ensures m + map[k := v] == m[k := v]
  {
  }

  /** Every cell of `m` carries the reference of its key, belongs to `sheet`
      and is filed under one key only. */
  ghost predicate Filed(m: map<CellAddress, Cell>, sheet: WorkSheet)
    reads m.Values`attributes
  {
    (forall a :: a in m ==> ValidAddress(a) && m[a].RefIs(a) && m[a].worksheet == sheet) &&
    Injective(m)
  }

  lemma FiledAdd(m: map<CellAddress, Cell>, sheet: WorkSheet, a: CellAddress, cell: Cell)
    requires Filed(m, sheet) && cell !in m.Values
    requires ValidAddress(a) && cell.RefIs(a) && cell.worksheet == sheet
    ensures Filed(m[a := cell], sheet)
  {
  }

  lemma FiledRemove(m: map<CellAddress, Cell>, sheet: WorkSheet, a: CellAddress)
    requires Filed(m, sheet) && a in m
    ensures Filed(m - {a}, sheet) && m[a] !in (m - {a}).Values
  {
    forall b | b in m - {a} ensures (m - {a})[b] != m[a] {
      assert m[b] == (m - {a})[b];
    }
  }

  /** The range-template cells are kept out of the index. */
  ghost predicate RangesApart(ranges: seq<Cell>, m: map<CellAddress, Cell>) {
    forall i :: 0 <= i < |ranges| ==> ranges[i] !in m.Values && ranges[i].IsRangeTemplate()
  }

  lemma RangesAdd(ranges: seq<Cell>, m: map<CellAddress, Cell>, a: CellAddress, cell: Cell)
    requires RangesApart(ranges, m) && cell !in ranges
    ensures RangesApart(ranges, m[a := cell])
  {
  }

  lemma RangesKeep(ranges: seq<Cell>, m: map<CellAddress, Cell>, c: Cell)
    requires RangesApart(ranges, m) && c !in m.Values && c.IsRangeTemplate()
    ensures RangesApart(ranges + [c], m)
  {
  }

  lemma RangesRemove(ranges: seq<Cell>, m: map<CellAddress, Cell>, a: CellAddress)
    requires RangesApart(ranges, m)
    ensures RangesApart(ranges, m - {a})
  {
  }

  /** The three indices of a sheet and the order in which its cells were
      filed. `cells` is the source's `cellIndex`, keyed by address instead of
      by reference text; `rows` and `cols` are `rowIndex` and `colIndex`,
      keyed by row and column number instead of their encodings; `order` is
      the key order of `cellIndex`, in which `getCells` lists the cells. */
  datatype Index = Index(cells: map<CellAddress, Cell>, rows: map<int, map<CellAddress, Cell>>,
                         cols: map<int, map<CellAddress, Cell>>, order: seq<CellAddress>)

  /** `_addCellToIndex` on the index: file `cell` at `a`, opening its row and
      column buckets when they are missing; a key already present keeps its
      place in the order. */
  function IndexWith(ix: Index, a: CellAddress, cell: Cell): Index {
    Index(ix.cells[a := cell],
          ix.rows[a.r := Bucket(ix.rows, a.r)[a := cell]],
          ix.cols[a.c := Bucket(ix.cols, a.c)[a := cell]],
          if a in ix.cells then ix.order else ix.order + [a])
  }

  /** `_removeCellFromIndex` on the index: drop `a` from all three indices;
      emptied buckets stay. */
  function IndexWithout(ix: Index, a: CellAddress): Index {
    Index(ix.cells - {a},
          ix.rows[a.r := Bucket(ix.rows, a.r) - {a}],
          ix.cols[a.c := Bucket(ix.cols, a.c) - {a}],
          Without(ix.order, a))
  }

  /** The sheet invariant on the values of its fields. */
  ghost predicate Consistent(ix: Index, ranges: seq<Cell>, sheet: WorkSheet)
    reads ix.cells.Values`attributes
  {
    IndexAgree(ix.cells, ix.rows, ix.cols) && OrderAgrees(ix.order, ix.cells.Keys) &&
    Filed(ix.cells, sheet) && RangesApart(ranges, ix.cells)
  }

  /** Filing a new cell that carries the reference of `a` keeps the sheet
      consistent. */
  lemma ConsistentAdd(ix: Index, ranges: seq<Cell>, sheet: WorkSheet, a: CellAddress, cell: Cell)
    requires Consistent(ix, ranges, sheet)
    requires cell !in ix.cells.Values && cell !in ranges
    requires ValidAddress(a) && cell.RefIs(a) && cell.worksheet == sheet
    ensures Consistent(IndexWith(ix, a, cell), ranges, sheet)
  {
    IndexAdd(ix.cells, ix.rows, ix.cols, a, cell);
    OrderAdd(ix.order, ix.cells.Keys, a);
    FiledAdd(ix.cells, sheet, a, cell);
    RangesAdd(ranges, ix.cells, a, cell);
  }

  /** Removing a filed cell keeps the sheet consistent, and the cell is then
      filed nowhere. */
  lemma ConsistentRemove(ix: Index, ranges: seq<Cell>, sheet: WorkSheet, a: CellAddress)
    requires Consistent(ix, ranges, sheet) && a in ix.cells
    ensures Consistent(IndexWithout(ix, a), ranges, sheet)
    ensures ix.cells[a] !in IndexWithout(ix, a).cells.Values
  {
    assert Bucket(ix.rows, a.r) == ix.rows[a.r];
    assert Bucket(ix.cols, a.c) == ix.cols[a.c];
    IndexRemove(ix.cells, ix.rows, ix.cols, a);
    OrderRemove(ix.order, ix.cells.Keys, a);
    FiledRemove(ix.cells, sheet, a);
    RangesRemove(ranges, ix.cells, a);
  }

  class WorkSheet {
    /** The cell, row and column indices. */
    var index: Index
    /** The range-template cells, kept out of the index. */
    var ranges: seq<Cell>
    const name: string

    /** The three indices agree, every filed cell carries its own reference,
        belongs to this sheet and is filed once, and no range cell is filed. */
    ghost predicate Valid()
      reads this, index.cells.Values`attributes
    {
      Consistent(index, ranges, this)
    }

    /** The index holds, at each address, what the last cell node filed
        there loads to. */
    ghost predicate CellsHold(nodes: seq<CellNode>, strings: seq<string>)
      reads this, index.cells.Values
    {
      Mirrors(index.cells, Filing(nodes), strings)
    }

    /** `ranges` holds what the range-template nodes load to, in order. */
    ghost predicate RangesHold(nodes: seq<CellNode>, strings: seq<string>)
      reads this, ranges
    {
      Lists(ranges, RangeNodes(nodes), strings)
    }

    /** The sheet holds what reading `nodes` gives. */
    ghost predicate Holds(nodes: seq<CellNode>, strings: seq<string>)
      reads this, index.cells.Values, ranges
    {
      CellsHold(nodes, strings) && RangesHold(nodes, strings)
    }

    /** `_readSheetData`: read every cell node in document order, keep the
        range templates apart and file the other cells. */
    constructor (nodes: seq<CellNode>, strings: seq<string>, name: string)
      requires forall i :: 0 <= i < |nodes| ==> Filable(nodes[i])
      ensures Valid() && Holds(nodes, strings) && this.name == name
    {
      this.index := Index(map[], map[], map[], []);
      this.ranges := [];
      this.name := name;
      new;
      ReadSheetData(nodes, strings);
    }

    /** The loop of `_readSheetData`, over the cell nodes in document order. */
    method ReadSheetData(nodes: seq<CellNode>, strings: seq<string>)
      requires forall i :: 0 <= i < |nodes| ==> Filable(nodes[i])
      requires Valid() && Holds([], strings)
      modifies this
      ensures Valid() && Holds(nodes, strings)
    {
      var i := 0;
      while i < |nodes|
        invariant 0 <= i <= |nodes| && Valid() && Holds(nodes[..i], strings)
      {
        PrefixSnoc(nodes, i);
        ReadNode(nodes[i], strings, nodes[..i]);
        i := i + 1;
      }
      PrefixSnoc(nodes, |nodes|);
    }

    /** One node of `_readSheetData`: `fromNode`, then a range template goes
        to `ranges` and any other cell into the index. */
    method ReadNode(n: CellNode, strings: seq<string>, ghost nodes: seq<CellNode>)
      requires Filable(n) && Valid() && Holds(nodes, strings)
      modifies this
      ensures Valid() && Holds(nodes + [n], strings)
    {
      var c := Cell.FromNode(n, strings, this);
      LoaderSnoc(nodes, n);
      if c.IsRangeTemplate() {
        ReadRangeNode(c, n, strings, Filing(nodes), RangeNodes(nodes));
      } else {
        ReadCellNode(c, n, strings, Filing(nodes), RangeNodes(nodes));
      }
    }

    method ReadRangeNode(c: Cell, ghost n: CellNode, ghost strings: seq<string>,
                         ghost filed: map<CellAddress, CellNode>, ghost rs: seq<CellNode>)
      requires Valid() && Mirrors(index.cells, filed, strings) && Lists(ranges, rs, strings)
      requires Loads(c, n, strings) && c !in index.cells.Values && c.IsRangeTemplate()
      modifies this
      ensures Valid() && Mirrors(index.cells, filed, strings) && Lists(ranges, rs + [n], strings)
    {
      ghost var r0 := ranges;
      KeepRange(c);
      ListsAdd(r0, rs, c, n, strings);
    }

    method ReadCellNode(c: Cell, n: CellNode, ghost strings: seq<string>,
                        ghost filed: map<CellAddress, CellNode>, ghost rs: seq<CellNode>)
      requires Valid() && Mirrors(index.cells, filed, strings) && Lists(ranges, rs, strings)
      requires Loads(c, n, strings) && Filable(n)
      requires c.worksheet == this && c !in index.cells.Values && c !in ranges
      modifies this
      ensures Valid() && Mirrors(index.cells, filed[NodeAddress(n) := n], strings) && Lists(ranges, rs, strings)
    {
      ghost var cells0 := index.cells;
      ghost var a := NodeAddress(n);
      FileCell(c, a);
      MirrorsAdd(cells0, filed, a, c, n, strings);
    }

    /** A range template joins `ranges`; the index is untouched. */
    method KeepRange(c: Cell)
      requires Valid() && c !in index.cells.Values && c.IsRangeTemplate()
      modifies this
      ensures index == old(index) && ranges == old(ranges) + [c] && Valid()
    {
      ghost var r0 := ranges;
      ranges := ranges + [c];
      RangesKeep(r0, index.cells, c);
    }

    /** Any other cell is filed in the index at its own address. */
    method FileCell(c: Cell, ghost a: CellAddress)
      requires Valid() && ValidAddress(a) && c.RefIs(a)
      requires c.worksheet == this && c !in index.cells.Values && c !in ranges
      modifies this
      ensures ranges == old(ranges) && index.cells == old(index.cells)[a := c] && Valid()
    {
      c.AddressOfRef(a);
      AddCellToIndex(c);
    }

    lemma RegisteredAddress(c: Cell)
      requires Valid() && c in index.cells.Values
      ensures HasRow(c.Ref()) && CanonicalRef(c.Ref())
      ensures c.Address() in index.cells && index.cells[c.Address()] == c
    {
      var a :| a in index.cells && index.cells[a] == c;
      c.AddressOfRef(a);
    }

    /** `getCell`. */
    function GetCell(a: CellAddress): (c: Option<Cell>)
      reads this
      ensures c.Some? <==> a in index.cells
      ensures c.Some? ==> c.value == index.cells[a]
    {
      if a in index.cells then Some(index.cells[a]) else None
    }

    /** The cell filed at `a`, as a set: what moving from `a` may change. */
    function CellsAt(a: CellAddress): (s: set<Cell>)
      reads this
    {
      if a in index.cells then {index.cells[a]} else {}
    }

    /** The parts of `Valid` that concern the indices alone. */
    ghost predicate Indexed()
      reads this
    {
      IndexAgree(index.cells, index.rows, index.cols) && OrderAgrees(index.order, index.cells.Keys)
    }

    /** `order` lists exactly the filed keys: what reading the cells in
        order needs. */
    ghost predicate Listed()
      reads this
    {
      forall a :: a in index.order <==> a in index.cells
    }

    /** The cells filed at `keys`, in that order. */
    function CellsOf(keys: seq<CellAddress>): (cs: seq<Cell>)
      requires forall a :: a in keys ==> a in index.cells
      reads this
      ensures |cs| == |keys| && forall i :: 0 <= i < |keys| ==> cs[i] == index.cells[keys[i]]
    {
      var m := index.cells;
      seq(|keys|, i requires 0 <= i < |keys| => m[keys[i]])
    }

    /** `getCells`: every filed cell once, in the order their keys were filed. */
    function GetCells(): (cs: seq<Cell>)
      requires Listed()
      reads this
      ensures cs == CellsOf(index.order)
      ensures (forall i :: 0 <= i < |cs| ==> cs[i] in index.cells.Values) &&
              (forall a :: a in index.cells ==> index.cells[a] in cs)
    {
      CellsOf(index.order)
    }

    /** `getScopeRanges`: the range templates among `ranges`, which on a
        valid sheet are all of them. */
    function GetScopeRanges(): (rs: seq<Cell>)
      reads this
      ensures forall i :: 0 <= i < |rs| ==> rs[i] in ranges && rs[i].IsRangeTemplate()
      ensures forall i :: 0 <= i < |ranges| && ranges[i].IsRangeTemplate() ==> ranges[i] in rs
      ensures RangesApart(ranges, index.cells) ==> rs == ranges
    {
      RangeTemplates(ranges)
    }

    /** `getScopeCells`: the cell templates among the filed cells. */
    function GetScopeCells(): (cs: seq<Cell>)
      requires Listed()
      reads this, index.cells.Values
      ensures forall i :: 0 <= i < |cs| ==> cs[i] in index.cells.Values && cs[i].IsCellTemplate()
      ensures forall a :: a in index.cells && index.cells[a].IsCellTemplate() ==> index.cells[a] in cs
    {
      CellTemplates(GetCells())
    }

    /** `_getRow(k)`: the cells of row `k`, left to right; a row that was
        never filed is an error (the source fails on the missing bucket). */
    function GetRow(k: int): (r: Result<seq<Cell>>)
      requires Indexed()
      reads this
      ensures k !in index.rows ==> r == Err(MissingLine(k))
      ensures k in index.rows ==>
        r.Ok? && |r.value| == |LineOrder(index.order, Vertical, k)| &&
        forall i :: 0 <= i < |r.value| ==>
          LineOrder(index.order, Vertical, k)[i] in index.cells && r.value[i] == index.cells[LineOrder(index.order, Vertical, k)[i]]
      ensures r.Ok? ==> (forall i :: 0 <= i < |r.value| ==> r.value[i] in index.rows[k].Values) &&
                        (forall a :: a in index.rows[k] ==> index.rows[k][a] in r.value)
    {
      LineOrderFacts(index.order, index.cells.Keys, Vertical, k);
      if k !in index.rows then Err(MissingLine(k))
      else
        LineCells(Vertical, k);
        Ok(CellsOf(LineOrder(index.order, Vertical, k)))
    }

    /** `_getCol(k)`: the cells of column `k`, top to bottom. */
    function GetCol(k: int): (r: Result<seq<Cell>>)
      requires Indexed()
      reads this
      ensures k !in index.cols ==> r == Err(MissingLine(k))
      ensures k in index.cols ==>
        r.Ok? && |r.value| == |LineOrder(index.order, Horizontal, k)| &&
        forall i :: 0 <= i < |r.value| ==>
          LineOrder(index.order, Horizontal, k)[i] in index.cells && r.value[i] == index.cells[LineOrder(index.order, Horizontal, k)[i]]
      ensures r.Ok? ==> (forall i :: 0 <= i < |r.value| ==> r.value[i] in index.cols[k].Values) &&
                        (forall a :: a in index.cols[k] ==> index.cols[k][a] in r.value)
    {
      LineOrderFacts(index.order, index.cells.Keys, Horizontal, k);
      if k !in index.cols then Err(MissingLine(k))
      else
        LineCells(Horizontal, k);
        Ok(CellsOf(LineOrder(index.order, Horizontal, k)))
    }

    /** A line's ordered keys list exactly the cells of its bucket. */
    lemma LineCells(d: Direction, k: int)
      requires Indexed() && k in (if d == Vertical then index.rows else index.cols)
      ensures forall a :: a in LineOrder(index.order, d, k) ==> a in index.cells
      ensures var cs := CellsOf(LineOrder(index.order, d, k));
        var bucket := (if d == Vertical then index.rows else index.cols)[k];
        (forall i :: 0 <= i < |cs| ==> cs[i] in bucket.Values) &&
        (forall a :: a in bucket ==> bucket[a] in cs)
    {
      var line := if d == Vertical then index.rows else index.cols;
      var keys := LineOrder(index.order, d, k);
      LineOrderFacts(index.order, index.cells.Keys, d, k);
      assert line[k] == Line(index.cells, d, k);
      var cs := CellsOf(keys);
      forall i | 0 <= i < |cs| ensures cs[i] in line[k].Values {
        assert keys[i] in line[k];
      }
      forall a | a in line[k] ensures line[k][a] in cs {
        assert a in keys;
        var i :| 0 <= i < |keys| && keys[i] == a;
        assert cs[i] == line[k][a];
      }
    }

    /** `_occupied`. */
    predicate Occupied(a: CellAddress)
      reads this
      ensures Occupied(a) <==> GetCell(a).Some?
    {
      a in index.cells
    }

    /** `_addCellToIndex`: file the cell under its reference in all three
        indices, opening its row and column buckets when they are missing. */
    method AddCellToIndex(cell: Cell)
      requires Valid() && cell.worksheet == this && cell !in index.cells.Values && cell !in ranges
      requires HasRow(cell.Ref()) && CanonicalRef(cell.Ref())
      modifies this
      ensures index == IndexWith(old(index), cell.Address(), cell)
      ensures ranges == old(ranges)
      ensures Valid()
    {
      var ref := cell.Ref();
      RefRoundTrip(ref);
      var a := GetCellAddress(ref);
      ghost var ix0 := index;
      index := IndexWith(index, a, cell);
      ConsistentAdd(ix0, ranges, this, a, cell);
    }

    /** `_removeCellFromIndex`: drop the cell's reference from all three indices. */
    method RemoveCellFromIndex(cell: Cell)
      requires Valid() && cell in index.cells.Values
      modifies this
      ensures HasRow(cell.Ref()) && cell.Address() in old(index.cells) && old(index.cells)[cell.Address()] == cell
      ensures index == IndexWithout(old(index), cell.Address())
      ensures ranges == old(ranges)
      ensures cell !in index.cells.Values
      ensures Valid()
    {
      RegisteredAddress(cell);
      var a := GetCellAddress(cell.Ref());
      ghost var ix0 := index;
      index := IndexWithout(index, a);
      ConsistentRemove(ix0, ranges, this, a);
    }

    /** `_moveCell(from, to)`: refuse an occupied target; otherwise the cell
        at `from` is filed at `to` and its reference updated. */
    method MoveCell(from: CellAddress, to: CellAddress) returns (o: Outcome)
      requires Valid() && ValidAddress(to)
      modifies this, CellsAt(from)`attributes
      ensures Valid() && ranges == old(ranges)
      ensures to in old(index.cells) ==> o == Fail(OccupiedTarget(to))
      ensures to !in old(index.cells) && from !in old(index.cells) ==> o == Fail(MissingCell(from))
      ensures o.Fail? ==> unchanged(this) && forall c :: c in old(CellsAt(from)) ==> c.attributes == old(c.attributes)
      ensures to !in old(index.cells) && from in old(index.cells) ==>
        o == Pass &&
        index == IndexWith(IndexWithout(old(index), from), to, old(index.cells[from])) &&
        index.cells[to].attributes == old(index.cells[from].attributes)["r" := GetCellRef(to)]
    {
      if to in index.cells {
        return Fail(OccupiedTarget(to));
      }
      if from !in index.cells {
        return Fail(MissingCell(from));
      }
      var cell := index.cells[from];
      cell.AddressOfRef(from);
      RemoveCellFromIndex(cell);
      cell.SetRef(GetCellRef(to));
      AddressRoundTrip(to);
      AddCellToIndex(cell);
      o := Pass;
    }

    /** `_cloneCell(from, to)`: refuse an empty source; otherwise file a copy
        of it, with reference `to`, at `to` (replacing what was there). */
    method CloneCell(from: CellAddress, to: CellAddress) returns (o: Outcome)
      requires Valid() && ValidAddress(to)
      modifies this
      ensures Valid() && ranges == old(ranges)
      ensures from !in old(index.cells) ==> o == Fail(SourceNotOccupied(from)) && unchanged(this)
      ensures from in old(index.cells) ==>
        o == Pass && to in index.cells && fresh(index.cells[to]) &&
        index == IndexWith(old(index), to, index.cells[to]) &&
        index.cells[to].attributes == old(index.cells[from].attributes)["r" := GetCellRef(to)] &&
        index.cells[to].value == old(index.cells[from].value) && index.cells[to].form == old(index.cells[from].form)
    {
      if from !in index.cells {
        return Fail(SourceNotOccupied(from));
      }
      var cell := index.cells[from];
      var ref := GetCellRef(to);
      var newCell := cell.Copy(map["r" := ref]);
      MergeOne(cell.attributes, "r", ref);
      assert newCell.RefIs(to);
      newCell.AddressOfRef(to);
      AddCellToIndex(newCell);
      assert index.cells[to] == newCell;
      o := Pass;
    }

    /** Every cell of `m` still has the attributes recorded in `attrs`,
        except perhaps its `r`. */
    ghost predicate KeepsAttributes(m: map<CellAddress, Cell>, attrs: map<Cell, map<string, string>>)
      reads m.Values`attributes
    {
      forall c :: c in m.Values ==> c in attrs && c.attributes - {"r"} == attrs[c] - {"r"}
    }

    /** The `forEach` step of `insertCellMoveDim`: `cell`, filed at `x`,
        moves by `delta` onto a free address, which extends the shift of the
        keys in `done` by `x`; only its `r` attribute changes. */
    method MoveOne(cell: Cell, x: CellAddress, delta: CellAddress,
                   ghost m0: map<CellAddress, Cell>, ghost done: set<CellAddress>)
      requires CanShift(m0, done, x, delta) && cell == m0[x] && delta.c >= 0 && delta.r >= 0
      requires Valid() && index.cells == ShiftMap(m0, done, delta)
      modifies this, cell`attributes
      ensures Valid() && ranges == old(ranges)
      ensures index.cells == ShiftMap(m0, done + {x}, delta)
      ensures cell.attributes - {"r"} == old(cell.attributes) - {"r"}
    {
      ShiftStep(m0, done, x, delta);
      cell.AddressOfRef(x);
      var to := AddAddress(x, delta);
      assert AddAddress(delta, x) == to;
      ghost var before := index.cells;
      var o := cell.MoveBy(delta);
      assert index.cells == (before - {x})[to := cell];
      UpdateThenRemove(old(cell.attributes), "r", GetCellRef(to));
    }

    /** `MoveOne`, keeping track of the attributes of every cell. */
    method ShiftCell(cell: Cell, x: CellAddress, delta: CellAddress,
                     ghost m0: map<CellAddress, Cell>, ghost done: set<CellAddress>,
                     ghost attrs: map<Cell, map<string, string>>)
      requires CanShift(m0, done, x, delta) && cell == m0[x] && delta.c >= 0 && delta.r >= 0
      requires Valid() && index.cells == ShiftMap(m0, done, delta)
      requires KeepsAttributes(m0, attrs)
      modifies this, cell`attributes
      ensures Valid() && ranges == old(ranges)
      ensures index.cells == ShiftMap(m0, done + {x}, delta)
      ensures KeepsAttributes(m0, attrs)
    {
      MoveOne(cell, x, delta, m0, done);
      forall c | c in m0.Values ensures c in attrs && c.attributes - {"r"} == attrs[c] - {"r"} {
        if c != cell {
          assert c.attributes == old(c.attributes);
        }
      }
    }

    /** `forEach(c => c.moveBy(delta))` over `cells`, the cells filed at
        `keys`, listed so that each can move once those before it have. */
    method MoveEach(cells: seq<Cell>, keys: seq<CellAddress>, delta: CellAddress, ghost m0: map<CellAddress, Cell>)
      requires Valid() && index.cells == m0 && |cells| == |keys| && delta.c >= 0 && delta.r >= 0
      requires forall i :: 0 <= i < |keys| ==>
        CanShift(m0, Elems(keys[..i]), keys[i], delta) && cells[i] == m0[keys[i]]
      modifies this, m0.Values`attributes
      ensures Valid() && ranges == old(ranges)
      ensures Elems(keys) <= m0.Keys && index.cells == ShiftMap(m0, Elems(keys), delta)
      ensures forall c :: c in m0.Values ==> c.attributes - {"r"} == old(c.attributes) - {"r"}
    {
      var i := 0;
      ghost var done: set<CellAddress> := {};
      ghost var attrs := map c | c in m0.Values :: c.attributes;
      while i < |keys|
        invariant 0 <= i <= |keys| && done == Elems(keys[..i]) && done <= m0.Keys
        invariant Valid() && ranges == old(ranges)
        invariant index.cells == ShiftMap(m0, done, delta)
        invariant KeepsAttributes(m0, attrs)
      {
        ShiftCell(cells[i], keys[i], delta, m0, done, attrs);
        ElemsPrefix(keys, i);
        done := done + {keys[i]};
        i := i + 1;
      }
      assert keys[..i] == keys;
    }

    /** `insertCellMoveDim(origin, d)`: make room at `origin` by moving every
        cell at or after it along `d` one step further, the farthest first,
        so that no move lands on a cell still to be moved. */
    method InsertCellMoveDim(origin: CellAddress, d: Direction)
      requires Valid()
      modifies this, index.cells.Values`attributes
      ensures Valid() && ranges == old(ranges)
      ensures index.cells == ShiftMap(old(index.cells), AtOrAfter(old(index.cells).Keys, origin, d), RelAddress(1, d))
      ensures forall c :: c in old(index.cells).Values ==> c.attributes - {"r"} == old(c.attributes) - {"r"}
    {
      var delta := RelAddress(1, d);
      var keys := ShiftOrder(index.order, origin, d);
      ShiftOrderFacts(index.order, index.cells.Keys, origin, d);
      var cells := CellsOf(keys);
      forall i | 0 <= i < |keys| ensures CanShift(index.cells, Elems(keys[..i]), keys[i], delta) {
        ShiftOrderStep(index.cells, index.order, origin, d, i);
      }
      ShiftOrderCovers(index.cells, index.order, origin, d);
      MoveEach(cells, keys, delta, index.cells);
    }
  }
}
