# extem template expansion, modelled in Dafny

extem fills an XLSX workbook from a JSON context. Templates are written in the cells of the workbook, and extem expands them in place.

There are two kinds of template:

- **Cell templates.** A cell's value starts with one of three markers:
  - `${path}` puts the value of `path` into the cell;
  - `|{path}` repeats the cell down a column, once per element of an array;
  - `_{path}` repeats the cell along a row, once per element.
- **Range templates.** A cell's formula has the form `IFERROR(N(A1:C3), "|{path}")`. It declares a *range scope*: the whole block `A1:C3` is repeated once per array element, and the nested scopes inside it are evaluated against that element.

The workbook turns every template into a scope, nests the scopes into a tree by containment, and then evaluates the tree from its root. Repeating a block works in three steps:

1. it pushes every cell after the block further along (farthest first);
2. it clones the block's cells into the room this makes;
3. it grows the enclosing scopes and moves the scopes that come after.

The model follows the source module by module:

| Dafny module | file | source |
|---|---|---|
| `Address` | `address.dfy` | `src/XLSXUtil.ts`: A1 references, column letters, ranges, and direction-relative address arithmetic. |
| `Kinds`, `Template` | `template.dfy` | The JSON values templates evaluate to, JavaScript truthiness, and the string helpers of `src/Util.ts`. The marker regex and the range-formula regex are written as explicit parsers. |
| `Ordering` | `ordering.dfy` | `Cell.sortDim`, and the stable sort the sheet relies on (`Array.prototype.sort`). Also the maps and orders that moving a band of cells works over. |
| `Registry` | `registry.dfy` | `src/Cell.ts` and `src/WorkSheet.ts`, as the classes `Cell` and `WorkSheet`. A cell keeps its attribute map (with its `r` reference), its value and its formula. A sheet keeps its cell index (by address, by row and by column, plus the filing order) and its list of range-template cells. |
| `Scopes` | `scopes.dfy` | `src/RootScope.ts` and `src/Scope.ts`. The scope tree is one `ScopeTree` object holding an arena of nodes (see below). |
| `Book` | `book.dfy` | `src/Workbook.ts`, as the class `Workbook`. It covers scope discovery and `createScopeTree`, the clone and copy operations, and the interpolation of scalar, row and column scopes. |

How the scope tree is represented:

- Node 0 is the root scope.
- Each node keeps its range address, sheet, template, kind, parent index and child indices.
- A parent's index is always below its children's. This holds because the source creates parents first and appends clones.
- The workbook's `scopes` list holds node indices.

How the rest of the source is represented:

- **Exceptions.** A `throw` in the workbook code, and a `TypeError` on an undefined cell or sheet, become an `Outcome.Fail` with a reason. The first failure ends the run. Errors raised by the expression evaluator are not modelled (see "## Left out").
- **Expression evaluator.** The jsonata evaluator is the function-valued field `eval` of the workbook.
- **Nesting depth.** Interpolation descends through a tree that grows while it runs, so the recursion carries a `fuel` bound that fails with `Exhausted` when it is used up.

## Model

| member | source | states |
|---|---|---|
| Address.Other | src/XLSXUtil.ts:80-85 | The other direction is never the given one. |
| Address.RelAddress | src/XLSXUtil.ts:14-19 | The offset lies on the given axis and is 0 on the other. |
| Address.SubtractUndoesAdd | src/XLSXUtil.ts:75-76 | `subtractAddress(addAddress(a, b), b) == a`; each coordinate of a sum is the sum of the coordinates. |
| Address.EncodeCol | src/XLSXUtil.ts:28-33 | The loop of `encodeCol` yields the bijective base-26 letters of `col + 1` (the empty text for -1). |
| Address.Letters | src/XLSXUtil.ts:28-33 | Column letters are upper-case and empty exactly for 0. |
| Address.DecodeEncodeCol | src/XLSXUtil.ts:23-33 | `decodeCol(encodeCol(c)) == c` for every `c >= -1`. |
| Address.EncodeDecodeCol | src/XLSXUtil.ts:23-33 | Every upper-case text decodes to a column `>= -1` that encodes back to the same text. |
| Address.LettersRoundTrip | src/XLSXUtil.ts:23-33 | The reduce of `decodeCol` inverts the base-26 letters. |
| Address.DigitsRoundTrip | src/XLSXUtil.ts:21-22 | The decimal digits of `n` read back as `n`. |
| Address.DigitsInverse | src/XLSXUtil.ts:21-22 | Canonical digit text (no leading zero) is the decimal of its value. |
| Address.DecodeEncodeRow | src/XLSXUtil.ts:21-22 | `decodeRow(encodeRow(r)) == r` for `r >= -1`. |
| Address.EncodeDecodeRow | src/XLSXUtil.ts:21-22 | Canonical row digits decode and encode back to themselves. |
| Address.LeadingUpper | src/XLSXUtil.ts:38-41 | The `[A-Z]*` group: the longest upper-case prefix. |
| Address.LeadingDigits | src/XLSXUtil.ts:38-41 | The `\d*` group: the longest digit prefix. |
| Address.GetCellAddress | src/XLSXUtil.ts:38-41 | A reference decodes to an address with both coordinates `>= -1`. |
| Address.AddressRoundTrip | src/XLSXUtil.ts:36-41 | `getCellAddress(getCellRef(a)) == a`, and the reference is canonical. |
| Address.RefRoundTrip | src/XLSXUtil.ts:36-41 | A canonical reference is `getCellRef` of its own address. |
| Address.RefInjective | src/XLSXUtil.ts:36 | Two addresses have the same reference exactly when they are equal. |
| Address.GetCellOffset | src/XLSXUtil.ts:37-44 | The offset reference names the anchor's address moved `k` along the direction. |
| Address.OffsetZero | src/XLSXUtil.ts:42-44 | Offset 0 gives back the reference itself. |
| Address.Split | src/XLSXUtil.ts:47 | `split(':')` yields at least one part. |
| Address.SplitPair | src/XLSXUtil.ts:47 | `"x:y".split(':') == [x, y]` when neither part has a colon. |
| Address.SplitRange | src/XLSXUtil.ts:47 | `splitRange` keeps one or two parts. |
| Address.GetRangeAddress | src/XLSXUtil.ts:48 | Both corners of a range decode to valid addresses. |
| Address.RangeRoundTrip | src/XLSXUtil.ts:48-49 | `getRangeAddress(getRangeRef(ra)) == ra`. |
| Address.SingleCellDim | src/XLSXUtil.ts:50-53 | The range `x:x` has dimension 1 in both directions. |
| Address.RangeCellsFacts | src/XLSXUtil.ts:63-72 | A range lists exactly the addresses between its corners, width times height of them. |
| Address.RangeCellsInRange | src/XLSXUtil.ts:54-72 | Every cell `getRangeCells` lists is `inRange` of the range. |
| Address.ColumnCells | src/XLSXUtil.ts:63-72 | The inner loop yields the references of one column of the range, in row order. |
| Address.GetRangeCells | src/XLSXUtil.ts:63-72 | The nested loops yield the reference of every address of the range, column by column, width times height of them. |
| Address.GetRangeCellsInRange | src/XLSXUtil.ts:54-72 | Every reference `getRangeCells` returns lies `inRange` of its range. |
| Address.CellAtOrAfterDimMeaning | src/XLSXUtil.ts:97-101 | At or after along `d` means the same line across and at least as far along; an origin is at or after itself. |
| Template.IndexOf | src/Util.ts:11 | `indexOf` is the first position holding the value, or -1 when there is none. |
| Template.ContainsMeaning | src/Util.ts:11 | `contains(arr, v)` holds exactly when `v` is in `arr`. |
| Template.Not | src/Util.ts:10 | `not(p)` is the negation of `p` at every value. |
| Template.TemplateType | src/Util.ts:73-81 | The kind is scalar, column or row exactly when the text starts with `${`, `\|{` or `_{`, and none otherwise. |
| Template.MarkerPath | src/Util.ts:84 | A match of `^[$\|_]\{(.*?)\}$` frames its group between the two-character prefix and the closing brace. |
| Template.ParseTemplate | src/Util.ts:82-86 | The type is `templateType`; the path is the marker group, or empty when the marker does not match. |
| Template.ParseMarker | src/Util.ts:82-86 | A marker around a single-line path parses back to that path and the prefix's kind. |
| Template.LeadingSpaces | src/Util.ts:89 | The `\s*` run: the longest prefix of white space. |
| Template.Group1Length | src/Util.ts:89 | The greedy `(.+)?` takes the longest length at which the rest still matches. |
| Template.MatchRangeTemplate | src/Util.ts:88-90 | A match starts with `IFERROR(N(`, compared ignoring case. |
| Template.EmptyFormulaDoesNotMatch | src/Util.ts:88-90 | The empty formula does not match (the `str &&` guard). |
| Template.MatchRangeFormula | src/Util.ts:88-90 | `IFERROR(N(r), "t")` in any letter case matches with groups `r` and `t`. |
| Ordering.SortDim | src/Cell.ts:51-56 | 0 on the same line; -1 or 1 by position along the axis, flipped by `reverse`. |
| Ordering.SortDimAntisymmetric | src/Cell.ts:51-56 | Swapping the arguments, or flipping `reverse`, negates the comparison. |
| Ordering.SortByFacts | src/WorkSheet.ts:28-29 | The stable sort yields a sorted permutation of its input. |
| Ordering.InsertFacts | src/WorkSheet.ts:28-29 | Inserting into a sorted list keeps it sorted and adds exactly one element. |
| Ordering.Filter | src/WorkSheet.ts:137-138 | `filter` keeps exactly the elements satisfying the predicate, without adding duplicates. |
| Ordering.AtOrAfter | src/WorkSheet.ts:129-131 | The keys `insertCellMoveDim` selects: those at or after the origin along `d`. |
| Ordering.ShiftFreesOrigin | src/WorkSheet.ts:129-134 | After `insertCellMoveDim` the origin is free. |
| Ordering.ShiftLine | src/WorkSheet.ts:129-134 | A cell at or after the origin moves one step along; every other cell stays. |
| Ordering.ShiftOrderFacts | src/WorkSheet.ts:129-132 | The cells to move are listed once each, farthest along `d` first. |
| Ordering.ShiftOrderStep | src/WorkSheet.ts:129-134 | Moving in that order never lands a cell on an occupied place. |
| Ordering.ShiftOrderCovers | src/WorkSheet.ts:129-134 | The moved cells are exactly those at or after the origin. |
| Ordering.AtOrAfterRange | src/Workbook.ts:177-179 | The keys `copyRange` moves: those within the range's span across, at or past its start along `d`. |
| Ordering.BandOrderFacts | src/Workbook.ts:177-179 | Those cells are listed once each, farthest first. |
| Ordering.BandOrderStep | src/Workbook.ts:177-183 | Moving them by any size in that order never lands on an occupied place. |
| Ordering.BandOrderCovers | src/Workbook.ts:177-183 | The moved cells are exactly those of the band. |
| Ordering.LineOrderFacts | src/WorkSheet.ts:28-29 | `_getRow` and `_getCol` list each cell of the line once, in strictly increasing position along it. |
| Ordering.LinesAdd | src/WorkSheet.ts:31-41 | Filing a cell keeps the row or column buckets in agreement with the cell map. |
| Ordering.LinesRemove | src/WorkSheet.ts:46-54 | Removing a cell keeps the buckets in agreement. |
| Ordering.IndexAdd | src/WorkSheet.ts:31-41 | Filing a cell keeps both the row and the column index in agreement. |
| Ordering.IndexRemove | src/WorkSheet.ts:46-54 | Removing a cell keeps both indexes in agreement. |
| Ordering.OrderAdd | src/WorkSheet.ts:31-41 | The filing order gains a new key at its end, and keeps its place for a refiled key. |
| Ordering.OrderRemove | src/WorkSheet.ts:46-54 | The filing order loses exactly the removed key. |
| Registry.ParseIndex | src/Cell.ts:33 | `parseInt(v, 10)` skips leading white space and reads one optional sign. It is a number exactly when a digit follows; the number is the value of the leading digits, negated exactly when the sign is `-`. |
| Registry.ParseIndexReads | src/Cell.ts:33 | White space, an optional `+` or `-`, the decimal digits of `n` and then anything but a digit reads back as `n`, negated after `-`. |
| Registry.SharedString | src/Cell.ts:33 | The shared string at the parsed index, or empty text when no number was read or it is out of range. |
| Registry.LoadedCell | src/Cell.ts:27-37 | A `t="s"` cell takes its shared string as value and becomes `t="str"`; any other cell keeps its attributes and `<v>` text. |
| Registry.NodeAddress | src/WorkSheet.ts:31-36 | A filed cell node's address is the one its `r` attribute names. |
| Registry.RangeNodes | src/WorkSheet.ts:78 | `ranges` holds exactly the nodes whose formula is a range template. |
| Registry.Filing | src/WorkSheet.ts:80-81 | Every other node is filed under its own address. |
| Registry.LoaderSnoc | src/WorkSheet.ts:74-81 | Reading one more node either appends it to the ranges or files it, according to its formula. |
| Registry.RangeTemplates | src/WorkSheet.ts:137 | The filter keeps exactly the range-template cells, and all of them when every cell is one. |
| Registry.CellTemplates | src/WorkSheet.ts:138 | The filter keeps exactly the cell-template cells. |
| Registry.Cell.constructor | src/Cell.ts:7 | The new cell holds the given attributes, value, formula and sheet. |
| Registry.Cell.FromNode | src/Cell.ts:27-37 | A fresh cell holding the node's formula and the sheet; a `t="s"` node gets its shared string as value and `t="str"`, any other node keeps its attributes and `<v>` text. |
| Registry.Cell.AddressOfRef | src/Cell.ts:11-18 | A cell whose `r` names `a` has address `a` and a canonical reference. |
| Registry.Cell.SetRef | src/Cell.ts:12 | Only the `r` attribute changes, to the new reference. |
| Registry.Cell.SetValue | src/Cell.ts:16 | The value becomes `v`. |
| Registry.Cell.Copy | src/Cell.ts:25 | A fresh cell whose attributes are the old ones overridden by `attrs`, with the same value, formula and sheet. |
| Registry.Cell.AtOrAfterDim | src/Cell.ts:41-43 | The cell is on the origin's line across and at least as far along `d`. |
| Registry.Cell.AtOrAfterRangeDim | src/Cell.ts:44-46 | The cell is within the range's span across and at or past its start along `d`. |
| Registry.Cell.IsCellTemplate | src/Cell.ts:47 | A text value is a cell template exactly when it starts with a marker prefix. |
| Registry.Cell.IsRangeTemplate | src/Cell.ts:48 | The formula matches the range-template pattern, so it starts with `IFERROR(N(`. |
| Registry.Cell.MoveTo | src/Cell.ts:21 | Fails with the target occupied and nothing changed; otherwise the cell is refiled under the target with `r` renamed. |
| Registry.Cell.MoveBy | src/Cell.ts:22 | `moveTo` of the address moved by `delta`, with the same two outcomes. |
| Registry.Cell.CloneTo | src/Cell.ts:23 | A fresh copy of the cell is filed under the target; the other entries stay. |
| Registry.WorkSheet.constructor | src/WorkSheet.ts:20-22 | A new sheet holds exactly what `_readSheetData` reads from its nodes. |
| Registry.WorkSheet.ReadSheetData | src/WorkSheet.ts:74-81 | The sheet ends up holding the range-template cells in order and every other cell filed by address, with the index consistent. |
| Registry.WorkSheet.ReadNode | src/WorkSheet.ts:76-81 | One more node is read into the ranges or the index. |
| Registry.WorkSheet.KeepRange | src/WorkSheet.ts:78 | A range cell is appended to `ranges` and the index is untouched. |
| Registry.WorkSheet.FileCell | src/WorkSheet.ts:81 | The cell is filed under its address and `ranges` is untouched. |
| Registry.WorkSheet.RegisteredAddress | src/WorkSheet.ts:31-41 | Every filed cell is filed under the address its own `r` names. |
| Registry.WorkSheet.GetCell | src/WorkSheet.ts:25 | Some cell exactly when the address is filed, and then the filed cell. |
| Registry.WorkSheet.GetCells | src/WorkSheet.ts:26 | The filed cells in filing order; each filed cell is listed. |
| Registry.WorkSheet.GetScopeRanges | src/WorkSheet.ts:137 | The range-template cells of `ranges`, which is all of them. |
| Registry.WorkSheet.GetScopeCells | src/WorkSheet.ts:138 | Exactly the filed cells whose value is a cell template. |
| Registry.WorkSheet.GetRow | src/WorkSheet.ts:28 | A row not in the index fails; otherwise the cells of that row, sorted by column. |
| Registry.WorkSheet.GetCol | src/WorkSheet.ts:29 | A column not in the index fails; otherwise the cells of that column, sorted by row. |
| Registry.WorkSheet.LineCells | src/WorkSheet.ts:28-29 | A listed line holds exactly the cells of its index bucket. |
| Registry.WorkSheet.Occupied | src/WorkSheet.ts:30 | Occupied exactly when `getCell` finds a cell. |
| Registry.WorkSheet.AddCellToIndex | src/WorkSheet.ts:31-41 | The cell is filed under its address in the cell, row and column indexes. |
| Registry.WorkSheet.RemoveCellFromIndex | src/WorkSheet.ts:46-54 | The cell's entry is removed from all three indexes and the cell is no longer filed. |
| Registry.WorkSheet.MoveCell | src/WorkSheet.ts:55-63 | Fails when the target is occupied, or when the source is empty (the source's `TypeError`). Otherwise the cell is refiled at the target with its `r` renamed. |
| Registry.WorkSheet.CloneCell | src/WorkSheet.ts:64-71 | Fails, changing nothing, when the source is empty. Otherwise a fresh copy with `r` renamed is filed at the target. |
| Registry.WorkSheet.MoveEach | src/WorkSheet.ts:133 | Moving the listed cells one by one yields the shifted map. |
| Registry.WorkSheet.InsertCellMoveDim | src/WorkSheet.ts:129-134 | Every cell at or after the origin along `d` moves one step; the other cells stay; only `r` attributes change. |
| Scopes.ShapedRange | src/Scope.ts:7-10 | A scope's address is the decoding of its range text. |
| Scopes.NewScope | src/Scope.ts:7-10 | A new scope with the given range, sheet, template and kind, and no parent or children. |
| Scopes.NodeDim | src/Scope.ts:30 | `dim(d)` is the range's dimension along `d`. |
| Scopes.GetAnchor | src/Scope.ts:32 | The anchor reference names the range's first corner. |
| Scopes.ContainsRangeCorners | src/Scope.ts:41-42 | For an ordered range, containing every cell of it means containing both corners. |
| Scopes.ContainsScopeReflexive | src/Scope.ts:43-45 | A scope contains itself. |
| Scopes.ContainsScopeTransitive | src/Scope.ts:43-45 | Containment is transitive. |
| Scopes.AtOrAfterRangeDimMeaning | src/Scope.ts:51-68 | The scope starts at or past the range along `d` and overlaps its span across. |
| Scopes.Evaluate | src/Scope.ts:70-76 | The root evaluates to the context as a scalar; a scope to `eval(context, path)` with its template's kind. |
| Scopes.ScalarText | src/Scope.ts:90-92 | The leading `\|` or `_` becomes `$`, so a column or row template turns scalar; other text is kept. |
| Scopes.ScalarTextKeepsPath | src/Scope.ts:90-92 | `makeScalar` keeps the template's path. |
| Scopes.ScalarTextIdempotent | src/Scope.ts:90-92 | `makeScalar` twice is `makeScalar` once. |
| Scopes.ScalarTemplateParses | src/Scope.ts:84-88 | `${$[i]}` is a scalar template for the path `$[i]`. |
| Scopes.Translate | src/Scope.ts:21-22 | Both corners move by `a`. |
| Scopes.Grown | src/Scope.ts:11-12 | The far corner moves by `a`. |
| Scopes.TranslateKeepsDim | src/Scope.ts:21-30 | Moving keeps a scope's dimensions. |
| Scopes.GrownDim | src/Scope.ts:18-30 | `growDim(k, d)` adds `k` to the dimension along `d` and keeps the other. |
| Scopes.ShiftTwice | src/Scope.ts:21-26 | Moving by `j` steps and then by `k` steps is moving by `j + k`. |
| Scopes.Ancestry | src/Scope.ts:14-16 | The chain `grow` walks holds the scope and only nodes at or before it. |
| Scopes.LinkedAttach | src/RootScope.ts:17-20 | `addChild` of a scope no list holds keeps every listed child pointing back at its parent and listed once. |
| Scopes.PathsBelow | src/Scope.ts:21-26 | In a linked tree the recursion of `move` reaches each node of the subtree exactly once and no other node. |
| Scopes.ChildrenApart | src/Scope.ts:25 | Two different children of a scope have disjoint subtrees, neither holding the scope. |
| Scopes.ScopeTree.constructor | src/RootScope.ts:6-10 | A tree holding only the root, with no parent and no children. |
| Scopes.ScopeTree.Add | src/Workbook.ts:58-61 | A new scope node is appended. |
| Scopes.ScopeTree.AddChild | src/RootScope.ts:17-20 | The child's parent is set and the child is appended to the parent's children; the other nodes stay. It is handed a scope no list holds, so each node stays listed by its parent only, once. |
| Scopes.ScopeTree.SetParent | src/Workbook.ts:265 | Only the parent link of the node changes; the node is a fresh clone no list holds, so the tree stays linked. |
| Scopes.ScopeTree.RemoveChildren | src/RootScope.ts:23 | Only the node's child list changes, to empty. |
| Scopes.ScopeTree.MakeScalar | src/Scope.ts:90-92 | Only the node's template changes, to its scalar form. |
| Scopes.ScopeTree.Grow | src/Scope.ts:11-17 | The scope and each of its ancestor scopes grow by `a`; the other nodes and the links stay. |
| Scopes.ScopeTree.GrowDim | src/Scope.ts:18-20 | `grow` by `k` steps along `d`. |
| Scopes.ScopeTree.Move | src/Scope.ts:21-26 | The scope and every node of its subtree move by `a` exactly once; every other node and all links stay. |
| Scopes.ScopeTree.MoveChildren | src/Scope.ts:25 | Moving the children one by one completes the move: each node of the subtree has moved exactly once, the rest not at all. |
| Scopes.ScopeTree.MoveEachChild | src/Scope.ts:25 | The `forEach` over the children moves each node once for every path that reaches it from the scope, leaving links and the arena size as they were. |
| Scopes.ScopeTree.MoveDim | src/Scope.ts:27-29 | `move` by `k` steps along `d`: the subtree moves once, every other node stays. |
| Scopes.ScopeTree.Clone | src/Scope.ts:78-82 | Appends a deep copy of the subtree whose root has no parent; earlier nodes stay. |
| Scopes.ScopeTree.CloneChildren | src/Scope.ts:80 | Every child's copy is appended and attached to the copy. |
| Scopes.ScopeTree.CloneAsScalar | src/Scope.ts:84-88 | A deep copy whose template is `${$[index]}`. |
| Scopes.ScopeTree.ScalarClones | src/Workbook.ts:258-267 | The template turns scalar; `n` scalar clones are appended in order. Each has the template as parent, scalar template `i`, and is listed by no node. Each deep-copies the template's subtree as it now is, up to its own template and parent. |
| Scopes.ScopeTree.ScalarClone | src/Workbook.ts:261-265 | One clone is appended past every earlier node, which all stay. Its parent is the template and no list holds it. It deep-copies the template's subtree, up to its own template and parent. |
| Scopes.ScopeTree.Adopt | src/Workbook.ts:275-276 | The node's children become exactly the clones, each with the node as parent; other nodes stay. It is handed distinct clones no list holds, so the tree stays linked. |
| Book.ParseScopeCell | src/Workbook.ts:13-16 | A cell scope over `ref:ref` with the cell's value as template. |
| Book.ParseScopeRange | src/Workbook.ts:17-22 | Ok exactly when the formula matches with a readable, ordered range; the scope has the matched range and template. |
| Book.ParseRangeFormula | src/Workbook.ts:17-22 | The formula written for an ordered range `r` and template `t` gives the range scope `r` with template `t`. |
| Book.RangeScopes | src/Workbook.ts:126-131 | Ok exactly when every range cell parses, and then one scope per cell, in order. |
| Book.CellScopes | src/Workbook.ts:132-137 | One cell scope per template cell, in order. |
| Book.FirstContaining | src/Workbook.ts:141-148 | `some` stops at the first child that contains the scope. |
| Book.PlaceTargetFacts | src/Workbook.ts:140-153 | `place` puts a scope under the deepest first-containing chain of children, or under the starting parent. |
| Book.PlaceStep | src/Workbook.ts:140-154 | Placing one more scope keeps the tree linked and each scope attached where `place` puts it. |
| Book.FirstFitStep | src/Workbook.ts:140-154 | Placing the next scope where `place(root)` puts it leaves every earlier scope's placement as it was judged on its own turn. |
| Book.ListedMoves | src/Workbook.ts:164-167 | Every listed scope moves at least once. |
| Book.UnreachedStays | src/Workbook.ts:164-167 | A node no listed scope reaches does not move. |
| Book.NestedListedMovesTwice | src/Workbook.ts:164-167 | For any tree and list: a child listed together with its parent moves at least twice. |
| Book.SelectScopes | src/Workbook.ts:164-166 | The filter keeps exactly the scopes satisfying the predicate. |
| Book.MovedSelf | src/Scope.ts:21-26 | `moveDim` moves the scope itself once. |
| Book.GrowAtRelocates | src/Scope.ts:11-17 | Growing only changes addresses. |
| Book.MovedAtRelocates | src/Scope.ts:21-26 | Moving only changes addresses. |
| Book.GrownAndShiftedRelocates | src/Workbook.ts:158-168 | `cloneCell`'s scope updates only change addresses. |
| Book.Inside | src/Workbook.ts:186 | The keys `copyRange` clones: those `inRange` of the source range. |
| Book.ClearPastRange | src/Workbook.ts:186-191 | A copy landing beyond the source range never lands on a source cell. |
| Book.ShiftBand | src/Workbook.ts:176-183 | The band at or past the target moves `size` along `d`, farthest first; only `r` attributes change. |
| Book.Copied | src/Cell.ts:25 | A copy has its source's value and attributes, with `r` naming its new place. |
| Book.CloneEach | src/Workbook.ts:186-191 | Each cell inside gains a fresh copy `delta` further on, with its source's value and attributes; other keys keep their cells. |
| Book.CopiesOfContents | src/Workbook.ts:188-191 | The copies made hold their sources' contents. |
| Book.Dispatch | src/Workbook.ts:295-299 | Scalar fills, row repeats horizontally, column repeats vertically, and anything else is skipped. |
| Book.DispatchOfTemplate | src/Workbook.ts:291-299 | A template's prefix decides the step. |
| Book.FilledGrows | src/Workbook.ts:243-250 | Setting the next item keeps the items already placed. |
| Book.RangeSteps | src/Workbook.ts:253-279 | The steps of `interpolateRange` compose: the clones stay the template's children, and the nodes below it stay. |
| Book.Workbook.Names | src/Workbook.ts:112 | The names of the sheets, in order. |
| Book.Workbook.GetSheet | src/Workbook.ts:113-115 | The first sheet with the name, or none when no sheet has it. |
| Book.Workbook.constructor | src/Workbook.ts:44-55 | A workbook over the sheets whose tree is only the root and whose scope list is empty. |
| Book.Workbook.RangeScopesUpTo | src/Workbook.ts:126-131 | The range scopes of the first `k` sheets are range-kind scopes. |
| Book.Workbook.CellScopesUpTo | src/Workbook.ts:132-137 | The cell scopes of the first `k` sheets are cell-kind scopes. |
| Book.Workbook.DiscoveredScopes | src/Workbook.ts:58-61 | The range scopes followed by the cell scopes. |
| Book.Workbook.ReadScopes | src/Workbook.ts:58-63 | A malformed range scope fails with the tree only the root. Otherwise every discovered scope is filed and placed in the tree where `place(root)` puts it in turn. |
| Book.Workbook.FileScopes | src/Workbook.ts:58-63 | The scopes are filed in order, and `createScopeTree` hangs each under the parent `place(root)` chooses in turn. |
| Book.Workbook.AddScopes | src/Workbook.ts:58-61 | Node `i + 1` is the `i`-th scope, and the scope list names them in order. |
| Book.Workbook.Place | src/Workbook.ts:140-153 | The scope becomes the last child of the place `place` chooses. |
| Book.Workbook.CreateScopeTree | src/Workbook.ts:138-156 | The tree becomes linked and the contents stay. Each scope's parent is the one `place(root)` chooses on the tree as it stood when the scope's turn came: the end of the chain of first containing children. |
| Book.Workbook.PlaceNext | src/Workbook.ts:153 | One turn of the `forEach`: scope `j` gets the parent that `place(root)` picks, and the scopes placed before keep theirs. |
| Book.Workbook.MoveScopes | src/Workbook.ts:164-167 | Each listed scope's `moveDim` applies, as many times as it is reached. |
| Book.Workbook.AfterCell | src/Workbook.ts:164-166 | Exactly the scopes on the sheet that start after the cell along `d` within their span across. |
| Book.Workbook.CloneCellOn | src/Cell.ts:23 | `cloneTo` on sheet `k`: fails when the source is empty, otherwise files a fresh copy. |
| Book.Workbook.SetCellValue | src/Cell.ts:16 | The cell's value becomes `v` and the workbook stays valid. |
| Book.Workbook.CloneCell | src/Workbook.ts:158-168 | Cells at or after the target shift one step along `d`. A fresh copy of the anchor fills the target, with the anchor's value, formula and attributes, `r` naming the target. Every cell that was there keeps its value and every attribute but `r`, and the range templates stay. The scope grows, and later scopes on the sheet move. |
| Book.Workbook.CopyCellInto | src/Workbook.ts:159-160 | The shift and the clone on the sheet, with the same statements about the copy, the cells that were there and the range templates as CloneCell. |
| Book.Workbook.MakeRoom | src/Workbook.ts:159-160 | `insertCellMoveDim` ahead of the copy: the anchor cell is now one step further when it lay at or past the target, and no cell is lost or changes its value or any attribute but `r`. |
| Book.Workbook.GrowAndShift | src/Workbook.ts:161-167 | The scope and its ancestors grow one step; the scopes after the cell move. |
| Book.Workbook.InsertCellMoveDimOn | src/WorkSheet.ts:129-134 | `insertCellMoveDim` on sheet `k`. |
| Book.Workbook.ShiftBandOn | src/Workbook.ts:176-183 | The band shift on sheet `k`. |
| Book.Workbook.CloneEachOn | src/Workbook.ts:186-191 | The clones on sheet `k`. |
| Book.Workbook.CopyRange | src/Workbook.ts:170-192 | The band is moved out of the way. Then each cell inside the source range gains a copy at the same offset from the target's anchor; other cells stay. |
| Book.Workbook.CloneInside | src/Workbook.ts:186-191 | The cells inside the range, each copied `delta` further on. |
| Book.Workbook.AtOrAfterScope | src/Workbook.ts:207-211 | Exactly the other scopes on the sheet at or after the scope's range along `d`. |
| Book.Workbook.CloneScope | src/Workbook.ts:194-220 | A missing sheet fails after the move. Otherwise the scope moves by `offset`, its range is copied, the parent grows and the scopes after it move. |
| Book.Workbook.CloneScopeOn | src/Workbook.ts:194-220 | `cloneScope` when the scope's sheet is sheet `k`. |
| Book.Workbook.MoveAndSpread | src/Workbook.ts:197-215 | The move followed by the parent's growth and the move of the scopes after. |
| Book.Workbook.MoveScope | src/Workbook.ts:197 | The scope and each node of its subtree move by `offset` along `d`, once; every other node stays. |
| Book.Workbook.SpreadScopes | src/Workbook.ts:202-215 | The parent grows by the scope's dimension and the scopes after it move by as much. |
| Book.Workbook.MoveAtOrAfter | src/Workbook.ts:206-215 | Each other scope of the sheet at or after the range moves by `k` along `d`, as many times as the listed scopes reach it; only addresses change. |
| Book.Workbook.GrowParent | src/Workbook.ts:202-205 | The parent scope, when it is a scope, grows by `k` along `d`. |
| Book.Workbook.Evaluate | src/Workbook.ts:93-99 | Interpolating the root's children keeps the workbook valid. Every node keeps its parent and scopes are only added. A root without children leaves the tree, the scopes, the sheets and every cell as they were. |
| Book.Workbook.InterpolateEach | src/Workbook.ts:98 | The list is interpolated in turn. The workbook stays valid and the nodes up to `lo` are kept. An empty list changes nothing: not the tree, the scopes, the sheets or any cell. |
| Book.Workbook.Interpolate | src/Workbook.ts:291-300 | Evaluates the scope and dispatches on its type. A skipped type, and a spent fuel bound, leave the tree, the sheets and every cell as they were. |
| Book.Workbook.InterpolateScalar | src/Workbook.ts:222-234 | A cell scope fails on a missing sheet or cell and otherwise sets the cell's value, leaving the tree, the sheets, the other cells and the cell's attributes alone. A range scope interpolates its children. |
| Book.Workbook.FillCell | src/Workbook.ts:227-233 | Fails on a missing sheet or cell; otherwise the anchor cell holds the value. Only that cell's value may change: the sheets, the other cells and the anchor's attributes stay. |
| Book.Workbook.InterpolateStack | src/Workbook.ts:281-289 | A falsy value leaves the tree, the sheets and every cell as they were. Otherwise a range scope repeats as a range and a cell scope as a cell. |
| Book.Workbook.InterpolateCell | src/Workbook.ts:238-251 | Fails on a missing sheet, a non-array value, or a missing anchor with items to place; a failure leaves the tree, the sheets and every cell as they were. Otherwise item `i` ends up in the cell `i` steps from the anchor along `d`. |
| Book.Workbook.FillLine | src/Workbook.ts:243-250 | After the loop every item sits at its offset from the anchor. |
| Book.Workbook.FillOne | src/Workbook.ts:244-249 | Item `index` is set at its offset and the earlier ones are kept. Item 0 writes only the anchor's value and leaves tree and cells in place. For `index > 0` the target is a copy of the anchor, every cell that was there keeps its value and every attribute but `r`, and the growth of the scope and its ancestors and the move of later scopes are those of `cloneCell`. The range templates stay. |
| Book.Workbook.FillCopy | src/Workbook.ts:244-249 | Item `index > 0`: `cloneCell` to the offset, then `setValue` of the item on the copy; no cell that was there changes its value. |
| Book.Workbook.WriteItem | src/Workbook.ts:249 | `setValue` of the item on its cell extends a filled line by one. |
| Book.Workbook.PlaceItem | src/Workbook.ts:244-248 | For item `index > 0`, the `if` branch: a fresh copy of the anchor, with its value, formula and attributes and `r` naming the offset, is filed at the offset. The cells already placed stay, every cell that was there keeps its value and every attribute but `r`, the range templates stay, and the tree changes exactly as `cloneCell` changes it. |
| Book.Workbook.InterpolateRange | src/Workbook.ts:253-279 | A non-array value fails and leaves the tree, the sheets and every cell as they were. Otherwise the template turns scalar and one scalar clone per item is appended with the template as parent. On success the clones are its children. |
| Book.Workbook.RepeatRange | src/Workbook.ts:259-279 | Past the array check: the template turns scalar, one clone per item is appended with the template as parent, and on success the clones are its children, in order. |
| Book.Workbook.Expand | src/Workbook.ts:258-276 | The template turns scalar and gets `n` clones, in order, with it as parent. Clone `i` is a scope on the template's sheet, of its kind, with scalar template `i`. At most one clone cannot fail, and on success the clones are exactly its children. |
| Book.Workbook.ScalarClones | src/Workbook.ts:258-267 | The template turns scalar and `n` scalar clones are appended under it. Clone `i` is a scope at the template's address, on its sheet, of its kind, with scalar template `i`. |
| Scopes.ScalarCopyIsItem | src/Scope.ts:84-88 | A scalar copy of a scope sits at its address, on its sheet, with its kind. |
| Book.Workbook.RepeatClones | src/Workbook.ts:268-274 | The repetition changes node addresses only, and with at most one clone it changes nothing and cannot fail. |
| Book.Workbook.Adopt | src/Workbook.ts:275-276 | The template's children become exactly the clones. |

## Left out

- Reading and writing the zip package and the workbook, sheet, shared-string and style XML documents: `readZip`'s I/O, `writeZip`, `_writeSheetData`, `_createRowNode`, `_createCellNode`, `Styles`, `XMLUtil`. A sheet is built from an already parsed list of `<c>` nodes, together with the shared strings.
- `Row` and `_addRowToIndex`: the row records only feed the XML writer.
- `getValue` and jsonata are a function parameter of the workbook. This leaves out the expression cache, the `formatDate` and `globals` bindings, and `setI18n`.
- The evaluator's errors: `jsonata(path)` throws on a malformed expression (src/Util.ts:58) and `.evaluate(obj)` can throw while it runs (src/Util.ts:69); either ends the source's `evaluate` run. The model's `eval` is total, so every template expression yields a value and no run fails for this reason. Modelling it would need `eval` to return a result and `Interpolate` to turn an error into a failure.
- `renameSheet`: it only edits the workbook XML.
- Numbers are integers. JavaScript's floating point, `NaN` and `toFixed` of fractions are not modelled.
- Address.EncodeCol: requires `col >= -1`, because for smaller columns the source's loop never ends.
- Address.GetCellAddress: requires a reference with a row part. An empty row part gives `NaN` in the source.
- Book.ParseScopeRange: returns an error for a formula that does not match, or whose range group is missing or unreadable. The source instead builds a degenerate scope, or throws a `TypeError` when the group is undefined. Scopes reach it only from `getScopeRanges`, which keeps matching formulas.
- Book.ParseScopeRange: also returns an error for a range whose corners are out of order, such as `IFERROR(N(B2:A1),"|{x}")`. The source accepts it and builds a scope with negative dimensions; here `ReadScopes` fails on such a workbook. The tree facts rely on every scope's start being at or before its end.
- Exceptions propagate: every `throw` in the workbook code, and every use of an undefined sheet or cell, becomes a failure that ends the whole `evaluate` run (the evaluator's own errors are the exception above). The source does the same: no caller catches them. The earlier part of the run is not rolled back.
- Book.Workbook.Interpolate: the recursion carries a fuel bound and fails with `Exhausted` when the bound runs out. The source has no bound.
- Book.Workbook.Evaluate: states that the tree stays valid, that nodes below the root keep their links, that scopes are only added, and what happens on an empty tree. It does not state the finished workbook as a function of the context.
- Book.Workbook.InterpolateEach: states the same preservation facts and the empty list. It does not state the combined effect of the list.
- Book.Workbook.Interpolate: for the scalar, row and column kinds it states only the preservation facts. The per-kind effects are stated by InterpolateScalar, InterpolateStack, InterpolateCell and InterpolateRange.
- Book.Workbook.InterpolateScalar: for a range scope it states only the preservation facts.
- Book.Workbook.InterpolateStack: for a truthy value it states only the preservation facts; InterpolateCell and InterpolateRange state the effects.
- Book.Workbook.InterpolateCell: states the failures and that item `i` ends up `i` steps from the anchor. It does not compose the `cloneCell` calls of the loop: the final growth of the scope and its ancestors, the final positions of later scopes, and where the cells beyond the line end up. FillOne and PlaceItem state each call's effect.
- Book.Workbook.FillLine: states that every item sits at its offset and that the tree only relocates. It does not compose the per-item growth, shifts and cell pushes that FillOne states.
- Book.Workbook.Expand: states the clones, their parent, their sheet, kind and scalar template, and the adoption. It does not state where `cloneScope` moves each clone or which cells it copies; CloneScope states that for one clone. Nor does it restate the deep copy that Scopes.ScopeTree.ScalarClones states, since `cloneScope` then moves the clones.
- Book.Workbook.ScalarClones: states each clone's address, sheet, kind and template but not its subtree; Scopes.ScopeTree.ScalarClones states the deep copy.
- Book.Workbook.RepeatClones: states that only addresses change, and the case of at most one clone. It does not state that clone `i` is moved by `i` times the size, nor where each clone's cells land. CloneScope states this for one clone.
- Book.Workbook.RepeatRange: states the scalar template, the clones, their parent and, on success, the adoption. It does not state where `cloneScope` puts each clone, nor the final cell contents of the repeated blocks, for the same reasons as Expand and InterpolateRange.
- Book.Workbook.InterpolateRange: does not state the final cell contents of the repeated blocks.
- Book.Workbook.CloneScope: the cell copies are stated exactly only when the copy lands beyond the source range and the range starts on the grid along `d` (`Beyond`). That holds for the offsets `interpolateRange` uses on a range with a real column and row at its start. It fails for a whole-row range such as `IFERROR(N(5:7),"_{x}")`, whose start has column -1 while its copies repeat along the row; for whole-row and whole-column ranges no copy's contents are stated.
- The cell index is keyed by decoded address, and the row and column indexes by row and column number, where the source keys all three by reference text. `RefInjective` shows the two keyings agree for valid addresses.
