/** A1-style cell references (the `r` attribute of a spreadsheet `c` element,
    section 18.3.1.4 of ECMA-376 Part 1): bijective base-26 column letters,
    1-based decimal row digits, zero-based two-axis addresses, ranges, and the
    axis-relative predicates used to decide what has to shift. */
module Address {

  /** The two growth axes. `Vertical` is the row axis (`'r'`), `Horizontal`
      the column axis (`'c'`). */
  datatype Direction = Vertical | Horizontal

  /** Zero-based address; `c` is the column, `r` the row. */
  datatype CellAddress = CellAddress(c: int, r: int)

  /** A range as its two corners, `near` (top-left) and `far` (bottom-right). */
  datatype RangeAddress = RangeAddress(near: CellAddress, far: CellAddress)

  /** The coordinate of `a` along axis `d`. */
  function Get(a: CellAddress, d: Direction): int {
    match d
    case Vertical => a.r
    case Horizontal => a.c
  }

  function Other(d: Direction): (o: Direction)
    ensures o != d
  {
    match d
    case Vertical => Horizontal
    case Horizontal => Vertical
  }

  /** `k` on axis `d`, 0 on the other axis. */
  function RelAddress(k: int, d: Direction): (a: CellAddress)
    ensures Get(a, d) == k && Get(a, Other(d)) == 0
  {
    match d
    case Horizontal => CellAddress(k, 0)
    case Vertical => CellAddress(0, k)
  }

  function AddAddress(x: CellAddress, y: CellAddress): CellAddress {
    CellAddress(x.c + y.c, x.r + y.r)
  }

  function SubtractAddress(x: CellAddress, y: CellAddress): CellAddress {
    CellAddress(x.c - y.c, x.r - y.r)
  }

  lemma SubtractUndoesAdd(a: CellAddress, b: CellAddress)
    ensures SubtractAddress(AddAddress(a, b), b) == a
    ensures forall d :: Get(AddAddress(a, b), d) == Get(a, d) + Get(b, d)
  {
    forall d ensures Get(AddAddress(a, b), d) == Get(a, d) + Get(b, d) {
      match d
      case Vertical =>
      case Horizontal =>
    }
  }

  // ---------------------------------------------------------------------
  // Column letters

  predicate IsUpper(ch: char) { 'A' <= ch <= 'Z' }

  predicate AllUpper(s: string) { forall i :: 0 <= i < |s| ==> IsUpper(s[i]) }

  /** The bijective base-26 numeral of `n` (A = 1, Z = 26, AA = 27); the
      letters of column `n - 1`. */
  function Letters(n: nat): (s: string)
    ensures AllUpper(s)
    ensures |s| == 0 <==> n == 0
    decreases n
  {
    if n == 0 then "" else Letters((n - 1) / 26) + [((n - 1) % 26 + 65) as char]
  }

  /** The left fold of `decodeCol`: `26 * acc + code - 64` over the characters. */
  function LettersValue(s: string): int
    decreases |s|
  {
    if s == [] then 0 else 26 * LettersValue(s[..|s| - 1]) + (s[|s| - 1] as int - 64)
  }

  /** Zero-based column of a letter string; the empty string gives -1, the
      sentinel `InRange` reads as "no bound on this axis". */
  function DecodeCol(s: string): int {
    LettersValue(s) - 1
  }

  /** The letters of column `col`. The source loops forever below -1. */
  function ColLetters(col: int): string
    requires col >= -1
  {
    Letters(col + 1)
  }

  /** The source's loop that builds the letters right to left. */
  method EncodeCol(col: int) returns (s: string)
    requires col >= -1
    ensures s == ColLetters(col)
  {
    var n := col + 1;
    s := "";
    while n != 0
      invariant n >= 0
      invariant Letters(col + 1) == Letters(n) + s
      decreases n
    {
      s := [((n - 1) % 26 + 65) as char] + s;
      n := (n - 1) / 26;
    }
  }

  lemma DivMod26(v: int, e: int)
    requires 0 <= e < 26
    ensures (26 * v + e) / 26 == v && (26 * v + e) % 26 == e
  {
    var x := 26 * v + e;
    var q, m := x / 26, x % 26;
    assert 26 * (v - q) == m - e;
  }

  lemma LettersValueNonNegative(s: string)
    requires AllUpper(s)
    ensures LettersValue(s) >= 0
    ensures s != [] ==> LettersValue(s) >= 1
    decreases |s|
  {
    if s != [] {
      LettersValueNonNegative(s[..|s| - 1]);
    }
  }

  lemma {:induction false} DecodeEncodeCol(col: int)
    requires col >= -1
    ensures DecodeCol(ColLetters(col)) == col
  {
    LettersRoundTrip(col + 1);
  }

  lemma {:induction false} LettersRoundTrip(n: nat)
    ensures LettersValue(Letters(n)) == n
    decreases n
  {
    if n > 0 {
      var p := Letters((n - 1) / 26);
      var s := Letters(n);
      assert s[..|s| - 1] == p;
      LettersRoundTrip((n - 1) / 26);
    }
  }

  lemma {:induction false} EncodeDecodeCol(s: string)
    requires AllUpper(s)
    ensures DecodeCol(s) >= -1 && ColLetters(DecodeCol(s)) == s
    decreases |s|
  {
    LettersValueNonNegative(s);
    if s != [] {
      var p := s[..|s| - 1];
      var d := s[|s| - 1] as int - 64;
      LettersValueNonNegative(p);
      var v := LettersValue(p);
      var n := LettersValue(s);
      assert n == 26 * v + d && 1 <= d <= 26;
      DivMod26(v, d - 1);
      assert (n - 1) / 26 == v && (n - 1) % 26 == d - 1;
      EncodeDecodeCol(p);
      assert Letters(v) == p;
      assert Letters(n) == p + [((d - 1) + 65) as char];
      assert ((d - 1) + 65) as char == s[|s| - 1];
      assert s == p + [s[|s| - 1]];
    }
  }

  // ---------------------------------------------------------------------
  // Row digits

  predicate IsDigit(ch: char) { '0' <= ch <= '9' }

  predicate AllDigits(s: string) { forall i :: 0 <= i < |s| ==> IsDigit(s[i]) }

  /** Decimal text without leading zeros, as `toFixed(0)` writes it. */
  predicate CanonicalDigits(s: string) {
    s != [] && AllDigits(s) && (s[0] == '0' ==> |s| == 1)
  }

  function NatDigits(n: nat): (s: string)
    ensures CanonicalDigits(s)
    decreases n
  {
    if n < 10 then [(n + 48) as char] else NatDigits(n / 10) + [(n % 10 + 48) as char]
  }

  /** `parseInt(s, 10)` on a string of digits. */
  function DigitsValue(s: string): int
    decreases |s|
  {
    if s == [] then 0 else 10 * DigitsValue(s[..|s| - 1]) + (s[|s| - 1] as int - 48)
  }

  /** `decodeRow`: the 1-based row text to a zero-based row. */
  function DecodeRow(s: string): int
    requires s != [] && AllDigits(s)
  {
    DigitsValue(s) - 1
  }

  /** `encodeRow`: a zero-based row to its 1-based text. */
  function EncodeRow(row: int): string
    requires row >= -1
  {
    NatDigits(row + 1)
  }

  lemma DivMod10(v: int, e: int)
    requires 0 <= e < 10
    ensures (10 * v + e) / 10 == v && (10 * v + e) % 10 == e
  {
    var x := 10 * v + e;
    var q, m := x / 10, x % 10;
    assert 10 * (v - q) == m - e;
  }

  lemma {:induction false} DigitsRoundTrip(n: nat)
    ensures DigitsValue(NatDigits(n)) == n
    decreases n
  {
    if n >= 10 {
      var s := NatDigits(n);
      assert s[..|s| - 1] == NatDigits(n / 10);
      DigitsRoundTrip(n / 10);
    }
  }

  lemma {:induction false} DigitsValueBounds(s: string)
    requires AllDigits(s)
    ensures DigitsValue(s) >= 0
    ensures |s| > 1 && s[0] != '0' ==> DigitsValue(s) >= 10
    decreases |s|
  {
    if s != [] {
      var p := s[..|s| - 1];
      DigitsValueBounds(p);
      if |s| > 1 && s[0] != '0' {
        if |p| > 1 {
          assert p[0] == s[0];
        } else {
          assert DigitsValue(p) == p[0] as int - 48 >= 1;
        }
      }
    }
  }

  lemma {:induction false} DigitsInverse(s: string)
    requires CanonicalDigits(s)
    ensures DigitsValue(s) >= 0 && NatDigits(DigitsValue(s)) == s
    decreases |s|
  {
    DigitsValueBounds(s);
    var p := s[..|s| - 1];
    var e := s[|s| - 1] as int - 48;
    if |s| == 1 {
      assert DigitsValue(s) == e;
      assert s == [(e + 48) as char];
    } else {
      assert p[0] == s[0];
      DigitsValueBounds(p);
      DivMod10(DigitsValue(p), e);
      DigitsInverse(p);
      assert s == p + [s[|s| - 1]];
    }
  }

  lemma DecodeEncodeRow(row: int)
    requires row >= -1
    ensures DecodeRow(EncodeRow(row)) == row
  {
    DigitsRoundTrip(row + 1);
  }

  lemma EncodeDecodeRow(s: string)
    requires CanonicalDigits(s)
    ensures DecodeRow(s) >= -1 && EncodeRow(DecodeRow(s)) == s
  {
    DigitsInverse(s);
  }

  // ---------------------------------------------------------------------
  // Cell references

  /** The longest leading run of `A`-`Z`: group 1 of `/([A-Z]*)(\d*)/`. */
  function LeadingUpper(s: string): (p: string)
    ensures |p| <= |s| && p == s[..|p|] && AllUpper(p)
    ensures |p| < |s| ==> !IsUpper(s[|p|])
    decreases |s|
  {
    if s != [] && IsUpper(s[0]) then [s[0]] + LeadingUpper(s[1..]) else []
  }

  /** The longest leading run of digits: group 2 of the same pattern. */
  function LeadingDigits(s: string): (p: string)
    ensures |p| <= |s| && p == s[..|p|] && AllDigits(p)
    ensures |p| < |s| ==> !IsDigit(s[|p|])
    decreases |s|
  {
    if s != [] && IsDigit(s[0]) then [s[0]] + LeadingDigits(s[1..]) else []
  }

  function ColPart(ref: string): string { LeadingUpper(ref) }

  function RowPart(ref: string): string { LeadingDigits(ref[|LeadingUpper(ref)|..]) }

  /** The reference has row digits, so `parseInt` does not give NaN. */
  predicate HasRow(ref: string) { RowPart(ref) != [] }

  /** A reference exactly as `getCellRef` writes one: letters, then canonical digits. */
  predicate CanonicalRef(ref: string) {
    CanonicalDigits(ref[|LeadingUpper(ref)|..])
  }

  /** The zero-based range on which `getCellRef` terminates and round-trips. */
  predicate ValidAddress(a: CellAddress) { a.c >= -1 && a.r >= -1 }

  function GetCellAddress(ref: string): (a: CellAddress)
    requires HasRow(ref)
    ensures ValidAddress(a)
  {
    LettersValueNonNegative(ColPart(ref));
    DigitsValueBounds(RowPart(ref));
    CellAddress(DecodeCol(ColPart(ref)), DecodeRow(RowPart(ref)))
  }

  function GetCellRef(a: CellAddress): (ref: string)
    requires ValidAddress(a)
  {
    ColLetters(a.c) + EncodeRow(a.r)
  }

  lemma LeadingUpperOfConcat(x: string, y: string)
    requires AllUpper(x) && (y == [] || !IsUpper(y[0]))
    ensures LeadingUpper(x + y) == x
    decreases |x|
  {
    if x != [] {
      assert (x + y)[1..] == x[1..] + y;
      LeadingUpperOfConcat(x[1..], y);
    }
  }

  lemma LeadingDigitsOfAll(y: string)
    requires AllDigits(y)
    ensures LeadingDigits(y) == y
    decreases |y|
  {
    if y != [] {
      LeadingDigitsOfAll(y[1..]);
    }
  }

  lemma RefParts(a: CellAddress)
    requires ValidAddress(a)
    ensures LeadingUpper(GetCellRef(a)) == ColLetters(a.c)
    ensures GetCellRef(a)[|ColLetters(a.c)|..] == EncodeRow(a.r)
    ensures RowPart(GetCellRef(a)) == EncodeRow(a.r)
  {
    var x, y := ColLetters(a.c), EncodeRow(a.r);
    LeadingUpperOfConcat(x, y);
    assert (x + y)[|x|..] == y;
    LeadingDigitsOfAll(y);
  }

  /** `getCellAddress(getCellRef(a)) == a`. */
  lemma {:induction false} AddressRoundTrip(a: CellAddress)
    requires ValidAddress(a)
    ensures HasRow(GetCellRef(a)) && CanonicalRef(GetCellRef(a))
    ensures GetCellAddress(GetCellRef(a)) == a
  {
    RefParts(a);
    DecodeEncodeCol(a.c);
    DecodeEncodeRow(a.r);
  }

  /** `getCellRef(getCellAddress(ref)) == ref` for a canonical reference. */
  lemma {:induction false} RefRoundTrip(ref: string)
    requires CanonicalRef(ref)
    ensures HasRow(ref) && GetCellRef(GetCellAddress(ref)) == ref
  {
    var x := LeadingUpper(ref);
    var y := ref[|x|..];
    LeadingDigitsOfAll(y);
    EncodeDecodeCol(x);
    EncodeDecodeRow(y);
    assert ref == x + y;
  }

  /** Distinct addresses have distinct references. */
  lemma RefInjective(a: CellAddress, b: CellAddress)
    requires ValidAddress(a) && ValidAddress(b)
    ensures GetCellRef(a) == GetCellRef(b) <==> a == b
  {
    AddressRoundTrip(a);
    AddressRoundTrip(b);
  }

  /** `getCellRel`: the reference `a` away from `ref`. */
  function GetCellRel(a: CellAddress, ref: string): string
    requires HasRow(ref) && ValidAddress(AddAddress(GetCellAddress(ref), a))
  {
    GetCellRef(AddAddress(GetCellAddress(ref), a))
  }

  /** `getCellOffset`: the reference `k` steps along `d` from `ref`. */
  function GetCellOffset(k: int, d: Direction, ref: string): (r: string)
    requires HasRow(ref) && ValidAddress(AddAddress(GetCellAddress(ref), RelAddress(k, d)))
    ensures HasRow(r)
    ensures GetCellAddress(r) == AddAddress(GetCellAddress(ref), RelAddress(k, d))
  {
    AddressRoundTrip(AddAddress(GetCellAddress(ref), RelAddress(k, d)));
    GetCellRel(RelAddress(k, d), ref)
  }

  lemma OffsetZero(d: Direction, ref: string)
    requires CanonicalRef(ref)
    ensures HasRow(ref) && GetCellOffset(0, d, ref) == ref
  {
    RefRoundTrip(ref);
    assert AddAddress(GetCellAddress(ref), RelAddress(0, d)) == GetCellAddress(ref);
  }

  // ---------------------------------------------------------------------
  // Range references

  /** `s.split(':')`. */
  function Split(s: string): (parts: seq<string>)
    ensures |parts| >= 1
    decreases |s|
  {
    if s == [] then [""]
    else if s[0] == ':' then [""] + Split(s[1..])
    else
      var t := Split(s[1..]);
      [[s[0]] + t[0]] + t[1..]
  }

  predicate NoColon(s: string) { forall i :: 0 <= i < |s| ==> s[i] != ':' }

  lemma SplitNoColon(x: string, rest: string)
    requires NoColon(x)
    ensures Split(x + rest) == [x + Split(rest)[0]] + Split(rest)[1..]
    decreases |x|
  {
    var t := Split(rest);
    if x == [] {
      assert x + rest == rest;
      assert x + t[0] == t[0];
      assert t == [t[0]] + t[1..];
    } else {
      var xr := x + rest;
      assert xr[0] == x[0] && xr[1..] == x[1..] + rest;
      SplitNoColon(x[1..], rest);
      var u := Split(xr[1..]);
      assert u == [x[1..] + t[0]] + t[1..];
      assert Split(xr) == [[x[0]] + u[0]] + u[1..];
      assert [x[0]] + (x[1..] + t[0]) == x + t[0];
    }
  }

  lemma SplitPair(x: string, y: string)
    requires NoColon(x) && NoColon(y)
    ensures Split(x + ":" + y) == [x, y]
  {
    SplitNoColon(y, "");
    assert y + "" == y;
    assert Split(y) == [y];
    var cy := ":" + y;
    assert cy[0] == ':' && cy[1..] == y;
    assert Split(cy) == [""] + [y];
    SplitNoColon(x, cy);
    assert x + ":" + y == x + cy;
    assert x + "" == x;
  }

  /** `splitRange`: the first two pieces between colons. */
  function SplitRange(ref: string): (parts: seq<string>)
    ensures 1 <= |parts| <= 2
  {
    var p := Split(ref);
    if |p| >= 2 then p[..2] else p
  }

  predicate IsRangeRef(ref: string) {
    var p := SplitRange(ref);
    |p| == 2 && HasRow(p[0]) && HasRow(p[1])
  }

  function GetRangeAddress(ref: string): (ra: RangeAddress)
    requires IsRangeRef(ref)
    ensures ValidAddress(ra.near) && ValidAddress(ra.far)
  {
    var p := SplitRange(ref);
    RangeAddress(GetCellAddress(p[0]), GetCellAddress(p[1]))
  }

  predicate ValidRange(ra: RangeAddress) { ValidAddress(ra.near) && ValidAddress(ra.far) }

  function GetRangeRef(ra: RangeAddress): string
    requires ValidRange(ra)
  {
    GetCellRef(ra.near) + ":" + GetCellRef(ra.far)
  }

  lemma RefNoColon(a: CellAddress)
    requires ValidAddress(a)
    ensures NoColon(GetCellRef(a))
  {
    var s := GetCellRef(a);
    forall i | 0 <= i < |s| ensures s[i] != ':' {
      var x := ColLetters(a.c);
      if i < |x| { assert s[i] == x[i]; } else { assert s[i] == EncodeRow(a.r)[i - |x|]; }
    }
  }

  /** `getRangeAddress(getRangeRef(ra)) == ra`. */
  lemma {:induction false} RangeRoundTrip(ra: RangeAddress)
    requires ValidRange(ra)
    ensures IsRangeRef(GetRangeRef(ra)) && GetRangeAddress(GetRangeRef(ra)) == ra
  {
    RefNoColon(ra.near);
    RefNoColon(ra.far);
    SplitPair(GetCellRef(ra.near), GetCellRef(ra.far));
    AddressRoundTrip(ra.near);
    AddressRoundTrip(ra.far);
  }

  /** The span of a range along `d`, both ends included. */
  function Dim(ra: RangeAddress, d: Direction): int {
    1 + Get(ra.far, d) - Get(ra.near, d)
  }

  /** `getRangeDim` on the range text. */
  function GetRangeDim(ref: string, d: Direction): int
    requires IsRangeRef(ref)
  {
    Dim(GetRangeAddress(ref), d)
  }

  /** A single-cell range `X:X` has span 1 on both axes. */
  lemma {:induction false} SingleCellDim(x: string, d: Direction)
    requires HasRow(x) && NoColon(x)
    ensures IsRangeRef(x + ":" + x) && GetRangeDim(x + ":" + x, d) == 1
  {
    SplitPair(x, x);
  }

  /** Inclusive containment of an address; a negative near bound leaves that
      axis unconstrained. */
  predicate InRangeAddr(ra: RangeAddress, a: CellAddress) {
    (ra.near.c < 0 || (ra.near.c <= a.c && a.c <= ra.far.c)) &&
    (ra.near.r < 0 || (ra.near.r <= a.r && a.r <= ra.far.r))
  }

  /** `inRange(range)(ref)`. */
  predicate InRange(range: string, ref: string)
    requires IsRangeRef(range) && HasRow(ref)
  {
    InRangeAddr(GetRangeAddress(range), GetCellAddress(ref))
  }

  /** Cells of columns `c0 .. c - 1` by rows `r0 .. r1 - 1`, column by column. */
  function Columns(c0: int, c: int, r0: int, r1: int): seq<CellAddress>
    decreases c - c0
  {
    if c <= c0 then [] else Columns(c0, c - 1, r0, r1) + Column(c - 1, r0, r1)
  }

  /** Cells `(c, r0) .. (c, r - 1)`. */
  function Column(c: int, r0: int, r: int): seq<CellAddress>
    decreases r - r0
  {
    if r <= r0 then [] else Column(c, r0, r - 1) + [CellAddress(c, r - 1)]
  }

  /** The cells of a range in the order `getRangeCells` lists them. */
  function RangeCells(ra: RangeAddress): seq<CellAddress> {
    Columns(ra.near.c, ra.far.c + 1, ra.near.r, ra.far.r + 1)
  }

  function Width(ra: RangeAddress): nat {
    if ra.far.c < ra.near.c then 0 else ra.far.c - ra.near.c + 1
  }

  function Height(ra: RangeAddress): nat {
    if ra.far.r < ra.near.r then 0 else ra.far.r - ra.near.r + 1
  }

  lemma {:induction false} ColumnFacts(c: int, r0: int, r: int)
    ensures |Column(c, r0, r)| == if r <= r0 then 0 else r - r0
    ensures forall x :: x in Column(c, r0, r) <==> x.c == c && r0 <= x.r < r
    decreases r - r0
  {
    if r > r0 {
      ColumnFacts(c, r0, r - 1);
    }
  }

  /** One more column of `h` cells. */
  lemma OneMoreColumn(w: int, h: int, v: int)
    requires v == w + 1
    ensures w * h + h == v * h
  {
  }

  /** Columns `c0 .. c - 1` of rows `r0 .. r1 - 1` hold width times height cells. */
  lemma {:induction false} ColumnsLength(c0: int, c: int, r0: int, r1: int)
    ensures |Columns(c0, c, r0, r1)| == (if c <= c0 then 0 else c - c0) * (if r1 <= r0 then 0 else r1 - r0)
    decreases c - c0
  {
    if c > c0 {
      ColumnFacts(c - 1, r0, r1);
      ColumnsLength(c0, c - 1, r0, r1);
      var h := if r1 <= r0 then 0 else r1 - r0;
      var w := if c - 1 <= c0 then 0 else c - 1 - c0;
      assert |Columns(c0, c, r0, r1)| == w * h + h;
      OneMoreColumn(w, h, c - c0);
    }
  }

  /** Columns `c0 .. c - 1` of rows `r0 .. r1 - 1` hold exactly the cells inside those bounds. */
  lemma {:induction false} ColumnsMembers(c0: int, c: int, r0: int, r1: int)
    ensures forall x :: x in Columns(c0, c, r0, r1) <==> c0 <= x.c < c && r0 <= x.r < r1
    decreases c - c0
  {
    if c > c0 {
      ColumnFacts(c - 1, r0, r1);
      ColumnsMembers(c0, c - 1, r0, r1);
    }
  }

  lemma ColumnsFacts(c0: int, c: int, r0: int, r1: int)
    ensures |Columns(c0, c, r0, r1)| == (if c <= c0 then 0 else c - c0) * (if r1 <= r0 then 0 else r1 - r0)
    ensures forall x :: x in Columns(c0, c, r0, r1) <==> c0 <= x.c < c && r0 <= x.r < r1
  {
    ColumnsLength(c0, c, r0, r1);
    ColumnsMembers(c0, c, r0, r1);
  }

  /** The cells of a range are exactly the addresses inside its corners, and
      there are width times height of them. */
  lemma RangeCellsFacts(ra: RangeAddress)
    ensures |RangeCells(ra)| == Width(ra) * Height(ra)
    ensures forall x :: x in RangeCells(ra) <==>
      ra.near.c <= x.c <= ra.far.c && ra.near.r <= x.r <= ra.far.r
  {
    ColumnsFacts(ra.near.c, ra.far.c + 1, ra.near.r, ra.far.r + 1);
    assert Width(ra) == if ra.far.c + 1 <= ra.near.c then 0 else ra.far.c + 1 - ra.near.c;
    assert Height(ra) == if ra.far.r + 1 <= ra.near.r then 0 else ra.far.r + 1 - ra.near.r;
  }

  /** Every listed cell is `inRange` of its range. */
  lemma RangeCellsInRange(ra: RangeAddress)
    ensures forall x :: x in RangeCells(ra) ==> InRangeAddr(ra, x)
  {
    RangeCellsFacts(ra);
  }

  /** The inner loop of `getRangeCells`: the references of column `c` from
      row `r0` to row `last`, in order. */
  method ColumnCells(c: int, r0: int, last: int) returns (line: seq<string>)
    requires c >= -1 && r0 >= -1
    ensures RefsOf(line, Column(c, r0, last + 1))
  {
    line := [];
    ghost var addrs: seq<CellAddress> := [];
    var r := r0;
    while r <= last
      invariant r == r0 || r0 < r <= last + 1
      invariant addrs == Column(c, r0, r)
      invariant |line| == |addrs|
      invariant forall k :: 0 <= k < |addrs| ==>
        addrs[k].c == c && addrs[k].r >= r0 && line[k] == GetCellRef(addrs[k])
    {
      line := line + [GetCellRef(CellAddress(c, r))];
      addrs := addrs + [CellAddress(c, r)];
      r := r + 1;
    }
    assert addrs == Column(c, r0, last + 1) by {
      if r == r0 && last + 1 < r { assert Column(c, r0, last + 1) == []; }
    }
  }

  /** `cells` are the references of the valid addresses `addrs`, in order. */
  predicate RefsOf(cells: seq<string>, addrs: seq<CellAddress>) {
    |cells| == |addrs| && forall k :: 0 <= k < |addrs| ==> ValidAddress(addrs[k]) && cells[k] == GetCellRef(addrs[k])
  }

  lemma RefsOfConcat(cells: seq<string>, addrs: seq<CellAddress>, more: seq<string>, next: seq<CellAddress>)
    requires RefsOf(cells, addrs) && RefsOf(more, next)
    ensures RefsOf(cells + more, addrs + next)
  {
    var all, done := cells + more, addrs + next;
    forall k | 0 <= k < |done| ensures ValidAddress(done[k]) && all[k] == GetCellRef(done[k]) {
      if k < |addrs| {
        assert done[k] == addrs[k] && all[k] == cells[k];
      } else {
        assert done[k] == next[k - |addrs|] && all[k] == more[k - |addrs|];
      }
    }
  }

  /** `getRangeCells`: every cell reference of the range, column by column. */
  method GetRangeCells(range: string) returns (cells: seq<string>)
    requires IsRangeRef(range)
    ensures |cells| == |RangeCells(GetRangeAddress(range))|
    ensures |cells| == Width(GetRangeAddress(range)) * Height(GetRangeAddress(range))
    ensures forall k :: 0 <= k < |cells| ==>
      ValidAddress(RangeCells(GetRangeAddress(range))[k]) &&
      cells[k] == GetCellRef(RangeCells(GetRangeAddress(range))[k])
  {
    var a := GetRangeAddress(range);
    cells := [];
    ghost var done: seq<CellAddress> := [];
    var c := a.near.c;
    while c <= a.far.c
      invariant c == a.near.c || a.near.c < c <= a.far.c + 1
      invariant done == Columns(a.near.c, c, a.near.r, a.far.r + 1)
      invariant RefsOf(cells, done)
    {
      var line := ColumnCells(c, a.near.r, a.far.r);
      ghost var col := Column(c, a.near.r, a.far.r + 1);
      RefsOfConcat(cells, done, line, col);
      cells := cells + line;
      done := done + col;
      c := c + 1;
    }
    assert done == RangeCells(a) by {
      if c == a.near.c && a.far.c + 1 < c { assert RangeCells(a) == []; }
    }
    RangeCellsFacts(a);
  }

  /** Every reference `getRangeCells` lists is `inRange` of the range. */
  lemma {:induction false} GetRangeCellsInRange(range: string, cells: seq<string>)
    requires IsRangeRef(range)
    requires |cells| == |RangeCells(GetRangeAddress(range))|
    requires forall k :: 0 <= k < |cells| ==>
      ValidAddress(RangeCells(GetRangeAddress(range))[k]) &&
      cells[k] == GetCellRef(RangeCells(GetRangeAddress(range))[k])
    ensures forall k :: 0 <= k < |cells| ==> HasRow(cells[k]) && InRange(range, cells[k])
  {
    var a := GetRangeAddress(range);
    RangeCellsInRange(a);
    forall k | 0 <= k < |cells| ensures HasRow(cells[k]) && InRange(range, cells[k]) {
      AddressRoundTrip(RangeCells(a)[k]);
    }
  }

  // ---------------------------------------------------------------------
  // Axis-relative predicates

  /** `cellAtOrAfterDim`: `x` is on `origin`'s line along `d`, at or past it. */
  predicate CellAtOrAfterDim(x: CellAddress, origin: CellAddress, d: Direction) {
    var delta := SubtractAddress(x, origin);
    Get(delta, Other(d)) == 0 && Get(delta, d) >= 0
  }

  lemma CellAtOrAfterDimMeaning(x: CellAddress, origin: CellAddress, d: Direction)
    ensures CellAtOrAfterDim(x, origin, d) <==>
      Get(x, Other(d)) == Get(origin, Other(d)) && Get(x, d) >= Get(origin, d)
    ensures CellAtOrAfterDim(origin, origin, d)
  {
    match d
    case Vertical =>
    case Horizontal =>
  }

  /** `rangeAfterCellDim`: the range starts strictly past the cell along `d`
      and spans the cell's coordinate on the other axis. */
  predicate RangeAfterCellDim(x: CellAddress, ra: RangeAddress, d: Direction) {
    var s := Other(d);
    Get(ra.near, s) <= Get(x, s) && Get(x, s) <= Get(ra.far, s) && Get(ra.near, d) > Get(x, d)
  }

  /** `cellAtOrAfterRangeDim`: the cell lies in the range's span on the other
      axis and at or past the range's start along `d`. */
  predicate CellAtOrAfterRangeDim(x: CellAddress, ra: RangeAddress, d: Direction) {
    var s := Other(d);
    Get(ra.near, s) <= Get(x, s) && Get(x, s) <= Get(ra.far, s) && Get(x, d) >= Get(ra.near, d)
  }
}
