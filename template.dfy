/** The kind constants and the data values a template is evaluated to. */
module Kinds {
  import opened Address

  /** `TYPE_SCALAR`, `TYPE_COLUMN`, `TYPE_ROW`, `TYPE_CELL`, `TYPE_RANGE`. */
  datatype Kind = ScalarKind | ColumnKind | RowKind | CellKind | RangeKind

  /** A data value as the expression evaluator returns it. */
  datatype Json =
    | JNull
    | JBool(b: bool)
    | JNum(n: int)
    | JStr(s: string)
    | JArray(items: seq<Json>)
    | JObject(fields: map<string, Json>)

  /** JavaScript truthiness (`!value` is false). Arrays and objects are
      truthy even when empty. */
  predicate Truthy(v: Json) {
    match v
    case JNull => false
    case JBool(b) => b
    case JNum(n) => n != 0
    case JStr(s) => s != ""
    case JArray(_) => true
    case JObject(_) => true
  }

  /** `String(v)`, the text `toString` gives: arrays join their elements'
      texts with commas, writing null elements as empty text. */
  function ToText(v: Json): string
    decreases v
  {
    match v
    case JNull => "null"
    case JBool(b) => if b then "true" else "false"
    case JNum(n) => if n < 0 then "-" + NatDigits(-n) else NatDigits(n)
    case JStr(s) => s
    case JArray(items) =>
      Join(seq(|items|, i requires 0 <= i < |items| => if items[i].JNull? then "" else ToText(items[i])))
    case JObject(_) => "[object Object]"
  }

  function Join(texts: seq<string>): string
    decreases |texts|
  {
    if texts == [] then ""
    else if |texts| == 1 then texts[0]
    else Join(texts[..|texts| - 1]) + "," + texts[|texts| - 1]
  }

  datatype Option<T> = None | Some(value: T)
}

/** The template string helpers: the marker prefixes `${`, `|{`, `_{`, the
    marker regex `^[$|_]\{(.*?)\}$`, and the range-template formula
    `^IFERROR\(N\((.+)?\),\s*"(.*?)"\)$` (case-insensitive), written as
    explicit parsers. */
module Template {
  import opened Kinds

  /** `contains`: `arr.indexOf(value) !== -1`. */
  function IndexOf<T(==)>(arr: seq<T>, v: T): (i: int)
    ensures -1 <= i < |arr|
    ensures i >= 0 ==> arr[i] == v && v !in arr[..i]
    ensures i == -1 ==> v !in arr
  {
    if arr == [] then -1
    else if arr[0] == v then 0
    else
      var j := IndexOf(arr[1..], v);
      assert j >= 0 ==> arr[..j + 1] == [arr[0]] + arr[1..][..j];
      if j == -1 then -1 else j + 1
  }

  predicate Contains<T(==)>(arr: seq<T>, v: T) {
    IndexOf(arr, v) != -1
  }

  lemma ContainsMeaning<T>(arr: seq<T>, v: T)
    ensures Contains(arr, v) <==> v in arr
  {
  }

  /** `not(predicate)`. */
  function Not<T(!new)>(p: T -> bool): (q: T -> bool)
    ensures forall v :: q(v) == !p(v)
  {
    v => !p(v)
  }

  /** `templateType`: the kind named by the first two characters. */
  function TemplateType(str: string): (k: Option<Kind>)
    ensures k.Some? ==> |str| >= 2 && str[1] == '{'
    ensures k == Some(ScalarKind) <==> |str| >= 2 && str[..2] == "${"
    ensures k == Some(ColumnKind) <==> |str| >= 2 && str[..2] == "|{"
    ensures k == Some(RowKind) <==> |str| >= 2 && str[..2] == "_{"
    ensures k.Some? ==> k.value in {ScalarKind, ColumnKind, RowKind}
  {
    if str == "" then None
    else
      var prefix := if |str| >= 2 then str[..2] else str;
      if prefix == "${" then Some(ScalarKind)
      else if prefix == "|{" then Some(ColumnKind)
      else if prefix == "_{" then Some(RowKind)
      else None
  }

  /** The characters `.` does not match in a JavaScript regular expression. */
  predicate IsLineTerminator(ch: char) {
    ch == '\n' || ch == '\r' || ch == '\U{2028}' || ch == '\U{2029}'
  }

  predicate NoLineTerminator(s: string) {
    forall i :: 0 <= i < |s| ==> !IsLineTerminator(s[i])
  }

  /** Group 1 of `^[$|_]\{(.*?)\}$`, when the string matches. */
  function MarkerPath(str: string): (p: Option<string>)
    ensures p.Some? ==> |str| >= 3 && str == str[..2] + p.value + "}"
  {
    if |str| >= 3 && str[0] in "$|_" && str[1] == '{' && str[|str| - 1] == '}'
       && NoLineTerminator(str[2..|str| - 1])
    then
      assert str == str[..2] + str[2..|str| - 1] + "}";
      Some(str[2..|str| - 1])
    else None
  }

  datatype Parsed = Parsed(kind: Option<Kind>, path: string)

  /** `parseTemplate`: the kind and the data path of a marker string; the path
      is empty when the string is not of the form prefix-`{`...`}`. */
  function ParseTemplate(str: string): (t: Parsed)
    ensures t.kind == TemplateType(str)
    ensures MarkerPath(str).None? ==> t.path == ""
    ensures MarkerPath(str).Some? ==> t.path == MarkerPath(str).value
  {
    var m := MarkerPath(str);
    Parsed(TemplateType(str), if m.Some? then m.value else "")
  }

  /** A marker built from a prefix and a path parses back to that kind and path. */
  lemma {:induction false} ParseMarker(prefix: string, p: string)
    requires prefix in ["${", "|{", "_{"]
    requires NoLineTerminator(p)
    ensures ParseTemplate(prefix + p + "}").path == p
    ensures ParseTemplate(prefix + p + "}").kind ==
      Some(if prefix == "${" then ScalarKind else if prefix == "|{" then ColumnKind else RowKind)
  {
    var s := prefix + p + "}";
    assert s[..2] == prefix;
    assert s[2..|s| - 1] == p;
  }

  // -------------------------------------------------------------------------
  // The range-template formula

  /** The two capture groups of a successful match; group 1 is optional in the
      pattern (`(.+)?`) and `None` when it did not take part. */
  datatype RangeMatch = RangeMatch(range: Option<string>, template: string)

  const Keyword: string := "IFERROR(N("

  /** ASCII case folding, the only folding `/i` applies to ASCII letters. */
  function Upper(ch: char): char {
    if 'a' <= ch <= 'z' then (ch as int - 32) as char else ch
  }

  predicate SameIgnoringCase(s: string, t: string) {
    |s| == |t| && forall i :: 0 <= i < |s| ==> Upper(s[i]) == Upper(t[i])
  }

  /** `\s` of a JavaScript regular expression. */
  predicate IsSpace(ch: char) {
    ch == '\t' || ch == '\n' || ch == '\U{000B}' || ch == '\U{000C}' || ch == '\r' || ch == ' ' ||
    ch == '\U{00A0}' || ch == '\U{1680}' || ('\U{2000}' <= ch <= '\U{200A}') ||
    ch == '\U{2028}' || ch == '\U{2029}' || ch == '\U{202F}' || ch == '\U{205F}' ||
    ch == '\U{3000}' || ch == '\U{FEFF}'
  }

  function LeadingSpaces(s: string): (w: string)
    ensures |w| <= |s| && w == s[..|w|]
    ensures forall i :: 0 <= i < |w| ==> IsSpace(w[i])
    ensures |w| < |s| ==> !IsSpace(s[|w|])
    decreases |s|
  {
    if s != [] && IsSpace(s[0]) then [s[0]] + LeadingSpaces(s[1..]) else []
  }

  /** The part after group 1, `\),\s*"(.*?)"\)$`, giving group 2. `\s*` can only
      end at the quote, so it takes the whole run of spaces; group 2 runs to
      the closing `")` at the end. */
  function Tail(t: string): (g: Option<string>)
    ensures g.Some? ==> |t| >= 5 && t[..2] == ")," && t[|t| - 2..] == "\")"
  {
    if |t| >= 2 && t[..2] == ")," then
      var u := t[2..];
      var v := u[|LeadingSpaces(u)|..];
      if |v| >= 3 && v[0] == '"' && v[|v| - 2..] == "\")" && NoLineTerminator(v[1..|v| - 2])
      then
        assert t[|t| - 2..] == v[|v| - 2..];
        Some(v[1..|v| - 2])
      else None
    else None
  }

  /** Group 1 may be the first `l` characters of `rest`. */
  predicate Fits(rest: string, l: nat)
    requires l <= |rest|
  {
    NoLineTerminator(rest[..l]) && Tail(rest[l..]).Some?
  }

  /** The length of group 1 as the regex engine chooses it: the longest
      fitting candidate of length at most `len` (greedy), or 0 when none fits
      and `?` leaves the group out. */
  function Group1Length(rest: string, len: nat): (l: nat)
    requires len <= |rest|
    ensures l <= len
    ensures l > 0 ==> Fits(rest, l)
    ensures forall k :: l < k <= len ==> !Fits(rest, k)
    decreases len
  {
    if len == 0 then 0
    else if Fits(rest, len) then len
    else Group1Length(rest, len - 1)
  }

  /** `matchRangeTemplate`: falsy for the empty string, otherwise the groups
      of the case-insensitive formula pattern. */
  function MatchRangeTemplate(str: string): (m: Option<RangeMatch>)
    ensures m.Some? ==> |str| >= |Keyword| && SameIgnoringCase(str[..|Keyword|], Keyword)
  {
    if |str| >= |Keyword| && SameIgnoringCase(str[..|Keyword|], Keyword) then
      var rest := str[|Keyword|..];
      var l := Group1Length(rest, |rest|);
      if l > 0 then Some(RangeMatch(Some(rest[..l]), Tail(rest[l..]).value))
      else if Tail(rest).Some? then Some(RangeMatch(None, Tail(rest).value))
      else None
    else None
  }

  lemma EmptyFormulaDoesNotMatch()
    ensures MatchRangeTemplate("").None?
  {
  }

  /** The formula written for range `r` and template `t` gives back `r` and
      `t`, whatever the case of the keywords. Group 1 is chosen greedily, so
      `t` must not contain a `)` that could end a longer group 1. */
  lemma {:induction false} MatchRangeFormula(kw: string, r: string, t: string)
    requires SameIgnoringCase(kw, Keyword)
    requires r != [] && NoLineTerminator(r)
    requires NoLineTerminator(t) && forall i :: 0 <= i < |t| ==> t[i] != ')'
    ensures MatchRangeTemplate(kw + r + "), \"" + t + "\")") == Some(RangeMatch(Some(r), t))
  {
    var str := kw + r + "), \"" + t + "\")";
    var tail := "), \"" + t + "\")";
    assert str[..|Keyword|] == kw;
    var rest := str[|Keyword|..];
    assert rest == r + tail;
    assert rest[..|r|] == r && rest[|r|..] == tail;
    // group 2 of the tail
    var u := tail[2..];
    assert u == " \"" + t + "\")";
    assert LeadingSpaces(u) == " " by {
      assert IsSpace(u[0]) && !IsSpace(u[1]);
      assert LeadingSpaces(u[1..]) == [];
    }
    var v := u[1..];
    assert v == "\"" + t + "\")";
    assert v[1..|v| - 2] == t;
    assert Tail(tail) == Some(t);
    // no longer group 1 fits: every later start of the tail lacks `),`
    forall l | |r| < l <= |rest| ensures !Fits(rest, l) {
      NoLaterTail(rest, r, t, l);
    }
    GroupLengthIs(rest, |rest|, |r|);
  }

  lemma NoLaterTail(rest: string, r: string, t: string, l: nat)
    requires forall i :: 0 <= i < |t| ==> t[i] != ')'
    requires rest == r + "), \"" + t + "\")"
    requires |r| < l <= |rest|
    ensures Tail(rest[l..]).None?
  {
    var tail := "), \"" + t + "\")";
    var w := rest[l..];
    assert w == tail[l - |r|..];
    if |w| >= 2 {
      var j := l - |r|;
      assert w[0] == tail[j];
      if j == 1 { assert tail[1] == ','; }
      else if j == 2 { assert tail[2] == ' '; }
      else if j == 3 { assert tail[3] == '"'; }
      else if j < 4 + |t| { assert tail[j] == t[j - 4]; }
      else { assert j == 4 + |t|; assert tail[j] == '"'; }
    }
  }

  /** The chosen group 1 is the longest fitting one. */
  lemma {:induction false} GroupLengthIs(rest: string, len: nat, l: nat)
    requires 1 <= l <= len <= |rest|
    requires Fits(rest, l)
    requires forall k :: l < k <= len ==> !Fits(rest, k)
    ensures Group1Length(rest, len) == l
    decreases len
  {
    if len > l {
      GroupLengthIs(rest, len - 1, l);
    }
  }
}
