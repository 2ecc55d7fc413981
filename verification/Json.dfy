/** JSON as Python's `json` module reads and writes it (RFC 8259, sections 2 to 7):
    values, `json.dumps` with `ensure_ascii=False`, `raw_decode`, and the proof that
    reading undoes writing under every layout. A float is kept as it is written. */
module Json {
  import opened Text

  datatype Json =
    | Null
    | Bool(b: bool)
    | Int(n: int)
    | Float(f: FloatText)
    | Str(s: string)
    | Arr(items: seq<Json>)
    | Obj(members: seq<Member>)

  datatype Member = Member(key: string, value: Json)

  /** A float literal, in its parts: `frac` with its point, `exp` with its letter; or one of
      the constants Python reads and writes besides. */
  datatype FloatText =
    | NaN
    | Infinite(negative: bool)
    | Decimal(negative: bool, whole: string, frac: string, exp: string)

  predicate Digits(s: string) { s != "" && forall i :: 0 <= i < |s| ==> IsDigit(s[i]) }

  predicate Whole(s: string) { Digits(s) && (s[0] == '0' ==> |s| == 1) }

  predicate Frac(s: string) { s == "" || (s[0] == '.' && Digits(s[1..])) }

  predicate Exp(s: string) {
    || s == ""
    || (s[0] in "eE" && Digits(s[1..]))
    || (s[0] in "eE" && |s| > 1 && s[1] in "+-" && Digits(s[2..]))
  }

  predicate ValidFloat(f: FloatText) {
    f.Decimal? ==> Whole(f.whole) && Frac(f.frac) && Exp(f.exp) && (f.frac != "" || f.exp != "")
  }

  /** A Python dict has each key once. */
  predicate DistinctKeys(ms: seq<Member>) {
    forall i, j :: 0 <= i < j < |ms| ==> ms[i].key != ms[j].key
  }

  predicate WellFormed(v: Json) {
    match v
    case Arr(items) => forall x | x in items :: WellFormed(x)
    case Obj(ms) => DistinctKeys(ms) && forall m | m in ms :: WellFormed(m.value)
    case Float(f) => ValidFloat(f)
    case _ => true
  }

  /** `d.get(key)` */
  function Get(ms: seq<Member>, key: string): (r: Option<Json>)
    ensures r.Some? ==> Member(key, r.value) in ms
    ensures r.None? <==> forall m :: m in ms ==> m.key != key
  {
    if ms == [] then None
    else if ms[0].key == key then Some(ms[0].value)
    else
      assert forall m :: m in ms <==> m == ms[0] || m in ms[1..];
      Get(ms[1..], key)
  }

  // ----- writing

  /** `separators` and `indent` of `json.dumps`. */
  datatype Style = Style(item: string, colon: string, indent: Option<nat>)

  const COMPACT := Style(",", ":", None)
  const INDENTED := Style(",", ": ", Some(2))

  predicate IsJsonSpace(c: char) { c == ' ' || c == '\t' || c == '\n' || c == '\r' }

  ghost predicate ValidStyle(st: Style) {
    && st.item != "" && st.item[0] == ',' && All(IsJsonSpace, st.item[1..])
    && st.colon != "" && st.colon[0] == ':' && All(IsJsonSpace, st.colon[1..])
  }

  function HexChar(d: nat): char
    requires d < 16
  {
    if d < 10 then DigitChar(d) else (87 + d) as char
  }

  function EscapeChar(c: char): string {
    if c == '"' then "\\\""
    else if c == '\\' then "\\\\"
    else if c == '\n' then "\\n"
    else if c == '\r' then "\\r"
    else if c == '\t' then "\\t"
    else if c == '\U{c}' then "\\f"
    else if c == '\U{8}' then "\\b"
    else if c < ' ' then ['\\', 'u', '0', '0', HexChar(c as int / 16), HexChar(c as int % 16)]
    else [c]
  }

  function Escape(s: string): string {
    if s == "" then "" else EscapeChar(s[0]) + Escape(s[1..])
  }

  function Quote(s: string): string { "\"" + Escape(s) + "\"" }

  /** The line break and indentation put at nesting depth d. */
  function Gap(st: Style, d: nat): (s: string)
    ensures All(IsJsonSpace, s)
  {
    if st.indent.None? then "" else "\n" + Repeat(' ', st.indent.value * d)
  }

  function PrintInt(n: int): string {
    if n < 0 then "-" + Numeral(-n) else Numeral(n)
  }

  function Sign(negative: bool): string { if negative then "-" else "" }

  function PrintFloat(f: FloatText): string {
    match f
    case NaN => "NaN"
    case Infinite(negative) => Sign(negative) + "Infinity"
    case Decimal(negative, whole, frac, exp) => Sign(negative) + (whole + (frac + exp))
  }

  function Print(v: Json, st: Style, d: nat): string
    decreases v
  {
    match v
    case Null => "null"
    case Bool(b) => if b then "true" else "false"
    case Int(n) => PrintInt(n)
    case Float(f) => PrintFloat(f)
    case Str(s) => Quote(s)
    case Arr(items) =>
      if items == [] then "[]"
      else "[" + Gap(st, d + 1) + PrintItems(items, st, d + 1) + Gap(st, d) + "]"
    case Obj(ms) =>
      if ms == [] then "{}"
      else "{" + Gap(st, d + 1) + PrintMembers(ms, st, d + 1) + Gap(st, d) + "}"
  }

  function PrintItems(items: seq<Json>, st: Style, d: nat): string
    requires items != []
    decreases items
  {
    if |items| == 1 then Print(items[0], st, d)
    else Print(items[0], st, d) + (st.item + Gap(st, d)) + PrintItems(items[1..], st, d)
  }

  function PrintMember(m: Member, st: Style, d: nat): string
    decreases m
  {
    Quote(m.key) + st.colon + Print(m.value, st, d)
  }

  function PrintMembers(ms: seq<Member>, st: Style, d: nat): string
    requires ms != []
    decreases ms
  {
    if |ms| == 1 then PrintMember(ms[0], st, d)
    else PrintMember(ms[0], st, d) + (st.item + Gap(st, d)) + PrintMembers(ms[1..], st, d)
  }

  // ----- reading

  function SkipSpace(s: string): (r: string)
    ensures |r| <= |s|
  {
    s[Span(IsJsonSpace, s)..]
  }

  function HexValue(c: char): (r: Option<nat>)
    ensures r.Some? ==> r.value < 16
  {
    if IsDigit(c) then Some(DigitValue(c))
    else if 'a' <= c <= 'f' then Some(c as int - 87)
    else if 'A' <= c <= 'F' then Some(c as int - 55)
    else None
  }

  /** The four hexadecimal digits of a `\u` escape. */
  function HexFour(s: string): (r: Option<nat>)
    ensures r.Some? ==> |s| >= 4 && r.value < 0x10000
  {
    if |s| < 4 then None
    else
      var a :- HexValue(s[0]);
      var b :- HexValue(s[1]);
      var c :- HexValue(s[2]);
      var d :- HexValue(s[3]);
      Some(4096 * a + 256 * b + 16 * c + d)
  }

  /** The character named by the text after a backslash, and what follows it.
      A surrogate pair is one character; a lone surrogate has no Dafny `char`. */
  function Unescape(s: string): (r: Option<(char, string)>)
    ensures r.Some? ==> |r.value.1| < |s|
  {
    if s == "" then None
    else match s[0]
      case '"' => Some(('"', s[1..]))
      case '\\' => Some(('\\', s[1..]))
      case '/' => Some(('/', s[1..]))
      case 'b' => Some(('\U{8}', s[1..]))
      case 'f' => Some(('\U{c}', s[1..]))
      case 'n' => Some(('\n', s[1..]))
      case 'r' => Some(('\r', s[1..]))
      case 't' => Some(('\t', s[1..]))
      case 'u' =>
        var hi :- HexFour(s[1..]);
        if hi < 0xD800 || 0xE000 <= hi then Some((hi as char, s[5..]))
        else if hi < 0xDC00 && |s| >= 7 && s[5] == '\\' && s[6] == 'u' then
          var lo :- HexFour(s[7..]);
          if 0xDC00 <= lo < 0xE000
          then Some(((0x10000 + 0x400 * (hi - 0xD800) + (lo - 0xDC00)) as char, s[11..]))
          else None
        else None
      case _ => None
  }

  /** The string whose text starts just after its opening quote, and what follows it. */
  function ScanString(s: string): (r: Option<(string, string)>)
    ensures r.Some? ==> |r.value.1| < |s|
    decreases |s|
  {
    if s == "" then None
    else if s[0] == '"' then Some(("", s[1..]))
    else if s[0] == '\\' then
      var (c, t) :- Unescape(s[1..]);
      var (str, rest) :- ScanString(t);
      Some(([c] + str, rest))
    else if s[0] < ' ' then None
    else
      var (str, rest) :- ScanString(s[1..]);
      Some(([s[0]] + str, rest))
  }

  /** Length of the longest `(\.\d+)?` at the start of s. */
  function FracLength(s: string): (n: nat)
    ensures n <= |s| && Frac(s[..n])
  {
    if |s| >= 2 && s[0] == '.' && IsDigit(s[1]) then
      var n := Span(IsDigit, s[1..]);
      assert s[..1 + n][1..] == s[1..][..n];
      1 + n
    else 0
  }

  /** Length of the longest `([eE][-+]?\d+)?` at the start of s. */
  function ExpLength(s: string): (n: nat)
    ensures n <= |s| && Exp(s[..n])
  {
    if s == "" || s[0] !in "eE" then 0
    else
      var k := if |s| >= 2 && s[1] in "+-" then 2 else 1;
      var n := Span(IsDigit, s[k..]);
      assert s[..k + n][k..] == s[k..][..n];
      if n == 0 then 0 else k + n
  }

  /** Length of the whole part of a number that starts with a digit. */
  function WholeLength(t: string): (n: nat)
    requires t != "" && IsDigit(t[0])
    ensures 0 < n <= |t| && Whole(t[..n])
  {
    if t[0] == '0' then 1 else Span(IsDigit, t)
  }

  /** A number after its sign. */
  function DecodeUnsigned(negative: bool, t: string): (r: Option<(Json, string)>)
    ensures r.Some? ==> |r.value.1| < |t|
  {
    if t == "" || !IsDigit(t[0]) then None
    else
      var n := WholeLength(t);
      var u := t[n..];
      var f := FracLength(u);
      var e := ExpLength(u[f..]);
      if f == 0 && e == 0 then
        var m: int := NumeralValue(t[..n]);
        Some((Int(if negative then -m else m), u))
      else Some((Float(Decimal(negative, t[..n], u[..f], u[f..][..e])), u[f..][e..]))
  }

  function DecodeNumber(s: string): (r: Option<(Json, string)>)
    ensures r.Some? ==> |r.value.1| < |s|
  {
    if s == "" || s[0] != '-' then DecodeUnsigned(false, s)
    else if "Infinity" <= s[1..] then Some((Float(Infinite(true)), s[9..]))
    else DecodeUnsigned(true, s[1..])
  }

  /** `dict[key] = value`: a repeated key keeps its place and takes the new value. */
  function Put(ms: seq<Member>, key: string, value: Json): seq<Member> {
    if ms == [] then [Member(key, value)]
    else if ms[0].key == key then [Member(key, value)] + ms[1..]
    else [ms[0]] + Put(ms[1..], key, value)
  }

  /** `JSONDecoder.raw_decode` on the text s: the value at its start and the unread rest. */
  function DecodeValue(s: string): (r: Option<(Json, string)>)
    ensures r.Some? ==> |r.value.1| < |s|
    decreases |s|, 2
  {
    if s == "" then None
    else match s[0]
      case '"' =>
        var (str, rest) :- ScanString(s[1..]);
        Some((Str(str), rest))
      case '[' =>
        var t := SkipSpace(s[1..]);
        if t != "" && t[0] == ']' then Some((Arr([]), t[1..]))
        else
          var (items, rest) :- DecodeItems(t);
          Some((Arr(items), rest))
      case '{' =>
        var t := SkipSpace(s[1..]);
        if t != "" && t[0] == '}' then Some((Obj([]), t[1..]))
        else
          var (ms, rest) :- DecodeMembers(t, []);
          Some((Obj(ms), rest))
      case 'n' => if "null" <= s then Some((Null, s[4..])) else None
      case 't' => if "true" <= s then Some((Bool(true), s[4..])) else None
      case 'f' => if "false" <= s then Some((Bool(false), s[5..])) else None
      case 'N' => if "NaN" <= s then Some((Float(NaN), s[3..])) else None
      case 'I' => if "Infinity" <= s then Some((Float(Infinite(false)), s[8..])) else None
      case _ => DecodeNumber(s)
  }

  function DecodeItems(s: string): (r: Option<(seq<Json>, string)>)
    ensures r.Some? ==> |r.value.1| < |s|
    decreases |s|, 3
  {
    var (v, rest) :- DecodeValue(s);
    var t := SkipSpace(rest);
    if t == "" then None
    else if t[0] == ']' then Some(([v], t[1..]))
    else if t[0] == ',' then
      var (vs, end) :- DecodeItems(SkipSpace(t[1..]));
      Some(([v] + vs, end))
    else None
  }

  /** A key, a colon and a value. */
  function DecodeMember(s: string): (r: Option<(Member, string)>)
    ensures r.Some? ==> |r.value.1| < |s|
    decreases |s|, 3
  {
    if s == "" || s[0] != '"' then None
    else
      var (key, afterKey) :- ScanString(s[1..]);
      var t := SkipSpace(afterKey);
      if t == "" || t[0] != ':' then None
      else
        var (v, rest) :- DecodeValue(SkipSpace(t[1..]));
        Some((Member(key, v), rest))
  }

  function DecodeMembers(s: string, acc: seq<Member>): (r: Option<(seq<Member>, string)>)
    ensures r.Some? ==> |r.value.1| < |s|
    decreases |s|, 4
  {
    var (m, rest) :- DecodeMember(s);
    var t := SkipSpace(rest);
    if t == "" then None
    else if t[0] == '}' then Some((Put(acc, m.key, m.value), t[1..]))
    else if t[0] == ',' then DecodeMembers(SkipSpace(t[1..]), Put(acc, m.key, m.value))
    else None
  }

  /** `json.loads`: one value, with JSON whitespace around it and nothing else. */
  function Loads(s: string): Option<Json> {
    var (v, rest) :- DecodeValue(SkipSpace(s));
    if SkipSpace(rest) == "" then Some(v) else None
  }
}
