/** The decoder reads nothing but JSON: every text it accepts is one the grammar of RFC 8259,
    sections 2 to 7, gives for the value it returns (with the constants Python adds). */
module JsonGrammar {
  import opened Text
  import opened Json
  import opened JsonRoundTrip

  // ----- the grammar

  ghost predicate Blank(t: string) { All(IsJsonSpace, t) }

  const LOWER_HEX := "0123456789abcdef"
  const UPPER_HEX := "0123456789ABCDEF"

  ghost predicate IsHexDigit(c: char, d: nat) { d < 16 && (c == LOWER_HEX[d] || c == UPPER_HEX[d]) }

  /** Four hexadecimal digits in either case. */
  ghost predicate IsHex(t: string, n: nat) {
    |t| == 4 && exists a: nat, b: nat, c: nat, d: nat ::
      && IsHexDigit(t[0], a) && IsHexDigit(t[1], b) && IsHexDigit(t[2], c) && IsHexDigit(t[3], d)
      && n == 4096 * a + 256 * b + 16 * c + d
  }

  /** The text after a backslash that stands for c. */
  ghost predicate IsEscape(t: string, c: char) {
    || (t == "\"" && c == '"') || (t == "\\" && c == '\\') || (t == "/" && c == '/')
    || (t == "b" && c == '\U{8}') || (t == "f" && c == '\U{c}') || (t == "n" && c == '\n')
    || (t == "r" && c == '\r') || (t == "t" && c == '\t')
    || (|t| == 5 && t[0] == 'u' && IsHex(t[1..], c as int))
    || (|t| == 11 && t[0] == 'u' && t[5] == '\\' && t[6] == 'u' && IsPair(t[1..5], t[7..], c))
  }

  /** The two halves of a surrogate pair. */
  ghost predicate IsPair(high: string, low: string, c: char) {
    exists hi: nat, lo: nat :: IsHex(high, hi) && IsHex(low, lo) && 0xD800 <= hi < 0xDC00 <= lo < 0xE000
                               && c as int == 0x10000 + 0x400 * (hi - 0xD800) + (lo - 0xDC00)
  }

  ghost predicate IsChar(t: string, c: char) {
    || (t == [c] && c >= ' ' && c != '"' && c != '\\')
    || (t != "" && t[0] == '\\' && IsEscape(t[1..], c))
  }

  ghost predicate IsChars(t: string, s: string)
    decreases |s|
  {
    if s == "" then t == ""
    else exists k :: 0 <= k <= |t| && IsChar(t[..k], s[0]) && IsChars(t[k..], s[1..])
  }

  ghost predicate IsString(t: string, s: string) {
    |t| >= 2 && t[0] == '"' && t[|t| - 1] == '"' && IsChars(t[1..|t| - 1], s)
  }

  ghost predicate IsInt(t: string, n: int) {
    exists negative, whole :: Whole(whole) && t == Sign(negative) + whole
                              && n == if negative then -ValueOf(whole) else ValueOf(whole)
  }

  function ValueOf(whole: string): int
    requires Whole(whole)
  {
    assert All(IsDigit, whole);
    NumeralValue(whole)
  }

  /** t is a text of the value v. */
  ghost predicate IsValue(t: string, v: Json)
    decreases |t|, 0
  {
    match v
    case Null => t == "null"
    case Bool(b) => t == if b then "true" else "false"
    case Int(n) => IsInt(t, n)
    case Float(f) => ValidFloat(f) && t == PrintFloat(f)
    case Str(s) => IsString(t, s)
    case Arr(items) => |t| >= 2 && t[0] == '[' && t[|t| - 1] == ']' && IsItems(t[1..|t| - 1], items)
    case Obj(ms) =>
      && |t| >= 2 && t[0] == '{' && t[|t| - 1] == '}'
      && exists pairs :: IsMembers(t[1..|t| - 1], pairs) && ms == Dict([], pairs)
  }

  /** A value with blanks around it. */
  ghost predicate IsPadded(t: string, v: Json)
    decreases |t|, 1
  {
    exists i, j :: 0 <= i <= j <= |t| && Blank(t[..i]) && IsValue(t[i..j], v) && Blank(t[j..])
  }

  /** Values with blanks around them, separated by commas. */
  ghost predicate IsItems(t: string, items: seq<Json>)
    decreases |t|, 2
  {
    if items == [] then Blank(t)
    else if |items| == 1 then IsPadded(t, items[0])
    else exists k :: 0 <= k < |t| && IsPadded(t[..k], items[0]) && t[k] == ',' && IsItems(t[k + 1..], items[1..])
  }

  ghost predicate IsKey(t: string, key: string) {
    exists i, j :: 0 <= i <= j <= |t| && Blank(t[..i]) && IsString(t[i..j], key) && Blank(t[j..])
  }

  /** A key, a colon and a value, with blanks around each. */
  ghost predicate IsMember(t: string, m: Member)
    decreases |t|, 2
  {
    exists k :: 0 <= k < |t| && IsKey(t[..k], m.key) && t[k] == ':' && IsPadded(t[k + 1..], m.value)
  }

  ghost predicate IsMembers(t: string, pairs: seq<Member>)
    decreases |t|, 3
  {
    if pairs == [] then Blank(t)
    else if |pairs| == 1 then IsMember(t, pairs[0])
    else exists k :: 0 <= k < |t| && IsMember(t[..k], pairs[0]) && t[k] == ',' && IsMembers(t[k + 1..], pairs[1..])
  }

  /** The dict that pairs build from left to right: a repeated key takes its last value. */
  function Dict(acc: seq<Member>, pairs: seq<Member>): seq<Member>
    decreases |pairs|
  {
    if pairs == [] then acc else Dict(Put(acc, pairs[0].key, pairs[0].value), pairs[1..])
  }

  lemma {:induction false} PutSets(ms: seq<Member>, key: string, v: Json, other: string)
    ensures Get(Put(ms, key, v), other) == if other == key then Some(v) else Get(ms, other)
  {
    if ms != [] && ms[0].key != key { PutSets(ms[1..], key, v, other); }
  }

  lemma {:induction false} DictAppend(acc: seq<Member>, pairs: seq<Member>, m: Member)
    ensures Dict(acc, pairs + [m]) == Put(Dict(acc, pairs), m.key, m.value)
    decreases |pairs|
  {
    if pairs == [] {
      assert pairs + [m] == [m] && [m][1..] == [];
    } else {
      assert (pairs + [m])[1..] == pairs[1..] + [m];
      DictAppend(Put(acc, pairs[0].key, pairs[0].value), pairs[1..], m);
    }
  }

  /** One more pair sets its key and no other, whether or not the key was there. */
  lemma {:induction false} LastPairWins(acc: seq<Member>, pairs: seq<Member>, m: Member, other: string)
    ensures Get(Dict(acc, pairs + [m]), other) == if other == m.key then Some(m.value) else Get(Dict(acc, pairs), other)
  {
    hide Put, Get, Dict;
    DictAppend(acc, pairs, m);
    PutSets(Dict(acc, pairs), m.key, m.value, other);
  }

  // ----- putting texts together

  lemma {:induction false} PaddedIs(a: string, x: string, b: string, v: Json)
    requires Blank(a) && IsValue(x, v) && Blank(b)
    ensures IsPadded(a + (x + b), v)
  {
    hide IsValue, Blank;
    var (t, i) := (a + (x + b), |a|);
    var j := i + |x|;
    assert t[..i] == a && t[i..j] == x && t[j..] == b;
  }

  lemma {:induction false} KeyIs(a: string, x: string, b: string, key: string)
    requires Blank(a) && IsString(x, key) && Blank(b)
    ensures IsKey(a + (x + b), key)
  {
    hide IsString, Blank;
    var (t, i) := (a + (x + b), |a|);
    var j := i + |x|;
    assert t[..i] == a && t[i..j] == x && t[j..] == b;
  }

  lemma {:induction false} ItemsMore(p: string, v: Json, more: string, items: seq<Json>)
    requires IsPadded(p, v) && IsItems(more, items) && items != []
    ensures IsItems(p + ("," + more), [v] + items)
  {
    hide IsPadded;
    var (t, k) := (p + ("," + more), |p|);
    assert t[..k] == p && t[k] == ',' && t[k + 1..] == more && ([v] + items)[1..] == items;
  }

  lemma {:induction false} MemberIs(k: string, p: string, m: Member)
    requires IsKey(k, m.key) && IsPadded(p, m.value)
    ensures IsMember(k + (":" + p), m)
  {
    hide IsPadded, IsKey;
    var (t, n) := (k + (":" + p), |k|);
    assert t[..n] == k && t[n] == ':' && t[n + 1..] == p;
  }

  lemma {:induction false} MembersMore(p: string, m: Member, more: string, pairs: seq<Member>)
    requires IsMember(p, m) && IsMembers(more, pairs) && pairs != []
    ensures IsMembers(p + ("," + more), [m] + pairs)
  {
    hide IsMember;
    var (t, k) := (p + ("," + more), |p|);
    assert t[..k] == p && t[k] == ',' && t[k + 1..] == more && ([m] + pairs)[1..] == pairs;
  }

  lemma {:induction false} PaddedBefore(a: string, p: string, v: Json)
    requires Blank(a) && IsPadded(p, v)
    ensures IsPadded(a + p, v)
  {
    hide IsValue;
    var i, j :| 0 <= i <= j <= |p| && Blank(p[..i]) && IsValue(p[i..j], v) && Blank(p[j..]);
    AllAppend(IsJsonSpace, a, p[..i]);
    PaddedIs(a + p[..i], p[i..j], p[j..], v);
    assert a + p == (a + p[..i]) + (p[i..j] + p[j..]);
  }

  lemma {:induction false} KeyBefore(a: string, p: string, key: string)
    requires Blank(a) && IsKey(p, key)
    ensures IsKey(a + p, key)
  {
    hide IsString;
    var i, j :| 0 <= i <= j <= |p| && Blank(p[..i]) && IsString(p[i..j], key) && Blank(p[j..]);
    AllAppend(IsJsonSpace, a, p[..i]);
    KeyIs(a + p[..i], p[i..j], p[j..], key);
    assert a + p == (a + p[..i]) + (p[i..j] + p[j..]);
  }

  lemma {:induction false} ItemsBefore(a: string, t: string, items: seq<Json>)
    requires Blank(a) && IsItems(t, items) && items != []
    ensures IsItems(a + t, items)
  {
    hide IsPadded, Blank;
    if |items| == 1 {
      PaddedBefore(a, t, items[0]);
    } else {
      var k :| 0 <= k < |t| && IsPadded(t[..k], items[0]) && t[k] == ',' && IsItems(t[k + 1..], items[1..]);
      PaddedBefore(a, t[..k], items[0]);
      ItemsMore(a + t[..k], items[0], t[k + 1..], items[1..]);
      assert a + t == (a + t[..k]) + ("," + t[k + 1..]) && [items[0]] + items[1..] == items;
    }
  }

  lemma {:induction false} MemberBefore(a: string, t: string, m: Member)
    requires Blank(a) && IsMember(t, m)
    ensures IsMember(a + t, m)
  {
    hide IsPadded, IsKey, Blank;
    var k :| 0 <= k < |t| && IsKey(t[..k], m.key) && t[k] == ':' && IsPadded(t[k + 1..], m.value);
    KeyBefore(a, t[..k], m.key);
    MemberIs(a + t[..k], t[k + 1..], m);
    assert a + t == (a + t[..k]) + (":" + t[k + 1..]);
  }

  lemma {:induction false} MembersBefore(a: string, t: string, pairs: seq<Member>)
    requires Blank(a) && IsMembers(t, pairs) && pairs != []
    ensures IsMembers(a + t, pairs)
  {
    hide IsMember, Blank;
    if |pairs| == 1 {
      MemberBefore(a, t, pairs[0]);
    } else {
      var k :| 0 <= k < |t| && IsMember(t[..k], pairs[0]) && t[k] == ',' && IsMembers(t[k + 1..], pairs[1..]);
      MemberBefore(a, t[..k], pairs[0]);
      MembersMore(a + t[..k], pairs[0], t[k + 1..], pairs[1..]);
      assert a + t == (a + t[..k]) + ("," + t[k + 1..]) && [pairs[0]] + pairs[1..] == pairs;
    }
  }

  // ----- strings

  /** What was read of s when rest is left. */
  function Taken(s: string, rest: string): string
    requires SuffixOf(rest, s)
  {
    s[..|s| - |rest|]
  }

  lemma {:induction false} HexDigitSound(c: char)
    ensures HexValue(c).Some? ==> IsHexDigit(c, HexValue(c).value)
  {
  }

  lemma {:induction false} HexSound(s: string)
    ensures HexFour(s).Some? ==> IsHex(s[..4], HexFour(s).value)
  {
    hide HexValue, IsHexDigit;
    if HexFour(s).Some? {
      var t := s[..4];
      HexDigitSound(t[0]);
      HexDigitSound(t[1]);
      HexDigitSound(t[2]);
      HexDigitSound(t[3]);
      assert IsHexDigit(t[0], HexValue(s[0]).value) && IsHexDigit(t[1], HexValue(s[1]).value);
      assert IsHexDigit(t[2], HexValue(s[2]).value) && IsHexDigit(t[3], HexValue(s[3]).value);
    }
  }

  /** An escape reads as the character it stands for. */
  lemma {:induction false} UnescapeSound(s: string)
    ensures Unescape(s).Some? ==>
              SuffixOf(Unescape(s).value.1, s) && IsEscape(Taken(s, Unescape(s).value.1), Unescape(s).value.0)
  {
    hide IsHex, HexFour;
    UnescapeSuffix(s);
    if Unescape(s).Some? {
      var (c, rest) := Unescape(s).value;
      var t := Taken(s, rest);
      if s[0] == 'u' {
        HexSound(s[1..]);
        if |t| == 5 {
          assert t[1..] == s[1..][..4];
        } else {
          HexSound(s[7..]);
          assert t[1..5] == s[1..][..4] && t[7..] == s[7..][..4];
        }
      } else {
        assert t == [s[0]];
      }
    }
  }

  lemma {:induction false} CharsCons(u: string, c: char, t: string, s: string)
    requires IsChar(u, c) && IsChars(t, s)
    ensures IsChars(u + t, [c] + s)
  {
    hide IsChar;
    assert (u + t)[..|u|] == u && (u + t)[|u|..] == t && ([c] + s)[1..] == s;
  }

  lemma {:induction false} EscapeRead(s: string) returns (e: string)
    requires Unescape(s).Some?
    ensures s == e + Unescape(s).value.1 && IsEscape(e, Unescape(s).value.0)
  {
    hide Unescape, IsEscape;
    UnescapeSound(s);
    e := Taken(s, Unescape(s).value.1);
  }

  /** What `ScanString` makes of a backslash, and of any other character but a quote. */
  lemma {:induction false} ScanEscape(s: string)
    requires ScanString(s).Some? && s[0] == '\\'
    ensures Unescape(s[1..]).Some?
    ensures var (c, more) := Unescape(s[1..]).value;
            && |more| < |s| && ScanString(more).Some?
            && ScanString(s).value == ([c] + ScanString(more).value.0, ScanString(more).value.1)
  {
    hide Unescape;
  }

  lemma {:induction false} ScanPlain(s: string)
    requires ScanString(s).Some? && s[0] != '\\' && s[0] != '"'
    ensures s[0] >= ' ' && ScanString(s[1..]).Some?
    ensures ScanString(s).value == ([s[0]] + ScanString(s[1..]).value.0, ScanString(s[1..]).value.1)
  {
    hide Unescape;
  }

  lemma {:induction false} EscapedIsChar(e: string, c: char)
    requires IsEscape(e, c)
    ensures IsChar(['\\'] + e, c)
  {
    hide IsEscape;
    assert (['\\'] + e)[1..] == e;
  }

  lemma {:induction false} ScanQuote(s: string)
    requires ScanString(s).Some?
    ensures s != "" && (s[0] == '"' ==> ScanString(s).value == ("", s[1..])) && IsChars("", "")
  {
    hide Unescape;
  }

  /** The text of a string after its opening quote, without its closing one. */
  lemma {:induction false} CharsRead(s: string) returns (t: string)
    requires ScanString(s).Some?
    ensures s == t + ("\"" + ScanString(s).value.1) && IsChars(t, ScanString(s).value.0)
    decreases |s|
  {
    hide IsEscape, IsChar, IsChars, Unescape, ScanString;
    ScanQuote(s);
    var rest := ScanString(s).value.1;
    if s[0] == '"' {
      t := "";
      Head(s, '"');
    } else if s[0] == '\\' {
      ScanEscape(s);
      var (c, more) := Unescape(s[1..]).value;
      var e := EscapeRead(s[1..]);
      var later := CharsRead(more);
      EscapedIsChar(e, c);
      CharsCons(['\\'] + e, c, later, ScanString(more).value.0);
      t := (['\\'] + e) + later;
      Head(s, '\\');
      assert s == ['\\'] + (e + (later + ("\"" + rest)));
    } else {
      ScanPlain(s);
      var later := CharsRead(s[1..]);
      PlainIsChar(s[0]);
      CharsCons([s[0]], s[0], later, ScanString(s[1..]).value.0);
      t := [s[0]] + later;
    }
  }

  lemma {:induction false} PlainIsChar(c: char)
    requires c >= ' ' && c != '"' && c != '\\'
    ensures IsChar([c], c)
  {
  }

  lemma {:induction false} StringRead(s: string) returns (t: string)
    requires s != "" && s[0] == '"' && ScanString(s[1..]).Some?
    ensures s == t + ScanString(s[1..]).value.1 && IsString(t, ScanString(s[1..]).value.0)
  {
    hide IsChars, ScanString;
    var body := CharsRead(s[1..]);
    t := "\"" + (body + "\"");
    assert t[1..|t| - 1] == body;
    assert s == ['"'] + s[1..];
  }

  // ----- numbers

  lemma {:induction false} UnsignedSound(negative: bool, t: string)
    ensures DecodeUnsigned(negative, t).Some? ==>
              var (v, rest) := DecodeUnsigned(negative, t).value;
              SuffixOf(rest, t) && IsValue(Sign(negative) + Taken(t, rest), v)
  {
    hide Whole, Frac, Exp, WholeLength, FracLength, ExpLength, NumeralValue;
    UnsignedSuffix(negative, t);
    if DecodeUnsigned(negative, t).Some? {
      var (v, rest) := DecodeUnsigned(negative, t).value;
      var n := WholeLength(t);
      var u := t[n..];
      var (f, e) := (FracLength(u), ExpLength(u[FracLength(u)..]));
      if f == 0 && e == 0 {
        assert Taken(t, rest) == t[..n];
        assert Whole(t[..n]) && v.n == if negative then -ValueOf(t[..n]) else ValueOf(t[..n]);
      } else {
        assert Taken(t, rest) == t[..n] + (u[..f] + u[f..][..e]);
      }
    }
  }

  lemma {:induction false} SignedTaken(s: string, rest: string)
    requires s != "" && s[0] == '-' && SuffixOf(rest, s[1..])
    ensures SuffixOf(rest, s) && Taken(s, rest) == "-" + Taken(s[1..], rest)
  {
    assert s[1..][..|s| - 1 - |rest|] == s[1..|s| - |rest|];
  }

  lemma {:induction false} NumberSound(s: string)
    ensures DecodeNumber(s).Some? ==>
              var (v, rest) := DecodeNumber(s).value; SuffixOf(rest, s) && IsValue(Taken(s, rest), v)
  {
    hide DecodeUnsigned, IsInt;
    DecodeNumberSuffix(s);
    if DecodeNumber(s).Some? {
      var (v, rest) := DecodeNumber(s).value;
      if s == "" || s[0] != '-' {
        UnsignedSound(false, s);
        assert Sign(false) + Taken(s, rest) == Taken(s, rest);
      } else if "Infinity" <= s[1..] {
        assert Taken(s, rest) == "-Infinity";
      } else {
        UnsignedSound(true, s[1..]);
        Head(s, '-');
        SignedTaken(s, rest);
      }
    }
  }

  // ----- values

  lemma {:induction false} Blanks(s: string) returns (gap: string)
    ensures s == gap + SkipSpace(s) && Blank(gap)
  {
    gap := s[..|s| - |SkipSpace(s)|];
  }

  lemma {:induction false} NoBlank()
    ensures Blank("")
  {
  }

  lemma {:induction false} ScalarRead(s: string) returns (t: string)
    requires DecodeValue(s).Some? && s[0] != '[' && s[0] != '{'
    ensures s == t + DecodeValue(s).value.1 && IsValue(t, DecodeValue(s).value.0)
  {
    hide IsString, IsInt, DecodeNumber, ScanString;
    if s[0] == '"' {
      t := StringRead(s);
    } else if s[0] in "ntfNI" {
      t := s[..|s| - |DecodeValue(s).value.1|];
    } else {
      t := NumberRead(s);
    }
  }

  lemma {:induction false} NumberRead(s: string) returns (t: string)
    requires DecodeNumber(s).Some?
    ensures s == t + DecodeNumber(s).value.1 && IsValue(t, DecodeNumber(s).value.0)
  {
    hide DecodeNumber, IsValue;
    NumberSound(s);
    t := Taken(s, DecodeNumber(s).value.1);
  }

  lemma {:induction false} ArrayIs(body: string, items: seq<Json>)
    requires IsItems(body, items)
    ensures IsValue("[" + (body + "]"), Arr(items))
  {
    hide IsItems;
    var t := "[" + (body + "]");
    assert t[1..|t| - 1] == body;
  }

  lemma {:induction false} ObjectIs(body: string, pairs: seq<Member>)
    requires IsMembers(body, pairs)
    ensures IsValue("{" + (body + "}"), Obj(Dict([], pairs)))
  {
    hide IsMembers, Dict;
    var t := "{" + (body + "}");
    assert t[1..|t| - 1] == body;
  }

  lemma {:induction false} NothingInside(gap: string)
    requires Blank(gap)
    ensures IsItems(gap, []) && IsMembers(gap, []) && Dict([], []) == []
  {
  }

  /** Text that starts with c, and what follows. */
  lemma {:induction false} Head(s: string, c: char)
    requires s != "" && s[0] == c
    ensures s == [c] + s[1..]
  {
  }

  /** What the decoder reads of a text is, by the grammar, a text of the value it returns. */
  lemma {:induction false} ValueRead(s: string) returns (t: string)
    requires DecodeValue(s).Some?
    ensures s == t + DecodeValue(s).value.1 && IsValue(t, DecodeValue(s).value.0)
    decreases |s|, 2
  {
    hide DecodeValue, IsValue;
    DecodedIsText(s);
    if s[0] == '[' {
      t := ArrayRead(s);
    } else if s[0] == '{' {
      t := ObjectRead(s);
    } else {
      t := ScalarRead(s);
    }
  }

  lemma {:induction false} DecodedIsText(s: string)
    ensures DecodeValue(s).Some? ==> s != ""
  {
  }

  lemma {:induction false} ArrayRead(s: string) returns (t: string)
    requires DecodeValue(s).Some? && s[0] == '['
    ensures s == t + DecodeValue(s).value.1 && IsValue(t, DecodeValue(s).value.0)
    decreases |s|, 1
  {
    hide IsItems, Blank, SkipSpace, IsValue, DecodeItems;
    var (v, rest) := DecodeValue(s).value;
    Head(s, '[');
    var gap := Blanks(s[1..]);
    var u := SkipSpace(s[1..]);
    if u != "" && u[0] == ']' {
      Head(u, ']');
      NothingInside(gap);
      ArrayIs(gap, []);
      t := "[" + (gap + "]");
      assert s == t + rest;
    } else {
      var body := ItemsRead(u);
      ItemsBefore(gap, body, v.items);
      ArrayIs(gap + body, v.items);
      t := "[" + ((gap + body) + "]");
      assert s == t + rest;
    }
  }

  lemma {:induction false} ItemsRead(s: string) returns (body: string)
    requires DecodeItems(s).Some?
    ensures s == body + ("]" + DecodeItems(s).value.1)
    ensures DecodeItems(s).value.0 != [] && IsItems(body, DecodeItems(s).value.0)
    decreases |s|, 3
  {
    hide DecodeValue, IsValue, IsPadded, Blank, SkipSpace;
    var (v, after) := DecodeValue(s).value;
    var x := ValueRead(s);
    var gap := Blanks(after);
    var t := SkipSpace(after);
    NoBlank();
    PaddedIs("", x, gap, v);
    var p := "" + (x + gap);
    assert s == p + t;
    if t[0] == ']' {
      Head(t, ']');
      body := p;
    } else {
      Head(t, ',');
      var lead := Blanks(t[1..]);
      var more := SkipSpace(t[1..]);
      var items := DecodeItems(more).value.0;
      var later := ItemsRead(more);
      ItemsBefore(lead, later, items);
      ItemsMore(p, v, lead + later, items);
      body := p + ("," + (lead + later));
    }
  }

  lemma {:induction false} ObjectRead(s: string) returns (t: string)
    requires DecodeValue(s).Some? && s[0] == '{'
    ensures s == t + DecodeValue(s).value.1 && IsValue(t, DecodeValue(s).value.0)
    decreases |s|, 1
  {
    hide IsMembers, Blank, SkipSpace, Dict, IsValue, DecodeMembers;
    var (v, rest) := DecodeValue(s).value;
    Head(s, '{');
    var gap := Blanks(s[1..]);
    var u := SkipSpace(s[1..]);
    if u != "" && u[0] == '}' {
      Head(u, '}');
      NothingInside(gap);
      ObjectIs(gap, []);
      t := "{" + (gap + "}");
      assert s == t + rest;
    } else {
      var body, pairs := MembersRead(u, []);
      MembersBefore(gap, body, pairs);
      ObjectIs(gap + body, pairs);
      t := "{" + ((gap + body) + "}");
      assert s == t + rest;
    }
  }

  lemma {:induction false} MemberRead(s: string) returns (t: string)
    requires DecodeMember(s).Some?
    ensures s == t + DecodeMember(s).value.1 && IsMember(t, DecodeMember(s).value.0)
    decreases |s|, 3
  {
    hide DecodeValue, IsValue, IsPadded, IsKey, IsString, Blank, SkipSpace, ScanString, IsMember;
    var (key, afterKey) := ScanString(s[1..]).value;
    var q := StringRead(s);
    var gap := Blanks(afterKey);
    var colon := SkipSpace(afterKey);
    Head(colon, ':');
    var lead := Blanks(colon[1..]);
    var text := SkipSpace(colon[1..]);
    var (m, rest) := DecodeMember(s).value;
    var x := ValueRead(text);
    NoBlank();
    KeyIs("", q, gap, key);
    PaddedIs(lead, x, "", m.value);
    MemberIs("" + (q + gap), lead + (x + ""), m);
    t := ("" + (q + gap)) + (":" + (lead + (x + "")));
    assert s == q + (gap + (":" + (lead + (x + rest))));
    assert t + rest == q + (gap + (":" + (lead + (x + rest))));
  }

  lemma {:induction false} MembersRead(s: string, acc: seq<Member>) returns (body: string, pairs: seq<Member>)
    requires DecodeMembers(s, acc).Some?
    ensures s == body + ("}" + DecodeMembers(s, acc).value.1)
    ensures pairs != [] && IsMembers(body, pairs) && DecodeMembers(s, acc).value.0 == Dict(acc, pairs)
    decreases |s|, 4
  {
    hide DecodeMember, IsMember, Blank, SkipSpace, Put;
    var (m, after) := DecodeMember(s).value;
    var x := MemberRead(s);
    var gap := Blanks(after);
    var t := SkipSpace(after);
    MemberAfter(x, gap, m);
    var p := x + gap;
    assert s == p + t;
    if t[0] == '}' {
      Head(t, '}');
      body, pairs := p, [m];
      assert pairs[1..] == [];
    } else {
      Head(t, ',');
      var lead := Blanks(t[1..]);
      var more := SkipSpace(t[1..]);
      var later, others := MembersRead(more, Put(acc, m.key, m.value));
      MembersBefore(lead, later, others);
      MembersMore(p, m, lead + later, others);
      body, pairs := p + ("," + (lead + later)), [m] + others;
      assert pairs[1..] == others;
    }
  }

  lemma {:induction false} PaddedAfter(p: string, a: string, v: Json)
    requires IsPadded(p, v) && Blank(a)
    ensures IsPadded(p + a, v)
  {
    hide IsValue;
    var i, j :| 0 <= i <= j <= |p| && Blank(p[..i]) && IsValue(p[i..j], v) && Blank(p[j..]);
    AllAppend(IsJsonSpace, p[j..], a);
    PaddedIs(p[..i], p[i..j], p[j..] + a, v);
    assert p + a == p[..i] + (p[i..j] + (p[j..] + a));
  }

  lemma {:induction false} MemberAfter(p: string, a: string, m: Member)
    requires IsMember(p, m) && Blank(a)
    ensures IsMember(p + a, m)
  {
    hide IsPadded, IsKey, Blank;
    var k :| 0 <= k < |p| && IsKey(p[..k], m.key) && p[k] == ':' && IsPadded(p[k + 1..], m.value);
    PaddedAfter(p[k + 1..], a, m.value);
    MemberIs(p[..k], p[k + 1..] + a, m);
    assert p + a == p[..k] + (":" + (p[k + 1..] + a));
  }

  // ----- and every text of the grammar is read

  lemma {:induction false} HexDigitReads(c: char, d: nat)
    requires IsHexDigit(c, d)
    ensures HexValue(c) == Some(d)
  {
  }

  lemma {:induction false} HexReads(t: string, n: nat, rest: string)
    requires IsHex(t, n)
    ensures HexFour(t + rest) == Some(n)
  {
    hide IsHexDigit, HexValue;
    var a: nat, b: nat, c: nat, d: nat :|
      && IsHexDigit(t[0], a) && IsHexDigit(t[1], b) && IsHexDigit(t[2], c) && IsHexDigit(t[3], d)
      && n == 4096 * a + 256 * b + 16 * c + d;
    HexDigitReads(t[0], a);
    HexDigitReads(t[1], b);
    HexDigitReads(t[2], c);
    HexDigitReads(t[3], d);
    var s := t + rest;
    assert s[0] == t[0] && s[1] == t[1] && s[2] == t[2] && s[3] == t[3];
  }

  /** Each escape is read as the character it stands for: a short one, four hexadecimal digits
      in either case, or a surrogate pair. */
  lemma {:induction false} EscapeReads(e: string, c: char, rest: string)
    requires IsEscape(e, c)
    ensures Unescape(e + rest) == Some((c, rest))
  {
    hide IsHex, HexFour;
    var s := e + rest;
    if |e| == 1 {
      assert s[1..] == rest;
    } else {
      assert s[1..] == e[1..5] + (e[5..] + rest);
      if |e| == 5 {
        assert e[1..5] == e[1..];
        HexReads(e[1..], c as int, e[5..] + rest);
        assert s[5..] == rest;
      } else {
        var hi: nat, lo: nat :|
          IsHex(e[1..5], hi) && IsHex(e[7..], lo) && 0xD800 <= hi < 0xDC00 <= lo < 0xE000
          && c as int == 0x10000 + 0x400 * (hi - 0xD800) + (lo - 0xDC00);
        HexReads(e[1..5], hi, e[5..] + rest);
        HexReads(e[7..], lo, rest);
        assert s[7..] == e[7..] + rest && s[11..] == rest && s[5] == e[5] && s[6] == e[6];
      }
    }
  }

  lemma {:induction false} CharReads(u: string, c: char, tail: string)
    requires IsChar(u, c) && ScanString(tail).Some?
    ensures ScanString(u + tail) == Some(([c] + ScanString(tail).value.0, ScanString(tail).value.1))
  {
    hide IsEscape, Unescape;
    if u[0] == '\\' {
      EscapeReads(u[1..], c, tail);
      assert (u + tail)[1..] == u[1..] + tail;
    } else {
      assert (u + tail)[1..] == tail;
    }
  }

  lemma {:induction false} CharsReads(t: string, s: string, rest: string)
    requires IsChars(t, s)
    ensures ScanString(t + ("\"" + rest)) == Some((s, rest))
    decreases |s|
  {
    hide IsChar, ScanString, IsChars;
    if s == "" {
      NoChars(t, rest);
    } else {
      var k := FirstChar(t, s);
      CharsReads(t[k..], s[1..], rest);
      CharReads(t[..k], s[0], t[k..] + ("\"" + rest));
      assert t + ("\"" + rest) == t[..k] + (t[k..] + ("\"" + rest)) && [s[0]] + s[1..] == s;
    }
  }

  lemma {:induction false} NoChars(t: string, rest: string)
    requires IsChars(t, "")
    ensures ScanString(t + ("\"" + rest)) == Some(("", rest))
  {
    assert t + ("\"" + rest) == "\"" + rest && ("\"" + rest)[1..] == rest;
  }

  lemma {:induction false} FirstChar(t: string, s: string) returns (k: nat)
    requires IsChars(t, s) && s != ""
    ensures k <= |t| && IsChar(t[..k], s[0]) && IsChars(t[k..], s[1..])
  {
    hide IsChar;
    k :| 0 <= k <= |t| && IsChar(t[..k], s[0]) && IsChars(t[k..], s[1..]);
  }

  lemma {:induction false} StringReads(q: string, s: string, rest: string)
    requires IsString(q, s)
    ensures q != "" && q[0] == '"' && ScanString((q + rest)[1..]) == Some((s, rest))
  {
    hide IsChars, ScanString;
    var body := q[1..|q| - 1];
    CharsReads(body, s, rest);
    assert (q + rest)[1..] == body + ("\"" + rest);
  }

  /** How a value can begin. */
  predicate Opens(t: string) { t != "" && !IsJsonSpace(t[0]) && t[0] !in "]},:" }

  lemma {:induction false} IntReads(t: string, n: int, rest: string)
    requires IsInt(t, n) && EndsNumber(rest)
    ensures Opens(t) && DecodeValue(t + rest) == Some((Int(n), rest))
  {
    hide DecodeUnsigned, DecodeValue, EndsNumber, NumeralValue;
    var negative, whole :| Whole(whole) && t == Sign(negative) + whole
                           && n == if negative then -ValueOf(whole) else ValueOf(whole);
    DecodeNatural(negative, whole, rest);
    DecodeSigned(negative, whole + rest);
    assert t + rest == Sign(negative) + (whole + rest);
  }

  lemma {:induction false} ScalarReads(t: string, v: Json, rest: string)
    requires !v.Arr? && !v.Obj? && IsValue(t, v) && (Continues(v) ==> EndsNumber(rest))
    ensures Opens(t) && DecodeValue(t + rest) == Some((v, rest))
  {
    hide IsString, IsInt, ScanString, DecodeUnsigned, EndsNumber;
    var s := t + rest;
    match v
    case Null => assert s[4..] == rest;
    case Bool(b) => assert s[if b then 4 else 5..] == rest;
    case Int(n) => IntReads(t, n, rest);
    case Float(f) =>
      DecodePrintedFloat(f, rest);
      PrintStarts(v, COMPACT, 0);
    case Str(str) => StringReads(t, str, rest);
  }

  lemma {:induction false} BlankSkips(gap: string, t: string)
    requires Blank(gap) && (t != "" ==> !IsJsonSpace(t[0]))
    ensures SkipSpace(gap + t) == t
  {
    SkipGap(gap, t);
  }

  lemma {:induction false} BlankEnds(gap: string, t: string)
    requires Blank(gap) && t != "" && t[0] in "]},"
    ensures EndsNumber(gap + t) && SkipSpace(gap + t) == t
  {
    BlankSkips(gap, t);
    if gap != "" { assert (gap + t)[0] == gap[0]; }
  }

  /** Every text of a value is read as that value, and no further. */
  lemma {:induction false} ValueReads(t: string, v: Json, rest: string)
    requires IsValue(t, v) && (Continues(v) ==> EndsNumber(rest))
    ensures Opens(t) && DecodeValue(t + rest) == Some((v, rest))
    decreases |t|, 0
  {
    hide DecodeValue, EndsNumber, IsValue;
    match v
    case Arr(items) => ArrayReads(t, items, rest);
    case Obj(ms) => ObjectReads(t, ms, rest);
    case _ => ScalarReads(t, v, rest);
  }

  lemma {:induction false} ArrayInside(t: string, items: seq<Json>)
    requires IsValue(t, Arr(items))
    ensures |t| >= 2 && t[0] == '[' && IsItems(t[1..|t| - 1], items) && t == "[" + (t[1..|t| - 1] + "]")
  {
    hide IsItems;
  }

  lemma {:induction false} ObjectInside(t: string, ms: seq<Member>) returns (pairs: seq<Member>)
    requires IsValue(t, Obj(ms))
    ensures |t| >= 2 && t[0] == '{' && t == "{" + (t[1..|t| - 1] + "}")
    ensures IsMembers(t[1..|t| - 1], pairs) && ms == Dict([], pairs)
  {
    hide IsMembers, Dict;
    pairs :| IsMembers(t[1..|t| - 1], pairs) && ms == Dict([], pairs);
  }

  lemma {:induction false} ArrayReads(t: string, items: seq<Json>, rest: string)
    requires IsValue(t, Arr(items))
    ensures Opens(t) && DecodeValue(t + rest) == Some((Arr(items), rest))
    decreases |t|, 0, 0
  {
    hide DecodeValue, DecodeItems, IsValue, IsItems, SkipSpace, Blank;
    ArrayInside(t, items);
    var (s, body) := (t + rest, t[1..|t| - 1]);
    assert s[0] == '[' && s[1..] == body + ("]" + rest);
    if items == [] {
      EmptyInside(body);
      BlankSkips(body, "]" + rest);
      assert ("]" + rest)[1..] == rest;
      ReadEmpty(s, rest);
    } else {
      ItemsReads(body, items, rest);
      ReadArray(s, SkipSpace(s[1..]));
    }
  }

  lemma {:induction false} EmptyInside(body: string)
    ensures IsItems(body, []) || IsMembers(body, []) ==> Blank(body)
  {
  }

  lemma {:induction false} PaddedParts(p: string, v: Json) returns (a: string, x: string, b: string)
    requires IsPadded(p, v)
    ensures p == a + (x + b) && Blank(a) && IsValue(x, v) && Blank(b) && |x| <= |p|
  {
    hide IsValue, Blank;
    var i, j :| 0 <= i <= j <= |p| && Blank(p[..i]) && IsValue(p[i..j], v) && Blank(p[j..]);
    a, x, b := p[..i], p[i..j], p[j..];
  }

  /** A value with blanks around it, before a comma or a closing bracket. */
  lemma {:induction false} PaddedReads(p: string, v: Json, rest: string) returns (after: string)
    requires IsPadded(p, v) && rest != "" && rest[0] in "]},"
    ensures Opens(SkipSpace(p + rest)) && DecodeValue(SkipSpace(p + rest)) == Some((v, after))
    ensures SkipSpace(after) == rest
    decreases |p|, 1
  {
    hide DecodeValue, IsValue, IsPadded, SkipSpace, Blank, EndsNumber;
    var a, x, b := PaddedParts(p, v);
    after := b + rest;
    BlankEnds(b, rest);
    ValueReads(x, v, after);
    assert p + rest == a + (x + after);
    BlankSkips(a, x + after);
  }

  lemma {:induction false} ItemsReads(t: string, items: seq<Json>, rest: string)
    requires IsItems(t, items) && items != []
    ensures Opens(SkipSpace(t + ("]" + rest)))
    ensures DecodeItems(SkipSpace(t + ("]" + rest))) == Some((items, rest))
    decreases |t|, 2
  {
    hide DecodeValue, IsValue, IsPadded, SkipSpace, Blank;
    var s := SkipSpace(t + ("]" + rest));
    if |items| == 1 {
      var after := PaddedReads(t, items[0], "]" + rest);
      assert ("]" + rest)[1..] == rest && [items[0]] == items;
    } else {
      var k :| 0 <= k < |t| && IsPadded(t[..k], items[0]) && t[k] == ',' && IsItems(t[k + 1..], items[1..]);
      var later := t[k + 1..] + ("]" + rest);
      var after := PaddedReads(t[..k], items[0], "," + later);
      assert t + ("]" + rest) == t[..k] + ("," + later) && ("," + later)[1..] == later;
      ItemsReads(t[k + 1..], items[1..], rest);
      assert [items[0]] + items[1..] == items;
    }
  }

  lemma {:induction false} ObjectReads(t: string, ms: seq<Member>, rest: string)
    requires IsValue(t, Obj(ms))
    ensures Opens(t) && DecodeValue(t + rest) == Some((Obj(ms), rest))
    decreases |t|, 0, 0
  {
    hide DecodeValue, DecodeMembers, IsValue, IsMembers, SkipSpace, Blank;
    var pairs := ObjectInside(t, ms);
    var (s, body) := (t + rest, t[1..|t| - 1]);
    assert s[0] == '{' && s[1..] == body + ("}" + rest);
    if pairs == [] {
      EmptyInside(body);
      BlankSkips(body, "}" + rest);
      assert ("}" + rest)[1..] == rest;
      ReadEmpty(s, rest);
    } else {
      MembersReads(body, pairs, [], rest);
      ReadObject(s, SkipSpace(s[1..]));
    }
  }

  lemma {:induction false} KeyParts(p: string, key: string) returns (a: string, q: string, b: string)
    requires IsKey(p, key)
    ensures p == a + (q + b) && Blank(a) && IsString(q, key) && Blank(b)
  {
    hide IsString, Blank;
    var i, j :| 0 <= i <= j <= |p| && Blank(p[..i]) && IsString(p[i..j], key) && Blank(p[j..]);
    a, q, b := p[..i], p[i..j], p[j..];
  }

  lemma {:induction false} MemberReads(t: string, m: Member, rest: string) returns (after: string)
    requires IsMember(t, m) && rest != "" && rest[0] in "]},"
    ensures Opens(SkipSpace(t + rest)) && DecodeMember(SkipSpace(t + rest)) == Some((m, after))
    ensures SkipSpace(after) == rest
    decreases |t|, 2
  {
    hide DecodeValue, IsValue, IsPadded, IsKey, IsString, SkipSpace, Blank, ScanString;
    var k :| 0 <= k < |t| && IsKey(t[..k], m.key) && t[k] == ':' && IsPadded(t[k + 1..], m.value);
    var a, q, b := KeyParts(t[..k], m.key);
    var text := t[k + 1..] + rest;
    after := PaddedReads(t[k + 1..], m.value, rest);
    var tail := b + (":" + text);
    StringReads(q, m.key, tail);
    assert t + rest == a + (q + tail);
    BlankSkips(a, q + tail);
    BlankSkips(b, ":" + text);
    assert (":" + text)[1..] == text;
  }

  lemma {:induction false} MembersReads(t: string, pairs: seq<Member>, acc: seq<Member>, rest: string)
    requires IsMembers(t, pairs) && pairs != []
    ensures Opens(SkipSpace(t + ("}" + rest)))
    ensures DecodeMembers(SkipSpace(t + ("}" + rest)), acc) == Some((Dict(acc, pairs), rest))
    decreases |t|, 3
  {
    hide DecodeMember, IsMember, SkipSpace, Blank, Put, DecodeMembers, Dict;
    var s := SkipSpace(t + ("}" + rest));
    DictStep(acc, pairs);
    if |pairs| == 1 {
      var after := MemberReads(t, pairs[0], "}" + rest);
      LastMember(s, pairs[0], after, acc, rest);
    } else {
      var k :| 0 <= k < |t| && IsMember(t[..k], pairs[0]) && t[k] == ',' && IsMembers(t[k + 1..], pairs[1..]);
      var later := t[k + 1..] + ("}" + rest);
      assert t + ("}" + rest) == t[..k] + ("," + later);
      var after := MemberReads(t[..k], pairs[0], "," + later);
      MembersReads(t[k + 1..], pairs[1..], Put(acc, pairs[0].key, pairs[0].value), rest);
      NextMember(s, pairs[0], after, acc, later);
    }
  }

  lemma {:induction false} DictStep(acc: seq<Member>, pairs: seq<Member>)
    requires pairs != []
    ensures Dict(acc, pairs) == Dict(Put(acc, pairs[0].key, pairs[0].value), pairs[1..])
    ensures |pairs| == 1 ==> Dict(acc, pairs) == Put(acc, pairs[0].key, pairs[0].value)
  {
    hide Put;
  }

  lemma {:induction false} LastMember(s: string, m: Member, after: string, acc: seq<Member>, rest: string)
    requires DecodeMember(s) == Some((m, after)) && SkipSpace(after) == "}" + rest
    ensures DecodeMembers(s, acc) == Some((Put(acc, m.key, m.value), rest))
  {
    hide Put;
    assert ("}" + rest)[1..] == rest;
  }

  lemma {:induction false} NextMember(s: string, m: Member, after: string, acc: seq<Member>, later: string)
    requires DecodeMember(s) == Some((m, after)) && SkipSpace(after) == "," + later
    ensures DecodeMembers(s, acc) == DecodeMembers(SkipSpace(later), Put(acc, m.key, m.value))
  {
    hide Put;
    assert ("," + later)[1..] == later;
  }

  // ----- the decoder and the grammar

  /** The decoder decides the grammar: a value is read with some text left exactly when the
      text before it is one of that value, provided no number could go on. */
  lemma {:induction false} DecodeDecides(t: string, v: Json, rest: string)
    ensures IsValue(t, v) && (Continues(v) ==> EndsNumber(rest)) ==> DecodeValue(t + rest) == Some((v, rest))
    ensures DecodeValue(t + rest) == Some((v, rest)) ==> IsValue(t, v)
  {
    hide DecodeValue, IsValue, EndsNumber;
    if IsValue(t, v) && (Continues(v) ==> EndsNumber(rest)) { ValueReads(t, v, rest); }
    if DecodeValue(t + rest) == Some((v, rest)) {
      var x := ValueRead(t + rest);
      assert x == (t + rest)[..|t|] == t;
    }
  }

  /** Reading a text from its start: the value returned and the text left are related by the
      grammar. */
  lemma {:induction false} DecodeSound(s: string)
    ensures DecodeValue(s).Some? ==>
              exists t :: s == t + DecodeValue(s).value.1 && IsValue(t, DecodeValue(s).value.0)
  {
    hide DecodeValue, IsValue;
    if DecodeValue(s).Some? { var t := ValueRead(s); }
  }

  /** A text loads as a value exactly when it is, with blanks around it, a text of the value. */
  lemma {:induction false} LoadsDecides(s: string, v: Json)
    ensures Loads(s) == Some(v) <==> IsPadded(s, v)
  {
    hide DecodeValue, IsValue, IsPadded, SkipSpace, Blank, EndsNumber;
    var t := SkipSpace(s);
    if Loads(s) == Some(v) {
      var lead := Blanks(s);
      var x := ValueRead(t);
      var trail := Blanks(DecodeValue(t).value.1);
      assert DecodeValue(t).value.1 == trail;
      PaddedIs(lead, x, trail, v);
      assert s == lead + (x + trail);
    }
    if IsPadded(s, v) {
      var a, x, b := PaddedParts(s, v);
      BlankEnd(b);
      ValueReads(x, v, b);
      BlankSkips(a, x + b);
    }
  }

  lemma {:induction false} BlankEnd(b: string)
    requires Blank(b)
    ensures EndsNumber(b) && SkipSpace(b) == ""
  {
    BlankSkips(b, "");
    assert b + "" == b;
  }
}
