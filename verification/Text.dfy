/** Python string primitives shared by the models: whitespace, word characters,
    stripping, maximal runs and decimal numerals. */
module Text {

  datatype Option<+T> = None | Some(value: T) {
    predicate IsFailure() { None? }
    function PropagateFailure<U>(): Option<U> requires None? { None }
    function Extract(): T requires Some? { value }
  }

  /** `str.isspace` for one character: also the set `str.strip` removes. */
  predicate IsSpace(c: char) {
    || '\t' <= c <= '\r'
    || '\U{1c}' <= c <= ' '
    || c == '\U{85}' || c == '\U{a0}' || c == '\U{1680}'
    || '\U{2000}' <= c <= '\U{200a}'
    || c == '\U{2028}' || c == '\U{2029}' || c == '\U{202f}' || c == '\U{205f}' || c == '\U{3000}'
  }

  predicate IsDigit(c: char) { '0' <= c <= '9' }

  predicate AsciiWord(c: char) {
    IsDigit(c) || 'a' <= c <= 'z' || 'A' <= c <= 'Z' || c == '_'
  }

  /** What the regular expression `\w` matches: fixed on ASCII, and whatever the
      Unicode tables say beyond it. */
  type Words = w: char -> bool | forall c :: c < '\U{80}' ==> (w(c) <==> AsciiWord(c))
    witness (c: char) => AsciiWord(c)

  ghost predicate All(p: char -> bool, s: string) {
    forall i :: 0 <= i < |s| ==> p(s[i])
  }

  /** Length of the longest prefix of s whose characters all satisfy p. */
  function Span(p: char -> bool, s: string): (n: nat)
    ensures n <= |s|
    ensures All(p, s[..n])
    ensures n < |s| ==> !p(s[n])
  {
    if s == "" || !p(s[0]) then 0
    else
      var n := 1 + Span(p, s[1..]);
      assert forall i :: 0 < i < n ==> s[..n][i] == s[1..][..n - 1][i - 1];
      n
  }

  lemma {:induction false} SpanAppend(p: char -> bool, a: string, b: string)
    requires All(p, a)
    requires b != "" ==> !p(b[0])
    ensures Span(p, a + b) == |a|
  {
    if a == "" {
      assert a + b == b;
    } else {
      assert (a + b)[1..] == a[1..] + b;
      SpanAppend(p, a[1..], b);
    }
  }

  function LStrip(s: string): (r: string)
    ensures |r| <= |s| && s == s[..|s| - |r|] + r
    ensures All(IsSpace, s[..|s| - |r|])
    ensures r != "" ==> !IsSpace(r[0])
  {
    s[Span(IsSpace, s)..]
  }

  function RStrip(s: string): (r: string)
    ensures r <= s
    ensures All(IsSpace, s[|r|..])
    ensures r != "" ==> !IsSpace(r[|r| - 1])
  {
    if s == "" || !IsSpace(s[|s| - 1]) then s
    else
      var r := RStrip(s[..|s| - 1]);
      assert forall i :: 0 <= i < |s| - |r| - 1 ==> s[|r|..][i] == s[..|s| - 1][|r|..][i];
      r
  }

  /** `str.strip()` */
  function Strip(s: string): string { RStrip(LStrip(s)) }

  /** Neither end of s is whitespace. */
  predicate Trimmed(s: string) {
    s != "" ==> !IsSpace(s[0]) && !IsSpace(s[|s| - 1])
  }

  lemma LStripPadded(pre: string, s: string)
    requires All(IsSpace, pre)
    requires s != "" ==> !IsSpace(s[0])
    ensures LStrip(pre + s) == s
  {
    SpanAppend(IsSpace, pre, s);
  }

  lemma {:induction false} RStripPadded(s: string, post: string)
    requires All(IsSpace, post)
    requires s != "" ==> !IsSpace(s[|s| - 1])
    ensures RStrip(s + post) == s
  {
    var t := s + post;
    if post == "" {
      assert t == s;
    } else {
      assert t[..|t| - 1] == s + post[..|post| - 1];
      RStripPadded(s, post[..|post| - 1]);
    }
  }

  lemma StripPadded(pre: string, s: string, post: string)
    requires All(IsSpace, pre) && All(IsSpace, post) && Trimmed(s)
    ensures Strip(pre + s + post) == s
  {
    if s == "" {
      assert pre + s + post == (pre + post) + "";
      LStripPadded(pre + post, "");
    } else {
      assert pre + s + post == pre + (s + post);
      LStripPadded(pre, s + post);
      RStripPadded(s, post);
    }
  }

  lemma StripTrims(s: string)
    ensures Trimmed(Strip(s))
    ensures exists pre, post {:trigger pre + Strip(s) + post} ::
      All(IsSpace, pre) && All(IsSpace, post) && s == pre + Strip(s) + post
  {
    var l := LStrip(s);
    var r := RStrip(l);
    var pre, post := s[..|s| - |l|], l[|r|..];
    assert s == pre + Strip(s) + post;
  }

  // ----- decimal numerals

  function DigitChar(d: nat): (c: char)
    requires d < 10
    ensures IsDigit(c)
  {
    (48 + d) as char
  }

  function DigitValue(c: char): (d: nat)
    requires IsDigit(c)
    ensures d < 10 && DigitChar(d) == c
  {
    c as int - 48
  }

  /** Decimal numeral of n, without leading zeros. */
  function Numeral(n: nat): (s: string)
    ensures s != "" && All(IsDigit, s)
    ensures s[0] == '0' <==> n == 0
    ensures n == 0 ==> |s| == 1
  {
    if n < 10 then [DigitChar(n)] else Numeral(n / 10) + [DigitChar(n % 10)]
  }

  function NumeralValue(s: string): nat
    requires All(IsDigit, s)
  {
    if s == "" then 0
    else
      assert forall i :: 0 <= i < |s| - 1 ==> s[..|s| - 1][i] == s[i];
      10 * NumeralValue(s[..|s| - 1]) + DigitValue(s[|s| - 1])
  }

  lemma {:induction false} NumeralRoundTrip(n: nat)
    ensures NumeralValue(Numeral(n)) == n
  {
    if n >= 10 {
      NumeralRoundTrip(n / 10);
      assert Numeral(n)[..|Numeral(n)| - 1] == Numeral(n / 10);
    } else {
      assert NumeralValue([]) == 0;
    }
  }

  // ----- pieces

  /** `text.split(sep)` */
  function Split(s: string, sep: char): (r: seq<string>)
    ensures r != []
  {
    if s == "" then [""]
    else
      var r := Split(s[1..], sep);
      if s[0] == sep then [""] + r else [[s[0]] + r[0]] + r[1..]
  }

  lemma {:induction false} SplitOne(item: string, sep: char)
    requires sep !in item
    ensures Split(item, sep) == [item]
  {
    if item != "" {
      SplitOne(item[1..], sep);
      assert item == [item[0]] + item[1..];
    }
  }

  /** `text.rstrip(c)` */
  function RStripChar(s: string, c: char): (r: string)
    ensures r <= s && (forall i :: |r| <= i < |s| ==> s[i] == c)
    ensures r != "" ==> r[|r| - 1] != c
  {
    if s == "" || s[|s| - 1] != c then s else RStripChar(s[..|s| - 1], c)
  }

  /** `c * n` */
  function Repeat(c: char, n: nat): (s: string)
    ensures |s| == n && forall i :: 0 <= i < n ==> s[i] == c
  {
    seq(n, _ => c)
  }

  /** `str.lower` as far as it can produce an ASCII letter. */
  function LowerChar(c: char): char {
    if 'A' <= c <= 'Z' then (c as int + 32) as char else if c == '\U{212a}' then 'k' else c
  }

  function Lower(s: string): (r: string)
    ensures |r| == |s| && forall i :: 0 <= i < |s| ==> r[i] == LowerChar(s[i])
  {
    seq(|s|, i requires 0 <= i < |s| => LowerChar(s[i]))
  }

  /** Each ASCII capital becomes its small letter; other ASCII characters stay. */
  lemma {:induction false} LowerLetters(i: nat, c: char)
    requires i < 26
    ensures LowerChar("ABCDEFGHIJKLMNOPQRSTUVWXYZ"[i]) == "abcdefghijklmnopqrstuvwxyz"[i]
    ensures c < '\U{80}' && c !in "ABCDEFGHIJKLMNOPQRSTUVWXYZ" ==> LowerChar(c) == c
  {
    var capitals := "ABCDEFGHIJKLMNOPQRSTUVWXYZ";
    assert capitals[i] as int == 65 + i && "abcdefghijklmnopqrstuvwxyz"[i] as int == 97 + i;
    if 'A' <= c <= 'Z' { assert capitals[c as int - 65] == c; }
  }

  lemma {:induction false} Regroup(a: string, b: string, c: string)
    ensures (a + b) + c == a + (b + c)
  {
  }

  lemma AllAppend(p: char -> bool, a: string, b: string)
    ensures All(p, a + b) <==> All(p, a) && All(p, b)
  {
    if All(p, a + b) {
      forall i | 0 <= i < |a| ensures p(a[i]) { assert (a + b)[i] == a[i]; }
      forall i | 0 <= i < |b| ensures p(b[i]) { assert (a + b)[|a| + i] == b[i]; }
    }
  }
}
