/** Reading undoes writing: for every value, layout and following text. */
module JsonRoundTrip {
  import opened Text
  import opened Json

  // ----- the unread text is a suffix of the text

  predicate SuffixOf(r: string, s: string) {
    |r| <= |s| && r == s[|s| - |r|..]
  }

  lemma {:induction false} SuffixTransitive(a: string, b: string, c: string)
    requires SuffixOf(a, b) && SuffixOf(b, c)
    ensures SuffixOf(a, c)
  {
  }

  lemma {:induction false} UnescapeSuffix(s: string)
    ensures Unescape(s).Some? ==> SuffixOf(Unescape(s).value.1, s)
  {
  }

  lemma {:induction false} ScanSuffix(s: string)
    ensures ScanString(s).Some? ==> SuffixOf(ScanString(s).value.1, s)
    decreases |s|
  {
    if ScanString(s).Some? && s[0] != '"' {
      if s[0] == '\\' {
        UnescapeSuffix(s[1..]);
        ScanSuffix(Unescape(s[1..]).value.1);
        SuffixTransitive(ScanString(s).value.1, Unescape(s[1..]).value.1, s[1..]);
      } else {
        ScanSuffix(s[1..]);
      }
      SuffixTransitive(ScanString(s).value.1, s[1..], s);
    }
  }

  lemma {:induction false} DecodeNumberSuffix(s: string)
    ensures DecodeNumber(s).Some? ==> SuffixOf(DecodeNumber(s).value.1, s)
  {
    hide DecodeUnsigned;
    if s != "" && s[0] == '-' { UnsignedSuffix(true, s[1..]); } else { UnsignedSuffix(false, s); }
  }

  lemma {:induction false} UnsignedSuffix(negative: bool, t: string)
    ensures DecodeUnsigned(negative, t).Some? ==> SuffixOf(DecodeUnsigned(negative, t).value.1, t)
  {
    hide Whole, Frac, Exp, WholeLength, FracLength, ExpLength, NumeralValue;
    if DecodeUnsigned(negative, t).Some? {
      var u := t[WholeLength(t)..];
      var f := FracLength(u);
      TailSuffix(t, WholeLength(t));
      TailSuffix(u, f);
      TailSuffix(u[f..], ExpLength(u[f..]));
      SuffixTransitive(u[f..], u, t);
      SuffixTransitive(u[f..][ExpLength(u[f..])..], u[f..], t);
      assert u[0..] == u;
    }
  }

  lemma {:induction false} TailSuffix(s: string, n: nat)
    requires n <= |s|
    ensures SuffixOf(s[n..], s)
  {
  }

  lemma {:induction false} SkipSuffix(s: string)
    ensures SuffixOf(SkipSpace(s), s)
    ensures SkipSpace(s) != "" ==> SuffixOf(SkipSpace(s)[1..], s)
  {
  }

  lemma {:induction false} DecodeSuffix(s: string)
    ensures DecodeValue(s).Some? ==> SuffixOf(DecodeValue(s).value.1, s)
    decreases |s|, 2
  {
    hide DecodeValue;
    if s == "" {
      DecodeOther(s);
    } else if s[0] == '[' {
      DecodeArraySuffix(s);
    } else if s[0] == '{' {
      DecodeObjectSuffix(s);
    } else {
      DecodeOther(s);
    }
  }

  lemma {:induction false} DecodeOther(s: string)
    requires s != "" ==> s[0] != '[' && s[0] != '{'
    ensures DecodeValue(s).Some? ==> SuffixOf(DecodeValue(s).value.1, s)
  {
    hide DecodeNumber, ScanString;
    if s != "" && s[0] == '"' {
      ScanSuffix(s[1..]);
    } else {
      DecodeNumberSuffix(s);
    }
  }

  lemma {:induction false} DecodeArraySuffix(s: string)
    requires s != "" && s[0] == '['
    ensures DecodeValue(s).Some? ==> SuffixOf(DecodeValue(s).value.1, s)
    decreases |s|, 1
  {
    hide SkipSpace, DecodeItems, DecodeNumber;
    SkipSuffix(s[1..]);
    DecodeItemsSuffix(SkipSpace(s[1..]));
  }

  lemma {:induction false} DecodeObjectSuffix(s: string)
    requires s != "" && s[0] == '{'
    ensures DecodeValue(s).Some? ==> SuffixOf(DecodeValue(s).value.1, s)
    decreases |s|, 1
  {
    hide SkipSpace, DecodeMembers, DecodeNumber;
    SkipSuffix(s[1..]);
    DecodeMembersSuffix(SkipSpace(s[1..]), []);
  }

  lemma {:induction false} DecodeItemsSuffix(s: string)
    ensures DecodeItems(s).Some? ==> SuffixOf(DecodeItems(s).value.1, s)
    decreases |s|, 3
  {
    DecodeSuffix(s);
    if DecodeItems(s).Some? {
      var rest := DecodeValue(s).value.1;
      var t := SkipSpace(rest);
      SkipSuffix(rest);
      SuffixTransitive(t[1..], rest, s);
      if t[0] == ',' {
        var more := SkipSpace(t[1..]);
        SkipSuffix(t[1..]);
        DecodeItemsSuffix(more);
        SuffixTransitive(DecodeItems(s).value.1, more, t[1..]);
        SuffixTransitive(DecodeItems(s).value.1, t[1..], s);
      }
    }
  }

  lemma {:induction false} DecodeMemberSuffix(s: string)
    ensures DecodeMember(s).Some? ==> SuffixOf(DecodeMember(s).value.1, s)
    decreases |s|, 3
  {
    if DecodeMember(s).Some? {
      var (key, afterKey) := ScanString(s[1..]).value;
      ScanSuffix(s[1..]);
      SuffixTransitive(afterKey, s[1..], s);
      var t := SkipSpace(afterKey);
      SkipSuffix(afterKey);
      SuffixTransitive(t[1..], afterKey, s);
      var text := SkipSpace(t[1..]);
      SkipSuffix(t[1..]);
      SuffixTransitive(text, t[1..], s);
      DecodeSuffix(text);
      SuffixTransitive(DecodeMember(s).value.1, text, s);
    }
  }

  lemma {:induction false} DecodeMembersSuffix(s: string, acc: seq<Member>)
    ensures DecodeMembers(s, acc).Some? ==> SuffixOf(DecodeMembers(s, acc).value.1, s)
    decreases |s|, 4
  {
    DecodeMemberSuffix(s);
    if DecodeMembers(s, acc).Some? {
      var (m, rest) := DecodeMember(s).value;
      var t := SkipSpace(rest);
      SkipSuffix(rest);
      SuffixTransitive(t[1..], rest, s);
      if t[0] == ',' {
        var more := SkipSpace(t[1..]);
        SkipSuffix(t[1..]);
        DecodeMembersSuffix(more, Put(acc, m.key, m.value));
        SuffixTransitive(DecodeMembers(s, acc).value.1, more, t[1..]);
        SuffixTransitive(DecodeMembers(s, acc).value.1, t[1..], s);
      }
    }
  }

  // ----- strings

  lemma HexCharValue(d: nat)
    requires d < 16
    ensures HexValue(HexChar(d)) == Some(d)
  {
  }

  lemma {:induction false} UnescapeEscaped(c: char, t: string)
    requires EscapeChar(c)[0] == '\\'
    ensures Unescape(EscapeChar(c)[1..] + t) == Some((c, t))
  {
    var s := EscapeChar(c)[1..] + t;
    if c in "\"\\\n\r\t\U{c}\U{8}" {
      assert s[1..] == t;
    } else {
      HexCharValue(c as int / 16);
      HexCharValue(c as int % 16);
      assert s[1..][..4] == ['0', '0', HexChar(c as int / 16), HexChar(c as int % 16)];
      assert HexFour(s[1..]) == Some(c as int);
      assert s[5..] == t;
    }
  }

  /** One escaped character in front of text that already scans. */
  lemma {:induction false} ScanOne(c: char, tail: string)
    requires ScanString(tail).Some?
    ensures ScanString(EscapeChar(c) + tail) == Some(([c] + ScanString(tail).value.0, ScanString(tail).value.1))
  {
    var e := EscapeChar(c);
    assert (e + tail)[1..] == e[1..] + tail;
    if e[0] == '\\' {
      UnescapeEscaped(c, tail);
    } else {
      assert e[1..] + tail == tail;
    }
  }

  lemma {:induction false} ScanEscaped(s: string, rest: string)
    ensures ScanString(Escape(s) + "\"" + rest) == Some((s, rest))
  {
    if s == "" {
      assert (Escape(s) + "\"" + rest)[1..] == rest;
    } else {
      var tail := Escape(s[1..]) + "\"" + rest;
      ScanEscaped(s[1..], rest);
      ScanOne(s[0], tail);
      assert Escape(s) + "\"" + rest == EscapeChar(s[0]) + tail;
      assert s == [s[0]] + s[1..];
    }
  }

  lemma {:induction false} ScanQuoted(s: string, rest: string)
    ensures Quote(s) != "" && Quote(s)[0] == '"'
    ensures ScanString((Quote(s) + rest)[1..]) == Some((s, rest))
  {
    ScanEscaped(s, rest);
    assert (Quote(s) + rest)[1..] == Escape(s) + "\"" + rest;
  }

  // ----- numbers

  /** Text that cannot be read as more digits, a fraction or an exponent. */
  predicate EndsNumber(s: string) {
    s != "" ==> !IsDigit(s[0]) && s[0] != '.' && s[0] != 'e' && s[0] != 'E'
  }

  lemma {:induction false} WholeAppend(whole: string, u: string)
    requires Whole(whole) && (u != "" ==> !IsDigit(u[0]))
    ensures var t := whole + u;
            t != "" && IsDigit(t[0]) && WholeLength(t) == |whole| && t[..|whole|] == whole && t[|whole|..] == u
  {
    SpanAppend(IsDigit, whole, u);
  }

  /** A sign other than that of a negative infinity in front of a number. */
  lemma {:induction false} DecodeSigned(negative: bool, t: string)
    requires t != "" && IsDigit(t[0])
    ensures DecodeValue(Sign(negative) + t) == DecodeUnsigned(negative, t)
  {
    hide DecodeUnsigned;
    assert ("-" + t)[1..] == t && "" + t == t;
  }

  lemma {:induction false} DecodeNatural(negative: bool, num: string, rest: string)
    requires Whole(num) && EndsNumber(rest)
    ensures All(IsDigit, num) && var m: int := NumeralValue(num);
            DecodeUnsigned(negative, num + rest) == Some((Int(if negative then -m else m), rest))
  {
    hide NumeralValue, WholeLength;
    WholeAppend(num, rest);
    assert FracLength(rest) == 0 && rest[0..] == rest && ExpLength(rest) == 0;
  }

  lemma {:induction false} FracAppend(frac: string, rest: string)
    requires Frac(frac) && (rest != "" ==> !IsDigit(rest[0]) && rest[0] != '.')
    ensures FracLength(frac + rest) == |frac|
  {
    if frac != "" {
      assert (frac + rest)[1..] == frac[1..] + rest;
      SpanAppend(IsDigit, frac[1..], rest);
    }
  }

  lemma {:induction false} ExpAppend(exp: string, rest: string)
    requires Exp(exp) && EndsNumber(rest)
    ensures ExpLength(exp + rest) == |exp|
  {
    if exp != "" {
      var k := if |exp| > 1 && exp[1] in "+-" then 2 else 1;
      assert (exp + rest)[k..] == exp[k..] + rest;
      SpanAppend(IsDigit, exp[k..], rest);
    }
  }

  lemma {:induction false} FracStarts(frac: string, exp: string, rest: string)
    requires Frac(frac) && Exp(exp) && EndsNumber(rest)
    ensures exp + rest != "" ==> !IsDigit((exp + rest)[0]) && (exp + rest)[0] != '.'
    ensures frac + (exp + rest) != "" ==> !IsDigit((frac + (exp + rest))[0])
  {
  }

  lemma {:induction false} DecodeDecimal(negative: bool, whole: string, frac: string, exp: string, rest: string)
    requires Whole(whole) && Frac(frac) && Exp(exp) && (frac != "" || exp != "") && EndsNumber(rest)
    ensures DecodeUnsigned(negative, whole + (frac + (exp + rest)))
         == Some((Float(Decimal(negative, whole, frac, exp)), rest))
  {
    hide Whole, Frac, Exp, WholeLength, FracLength, ExpLength, EndsNumber;
    var u := frac + (exp + rest);
    FracStarts(frac, exp, rest);
    WholeAppend(whole, u);
    FracAppend(frac, exp + rest);
    assert u[..|frac|] == frac && u[|frac|..] == exp + rest;
    ExpAppend(exp, rest);
    assert (exp + rest)[..|exp|] == exp && (exp + rest)[|exp|..] == rest;
  }

  lemma {:induction false} DecodePrintedFloat(f: FloatText, rest: string)
    requires ValidFloat(f) && (f.Decimal? ==> EndsNumber(rest))
    ensures DecodeValue(PrintFloat(f) + rest) == Some((Float(f), rest))
  {
    hide DecodeUnsigned, DecodeValue, Whole, Frac, Exp, EndsNumber;
    match f
    case NaN => DecodeConstant("NaN", rest);
    case Infinite(negative) =>
      DecodeConstant(if negative then "-Infinity" else "Infinity", rest);
      assert PrintFloat(f) == if negative then "-Infinity" else "Infinity";
    case Decimal(negative, whole, frac, exp) =>
      var t := whole + (frac + (exp + rest));
      WholeStarts(whole);
      DecodeDecimal(negative, whole, frac, exp, rest);
      DecodeSigned(negative, t);
      assert PrintFloat(f) + rest == Sign(negative) + t;
  }

  lemma {:induction false} WholeStarts(whole: string)
    requires Whole(whole)
    ensures whole != "" && IsDigit(whole[0])
  {
  }

  lemma {:induction false} DecodeConstant(c: string, rest: string)
    requires c in ["NaN", "Infinity", "-Infinity"]
    ensures DecodeValue(c + rest) ==
            Some((Float(if c == "NaN" then NaN else Infinite(c == "-Infinity")), rest))
  {
    hide DecodeUnsigned;
    var s := c + rest;
    assert s[|c|..] == rest && s[..|c|] == c;
    if c == "-Infinity" { assert s[1..] == "Infinity" + rest; }
  }

  lemma {:induction false} DecodePrintedInt(n: int, rest: string)
    requires EndsNumber(rest)
    ensures DecodeValue(PrintInt(n) + rest) == Some((Int(n), rest))
  {
    hide DecodeUnsigned, DecodeValue, Numeral, NumeralValue, EndsNumber;
    var m: nat := if n < 0 then -n else n;
    NumeralRoundTrip(m);
    DecodeNatural(n < 0, Numeral(m), rest);
    DecodeSigned(n < 0, Numeral(m) + rest);
    assert PrintInt(n) + rest == Sign(n < 0) + (Numeral(m) + rest);
  }

  // ----- layout

  lemma {:induction false} SkipGap(gap: string, t: string)
    requires All(IsJsonSpace, gap)
    requires t != "" ==> !IsJsonSpace(t[0])
    ensures SkipSpace(gap + t) == t
  {
    SpanAppend(IsJsonSpace, gap, t);
  }

  /** A comma or a colon, with spaces after it. */
  ghost predicate Separates(sep: string, c: char) {
    sep != "" && sep[0] == c && All(IsJsonSpace, sep[1..])
  }

  /** Text whose next token, after spaces, is the closing bracket c, with rest after it. */
  ghost predicate Closes(tail: string, c: char, rest: string) {
    && EndsNumber(tail)
    && SkipSpace(tail) != "" && SkipSpace(tail)[0] == c && SkipSpace(tail)[1..] == rest
  }

  lemma {:induction false} GapCloses(gap: string, c: char, rest: string)
    requires All(IsJsonSpace, gap) && (c == ']' || c == '}')
    ensures Closes(gap + ([c] + rest), c, rest)
  {
    SkipGap(gap, [c] + rest);
    if gap != "" { assert (gap + ([c] + rest))[0] == gap[0]; }
  }

  lemma {:induction false} ItemSeparates(st: Style, d: nat)
    requires ValidStyle(st)
    ensures Separates(st.item + Gap(st, d), ',')
  {
    AllAppend(IsJsonSpace, st.item[1..], Gap(st, d));
    assert (st.item + Gap(st, d))[1..] == st.item[1..] + Gap(st, d);
  }

  lemma {:induction false} SkipSeparator(sep: string, c: char, more: string)
    requires Separates(sep, c) && (c == ',' || c == ':')
    requires more != "" && StartsValue(more[0])
    ensures (sep + more)[0] == c && SkipSpace(sep + more) == sep + more
    ensures SkipSpace((sep + more)[1..]) == more
    ensures EndsNumber(sep + more)
  {
    SkipGap("", sep + more);
    assert "" + (sep + more) == sep + more;
    assert (sep + more)[1..] == sep[1..] + more;
    SkipGap(sep[1..], more);
  }

  /** How the text of a value can begin. */
  predicate StartsValue(c: char) {
    IsDigit(c) || c in "-\"[{ntfNI"
  }

  lemma {:induction false} PrintStarts(v: Json, st: Style, d: nat)
    requires WellFormed(v)
    ensures Print(v, st, d) != "" && StartsValue(Print(v, st, d)[0])
  {
  }

  lemma {:induction false} PrintItemsStarts(items: seq<Json>, st: Style, d: nat)
    requires items != [] && WellFormed(items[0])
    ensures PrintItems(items, st, d) != "" && StartsValue(PrintItems(items, st, d)[0])
  {
    PrintStarts(items[0], st, d);
  }

  lemma {:induction false} PrintMembersStarts(ms: seq<Member>, st: Style, d: nat)
    requires ms != []
    ensures PrintMembers(ms, st, d) != "" && PrintMembers(ms, st, d)[0] == '"'
  {
  }

  lemma {:induction false} PutAppends(ms: seq<Member>, key: string, v: Json)
    requires forall m :: m in ms ==> m.key != key
    ensures Put(ms, key, v) == ms + [Member(key, v)]
  {
    if ms != [] {
      PutAppends(ms[1..], key, v);
      assert ms == [ms[0]] + ms[1..];
    }
  }

  // ----- one step of the reader

  lemma {:induction false} ReadArray(s: string, body: string)
    requires s != "" && s[0] == '[' && SkipSpace(s[1..]) == body && body != "" && body[0] != ']'
    requires DecodeItems(body).Some?
    ensures DecodeValue(s) == Some((Arr(DecodeItems(body).value.0), DecodeItems(body).value.1))
  {
  }

  lemma {:induction false} ReadObject(s: string, body: string)
    requires s != "" && s[0] == '{' && SkipSpace(s[1..]) == body && body != "" && body[0] != '}'
    requires DecodeMembers(body, []).Some?
    ensures DecodeValue(s) == Some((Obj(DecodeMembers(body, []).value.0), DecodeMembers(body, []).value.1))
  {
  }

  lemma {:induction false} ReadEmpty(s: string, rest: string)
    requires s != "" && SkipSpace(s[1..]) != "" && SkipSpace(s[1..])[1..] == rest
    ensures s[0] == '[' && SkipSpace(s[1..])[0] == ']' ==> DecodeValue(s) == Some((Arr([]), rest))
    ensures s[0] == '{' && SkipSpace(s[1..])[0] == '}' ==> DecodeValue(s) == Some((Obj([]), rest))
  {
  }

  lemma {:induction false} ReadLastItem(s: string, v: Json, tail: string, rest: string)
    requires DecodeValue(s) == Some((v, tail)) && Closes(tail, ']', rest)
    ensures DecodeItems(s) == Some(([v], rest))
  {
  }

  lemma {:induction false} ReadItem(s: string, v: Json, tail: string, more: string)
    requires DecodeValue(s) == Some((v, tail)) && SkipSpace(tail) == tail && tail != "" && tail[0] == ','
    requires SkipSpace(tail[1..]) == more && DecodeItems(more).Some?
    ensures DecodeItems(s) == Some(([v] + DecodeItems(more).value.0, DecodeItems(more).value.1))
  {
  }

  /** A quoted key and a colon, with the reader left at the text of the value. */
  ghost predicate AtMember(s: string, key: string, text: string) {
    && s != "" && s[0] == '"'
    && ScanString(s[1..]).Some? && ScanString(s[1..]).value.0 == key
    && var t := SkipSpace(ScanString(s[1..]).value.1);
    t != "" && t[0] == ':' && SkipSpace(t[1..]) == text
  }

  lemma {:induction false} ReadKey(key: string, colon: string, text: string)
    requires Separates(colon, ':') && text != "" && StartsValue(text[0])
    ensures AtMember(Quote(key) + (colon + text), key, text)
  {
    ScanQuoted(key, colon + text);
    SkipSeparator(colon, ':', text);
  }

  lemma {:induction false} ReadMember(s: string, m: Member, text: string, tail: string)
    requires AtMember(s, m.key, text) && DecodeValue(text) == Some((m.value, tail))
    ensures DecodeMember(s) == Some((m, tail))
  {
  }

  lemma {:induction false} ReadLastMember(s: string, m: Member, tail: string, rest: string, acc: seq<Member>)
    requires DecodeMember(s) == Some((m, tail)) && Closes(tail, '}', rest)
    ensures DecodeMembers(s, acc) == Some((Put(acc, m.key, m.value), rest))
  {
  }

  lemma {:induction false} ReadNextMember(s: string, m: Member, tail: string, more: string, acc: seq<Member>)
    requires DecodeMember(s) == Some((m, tail))
    requires SkipSpace(tail) == tail && tail != "" && tail[0] == ',' && SkipSpace(tail[1..]) == more
    ensures DecodeMembers(s, acc) == DecodeMembers(more, Put(acc, m.key, m.value))
  {
  }

  // ----- the text of compound values

  lemma {:induction false} ArrayText(items: seq<Json>, st: Style, d: nat, rest: string)
    ensures var s := Print(Arr(items), st, d) + rest;
            && s != "" && s[0] == '['
            && s[1..] == if items == [] then "" + ("]" + rest)
                         else Gap(st, d + 1) + (PrintItems(items, st, d + 1) + (Gap(st, d) + ("]" + rest)))
  {
    hide PrintItems, Gap;
  }

  lemma {:induction false} ObjectText(ms: seq<Member>, st: Style, d: nat, rest: string)
    ensures var s := Print(Obj(ms), st, d) + rest;
            && s != "" && s[0] == '{'
            && s[1..] == if ms == [] then "" + ("}" + rest)
                         else Gap(st, d + 1) + (PrintMembers(ms, st, d + 1) + (Gap(st, d) + ("}" + rest)))
  {
    hide PrintMembers, Gap;
  }

  lemma {:induction false} ItemsText(items: seq<Json>, st: Style, d: nat, tail: string)
    requires items != []
    ensures PrintItems(items, st, d) + tail
         == Print(items[0], st, d)
            + if |items| == 1 then tail
              else (st.item + Gap(st, d)) + (PrintItems(items[1..], st, d) + tail)
  {
  }

  lemma {:induction false} MembersText(ms: seq<Member>, st: Style, d: nat, tail: string)
    requires ms != []
    ensures PrintMembers(ms, st, d) + tail
         == Quote(ms[0].key)
            + (st.colon
               + (Print(ms[0].value, st, d)
                  + if |ms| == 1 then tail
                    else (st.item + Gap(st, d)) + (PrintMembers(ms[1..], st, d) + tail)))
  {
  }

  // ----- values

  /** The text of the value could go on with more digits, a fraction or an exponent. */
  predicate Continues(v: Json) { v.Int? || (v.Float? && v.f.Decimal?) }

  /** `raw_decode` of a printed value, followed by any text that does not continue it when it
      is a number, returns that value and stops exactly at that text. */
  lemma {:induction false} DecodePrint(v: Json, st: Style, d: nat, rest: string)
    requires WellFormed(v) && ValidStyle(st) && (Continues(v) ==> EndsNumber(rest))
    ensures DecodeValue(Print(v, st, d) + rest) == Some((v, rest))
    decreases v, 2
  {
    match v
    case Arr(items) => DecodePrintArray(items, st, d, rest);
    case Obj(ms) => DecodePrintObject(ms, st, d, rest);
    case _ => DecodePrintScalar(v, st, d, rest);
  }

  lemma {:induction false} DecodePrintScalar(v: Json, st: Style, d: nat, rest: string)
    requires !v.Arr? && !v.Obj? && WellFormed(v) && (Continues(v) ==> EndsNumber(rest))
    ensures DecodeValue(Print(v, st, d) + rest) == Some((v, rest))
  {
    var s := Print(v, st, d) + rest;
    match v
    case Null => assert s[4..] == rest;
    case Bool(b) => assert s[if b then 4 else 5..] == rest;
    case Int(n) => DecodePrintedInt(n, rest);
    case Float(f) => DecodePrintedFloat(f, rest);
    case Str(str) => ScanQuoted(str, rest);
  }

  lemma {:induction false} DecodePrintArray(items: seq<Json>, st: Style, d: nat, rest: string)
    requires WellFormed(Arr(items)) && ValidStyle(st)
    ensures DecodeValue(Print(Arr(items), st, d) + rest) == Some((Arr(items), rest))
    decreases items, 1
  {
    hide Print, PrintItems, DecodeValue, DecodeItems, Gap, ValidStyle;
    var s := Print(Arr(items), st, d) + rest;
    ArrayText(items, st, d, rest);
    if items == [] {
      SkipGap("", "]" + rest);
      ReadEmpty(s, rest);
    } else {
      var tail := Gap(st, d) + ("]" + rest);
      var body := PrintItems(items, st, d + 1) + tail;
      PrintItemsStarts(items, st, d + 1);
      SkipGap(Gap(st, d + 1), body);
      GapCloses(Gap(st, d), ']', rest);
      DecodePrintItems(items, st, d + 1, tail, rest);
      ReadArray(s, body);
    }
  }

  lemma {:induction false} DecodePrintItems(items: seq<Json>, st: Style, d: nat, tail: string, rest: string)
    requires items != [] && WellFormed(Arr(items)) && ValidStyle(st) && Closes(tail, ']', rest)
    ensures DecodeItems(PrintItems(items, st, d) + tail) == Some((items, rest))
    decreases items, 0
  {
    hide Print, PrintItems, DecodeValue, DecodeItems, Gap, SkipSpace;
    var s := PrintItems(items, st, d) + tail;
    ItemsText(items, st, d, tail);
    if |items| == 1 {
      DecodePrint(items[0], st, d, tail);
      ReadLastItem(s, items[0], tail, rest);
      assert items == [items[0]];
    } else {
      var more := PrintItems(items[1..], st, d) + tail;
      var sep := st.item + Gap(st, d);
      ItemSeparates(st, d);
      PrintItemsStarts(items[1..], st, d);
      SkipSeparator(sep, ',', more);
      DecodePrint(items[0], st, d, sep + more);
      DecodePrintItems(items[1..], st, d, tail, rest);
      ReadItem(s, items[0], sep + more, more);
      assert items == [items[0]] + items[1..];
    }
  }

  lemma {:induction false} DecodePrintObject(ms: seq<Member>, st: Style, d: nat, rest: string)
    requires WellFormed(Obj(ms)) && ValidStyle(st)
    ensures DecodeValue(Print(Obj(ms), st, d) + rest) == Some((Obj(ms), rest))
    decreases ms, 1
  {
    hide Print, PrintMembers, DecodeValue, DecodeMembers, Gap, ValidStyle;
    var s := Print(Obj(ms), st, d) + rest;
    ObjectText(ms, st, d, rest);
    if ms == [] {
      SkipGap("", "}" + rest);
      ReadEmpty(s, rest);
    } else {
      var tail := Gap(st, d) + ("}" + rest);
      var body := PrintMembers(ms, st, d + 1) + tail;
      PrintMembersStarts(ms, st, d + 1);
      SkipGap(Gap(st, d + 1), body);
      GapCloses(Gap(st, d), '}', rest);
      assert [] + ms == ms;
      DecodePrintMembers([], ms, st, d + 1, tail, rest);
      ReadObject(s, body);
    }
  }

  lemma {:induction false} DecodePrintMembers(acc: seq<Member>, ms: seq<Member>, st: Style, d: nat,
                                              tail: string, rest: string)
    requires ms != [] && ValidStyle(st) && Closes(tail, '}', rest)
    requires DistinctKeys(acc + ms) && forall m :: m in ms ==> WellFormed(m.value)
    ensures DecodeMembers(PrintMembers(ms, st, d) + tail, acc) == Some((acc + ms, rest))
    decreases ms, 0
  {
    var s := PrintMembers(ms, st, d) + tail;
    var key, v := ms[0].key, ms[0].value;
    MembersText(ms, st, d, tail);
    PutFresh(acc, ms);
    PrintStarts(v, st, d);
    if |ms| == 1 {
      var text := Print(v, st, d) + tail;
      ReadKey(key, st.colon, text);
      DecodePrint(v, st, d, tail);
      ReadMember(s, ms[0], text, tail);
      ReadLastMember(s, ms[0], tail, rest, acc);
      assert ms == [ms[0]];
    } else {
      var more := PrintMembers(ms[1..], st, d) + tail;
      var sep := st.item + Gap(st, d);
      var text := Print(v, st, d) + (sep + more);
      ItemSeparates(st, d);
      PrintMembersStarts(ms[1..], st, d);
      SkipSeparator(sep, ',', more);
      ReadKey(key, st.colon, text);
      DecodePrint(v, st, d, sep + more);
      ReadMember(s, ms[0], text, sep + more);
      ReadNextMember(s, ms[0], sep + more, more, acc);
      MoveHead(acc, ms);
      DecodePrintMembers(acc + [ms[0]], ms[1..], st, d, tail, rest);
    }
  }

  lemma {:induction false} MoveHead<T>(a: seq<T>, b: seq<T>)
    requires b != []
    ensures a + [b[0]] + b[1..] == a + b
  {
  }

  lemma {:induction false} PutFresh(acc: seq<Member>, ms: seq<Member>)
    requires ms != [] && DistinctKeys(acc + ms)
    ensures Put(acc, ms[0].key, ms[0].value) == acc + [ms[0]]
  {
    var all := acc + ms;
    forall m | m in acc ensures m.key != ms[0].key {
      var i :| 0 <= i < |acc| && acc[i] == m;
      assert all[i] == m && all[|acc|] == ms[0];
    }
    PutAppends(acc, ms[0].key, ms[0].value);
  }

  lemma {:induction false} SpacesEndValue(post: string)
    requires All(IsJsonSpace, post)
    ensures EndsNumber(post)
  {
  }

  /** `json.loads(json.dumps(v, ...) + "\n") == v` for every layout. */
  lemma {:induction false} LoadsPrint(v: Json, st: Style, d: nat, post: string)
    requires WellFormed(v) && ValidStyle(st) && All(IsJsonSpace, post)
    ensures Loads(Print(v, st, d) + post) == Some(v)
  {
    hide Print, DecodeValue, WellFormed, ValidStyle, EndsNumber, SkipSpace;
    var s := Print(v, st, d) + post;
    SpacesEndValue(post);
    PrintStarts(v, st, d);
    SkipGap("", s);
    assert "" + s == s;
    DecodePrint(v, st, d, post);
    SkipGap(post, "");
    assert post + "" == post;
  }
}
