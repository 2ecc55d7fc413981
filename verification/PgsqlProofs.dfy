/** Binding `$n` in the rewritten text against binding `%(key)s` in the original. */
module PgsqlProofs {
  import opened Text
  import opened Sorting
  import opened Pgsql

  /** The original text as the rewriter sees it. */
  datatype Token = Chr(c: char) | Param(key: string)

  function Tokens(w: Words, s: string): seq<Token>
    decreases |s|
  {
    if s == "" then []
    else
      match ParamAt(w, s)
      case Some((key, rest)) => [Param(key)] + Tokens(w, rest)
      case None => [Chr(s[0])] + Tokens(w, s[1..])
  }

  /** What a text means once parameters are bound: characters, values, and references that
      name no argument. */
  datatype Piece<+V> = Literal(c: char) | Bound(v: V) | Dangling

  function ByName<V>(ts: seq<Token>, parameters: map<string, V>): seq<Piece<V>>
    requires forall k :: Param(k) in ts ==> k in parameters
  {
    if ts == [] then []
    else
      assert ts[0] in ts && forall t :: t in ts[1..] ==> t in ts;
      [match ts[0] case Chr(c) => Literal(c) case Param(k) => Bound(parameters[k])] + ByName(ts[1..], parameters)
  }

  /** `$` and the digits after it name an argument; everything else is itself. */
  function ByPosition<V>(text: string, args: seq<V>): seq<Piece<V>>
    decreases |text|
  {
    if text == "" then []
    else if text[0] == '$' && Span(IsDigit, text[1..]) > 0 then
      var n := Span(IsDigit, text[1..]);
      var number := NumeralValue(text[1..][..n]);
      [if 1 <= number <= |args| then Bound(args[number - 1]) else Dangling] + ByPosition(text[1 + n..], args)
    else [Literal(text[0])] + ByPosition(text[1..], args)
  }

  // ----- where the parameters are

  lemma {:induction false} ParamRead(w: Words, s: string)
    ensures ParamAt(w, s).Some? ==>
              var (key, rest) := ParamAt(w, s).value;
              key != "" && All(w, key) && s == "%(" + (key + (")s" + rest))
  {
    if ParamAt(w, s).Some? {
      var (key, rest) := ParamAt(w, s).value;
      var u := s[2..];
      assert u == key + (")s" + rest) && s == "%(" + u;
    }
  }

  lemma {:induction false} ParamReads(w: Words, key: string, rest: string)
    requires key != "" && All(w, key)
    ensures ParamAt(w, "%(" + (key + (")s" + rest))) == Some((key, rest))
  {
    var s := "%(" + (key + (")s" + rest));
    assert !w(')') && s[2..] == key + (")s" + rest);
    SpanAppend(w, key, ")s" + rest);
    var n := |key|;
    assert s[2 + n..] == ")s" + rest && s[2..2 + n] == key && s[2 + n + 2..] == rest;
  }

  /** A parameter is found at the start of a text exactly when the text starts with `%(`, a
      non-empty run of word characters, and `)s`. */
  lemma {:induction false} ParamAtDecides(w: Words, s: string, key: string, rest: string)
    ensures ParamAt(w, s) == Some((key, rest)) <==> key != "" && All(w, key) && s == "%(" + (key + (")s" + rest))
  {
    hide ParamAt, All;
    ParamRead(w, s);
    if key != "" && All(w, key) { ParamReads(w, key, rest); }
  }

  function Literals(s: string): seq<Token> { seq(|s|, i requires 0 <= i < |s| => Chr(s[i])) }

  /** A parameter written anywhere after text without `%` is found there, whatever follows. */
  lemma {:induction false} ParameterFound(w: Words, pre: string, key: string, rest: string)
    requires '%' !in pre && key != "" && All(w, key)
    ensures var ts := Tokens(w, pre + ("%(" + (key + (")s" + rest))));
            ts == Literals(pre) + ([Param(key)] + Tokens(w, rest)) && key in KeysOf(ts, [])
  {
    hide ParamAt;
    LiteralPrefix(w, pre, "%(" + (key + (")s" + rest)));
    ParamAtDecides(w, "%(" + (key + (")s" + rest)), key, rest);
    var ts := Tokens(w, pre + ("%(" + (key + (")s" + rest))));
    KeysGrow(ts, []);
    assert ts[|pre|] == Param(key);
  }

  lemma {:induction false} TokensStep(w: Words, s: string)
    requires s != "" && s[0] != '%'
    ensures Tokens(w, s) == [Chr(s[0])] + Tokens(w, s[1..])
  {
  }

  lemma {:induction false} LiteralsStep(s: string, more: seq<Token>)
    requires s != ""
    ensures Literals(s) + more == [Chr(s[0])] + (Literals(s[1..]) + more)
  {
    assert Literals(s) == [Chr(s[0])] + Literals(s[1..]);
  }

  /** Text without `%` is taken as it is. */
  lemma {:induction false} LiteralPrefix(w: Words, pre: string, rest: string)
    requires '%' !in pre
    ensures Tokens(w, pre + rest) == Literals(pre) + Tokens(w, rest)
  {
    hide Tokens, Literals;
    if pre == "" {
      NoLiterals();
      assert pre + rest == rest && [] + Tokens(w, rest) == Tokens(w, rest);
    } else {
      assert (pre + rest)[0] == pre[0] && (pre + rest)[1..] == pre[1..] + rest;
      LiteralPrefix(w, pre[1..], rest);
      TokensStep(w, pre + rest);
      LiteralsStep(pre, Tokens(w, rest));
    }
  }

  lemma {:induction false} NoLiterals()
    ensures Literals("") == []
  {
  }

  // ----- the key list

  /** The key list after the tokens have been scanned. */
  function KeysOf(ts: seq<Token>, keys: seq<string>): seq<string> {
    if ts == [] then keys
    else KeysOf(ts[1..], if ts[0].Param? then AddKey(keys, ts[0].key) else keys)
  }

  /** The list only grows at its end, stays free of repetitions, and holds exactly the keys
      met. */
  lemma {:induction false} KeysGrow(ts: seq<Token>, keys: seq<string>)
    requires Distinct(keys)
    ensures keys <= KeysOf(ts, keys) && Distinct(KeysOf(ts, keys))
    ensures forall k :: k in KeysOf(ts, keys) <==> k in keys || Param(k) in ts
  {
    if ts != [] {
      KeysGrow(ts[1..], if ts[0].Param? then AddKey(keys, ts[0].key) else keys);
      assert forall k :: Param(k) in ts <==> ts[0] == Param(k) || Param(k) in ts[1..];
    }
  }

  /** A number handed out does not change while the list grows. */
  lemma {:induction false} NumberStays(keys: seq<string>, grown: seq<string>, key: string)
    requires keys <= grown && key in keys
    ensures key in grown && IndexOf(grown, key) == IndexOf(keys, key)
  {
    var i, j := IndexOf(keys, key), IndexOf(grown, key);
    assert grown[i] == key;
    assert forall m :: 0 <= m < j ==> grown[..j][m] != key;
    assert forall m :: 0 <= m < i ==> keys[..i][m] == grown[m];
  }

  /** The numbers used are exactly 1..n: every key of the final list is referenced, and each
      reference is to the one place of its key. */
  lemma {:induction false} NumbersExact(ts: seq<Token>, n: nat)
    ensures var keys := KeysOf(ts, []);
            1 <= n <= |keys| <==> exists k :: Param(k) in ts && k in keys && IndexOf(keys, k) + 1 == n
  {
    var keys := KeysOf(ts, []);
    KeysGrow(ts, []);
    if 1 <= n <= |keys| {
      var k := keys[n - 1];
      assert k in keys && Param(k) in ts;
      assert keys[IndexOf(keys, k)] == k;
    }
  }

  // ----- the rewritten text

  /** The tokens with every parameter written as the number of its key. */
  function Render(ts: seq<Token>, keys: seq<string>): string
    requires forall k :: Param(k) in ts ==> k in keys
  {
    if ts == [] then ""
    else
      assert ts[0] in ts && forall t :: t in ts[1..] ==> t in ts;
      (match ts[0] case Chr(c) => [c] case Param(k) => Reference(keys, k)) + Render(ts[1..], keys)
  }

  /** The scan writes what the final key list says, although the list was still growing. */
  lemma {:induction false} RewriteRenders(w: Words, s: string, keys: seq<string>, done: string)
    requires Distinct(keys)
    ensures var (ts, final_) := (Tokens(w, s), KeysOf(Tokens(w, s), keys));
            && (forall k :: Param(k) in ts ==> k in final_)
            && Rewrite(w, s, keys, done) == (done + Render(ts, final_), final_)
    decreases |s|
  {
    hide ParamAt, Reference;
    var ts := Tokens(w, s);
    var final_ := KeysOf(ts, keys);
    KeysGrow(ts, keys);
    if s == "" {
      assert done + "" == done;
    } else {
      match ParamAt(w, s) {
        case Some((key, rest)) =>
          var grown := AddKey(keys, key);
          assert ts == [Param(key)] + Tokens(w, rest) && ts[1..] == Tokens(w, rest);
          RewriteRenders(w, rest, grown, done + Reference(grown, key));
          KeysGrow(ts[1..], grown);
          SameReference(grown, final_, key);
          Regroup(done, Reference(grown, key), Render(ts[1..], final_));
        case None =>
          assert ts == [Chr(s[0])] + Tokens(w, s[1..]) && ts[1..] == Tokens(w, s[1..]);
          RewriteRenders(w, s[1..], keys, done + [s[0]]);
          Regroup(done, [s[0]], Render(ts[1..], final_));
      }
    }
  }

  lemma {:induction false} SameReference(keys: seq<string>, grown: seq<string>, key: string)
    requires keys <= grown && key in keys
    ensures key in grown && Reference(grown, key) == Reference(keys, key)
  {
    NumberStays(keys, grown, key);
  }

  // ----- when the meaning is kept

  predicate IsDigitToken(t: Token) { t.Chr? && IsDigit(t.c) }

  /** No `$` of the text's own before a digit, and no parameter directly before one. */
  predicate Clean(ts: seq<Token>) {
    forall i :: 0 <= i < |ts| - 1 && IsDigitToken(ts[i + 1]) ==> ts[i] != Chr('$') && !ts[i].Param?
  }

  /** Digit tokens at the start. */
  function LeadingDigits(ts: seq<Token>): (n: nat)
    ensures n <= |ts|
    ensures n > 0 <==> ts != [] && IsDigitToken(ts[0])
  {
    if ts == [] || !IsDigitToken(ts[0]) then 0 else 1 + LeadingDigits(ts[1..])
  }

  lemma {:induction false} RenderDigits(ts: seq<Token>, keys: seq<string>)
    requires forall k :: Param(k) in ts ==> k in keys
    ensures var n := LeadingDigits(ts);
            && (forall k :: Param(k) in ts[n..] ==> k in keys)
            && Span(IsDigit, Render(ts, keys)) == n && n <= |Render(ts, keys)|
            && Render(ts, keys)[n..] == Render(ts[n..], keys)
  {
    var n := LeadingDigits(ts);
    assert forall t :: t in ts[n..] ==> t in ts;
    if n > 0 {
      assert forall t :: t in ts[1..] ==> t in ts;
      RenderDigits(ts[1..], keys);
      assert Render(ts, keys) == [ts[0].c] + Render(ts[1..], keys);
      assert Render(ts, keys)[1..] == Render(ts[1..], keys);
      assert ts[1..][n - 1..] == ts[n..];
    } else {
      assert ts[0..] == ts;
      RenderStart(ts, keys);
    }
  }

  lemma {:induction false} RenderStart(ts: seq<Token>, keys: seq<string>)
    requires forall k :: Param(k) in ts ==> k in keys
    requires LeadingDigits(ts) == 0
    ensures Render(ts, keys) != "" ==> !IsDigit(Render(ts, keys)[0])
    ensures Span(IsDigit, Render(ts, keys)) == 0
  {
  }

  /** A `$` followed by a numeral, by digit characters of the text, and by the rest. */
  lemma {:induction false} ReadReference<V>(numeral: string, r: string, args: seq<V>)
    requires All(IsDigit, numeral)
    ensures var m := Span(IsDigit, r);
            numeral != "" || m > 0 ==>
              var tail := ByPosition(r[m..], args);
              && |ByPosition("$" + (numeral + r), args)| == 1 + |tail|
              && (m == 0 ==>
                    var number := NumeralValue(numeral);
                    ByPosition("$" + (numeral + r), args)
                    == [if 1 <= number <= |args| then Bound(args[number - 1]) else Dangling] + tail)
  {
    var digits, m := DigitsMeet(numeral, r), Span(IsDigit, r);
    if digits != "" {
      UnfoldReference("$" + (numeral + r), digits, r[m..], args);
    }
    if m == 0 { assert r[..0] == ""; assert numeral + "" == numeral; }
  }

  /** The digits after a `$`: the numeral and the digits the text goes on with. */
  ghost function DigitsMeet(numeral: string, r: string): (digits: string)
    requires All(IsDigit, numeral)
    ensures digits == numeral + r[..Span(IsDigit, r)] && All(IsDigit, digits)
    ensures ("$" + (numeral + r))[1..] == digits + r[Span(IsDigit, r)..]
  {
    var m := Span(IsDigit, r);
    AllAppend(IsDigit, numeral, r[..m]);
    SplitAt(r, m);
    Regroup(numeral, r[..m], r[m..]);
    assert ("$" + (numeral + r))[1..] == numeral + r;
    numeral + r[..m]
  }

  lemma {:induction false} SplitAt(r: string, m: nat)
    requires m <= |r|
    ensures r == r[..m] + r[m..]
  {
  }

  lemma {:induction false} UnfoldReference<V>(text: string, digits: string, tail: string, args: seq<V>)
    requires text != "" && text[0] == '$' && text[1..] == digits + tail
    requires digits != "" && All(IsDigit, digits) && (tail != "" ==> !IsDigit(tail[0]))
    ensures ByPosition(text, args)
         == [var n := NumeralValue(digits); if 1 <= n <= |args| then Bound(args[n - 1]) else Dangling]
            + ByPosition(tail, args)
  {
    SpanAppend(IsDigit, digits, tail);
    var n := Span(IsDigit, text[1..]);
    assert text[1..][..n] == digits && text[1 + n..] == tail;
  }

  /** Binding by position never yields more pieces than the text has tokens; it yields the
      named meaning when the text is clean, and fewer pieces when it is not. */
  lemma {:induction false} PositionAgainstName<V>(ts: seq<Token>, keys: seq<string>, args: seq<V>,
                                                  parameters: map<string, V>)
    requires forall k :: Param(k) in ts ==> k in keys && k in parameters
    requires |args| == |keys| && forall i :: 0 <= i < |keys| && keys[i] in parameters ==> args[i] == parameters[keys[i]]
    ensures var p := ByPosition(Render(ts, keys), args);
            if Clean(ts) then p == ByName(ts, parameters) else |p| < |ts|
    decreases |ts|
  {
    hide ByPosition, Reference;
    if ts == [] {
      EmptyMeans<V>(args);
    } else {
      var t, rest := ts[0], ts[1..];
      var r := Render(rest, keys);
      assert forall x :: x in rest ==> x in ts;
      assert t in ts;
      CleanSplit(ts);
      RenderDigits(rest, keys);
      var m := LeadingDigits(rest);
      assert forall x :: x in rest[m..] ==> x in ts;
      PositionAgainstName(rest, keys, args, parameters);
      PositionAgainstName(rest[m..], keys, args, parameters);
      AtMostTokens(rest[m..], parameters);
      if t.Param? {
        ReferenceMeans(keys, t.key, r, args);
      } else {
        CharMeans(t.c, r, args);
      }
    }
  }

  lemma {:induction false} EmptyMeans<V>(args: seq<V>)
    ensures ByPosition("", args) == []
  {
  }

  lemma {:induction false} AtMostTokens<V>(ts: seq<Token>, parameters: map<string, V>)
    requires forall k :: Param(k) in ts ==> k in parameters
    ensures |ByName(ts, parameters)| == |ts|
  {
    if ts != [] {
      assert forall x :: x in ts[1..] ==> x in ts;
      AtMostTokens(ts[1..], parameters);
    }
  }

  lemma {:induction false} CleanSplit(ts: seq<Token>)
    requires ts != []
    ensures Clean(ts) <==> Clean(ts[1..])
                           && ((ts[0] == Chr('$') || ts[0].Param?) ==> LeadingDigits(ts[1..]) == 0)
  {
    var rest := ts[1..];
    assert forall i :: 0 <= i < |rest| ==> rest[i] == ts[i + 1];
    if Clean(ts) {
      forall i | 0 <= i < |rest| - 1 && IsDigitToken(rest[i + 1]) ensures rest[i] != Chr('$') && !rest[i].Param? {
        assert IsDigitToken(ts[(i + 1) + 1]);
      }
      if |rest| > 0 && IsDigitToken(ts[0 + 1]) { assert ts[0] != Chr('$') && !ts[0].Param?; }
    }
    if Clean(rest) && ((ts[0] == Chr('$') || ts[0].Param?) ==> LeadingDigits(rest) == 0) {
      forall i | 0 <= i < |ts| - 1 && IsDigitToken(ts[i + 1]) ensures ts[i] != Chr('$') && !ts[i].Param? {
        if i > 0 { assert IsDigitToken(rest[(i - 1) + 1]); }
      }
    }
  }

  lemma {:induction false} ReferenceMeans<V>(keys: seq<string>, key: string, r: string, args: seq<V>)
    requires key in keys && |args| == |keys|
    ensures var m := Span(IsDigit, r);
            var p := ByPosition(Reference(keys, key) + r, args);
            && |p| == 1 + |ByPosition(r[m..], args)|
            && (m == 0 ==> p == [Bound(args[IndexOf(keys, key)])] + ByPosition(r, args))
  {
    var number := IndexOf(keys, key) + 1;
    var numeral := Numeral(number);
    assert Reference(keys, key) + r == "$" + (numeral + r);
    NumeralRoundTrip(number);
    ReadReference(numeral, r, args);
    if Span(IsDigit, r) == 0 { assert r[0..] == r; }
  }

  lemma {:induction false} CharMeans<V>(c: char, r: string, args: seq<V>)
    ensures var m := Span(IsDigit, r);
            var p := ByPosition([c] + r, args);
            if c == '$' && m > 0 then |p| == 1 + |ByPosition(r[m..], args)|
            else p == [Literal(c)] + ByPosition(r, args)
  {
    assert ([c] + r)[1..] == r;
    if c == '$' && Span(IsDigit, r) > 0 {
      ReadReference("", r, args);
      assert [c] + r == "$" + ("" + r);
    }
  }

  /** With all keys present, binding the returned arguments by position means the same as
      binding by name, exactly when the text has no `$digit` of its own and no parameter
      directly before a digit. */
  lemma {:induction false} RewriteKeepsMeaning<V>(w: Words, sql: string, parameters: map<string, V>,
                                                  text: string, args: seq<V>)
    requires var (out, keys) := Rewrite(w, sql, [], "");
             && text == out && |args| == |keys|
             && forall i :: 0 <= i < |keys| ==> keys[i] in parameters && args[i] == parameters[keys[i]]
    ensures forall k :: Param(k) in Tokens(w, sql) ==> k in parameters
    ensures ByPosition(text, args) == ByName(Tokens(w, sql), parameters) <==> Clean(Tokens(w, sql))
  {
    hide Rewrite, Tokens, ByPosition, ByName, Clean;
    var ts := Tokens(w, sql);
    var keys := KeysOf(ts, []);
    RewriteRenders(w, sql, [], "");
    assert "" + Render(ts, keys) == Render(ts, keys);
    KeysGrow(ts, []);
    forall k | Param(k) in ts ensures k in parameters {
      assert k in keys;
      assert keys[IndexOf(keys, k)] == k;
    }
    PositionAgainstName(ts, keys, args, parameters);
    AtMostTokens(ts, parameters);
  }

  /** A parameter directly before a digit: number 1 followed by the digit is read as number
      10, so the argument is left unbound. */
  lemma {:induction false} DigitAfterParameter<V>(w: Words, v: V)
    ensures Rewrite(w, "%(a)s0", [], "") == ("$10", ["a"])
    ensures ByPosition("$10", [v]) == [Dangling]
    ensures Tokens(w, "%(a)s0") == [Param("a"), Chr('0')]
    ensures ByName([Param("a"), Chr('0')], map["a" := v]) == [Bound(v), Literal('0')]
  {
    hide Rewrite, Tokens, ParamAt;
    ReadsKey(w);
    ReadsTen(v);
    RewriteStep(w, "%(a)s0", [], "");
    RewriteStep(w, "0", ["a"], "$1");
    assert "0"[1..] == "" && "$1" + "0" == "$10" && Numeral(1) == "1" && "" + "$" + "1" == "$1";
    RewriteEnd(w, ["a"], "$10");
    NamesBoth(v);
  }

  lemma {:induction false} NamesBoth<V>(v: V)
    ensures ByName([Param("a"), Chr('0')], map["a" := v]) == [Bound(v), Literal('0')]
  {
    var (ts, zero, parameters) := ([Param("a"), Chr('0')], [Chr('0')], map["a" := v]);
    assert ts[1..] == zero && zero[1..] == [];
    assert ByName(zero, parameters) == [Literal('0')] + ByName([], parameters);
    assert ByName(ts, parameters) == [Bound(v)] + ByName(zero, parameters);
  }

  lemma {:induction false} ReadsKey(w: Words)
    ensures ParamAt(w, "%(a)s0") == Some(("a", "0")) && ParamAt(w, "0").None?
    ensures Tokens(w, "%(a)s0") == [Param("a"), Chr('0')]
  {
    var s := "%(a)s0";
    assert w('a') && !w(')');
    assert s[2..] == "a" + ")s0";
    SpanAppend(w, "a", ")s0");
    assert ")s" <= s[3..] && s[2..3] == "a" && s[5..] == "0";
    assert Tokens(w, "0") == [Chr('0')] + Tokens(w, "0"[1..]);
  }

  lemma {:induction false} ReadsTen<V>(v: V)
    ensures ByPosition("$10", [v]) == [Dangling]
  {
    assert "$10"[1..] == "10" + "";
    SpanAppend(IsDigit, "10", "");
    NumeralRoundTrip(10);
    assert Numeral(10) == "10" && "$10"[1..][..2] == "10" && "$10"[3..] == "";
  }
}
