/** What the CQL gate lets through, and what literal splicing does to the scanner. */
module CqlProofs {
  import opened Text
  import opened Cql

  // ----- lexing of concatenations

  lemma {:induction false} LexAppend(st: Lex, a: string, b: string)
    ensures LexFrom(st, a + b) == LexFrom(LexFrom(st, a), b)
  {
    if b == "" {
      assert a + b == a;
    } else {
      assert (a + b)[..|a + b| - 1] == a + b[..|b| - 1];
      LexAppend(st, a, b[..|b| - 1]);
    }
  }

  lemma {:induction false} LexOne(st: Lex, c: char)
    ensures LexFrom(st, [c]) == Next(st, c)
  {
    assert [c][..0] == "";
  }

  /** Characters that are neither quotes nor backslashes leave an unescaped state alone. */
  lemma {:induction false} LexInert(st: Lex, s: string)
    requires !st.escape && forall i :: 0 <= i < |s| ==> s[i] != '\\' && s[i] != '\'' && s[i] != '"'
    ensures LexFrom(st, s) == st
  {
    if s != "" { LexInert(st, s[..|s| - 1]); }
  }

  /** Text between two quotes of one kind, itself free of that quote and of backslashes, leaves
      the scanner where it was, and no `;` in it counts. */
  lemma {:induction false} QuotedTextInert(q: char, body: string)
    requires (q == '\'' || q == '"') && q !in body && '\\' !in body
    ensures LexFrom(PLAIN, [q] + (body + [q])) == PLAIN
    ensures !HasLiveSemi([q] + (body + [q]))
  {
    hide HasLiveSemi;
    var open := Next(PLAIN, q);
    var t := [q] + (body + [q]);
    LexOne(PLAIN, q);
    LexAppend(PLAIN, [q], body + [q]);
    LexAppend(open, body, [q]);
    InsideStays(q, body);
    LexOne(open, q);
    forall i | 0 <= i < |t| ensures !LiveSemi(t, i) {
      if 0 < i < |t| - 1 {
        assert t[..i] == [q] + body[..i - 1];
        LexAppend(PLAIN, [q], body[..i - 1]);
        InsideStays(q, body[..i - 1]);
      }
    }
    NoLive(t);
  }

  lemma {:induction false} NoLive(t: string)
    requires forall i :: 0 <= i < |t| ==> !LiveSemi(t, i)
    ensures !HasLiveSemi(t)
  {
  }

  lemma {:induction false} InsideStays(q: char, body: string)
    requires (q == '\'' || q == '"') && q !in body && '\\' !in body
    ensures LexFrom(Next(PLAIN, q), body) == Next(PLAIN, q)
  {
    if body != "" {
      InsideStays(q, body[..|body| - 1]);
      assert body[|body| - 1] in body;
    }
  }

  /** Outside quotes a `;` with anything visible after it makes the text more than one
      statement. */
  lemma {:induction false} UnquotedSemiCounts(pre: string, post: string)
    requires LexFrom(PLAIN, pre) == PLAIN && Strip(post) != ""
    ensures Extra(pre + (";" + post))
  {
    hide Strip, LexFrom;
    var (t, i) := (pre + (";" + post), |pre|);
    assert t[i] == ';' && t[..i] == pre && t[i + 1..] == post;
    assert LiveSemi(t, i);
  }

  // ----- single statement

  /** In text that passed the scan, a live `;` can only be the last character. */
  lemma {:induction false} LiveOnlyLast(text: string, i: nat)
    requires Trimmed(text) && !Extra(text) && i < |text| && LiveSemi(text, i)
    ensures i == |text| - 1
  {
    if i < |text| - 1 {
      VisibleEnd(text, i + 1);
    }
  }

  lemma {:induction false} VisibleEnd(text: string, from: nat)
    requires from < |text| && Trimmed(text)
    ensures Strip(text[from..]) != ""
  {
    hide Strip;
    StripTrims(text[from..]);
    var t := text[from..];
    var pre, post :| All(IsSpace, pre) && All(IsSpace, post) && t == pre + Strip(t) + post;
    assert t[|t| - 1] == text[|text| - 1];
    AllAppend(IsSpace, pre, post);
    assert pre + "" + post == pre + post;
  }

  lemma {:induction false} PrefixLive(u: string, text: string, i: nat)
    requires u <= text && i < |u|
    ensures LiveSemi(u, i) <==> LiveSemi(text, i)
  {
    assert u[..i] == text[..i];
  }

  lemma {:induction false} StatementClean(sql: string)
    requires !Extra(Strip(sql))
    ensures !HasLiveSemi(Statement(sql))
  {
    hide Strip;
    var text, u := Strip(sql), Statement(sql);
    StripTrims(sql);
    forall i | 0 <= i < |u| ensures !LiveSemi(u, i) {
      PrefixLive(u, text, i);
      if LiveSemi(text, i) {
        LiveOnlyLast(text, i);
      }
    }
  }

  function LimitClause(limit: nat): string { " LIMIT " + Numeral(limit) }

  lemma {:induction false} ClauseInert(limit: nat)
    ensures forall i :: 0 <= i < |LimitClause(limit)| ==> LimitClause(limit)[i] !in "\\'\";"
  {
    var n := Numeral(limit);
    forall i | 0 <= i < |LimitClause(limit)| ensures LimitClause(limit)[i] !in "\\'\";" {
      if i >= 7 { assert LimitClause(limit)[i] == n[i - 7] && IsDigit(n[i - 7]); }
    }
  }

  lemma {:induction false} AppendClean(u: string, tail: string)
    requires !HasLiveSemi(u) && ';' !in tail
    ensures !HasLiveSemi(u + tail)
  {
    var r := u + tail;
    forall i | 0 <= i < |r| ensures !LiveSemi(r, i) {
      if i < |u| {
        PrefixLive(u, r, i);
      } else {
        assert r[i] == tail[i - |u|];
      }
    }
  }

  lemma {:induction false} TokenStarts(s: string)
    requires Lower(FirstToken(s)) == "select"
    ensures StartsSelect(s)
  {
    var t := FirstToken(s);
    assert t == s[..|t|];
    assert Lower(s)[..6] == Lower(t);
  }

  /** What reaches the driver starts with `select`, has no live `;`, and holds the whole word
      LIMIT when a positive limit was asked for. */
  lemma {:induction false} SingleLimitedStatement(w: Words, sql: string, limit: int)
    requires Passes(w, sql)
    ensures var r := FilterSql(w, sql, limit);
            StartsSelect(r) && !HasLiveSemi(r) && (limit > 0 ==> HasWord(w, r, "limit"))
  {
    hide Strip, NamesTable, SelectsInto, LocksRows, HasWord, StartsSelect;
    var u := Statement(sql);
    TokenStarts(u);
    StatementClean(sql);
    if limit > 0 && !HasWord(w, u, "limit") {
      ClauseInert(limit);
      AppendClean(u, LimitClause(limit));
      ClauseIsWord(w, u, limit);
      StartsStays(u, LimitClause(limit));
    }
  }

  lemma {:induction false} StartsStays(u: string, tail: string)
    requires StartsSelect(u)
    ensures StartsSelect(u + tail)
  {
    assert Lower(u + tail)[..6] == Lower(u)[..6];
  }

  lemma {:induction false} ClauseIsWord(w: Words, u: string, limit: nat)
    ensures WordAt(w, u + LimitClause(limit), |u| + 1, "limit")
    ensures HasWord(w, u + LimitClause(limit), "limit")
  {
    var r := u + LimitClause(limit);
    assert r[|u|] == ' ' && r[|u| + 1] == 'L' && r[|u| + 2] == 'I' && r[|u| + 3] == 'M' && r[|u| + 4] == 'I';
    assert r[|u| + 5] == 'T' && r[|u| + 6] == ' ';
    assert !w(' ') && w('L') && w('T');
    var p := "limit";
    forall k | 0 <= k < |p| ensures MatchesLetter(p[k], r[|u| + 1 + k]) {
      assert k == 0 || k == 1 || k == 2 || k == 3 || k == 4;
    }
    assert MatchesAt(r, |u| + 1, p) && Boundary(w, r, |u| + 1) && Boundary(w, r, |u| + 1 + 5);
    WordFound(w, r, |u| + 1, p);
  }

  lemma {:induction false} WordFound(w: Words, s: string, i: nat, word: string)
    requires i < |s| && WordAt(w, s, i, word)
    ensures HasWord(w, s, word)
  {
  }

  /** What is added is nothing, or a LIMIT clause with the number asked for. */
  lemma {:induction false} LimitAskedFor(w: Words, sql: string, limit: int)
    requires Passes(w, sql)
    ensures var (u, r) := (Statement(sql), FilterSql(w, sql, limit));
            if limit <= 0 || HasWord(w, u, "limit") then r == u
            else exists number :: r == u + (" LIMIT " + number) && All(IsDigit, number) && NumeralValue(number) == limit
  {
    hide Strip, NamesTable, SelectsInto, LocksRows, HasWord, StartsSelect, Numeral;
    TokenStarts(Statement(sql));
    if limit > 0 { NumeralRoundTrip(limit); }
  }

  // ----- what the gate refuses, and what it lets through

  /** Letters a to z in either case. */
  predicate AsciiLetter(c: char) { 'a' <= c <= 'z' || 'A' <= c <= 'Z' }

  /** The text is this lower-case word in whatever case. */
  predicate Spells(text: string, word: string) {
    |text| == |word| && forall k :: 0 <= k < |word| ==> AsciiLetter(text[k]) && LowerChar(text[k]) == word[k]
  }

  /** A word in whatever case, where anything but word characters is around it. */
  lemma {:induction false} SpelledWord(w: Words, s: string, i: nat, text: string, word: string)
    requires text != "" && Spells(text, word) && i + |text| <= |s| && s[i..i + |text|] == text
    requires (i > 0 ==> !w(s[i - 1])) && (i + |text| < |s| ==> !w(s[i + |text|]))
    ensures i < |s| && WordAt(w, s, i, word)
  {
    SpelledMatches(s, i, text, word);
    assert s[i] == s[i..i + |text|][0] && s[i + |text| - 1] == s[i..i + |text|][|text| - 1];
    assert AsciiLetter(s[i]) && AsciiLetter(s[i + |text| - 1]);
  }

  lemma {:induction false} SpelledMatches(s: string, i: nat, text: string, word: string)
    requires Spells(text, word) && i + |text| <= |s| && s[i..i + |text|] == text
    ensures MatchesAt(s, i, word)
  {
    forall k | 0 <= k < |word| ensures MatchesLetter(word[k], s[i + k]) {
      assert s[i + k] == s[i..i + |text|][k];
    }
  }

  /** SELECT ... INTO is refused, in whatever case and with anything between and after. */
  lemma {:induction false} IntoRefused(w: Words, sql: string, select: string, a: string, into: string, b: string)
    requires Spells(select, "select") && Spells(into, "into") && (b != "" ==> !w(b[0]))
    requires Statement(sql) == select + (" " + (a + (" " + (into + b))))
    ensures !Passes(w, sql)
  {
    hide Statement, Extra, FirstToken, Lower, LocksRows, NamesTable, Strip, WordAt, Spells;
    var s := Statement(sql);
    var j := 6 + 1 + |a| + 1;
    assert |select| == 6 && |into| == 4 by { SpelledLength(select, "select"); SpelledLength(into, "into"); }
    assert !w(' ');
    assert s[0..6] == select && s[6] == ' ';
    SpelledWord(w, s, 0, select, "select");
    assert s[j - 1] == ' ' && s[j..j + 4] == into && (j + 4 < |s| ==> s[j + 4] == b[0]);
    SpelledWord(w, s, j, into, "into");
  }

  lemma {:induction false} SpelledLength(text: string, word: string)
    requires Spells(text, word)
    ensures |text| == |word|
  {
  }

  /** FOR UPDATE is refused, in whatever case and with any blanks between. */
  lemma {:induction false} LockRefused(w: Words, sql: string, a: string, for_: string, gap: string, update: string,
                                       b: string)
    requires Spells(for_, "for") && Spells(update, "update") && gap != "" && All(IsSpace, gap)
    requires (a != "" ==> !w(a[|a| - 1])) && (b != "" ==> !w(b[0]))
    requires Statement(sql) == a + (for_ + (gap + (update + b)))
    ensures !Passes(w, sql)
  {
    hide Statement, Extra, FirstToken, Lower, SelectsInto, NamesTable, Strip, Spells;
    var s := Statement(sql);
    var (i, j) := (|a|, |a| + 3 + |gap|);
    assert |for_| == 3 && |update| == 6 by { SpelledLength(for_, "for"); SpelledLength(update, "update"); }
    assert s[i..i + 3] == for_ && s[j..j + 6] == update && (j + 6 < |s| ==> s[j + 6] == b[0]);
    SpelledMatches(s, i, for_, "for");
    SpelledMatches(s, j, update, "update");
    assert forall k :: i + 3 <= k < j ==> s[k] == gap[k - i - 3];
    SpelledEnds(w, for_, "for");
    SpelledEnds(w, update, "update");
    assert s[i] == for_[0] && s[j + 5] == update[5];
    assert Boundary(w, s, i) && Boundary(w, s, j + 6);
  }

  lemma {:induction false} SpelledEnds(w: Words, text: string, word: string)
    requires Spells(text, word) && text != ""
    ensures w(text[0]) && w(text[|text| - 1])
  {
    assert AsciiLetter(text[0]) && AsciiLetter(text[|text| - 1]);
  }

  /** The letters of a word at a place, with no word character right before them, if they
      start with one themselves. */
  ghost predicate StartsAlone(w: Words, s: string, i: int, word: string) {
    0 <= i < |s| && MatchesAt(s, i, word) && (i == 0 || !w(s[i]) || !w(s[i - 1]))
  }

  ghost predicate EndsAlone(w: Words, s: string, end: int) { 0 <= end <= |s| && (end == |s| || !w(s[end])) }

  /** FROM counts only where it stands alone: `xfrom t` names no table. */
  lemma {:induction false} FromStandsAlone(w: Words, s: string)
    requires NamesTable(w, s)
    ensures exists i :: StartsAlone(w, s, i, "from") && i + 4 < |s| && IsSpace(s[i + 4])
  {
    hide MatchesLetter, StartsName, IsSpace;
    var i, j :| 0 <= i < |s| && i + 5 <= j < |s| && Boundary(w, s, i) && MatchesAt(s, i, "from")
                && AllSpaces(s, i + 4, j) && StartsName(s[j]);
    assert StartsAlone(w, s, i, "from") && IsSpace(s[i + 4]);
  }

  /** FOR UPDATE counts only where both words stand alone: `xfor update` and `for updates`
      lock nothing. */
  lemma {:induction false} LockStandsAlone(w: Words, s: string)
    requires LocksRows(w, s)
    ensures exists i, j :: StartsAlone(w, s, i, "for") && i + 4 <= j && j + 6 <= |s|
                           && MatchesAt(s, j, "update") && EndsAlone(w, s, j + 6)
  {
    hide MatchesLetter, IsSpace;
    var i, j :| 0 <= i < |s| && i + 4 <= j < |s| && Boundary(w, s, i) && MatchesAt(s, i, "for")
                && AllSpaces(s, i + 3, j) && MatchesAt(s, j, "update") && Boundary(w, s, j + 6);
    LastLetter(w, s, j, "update");
    assert StartsAlone(w, s, i, "for") && EndsAlone(w, s, j + 6);
  }

  /** INTO counts only where both words stand alone. */
  lemma {:induction false} IntoStandsAlone(w: Words, s: string)
    requires SelectsInto(w, s)
    ensures exists i, j :: StartsAlone(w, s, i, "select") && EndsAlone(w, s, i + 6) && i + 7 <= j
                           && StartsAlone(w, s, j, "into") && EndsAlone(w, s, j + 4)
  {
    hide MatchesLetter;
    var i, j :| 0 <= i < |s| && i + 7 <= j < |s| && WordAt(w, s, i, "select") && WordAt(w, s, j, "into");
    LastLetter(w, s, i, "select");
    LastLetter(w, s, j, "into");
    assert StartsAlone(w, s, i, "select") && EndsAlone(w, s, i + 6);
    assert StartsAlone(w, s, j, "into") && EndsAlone(w, s, j + 4);
  }

  lemma {:induction false} LastLetter(w: Words, s: string, i: nat, word: string)
    requires i < |s| && MatchesAt(s, i, word) && word in ["select", "into", "update"]
    ensures w(s[i + |word| - 1])
  {
    var n := |word| - 1;
    assert MatchesLetter(word[n], s[i + n]);
  }

  /** A character of none of the words `into` and `update`, of no quote and no statement end. */
  predicate Plain(c: char) { !MatchesLetter('i', c) && !MatchesLetter('u', c) && c != ';' }

  /** A plain SELECT passes: columns and table free of `;` and of the letters that `into` and
      `update` begin with, the table's name starting as one. */
  lemma {:induction false} PlainSelectPasses(w: Words, select: string, columns: string, from: string, table: string)
    requires Spells(select, "select") && Spells(from, "from") && All(Plain, columns) && All(Plain, table)
    requires table != "" && StartsName(table[0]) && !IsSpace(table[|table| - 1])
    ensures Passes(w, select + (" " + (columns + (" " + (from + (" " + table))))))
  {
    hide Passes, Statement, Extra, FirstToken, Lower, SelectsInto, LocksRows, NamesTable, Strip, Spells, All, Plain;
    var s := select + (" " + (columns + (" " + (from + (" " + table)))));
    PlainStatement(s, select, columns, from, table);
    PlainWords(w, s, select, columns, from, table);
    PlainPasses(w, s);
  }

  lemma {:induction false} PlainPasses(w: Words, s: string)
    requires Statement(s) == s && s != "" && !Extra(Strip(s)) && Lower(FirstToken(s)) == "select"
    requires !SelectsInto(w, s) && !LocksRows(w, s) && NamesTable(w, s)
    ensures Passes(w, s)
  {
    hide Statement, Extra, FirstToken, Lower, SelectsInto, LocksRows, NamesTable, Strip;
  }

  lemma {:induction false} PlainStatement(s: string, select: string, columns: string, from: string, table: string)
    requires Spells(select, "select") && Spells(from, "from") && All(Plain, columns) && All(Plain, table)
    requires table != "" && !IsSpace(table[|table| - 1])
    requires s == select + (" " + (columns + (" " + (from + (" " + table)))))
    ensures Statement(s) == s && s != "" && !Extra(Strip(s)) && Lower(FirstToken(s)) == "select"
  {
    hide Strip, FirstToken, LexFrom;
    SpelledLength(select, "select");
    assert forall k :: 0 <= k < 6 ==> AsciiLetter(select[k]);
    assert s[0] == select[0] && s[|s| - 1] == table[|table| - 1];
    StripPadded("", s, "");
    assert "" + s + "" == s;
    NoSemi(s, select, columns, from, table);
    assert forall i :: 0 <= i < |s| ==> s[i] != ';';
    assert s == select + s[6..] && s[6..][0] == ' ';
    assert All(Visible, select);
    TokenOf(select, s[6..]);
    assert Lower(select) == "select";
  }

  lemma {:induction false} NoSemi(s: string, select: string, columns: string, from: string, table: string)
    requires Spells(select, "select") && Spells(from, "from") && All(Plain, columns) && All(Plain, table)
    requires s == select + (" " + (columns + (" " + (from + (" " + table)))))
    ensures forall c :: c in s ==> c != ';'
  {
    forall c | c in s ensures c != ';' {
      assert c in select || c == ' ' || c in columns || c in from || c in table;
    }
  }

  lemma {:induction false} PlainWords(w: Words, s: string, select: string, columns: string, from: string, table: string)
    requires Spells(select, "select") && Spells(from, "from") && All(Plain, columns) && All(Plain, table)
    requires table != "" && StartsName(table[0])
    requires s == select + (" " + (columns + (" " + (from + (" " + table)))))
    ensures !SelectsInto(w, s) && !LocksRows(w, s) && NamesTable(w, s)
  {
    hide Spells, All, Plain, SelectsInto, LocksRows, NamesTable, StartsName;
    forall c | c in s ensures !MatchesLetter('i', c) && !MatchesLetter('u', c) {
      PartsPlain(select, columns, from, table, c);
    }
    NoneStarts(w, s);
    PlainTable(w, s, select, columns, from, table);
  }

  lemma {:induction false} PartsPlain(select: string, columns: string, from: string, table: string, c: char)
    requires Spells(select, "select") && Spells(from, "from") && All(Plain, columns) && All(Plain, table)
    requires c in select + (" " + (columns + (" " + (from + (" " + table)))))
    ensures !MatchesLetter('i', c) && !MatchesLetter('u', c)
  {
    hide Spells, MatchesLetter;
    if c in select {
      NotInSpelled(select, "select", c);
    } else if c in from {
      NotInSpelled(from, "from", c);
    } else if c == ' ' {
      assert !MatchesLetter('i', ' ') && !MatchesLetter('u', ' ') by { BlankPlain(); }
    } else {
      assert c in columns || c in table;
    }
  }

  lemma {:induction false} BlankPlain()
    ensures !MatchesLetter('i', ' ') && !MatchesLetter('u', ' ')
  {
  }

  lemma {:induction false} NoneStarts(w: Words, s: string)
    requires forall c :: c in s ==> !MatchesLetter('i', c) && !MatchesLetter('u', c)
    ensures !SelectsInto(w, s) && !LocksRows(w, s)
  {
    hide MatchesLetter;
    forall j | 0 <= j < |s| ensures !MatchesAt(s, j, "into") && !MatchesAt(s, j, "update") {
      assert s[j] in s && "into"[0] == 'i' && "update"[0] == 'u';
      FirstMatches(s, j, "into");
      FirstMatches(s, j, "update");
    }
  }

  lemma {:induction false} FirstMatches(s: string, j: nat, word: string)
    requires word != "" && j < |s|
    ensures MatchesAt(s, j, word) ==> MatchesLetter(word[0], s[j])
  {
    hide MatchesLetter;
    if MatchesAt(s, j, word) { assert MatchesLetter(word[0], s[j + 0]); }
  }

  lemma {:induction false} PlainTable(w: Words, s: string, select: string, columns: string, from: string, table: string)
    requires Spells(select, "select") && Spells(from, "from") && table != "" && StartsName(table[0])
    requires s == select + (" " + (columns + (" " + (from + (" " + table)))))
    ensures NamesTable(w, s)
  {
    hide Spells, StartsName;
    SpelledLength(select, "select");
    SpelledLength(from, "from");
    var i := 6 + 1 + |columns| + 1;
    assert s[i - 1] == ' ' && s[i..i + 4] == from && s[i + 4] == ' ' && s[i + 5] == table[0];
    SpelledMatches(s, i, from, "from");
    SpelledEnds(w, from, "from");
    assert s[i] == from[0] && !w(' ');
    assert Boundary(w, s, i) && AllSpaces(s, i + 4, i + 5);
  }

  lemma {:induction false} NotInSpelled(text: string, word: string, c: char)
    requires Spells(text, word) && (word == "select" || word == "from") && c in text
    ensures !MatchesLetter('i', c) && !MatchesLetter('u', c)
  {
    var k :| 0 <= k < |text| && text[k] == c;
    assert AsciiLetter(c) && LowerChar(c) == word[k] && word[k] != 'i' && word[k] != 'u';
  }

  // ----- is the limit live?

  /** The whole word at a place outside quotes and escapes. */
  predicate LiveWordAt(w: Words, s: string, i: nat, word: string)
  {
    i < |s| && WordAt(w, s, i, word) && LexFrom(PLAIN, s[..i]) == PLAIN
  }

  predicate Quoted(st: Lex) { st.single || st.double }

  ghost predicate HasLiveWord(w: Words, s: string, word: string) {
    exists i :: 0 <= i < |s| && LiveWordAt(w, s, i, word)
  }

  /** A word LIMIT in a quoted literal counts for the rewriter: the text that reaches the
      driver then has no live LIMIT. It has one exactly when the text already had a live
      one, or had none at all and ends outside quotes. */
  lemma {:induction false} LimitIsLive(w: Words, sql: string, limit: int)
    requires Passes(w, sql) && limit > 0
    ensures HasLiveWord(w, FilterSql(w, sql, limit), "limit") <==>
            var u := Statement(sql);
            HasLiveWord(w, u, "limit") || (!HasWord(w, u, "limit") && !Quoted(LexFrom(PLAIN, u)))
  {
    hide Strip, NamesTable, SelectsInto, LocksRows, StartsSelect, WordAt, HasWord, Extra;
    var u := Statement(sql);
    TokenStarts(u);
    LiveIsWord(w, u, "limit");
    if !HasWord(w, u, "limit") {
      AppendedLive(w, u, limit);
    }
  }

  lemma {:induction false} LiveIsWord(w: Words, s: string, word: string)
    ensures HasLiveWord(w, s, word) ==> HasWord(w, s, word)
  {
    hide WordAt;
  }

  lemma {:induction false} AppendedLive(w: Words, u: string, limit: nat)
    requires !HasWord(w, u, "limit")
    ensures HasLiveWord(w, u + LimitClause(limit), "limit") <==> !Quoted(LexFrom(PLAIN, u))
  {
    hide WordAt;
    var r := u + LimitClause(limit);
    var at := |u| + 1;
    assert r[..at] == u + [' '];
    LexAppend(PLAIN, u, [' ']);
    LexOne(LexFrom(PLAIN, u), ' ');
    ClauseIsWord(w, u, limit);
    forall i | 0 <= i < |r| && WordAt(w, r, i, "limit") ensures i == at {
      OnlyAppendedWord(w, u, limit, i);
    }
    assert LiveWordAt(w, r, at, "limit") <==> !Quoted(LexFrom(PLAIN, u));
  }

  lemma {:induction false} WordInPrefix(w: Words, u: string, r: string, i: nat, word: string)
    requires u < r && !w(r[|u|]) && i + |word| <= |u| && WordAt(w, r, i, word)
    ensures WordAt(w, u, i, word)
  {
  }

  lemma {:induction false} NoSpaceInWord(r: string, i: nat, n: nat)
    requires MatchesAt(r, i, "limit") && i <= n < i + 5
    ensures r[n] != ' '
  {
    var p := "limit";
    assert MatchesLetter(p[n - i], r[i + (n - i)]);
  }

  lemma {:induction false} OnlyAppendedWord(w: Words, u: string, limit: nat, i: nat)
    requires !HasWord(w, u, "limit") && WordAt(w, u + LimitClause(limit), i, "limit")
    ensures i == |u| + 1
  {
    var r, tail := u + LimitClause(limit), LimitClause(limit);
    assert r[|u|] == ' ' && !w(' ') && u < r;
    if i + 5 <= |u| {
      WordInPrefix(w, u, r, i, "limit");
    } else if i <= |u| {
      NoSpaceInWord(r, i, |u|);
    } else {
      assert r[|u|..] == tail;
      LettersAt(r, |u|, limit, i);
    }
  }

  lemma {:induction false} LettersAt(r: string, n: nat, limit: nat, i: nat)
    requires n + |LimitClause(limit)| == |r| && r[n..] == LimitClause(limit)
    requires i > n && MatchesAt(r, i, "limit")
    ensures i == n + 1
  {
    var tail, num := LimitClause(limit), Numeral(limit);
    assert forall k :: 0 <= k < |num| ==> tail[k + 7] == num[k] && IsDigit(num[k]);
    assert forall k :: 7 <= k < |tail| ==> IsDigit(tail[k]);
    var p := "limit";
    assert MatchesLetter(p[0], r[i + 0]) && r[i] == tail[i - n];
    assert tail[..7] == " LIMIT ";
  }

  const QUOTED := "select 'limit' from t"

  lemma {:induction false} LettersOfQuoted(i: nat)
    requires i < |QUOTED|
    ensures MatchesLetter('l', QUOTED[i]) ==> i == 2 || i == 8
    ensures MatchesLetter('i', QUOTED[i]) ==> i == 9 || i == 11
    ensures MatchesLetter('f', QUOTED[i]) ==> i == 15
    ensures QUOTED[i] != ';'
  {
    assert QUOTED[0] == 's' && QUOTED[1] == 'e' && QUOTED[2] == 'l' && QUOTED[3] == 'e' && QUOTED[4] == 'c';
    assert QUOTED[10] == 'm' && QUOTED[12] == 't' && QUOTED[16] == 'r' && QUOTED[17] == 'o' && QUOTED[18] == 'm';
  }

  lemma {:induction false} QuotedStatement()
    ensures Strip(QUOTED) == QUOTED && Statement(QUOTED) == QUOTED && !Extra(QUOTED)
  {
    hide LexFrom, LStrip, RStrip;
    StripPadded("", QUOTED, "");
    assert "" + QUOTED + "" == QUOTED;
    forall i | 0 <= i < |QUOTED| ensures !LiveSemi(QUOTED, i) { LettersOfQuoted(i); }
  }

  lemma {:induction false} QuotedToken()
    ensures Lower(FirstToken(QUOTED)) == "select"
  {
    hide FirstToken, Span;
    assert All(Visible, "select");
    TokenOf("select", " 'limit' from t");
    assert QUOTED == "select" + " 'limit' from t";
    assert Lower("select") == "select";
  }

  lemma {:induction false} TokenOf(token: string, rest: string)
    requires All(Visible, token) && (rest != "" ==> IsSpace(rest[0]))
    ensures FirstToken(token + rest) == token
  {
    SpanAppend(Visible, token, rest);
  }

  lemma {:induction false} QuotedNoOther(w: Words)
    ensures !SelectsInto(w, QUOTED) && !LocksRows(w, QUOTED)
  {
    forall j | 0 <= j < |QUOTED| ensures !MatchesAt(QUOTED, j, "into") {
      LettersOfQuoted(j);
      if MatchesAt(QUOTED, j, "into") { NextLetter(j, "into"); }
    }
    forall i | 0 <= i < |QUOTED| ensures !MatchesAt(QUOTED, i, "for") {
      LettersOfQuoted(i);
      if MatchesAt(QUOTED, i, "for") { NextLetter(i, "for"); }
    }
  }

  lemma {:induction false} NextLetter(i: nat, word: string)
    requires |word| >= 2 && i < |QUOTED| && MatchesAt(QUOTED, i, word)
    ensures i + 1 < |QUOTED| && MatchesLetter(word[0], QUOTED[i]) && MatchesLetter(word[1], QUOTED[i + 1])
  {
    assert MatchesLetter(word[0], QUOTED[i + 0]) && MatchesLetter(word[1], QUOTED[i + 1]);
  }

  lemma {:induction false} QuotedPasses(w: Words)
    ensures Statement(QUOTED) == QUOTED && Passes(w, QUOTED)
  {
    hide Statement, Extra, FirstToken, Lower, SelectsInto, LocksRows, NamesTable, Strip;
    QuotedStatement();
    QuotedToken();
    QuotedNoOther(w);
    FromInQuoted(w);
  }

  lemma {:induction false} FromInQuoted(w: Words)
    ensures NamesTable(w, QUOTED)
  {
    var s, p := QUOTED, "from";
    assert s[14] == ' ' && s[15] == 'f' && s[16] == 'r' && s[17] == 'o' && s[18] == 'm' && s[19] == ' ' && s[20] == 't';
    assert !w(' ') && w('f');
    forall k | 0 <= k < |p| ensures MatchesLetter(p[k], s[15 + k]) {
      assert k == 0 || k == 1 || k == 2 || k == 3;
    }
    assert Boundary(w, s, 15) && MatchesAt(s, 15, p) && AllSpaces(s, 19, 20) && StartsName(s[20]);
  }

  lemma {:induction false} LimitInQuoted(w: Words)
    ensures HasWord(w, QUOTED, "limit") && !HasLiveWord(w, QUOTED, "limit")
  {
    var s, p := QUOTED, "limit";
    assert s[7] == '\'' && s[8] == 'l' && s[9] == 'i' && s[10] == 'm' && s[11] == 'i' && s[12] == 't' && s[13] == '\'';
    assert !w('\'') && w('l') && w('t');
    forall k | 0 <= k < |p| ensures MatchesLetter(p[k], s[8 + k]) {
      assert k == 0 || k == 1 || k == 2 || k == 3 || k == 4;
    }
    assert MatchesAt(s, 8, p) && Boundary(w, s, 8) && Boundary(w, s, 8 + 5);
    assert WordAt(w, s, 8, p);
    LexInert(PLAIN, "select ");
    LexAppend(PLAIN, "select ", "'");
    LexOne(PLAIN, '\'');
    assert s[..8] == "select " + "'";
    forall i | 0 <= i < |s| && WordAt(w, s, i, p) ensures i == 8 {
      LettersOfQuoted(i);
      assert MatchesLetter(p[0], s[i + 0]);
      assert MatchesLetter(p[1], s[i + 1]);
    }
  }

  /** The literal 'limit' defeats the rewriter: the text passes, gets no LIMIT clause, and
      its only LIMIT is quoted. */
  lemma {:induction false} QuotedLimitSlipsThrough(w: Words)
    ensures Passes(w, QUOTED) && FilterSql(w, QUOTED, 10) == QUOTED && !HasLiveWord(w, QUOTED, "limit")
  {
    hide Passes, Statement, HasLiveWord, HasWord;
    QuotedPasses(w);
    LimitInQuoted(w);
  }

  // ----- literals spliced into a statement

  /** `escape_string` */
  function EscapeString(v: string): string {
    if v == "" then "" else EscapeString(v[..|v| - 1]) + (if v[|v| - 1] == '\'' then "''" else [v[|v| - 1]])
  }

  function Literal(v: string): string { "'" + EscapeString(v) + "'" }

  const INSIDE := Lex(true, false, false)

  /** No character of v that is a quote, nor the end of v, comes right after an active
      backslash: what a caller can check before splicing. */
  predicate NoLooseEscape(v: string) { Escaping(v) == Some(false) }

  /** Whether v ends in an active backslash; none when a quote was escaped on the way. */
  function Escaping(v: string): Option<bool> {
    if v == "" then Some(false)
    else
      var before :- Escaping(v[..|v| - 1]);
      var c := v[|v| - 1];
      if before then (if c == '\'' then None else Some(false))
      else Some(c == '\\')
  }

  /** Inside the literal, up to every prefix of the value. */
  ghost predicate StaysInside(v: string) {
    forall k :: 0 <= k <= |v| ==> LexFrom(INSIDE, EscapeString(v[..k])).single
  }

  lemma {:induction false} EscapeStep(v: string, st: Lex)
    requires v != ""
    ensures LexFrom(st, EscapeString(v))
         == var mid := LexFrom(st, EscapeString(v[..|v| - 1]));
            if v[|v| - 1] == '\'' then Next(Next(mid, '\''), '\'') else Next(mid, v[|v| - 1])
  {
    var e, c := EscapeString(v[..|v| - 1]), v[|v| - 1];
    var mid := LexFrom(st, e);
    if c == '\'' {
      LexAppend(st, e, "''");
      LexAppend(mid, "'", "'");
      LexOne(mid, '\'');
      LexOne(Next(mid, '\''), '\'');
      assert "''" == "'" + "'";
    } else {
      LexAppend(st, e, [c]);
      LexOne(mid, c);
    }
  }

  /** While no quote has been escaped, the scanner tracks the backslashes of the value. */
  lemma {:induction false} TracksEscapes(v: string)
    ensures Escaping(v).Some? ==> LexFrom(INSIDE, EscapeString(v)) == INSIDE.(escape := Escaping(v).value)
    ensures Escaping(v).Some? <==> StaysInside(v)
  {
    if v == "" {
      assert v[..0] == "";
    } else {
      var u := v[..|v| - 1];
      TracksEscapes(u);
      EscapeStep(v, INSIDE);
      assert v[..|v|] == v;
      assert forall k :: 0 <= k <= |u| ==> v[..k] == u[..k];
      if StaysInside(v) {
        assert StaysInside(u) by {
          forall k | 0 <= k <= |u| ensures LexFrom(INSIDE, EscapeString(u[..k])).single {
            assert LexFrom(INSIDE, EscapeString(v[..k])).single;
          }
        }
        assert LexFrom(INSIDE, EscapeString(v[..|v|])).single;
      }
    }
  }

  /** A spliced literal keeps the scanner inside its quotes up to the closing one, and
      returns it to the plain state, exactly for values with no loose escape. */
  lemma {:induction false} LiteralIntact(v: string)
    ensures StaysInside(v) && LexFrom(PLAIN, Literal(v)) == PLAIN <==> NoLooseEscape(v)
  {
    hide EscapeString, Escaping, StaysInside;
    var e := EscapeString(v);
    TracksEscapes(v);
    assert Literal(v) == ["'"[0]] + (e + ["'"[0]]);
    LexAppend(PLAIN, ['\''], e + ['\'']);
    LexOne(PLAIN, '\'');
    LexAppend(INSIDE, e, ['\'']);
    LexOne(LexFrom(INSIDE, e), '\'');
  }

  lemma {:induction false} BackslashFree(v: string)
    requires '\\' !in v
    ensures NoLooseEscape(v)
  {
    if v != "" {
      assert forall i :: 0 <= i < |v| ==> v[i] in v;
      BackslashFree(v[..|v| - 1]);
    }
  }

  /** A value that ends in a backslash swallows the closing quote. */
  lemma LooseEscapeBreaksOut()
    ensures !NoLooseEscape("\\") && LexFrom(PLAIN, Literal("\\")) != PLAIN
  {
    assert EscapeString("\\") == "\\" by { assert "\\"[..0] == ""; }
    assert Escaping("\\"[..0]) == Some(false);
    LiteralIntact("\\");
    TracksEscapes("\\");
  }

  // ----- the verdict on a statement with a spliced literal

  /** A `;` live from state st, with more than blanks after it. */
  ghost predicate ExtraFrom(st: Lex, s: string) {
    exists i :: 0 <= i < |s| && LiveFrom(st, s, i) && Strip(s[i + 1..]) != ""
  }

  predicate LiveFrom(st: Lex, s: string, i: nat)
    requires i < |s|
  {
    s[i] == ';' && LexFrom(st, s[..i]) == PLAIN
  }

  lemma {:induction false} LiveSplit(st: Lex, a: string, b: string, i: nat)
    requires i < |a + b|
    ensures LiveFrom(st, a + b, i) <==> if i < |a| then LiveFrom(st, a, i) else LiveFrom(LexFrom(st, a), b, i - |a|)
  {
    if i < |a| {
      assert (a + b)[..i] == a[..i];
    } else {
      assert (a + b)[..i] == a + b[..i - |a|];
      LexAppend(st, a, b[..i - |a|]);
    }
  }

  lemma {:induction false} BlankIsSpaces(s: string)
    ensures Strip(s) == "" <==> All(IsSpace, s)
  {
    hide Strip;
    if All(IsSpace, s) {
      StripPadded(s, "", "");
      assert s + "" + "" == s;
    }
    StripTrims(s);
    var pre, post :| All(IsSpace, pre) && All(IsSpace, post) && s == pre + Strip(s) + post;
    AllAppend(IsSpace, pre, post);
    assert pre + "" + post == pre + post;
  }

  lemma {:induction false} BlankAppend(a: string, b: string)
    ensures Strip(a + b) == "" <==> Strip(a) == "" && Strip(b) == ""
  {
    hide Strip;
    BlankIsSpaces(a);
    BlankIsSpaces(b);
    BlankIsSpaces(a + b);
    AllAppend(IsSpace, a, b);
  }

  /** Where an extra statement can start in a concatenation. */
  lemma {:induction false} ExtraSplit(st: Lex, a: string, b: string)
    ensures ExtraFrom(st, a + b) <==>
            || (exists i :: 0 <= i < |a| && LiveFrom(st, a, i) && (Strip(a[i + 1..]) != "" || Strip(b) != ""))
            || ExtraFrom(LexFrom(st, a), b)
  {
    hide Strip, LexFrom, LiveFrom;
    var s := a + b;
    forall i | 0 <= i < |s|
      ensures LiveFrom(st, s, i) <==> if i < |a| then LiveFrom(st, a, i) else LiveFrom(LexFrom(st, a), b, i - |a|)
      ensures i < |a| ==> (Strip(s[i + 1..]) != "" <==> Strip(a[i + 1..]) != "" || Strip(b) != "")
      ensures i >= |a| ==> s[i + 1..] == b[i - |a| + 1..]
    {
      LiveSplit(st, a, b, i);
      if i < |a| {
        assert s[i + 1..] == a[i + 1..] + b;
        BlankAppend(a[i + 1..], b);
      }
    }
    if ExtraFrom(LexFrom(st, a), b) {
      var j :| 0 <= j < |b| && LiveFrom(LexFrom(st, a), b, j) && Strip(b[j + 1..]) != "";
      assert LiveFrom(st, s, |a| + j);
    }
    if exists i :: 0 <= i < |a| && LiveFrom(st, a, i) && (Strip(a[i + 1..]) != "" || Strip(b) != "") {
      var i :| 0 <= i < |a| && LiveFrom(st, a, i) && (Strip(a[i + 1..]) != "" || Strip(b) != "");
      assert LiveFrom(st, s, i);
    }
  }

  /** No `;` of the value is live inside the literal. */
  lemma {:induction false} NoneLiveInside(v: string, q: nat)
    requires StaysInside(v) && q < |EscapeString(v)|
    ensures !LiveFrom(INSIDE, EscapeString(v), q)
  {
    var e, u := EscapeString(v), v[..|v| - 1];
    var d := EscapeString(u);
    assert forall k :: 0 <= k <= |u| ==> v[..k] == u[..k];
    assert StaysInside(u) by {
      forall k | 0 <= k <= |u| ensures LexFrom(INSIDE, EscapeString(u[..k])).single {
        assert LexFrom(INSIDE, EscapeString(v[..k])).single;
      }
    }
    if q < |d| {
      NoneLiveInside(u, q);
      assert e[..q] == d[..q];
    } else {
      assert u[..|u|] == u && LexFrom(INSIDE, EscapeString(u[..|u|])).single;
      assert e[..|d|] == d;
    }
  }

  lemma {:induction false} NoneLiveInLiteral(v: string, q: nat)
    requires NoLooseEscape(v) && q < |Literal(v)|
    ensures !LiveFrom(PLAIN, Literal(v), q)
  {
    hide LexFrom, EscapeString, Escaping;
    var e := EscapeString(v);
    LiteralIntact(v);
    LexOne(PLAIN, '\'');
    assert Literal(v) == "'" + (e + "'");
    LiveSplit(PLAIN, "'", e + "'", q);
    if q > 0 {
      LiveSplit(INSIDE, e, "'", q - 1);
      if q - 1 < |e| { NoneLiveInside(v, q - 1); }
    }
  }

  lemma {:induction false} NoExtraInLiteral(v: string, b: string)
    requires NoLooseEscape(v)
    ensures ExtraFrom(PLAIN, Literal(v) + b) <==> ExtraFrom(PLAIN, b)
    ensures Strip(Literal(v) + b) != ""
  {
    hide LexFrom, LiveFrom, Literal, Escaping, Strip;
    ExtraSplit(PLAIN, Literal(v), b);
    LiteralIntact(v);
    forall i | 0 <= i < |Literal(v)| ensures !LiveFrom(PLAIN, Literal(v), i) {
      NoneLiveInLiteral(v, i);
    }
    LiteralVisible(v);
    BlankAppend(Literal(v), b);
  }

  lemma {:induction false} LiteralVisible(v: string)
    ensures Strip(Literal(v)) != ""
  {
    hide Strip;
    BlankIsSpaces(Literal(v));
    assert Literal(v)[0] == '\'';
  }

  /** Leading and trailing blanks do not change the verdict. */
  lemma {:induction false} ExtraOfStripped(s: string)
    ensures Extra(Strip(s)) <==> ExtraFrom(PLAIN, s)
  {
    hide Strip, LexFrom, LiveFrom;
    StripTrims(s);
    var t := Strip(s);
    var pre, post :| All(IsSpace, pre) && All(IsSpace, post) && s == pre + t + post;
    assert s == pre + (t + post);
    ExtraSplit(PLAIN, pre, t + post);
    ExtraSplit(PLAIN, t, post);
    BlankIsSpaces(post);
    LexInert(PLAIN, pre);
    SpacesNotLive(PLAIN, pre);
    SpacesNotLive(LexFrom(PLAIN, t), post);
    ExtraIsFromPlain(t);
  }

  lemma {:induction false} ExtraIsFromPlain(t: string)
    ensures Extra(t) <==> ExtraFrom(PLAIN, t)
  {
    assert forall i :: 0 <= i < |t| ==> (LiveSemi(t, i) <==> LiveFrom(PLAIN, t, i));
  }

  lemma {:induction false} SpacesNotLive(st: Lex, s: string)
    requires All(IsSpace, s)
    ensures forall i :: 0 <= i < |s| ==> !LiveFrom(st, s, i)
  {
  }

  /** Splicing a value with no loose escape at an unquoted, unescaped point: the verdict is
      the one on the text around it, whatever the value. */
  lemma {:induction false} SpliceVerdict(a: string, v: string, b: string)
    requires LexFrom(PLAIN, a) == PLAIN && NoLooseEscape(v)
    ensures Extra(Strip(a + (Literal(v) + b))) <==> HasLiveSemi(a) || ExtraFrom(PLAIN, b)
  {
    hide Strip, LexFrom, Literal, Escaping;
    ExtraOfStripped(a + (Literal(v) + b));
    ExtraSplit(PLAIN, a, Literal(v) + b);
    NoExtraInLiteral(v, b);
    assert forall i :: 0 <= i < |a| ==> (LiveSemi(a, i) <==> LiveFrom(PLAIN, a, i));
  }
}
