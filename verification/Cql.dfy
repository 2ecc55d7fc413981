/** The read-only gate of the Cassandra engine: the statement scanner, the checker and the
    rewriter that decide which text reaches the driver. */
module Cql {
  import opened Text

  // ----- the scanner

  datatype Lex = Lex(single: bool, double: bool, escape: bool)

  const PLAIN := Lex(false, false, false)

  function Next(st: Lex, c: char): Lex {
    if st.escape then st.(escape := false)
    else if c == '\\' then st.(escape := true)
    else if c == '\'' && !st.double then st.(single := !st.single)
    else if c == '"' && !st.single then st.(double := !st.double)
    else st
  }

  /** The scanner's state after s, started in state st. */
  function LexFrom(st: Lex, s: string): Lex {
    if s == "" then st else Next(LexFrom(st, s[..|s| - 1]), s[|s| - 1])
  }

  /** A `;` outside quotes and escapes. */
  predicate LiveSemi(s: string, i: nat)
    requires i < |s|
  {
    s[i] == ';' && LexFrom(PLAIN, s[..i]) == PLAIN
  }

  ghost predicate HasLiveSemi(s: string) { exists i :: 0 <= i < |s| && LiveSemi(s, i) }

  /** A live `;` with more than blanks after it. */
  ghost predicate Extra(s: string) {
    exists i :: 0 <= i < |s| && LiveSemi(s, i) && Strip(s[i + 1..]) != ""
  }

  /** `_has_extra_statement` */
  method HasExtraStatement(sql: string) returns (r: bool)
    ensures r <==> Extra(Strip(sql))
  {
    hide Strip, LexFrom;
    var text := Strip(sql);
    var inSingle, inDouble, escape := false, false, false;
    assert text[..0] == "";
    LexEmpty();
    for idx := 0 to |text|
      invariant LexFrom(PLAIN, text[..idx]) == Lex(inSingle, inDouble, escape)
      invariant forall i :: 0 <= i < idx ==> !(LiveSemi(text, i) && Strip(text[i + 1..]) != "")
    {
      LexStep(text, idx);
      var char_ := text[idx];
      if escape {
        escape := false;
        continue;
      }
      if char_ == '\\' {
        escape := true;
        continue;
      }
      if char_ == '\'' && !inDouble {
        inSingle := !inSingle;
        continue;
      }
      if char_ == '"' && !inSingle {
        inDouble := !inDouble;
        continue;
      }
      if char_ == ';' && !inSingle && !inDouble && Strip(text[idx + 1..]) != "" {
        assert LiveSemi(text, idx);
        return true;
      }
    }
    r := false;
  }

  lemma {:induction false} LexEmpty()
    ensures LexFrom(PLAIN, "") == PLAIN
  {
  }

  lemma {:induction false} LexStep(s: string, i: nat)
    requires i < |s|
    ensures LexFrom(PLAIN, s[..i + 1]) == Next(LexFrom(PLAIN, s[..i]), s[i])
  {
    assert s[..i + 1][..i] == s[..i];
  }

  // ----- words, as the regular expressions find them

  /** `(?i)`: a lower-case ASCII letter of a pattern against a character, with the extra
      case pairs of Python's Unicode matching. */
  predicate MatchesLetter(p: char, c: char) {
    || c == p
    || ('a' <= p <= 'z' && c as int == p as int - 32)
    || (p == 'i' && (c == '\U{130}' || c == '\U{131}'))
    || (p == 's' && c == '\U{17f}')
    || (p == 'k' && c == '\U{212a}')
  }

  predicate MatchesAt(s: string, i: nat, word: string) {
    i + |word| <= |s| && forall k :: 0 <= k < |word| ==> MatchesLetter(word[k], s[i + k])
  }

  /** `\b` at position i. */
  predicate Boundary(w: Words, s: string, i: nat)
    requires i <= |s|
  {
    (i > 0 && w(s[i - 1])) != (i < |s| && w(s[i]))
  }

  /** `(?i)\b<word>\b` at position i. */
  predicate WordAt(w: Words, s: string, i: nat, word: string) {
    MatchesAt(s, i, word) && Boundary(w, s, i) && Boundary(w, s, i + |word|)
  }

  predicate HasWord(w: Words, s: string, word: string) {
    exists i :: 0 <= i < |s| && WordAt(w, s, i, word)
  }

  /** `(?is)\bselect\b.+\binto\b` */
  predicate SelectsInto(w: Words, s: string) {
    exists i, j :: 0 <= i < |s| && i + 7 <= j < |s| && WordAt(w, s, i, "select") && WordAt(w, s, j, "into")
  }

  predicate AllSpaces(s: string, i: nat, j: nat)
    requires i <= j <= |s|
  {
    forall k :: i <= k < j ==> IsSpace(s[k])
  }

  /** `(?is)\bfor\s+update\b` */
  predicate LocksRows(w: Words, s: string) {
    exists i, j :: 0 <= i < |s| && i + 4 <= j < |s| && Boundary(w, s, i) && MatchesAt(s, i, "for")
                   && AllSpaces(s, i + 3, j) && MatchesAt(s, j, "update") && Boundary(w, s, j + 6)
  }

  /** `(?i)[a-zA-Z_]` */
  predicate StartsName(c: char) {
    'a' <= c <= 'z' || 'A' <= c <= 'Z' || c == '_' || c in "\U{130}\U{131}\U{17f}\U{212a}"
  }

  /** `(?is)\bfrom\s+[a-zA-Z_]...` */
  predicate NamesTable(w: Words, s: string) {
    exists i, j :: 0 <= i < |s| && i + 5 <= j < |s| && Boundary(w, s, i) && MatchesAt(s, i, "from")
                   && AllSpaces(s, i + 4, j) && StartsName(s[j])
  }

  // ----- the checker and the rewriter

  function Statement(sql: string): string { RStripChar(Strip(sql), ';') }

  /** `s.split(None, 1)[0]` for text that starts with a visible character. */
  function FirstToken(s: string): string { s[..Span(Visible, s)] }

  predicate Visible(c: char) { !IsSpace(c) }

  const WRITE_PREFIXES := ["alter", "batch", "call", "create", "delete", "drop", "grant", "insert", "revoke", "set",
                           "truncate", "update", "use"]

  datatype Message =
    | NoMessage | Empty | ManyStatements | WriteOperation | NotSelect | SelectInto | LockingRead | NoTable

  /** `query_check`: the message, empty when the text may run. */
  method QueryCheck(w: Words, sql: string) returns (msg: Message)
    ensures msg == Empty <==> Statement(sql) == ""
    ensures msg == ManyStatements <==> Statement(sql) != "" && Extra(Strip(sql))
    ensures msg == NoMessage <==> Passes(w, sql)
  {
    hide Statement, Extra, FirstToken, Lower, SelectsInto, LocksRows, NamesTable, Strip;
    var stripped := Statement(sql);
    if stripped == "" {
      return Empty;
    }
    var extra := HasExtraStatement(sql);
    if extra {
      return ManyStatements;
    }
    var prefix := Lower(FirstToken(stripped));
    if prefix in WRITE_PREFIXES {
      return WriteOperation;
    }
    if prefix != "select" {
      return NotSelect;
    }
    if SelectsInto(w, stripped) {
      return SelectInto;
    }
    if LocksRows(w, stripped) {
      return LockingRead;
    }
    if !NamesTable(w, stripped) {
      return NoTable;
    }
    msg := NoMessage;
  }

  ghost predicate Passes(w: Words, sql: string) {
    var s := Statement(sql);
    && s != "" && !Extra(Strip(sql)) && Lower(FirstToken(s)) == "select"
    && !SelectsInto(w, s) && !LocksRows(w, s) && NamesTable(w, s)
  }

  predicate StartsSelect(s: string) { |s| >= 6 && Lower(s)[..6] == "select" }

  /** `filter_sql` */
  function FilterSql(w: Words, sql: string, limit: int): string {
    var s := Statement(sql);
    if limit > 0 && StartsSelect(s) && !HasWord(w, s, "limit") then s + (" LIMIT " + Numeral(limit)) else s
  }

  /** The gate of `query`: the text the driver gets, if any. Every message the checker can
      give is one the gate refuses. */
  method Query(w: Words, sql: string, limit: int) returns (sent: Option<string>)
    ensures sent == if Passes(w, sql) then Some(FilterSql(w, sql, limit)) else None
  {
    var msg := QueryCheck(w, sql);
    if msg != NoMessage {
      return None;
    }
    sent := Some(FilterSql(w, sql, limit));
  }
}
