/** The write-command path of the MongoDB engine: a shell-style call with JSON arguments is
    checked, parsed and dispatched to exactly one driver call. */
module Mongo {
  import opened Text
  import opened Json
  import opened JsonRoundTrip
  import opened JsonGrammar

  datatype Error = Unsafe | BadShape | BadOperation | BadJson | BadSeparator | WrongCount | WrongKind

  datatype Result<+T> = Ok(value: T) | Err(error: Error)

  datatype Operation = InsertOne | InsertMany | UpdateOne | UpdateMany | DeleteOne | DeleteMany | ReplaceOne

  datatype Command = Command(collection: string, op: Operation, args: seq<Json>)

  function Name(op: Operation): string {
    match op
    case InsertOne => "insertOne"
    case InsertMany => "insertMany"
    case UpdateOne => "updateOne"
    case UpdateMany => "updateMany"
    case DeleteOne => "deleteOne"
    case DeleteMany => "deleteMany"
    case ReplaceOne => "replaceOne"
  }

  /** Membership in the whitelist. */
  function Allowed(name: string): (r: Option<Operation>)
    ensures forall op :: r == Some(op) <==> Name(op) == name
  {
    if name == "insertOne" then Some(InsertOne)
    else if name == "insertMany" then Some(InsertMany)
    else if name == "updateOne" then Some(UpdateOne)
    else if name == "updateMany" then Some(UpdateMany)
    else if name == "deleteOne" then Some(DeleteOne)
    else if name == "deleteMany" then Some(DeleteMany)
    else if name == "replaceOne" then Some(ReplaceOne)
    else None
  }

  function Arity(op: Operation): nat {
    if op.UpdateOne? || op.UpdateMany? || op.ReplaceOne? then 2 else 1
  }

  /** A documents list for insertMany; otherwise objects only. */
  predicate Kinds(op: Operation, args: seq<Json>)
    requires |args| == Arity(op)
  {
    && (if op.InsertMany? then args[0].Arr? else args[0].Obj?)
    && (Arity(op) == 2 ==> args[1].Obj?)
  }

  predicate Shaped(op: Operation, args: seq<Json>) {
    |args| == Arity(op) && Kinds(op, args)
  }

  predicate HasUnsafe(s: string) { ';' in s || '|' in s || '`' in s }

  // ----- arguments

  /** One argument: spaces, a JSON value, spaces; and the text after them. */
  function NextArg(t: string): (r: Option<(Json, string)>)
    ensures r.Some? ==> |r.value.1| < |t|
  {
    var (v, after) :- DecodeValue(LStrip(t));
    Some((v, LStrip(after)))
  }

  /** What the loop returns, with args read already and text t still to read. */
  function ArgsFrom(args: seq<Json>, t: string): Result<seq<Json>>
    decreases |t|
  {
    if t == "" then Ok(args)
    else
      match NextArg(t)
      case None => Err(BadJson)
      case Some((v, rest)) =>
        if rest == "" then Ok(args + [v])
        else if rest[0] != ',' then Err(BadSeparator)
        else ArgsFrom(args + [v], rest[1..])
  }

  // ----- what the arguments may look like

  /** A JSON text with any whitespace around it. */
  ghost predicate IsArg(t: string, v: Json) {
    exists i, j :: 0 <= i <= j <= |t| && All(IsSpace, t[..i]) && IsValue(t[i..j], v) && All(IsSpace, t[j..])
  }

  /** JSON texts separated by commas, with one comma more after the last or none. */
  ghost predicate IsArgs(t: string, args: seq<Json>)
    decreases |args|
  {
    if args == [] then t == ""
    else
      || (|args| == 1 && IsArg(t, args[0]))
      || exists k :: 0 <= k < |t| && IsArg(t[..k], args[0]) && t[k] == ',' && IsArgs(t[k + 1..], args[1..])
  }

  lemma {:induction false} ArgRead(t: string) returns (p: string)
    requires NextArg(t).Some?
    ensures t == p + NextArg(t).value.1 && IsArg(p, NextArg(t).value.0)
  {
    hide DecodeValue, IsValue;
    var s := LStrip(t);
    var (v, after) := DecodeValue(s).value;
    var x := ValueRead(s);
    var rest := LStrip(after);
    var (a, b) := (t[..|t| - |s|], after[..|after| - |rest|]);
    p := a + (x + b);
    assert p[..|a|] == a && p[|a|..|a| + |x|] == x && p[|a| + |x|..] == b;
    assert t == a + s && after == b + rest;
  }

  lemma {:induction false} ArgReads(p: string, v: Json, rest: string)
    requires IsArg(p, v) && (rest == "" || rest[0] == ',')
    ensures p != "" && NextArg(p + rest) == Some((v, rest))
  {
    hide DecodeValue, IsValue, LStrip;
    var i, j :| 0 <= i <= j <= |p| && All(IsSpace, p[..i]) && IsValue(p[i..j], v) && All(IsSpace, p[j..]);
    var (x, tail) := (p[i..j], p[j..] + rest);
    SpacesEndNumber(p[j..], rest);
    ValueReads(x, v, tail);
    OpensVisible(x, v);
    assert p + rest == p[..i] + (x + tail);
    LStripPadded(p[..i], x + tail);
    LStripPadded(p[j..], rest);
  }

  /** No value begins with whitespace of any kind. */
  lemma {:induction false} OpensVisible(x: string, v: Json)
    requires IsValue(x, v)
    ensures x != "" && !IsSpace(x[0])
  {
    hide IsItems, IsMembers, IsChars;
    match v
    case Int(n) =>
      var negative, whole :| Whole(whole) && x == Sign(negative) + whole
                             && n == if negative then -ValueOf(whole) else ValueOf(whole);
      VisibleStart(x);
    case Float(f) =>
      PrintStarts(v, COMPACT, 0);
      VisibleStart(x);
    case _ => VisibleStart(x);
  }

  lemma {:induction false} VisibleStart(x: string)
    ensures x != "" && StartsValue(x[0]) ==> !IsSpace(x[0])
  {
  }

  /** The loop accepts exactly texts of that form, and returns the values they spell. */
  lemma {:induction false} ArgsDecide(done: seq<Json>, t: string, args: seq<Json>)
    ensures ArgsFrom(done, t) == Ok(done + args) <==> IsArgs(t, args)
    decreases |t|, |args|
  {
    if ArgsFrom(done, t) == Ok(done + args) { ArgsRead(done, t, args); }
    if IsArgs(t, args) { ArgsReads(done, t, args); }
  }

  lemma {:induction false} ArgsRead(done: seq<Json>, t: string, args: seq<Json>)
    requires ArgsFrom(done, t) == Ok(done + args)
    ensures IsArgs(t, args)
    decreases |t|
  {
    hide NextArg, IsArg;
    if t == "" {
      assert |done| == |done + args|;
    } else {
      var p := ArgRead(t);
      var (v, rest) := NextArg(t).value;
      if rest == "" {
        Peel(done, v, args);
        assert |done + args| == |done| + 1 && p == t;
      } else {
        ArgsGrow(done + [v], rest[1..]);
        Peel(done, v, args);
        ArgsRead(done + [v], rest[1..], args[1..]);
        assert t[..|p|] == p && t[|p|] == ',' && t[|p| + 1..] == rest[1..];
      }
    }
  }

  lemma {:induction false} Peel(done: seq<Json>, v: Json, args: seq<Json>)
    requires done + [v] <= done + args
    ensures args != [] && args[0] == v && done + args == (done + [v]) + args[1..]
  {
    assert (done + args)[|done|] == (done + [v])[|done|];
  }

  /** One turn of the loop, as `ArgsFrom` has it. */
  lemma {:induction false} ArgsStep(done: seq<Json>, t: string, v: Json, rest: string)
    requires t != "" && NextArg(t) == Some((v, rest)) && (rest == "" || rest[0] == ',')
    ensures ArgsFrom(done, t) == if rest == "" then Ok(done + [v]) else ArgsFrom(done + [v], rest[1..])
  {
    hide NextArg;
  }

  /** What has been read stays. */
  lemma {:induction false} ArgsGrow(done: seq<Json>, t: string)
    ensures ArgsFrom(done, t).Ok? ==> done <= ArgsFrom(done, t).value
    decreases |t|
  {
    hide NextArg;
    if t != "" && NextArg(t).Some? {
      var (v, rest) := NextArg(t).value;
      if rest != "" { ArgsGrow(done + [v], rest[1..]); }
    }
  }

  lemma {:induction false} ArgsReads(done: seq<Json>, t: string, args: seq<Json>)
    requires IsArgs(t, args)
    ensures ArgsFrom(done, t) == Ok(done + args)
    decreases |args|
  {
    hide NextArg, IsArg, ArgsFrom, IsArgs;
    var k := FirstArg(t, args);
    if args == [] {
      NoArgs(done);
      assert done + args == done;
    } else if k == |t| {
      ArgReads(t, args[0], "");
      assert t + "" == t;
      ArgsStep(done, t, args[0], "");
      assert done + [args[0]] == done + args;
    } else {
      var more := t[k + 1..];
      ArgReads(t[..k], args[0], "," + more);
      assert t == t[..k] + ("," + more) && ("," + more)[1..] == more;
      ArgsStep(done, t, args[0], "," + more);
      ArgsReads(done + [args[0]], more, args[1..]);
      assert (done + [args[0]]) + args[1..] == done + args;
    }
  }

  /** Where the first argument ends: at the end of the text, or at a comma. */
  lemma {:induction false} FirstArg(t: string, args: seq<Json>) returns (k: nat)
    requires IsArgs(t, args)
    ensures args == [] ==> t == ""
    ensures args != [] ==>
              && k <= |t| && IsArg(t[..k], args[0])
              && (if k == |t| then |args| == 1 && IsArg(t, args[0]) else t[k] == ',' && IsArgs(t[k + 1..], args[1..]))
  {
    hide IsArg;
    k := |t|;
    if args != [] {
      assert t[..|t|] == t;
      if |args| != 1 || !IsArg(t, args[0]) {
        k :| 0 <= k < |t| && IsArg(t[..k], args[0]) && t[k] == ',' && IsArgs(t[k + 1..], args[1..]);
      }
    }
  }

  lemma {:induction false} NoArgs(done: seq<Json>)
    ensures ArgsFrom(done, "") == Ok(done)
  {
  }

  lemma {:induction false} LStripSkips(text: string, idx: nat)
    requires idx < |text| && IsSpace(text[idx])
    ensures LStrip(text[idx..]) == LStrip(text[idx + 1..])
  {
    assert text[idx..][1..] == text[idx + 1..];
  }

  lemma {:induction false} LStripStays(text: string, idx: nat)
    requires idx <= |text| && (idx < |text| ==> !IsSpace(text[idx]))
    ensures LStrip(text[idx..]) == text[idx..]
  {
  }

  lemma {:induction false} DecodeAt(text: string, idx: nat)
    requires idx <= |text| && DecodeValue(text[idx..]).Some?
    ensures var after := DecodeValue(text[idx..]).value.1;
            idx < |text| - |after| && after == text[|text| - |after|..]
  {
    DecodeSuffix(text[idx..]);
  }

  method SkipWhitespace(text: string, from: nat) returns (idx: nat)
    requires from <= |text|
    ensures from <= idx <= |text| && text[idx..] == LStrip(text[from..])
  {
    idx := from;
    while idx < |text| && IsSpace(text[idx])
      invariant from <= idx <= |text|
      invariant LStrip(text[from..]) == LStrip(text[idx..])
    {
      LStripSkips(text, idx);
      idx := idx + 1;
    }
    LStripStays(text, idx);
  }

  method ReadArg(text: string, from: nat) returns (arg: Option<Json>, idx: nat)
    requires from <= |text|
    ensures arg.None? <==> NextArg(text[from..]).None?
    ensures arg.Some? ==> from < idx <= |text| && NextArg(text[from..]) == Some((arg.value, text[idx..]))
  {
    idx := SkipWhitespace(text, from);
    var decoded := DecodeValue(text[idx..]);
    if decoded.None? {
      return None, idx;
    }
    var (value, after) := decoded.value;
    DecodeAt(text, idx);
    var end := |text| - |after|;
    assert after == text[end..];
    idx := SkipWhitespace(text, end);
    arg := Some(value);
  }

  /** One turn of the argument loop: a value found at `from`, the text after it at `next`. */
  lemma {:induction false} Turn(args: seq<Json>, text: string, from: nat, value: Json, next: nat)
    requires from < next <= |text| && NextArg(text[from..]) == Some((value, text[next..]))
    ensures ArgsFrom(args, text[from..])
         == if next == |text| then Ok(args + [value])
            else if text[next] != ',' then Err(BadSeparator)
            else ArgsFrom(args + [value], text[next + 1..])
  {
    assert next < |text| ==> text[next..][1..] == text[next + 1..];
  }

  /** The loop of `_parse_json_args`: every turn moves the index forward. */
  method ParseArgs(text: string) returns (r: Result<seq<Json>>)
    ensures r == ArgsFrom([], text)
  {
    hide NextArg;
    var args: seq<Json> := [];
    var idx: nat := 0;
    ghost var expected := ArgsFrom([], text);
    assert text[0..] == text;
    while idx < |text|
      invariant idx <= |text|
      invariant expected == ArgsFrom(args, text[idx..])
      decreases |text| - idx
    {
      var value, next := ReadArg(text, idx);
      if value.None? {
        return Err(BadJson);
      }
      Turn(args, text, idx, value.value, next);
      args := args + [value.value];
      if next >= |text| {
        return Ok(args);
      }
      if text[next] != ',' {
        return Err(BadSeparator);
      }
      idx := next + 1;
    }
    r := Ok(args);
  }

  method ParseJsonArgs(argsText: string) returns (r: Result<seq<Json>>)
    ensures r == ArgsFrom([], Strip(argsText))
  {
    r := ParseArgs(Strip(argsText));
  }

  // ----- the call around the arguments

  ghost predicate IsWord(w: Words, s: string) { s != "" && All(w, s) }

  ghost function CallText(collection: string, name: string, args: string): string {
    "db." + (collection + ("." + (name + ("(" + (args + ")")))))
  }

  /** t reads `db.<collection>.<name>(<args>)`, the whole of it. */
  ghost predicate IsCall(w: Words, t: string, collection: string, name: string, args: string) {
    IsWord(w, collection) && IsWord(w, name) && t == CallText(collection, name, args)
  }

  /** A non-empty run of word characters followed by a given character. */
  function TakeWord(w: Words, s: string, stop: char): Option<(string, string)> {
    var n := Span(w, s);
    if n == 0 || n == |s| || s[n] != stop then None
    else Some((s[..n], s[n + 1..]))
  }

  lemma {:induction false} TakeWordSplits(w: Words, s: string, stop: char)
    ensures TakeWord(w, s, stop).Some? ==>
              var (word, rest) := TakeWord(w, s, stop).value; IsWord(w, word) && s == word + ([stop] + rest)
  {
  }

  lemma {:induction false} TakeWordFinds(w: Words, word: string, stop: char, rest: string)
    requires IsWord(w, word) && !w(stop)
    ensures TakeWord(w, word + ([stop] + rest), stop) == Some((word, rest))
  {
    var s := word + ([stop] + rest);
    SpanAppend(w, word, [stop] + rest);
    assert s[|word|] == stop && s[..|word|] == word && s[|word| + 1..] == rest;
  }

  /** `re.match(r"db\.(\w+)\.(\w+)\((.*)\)$", t, re.DOTALL)` on stripped text: the groups. */
  function MatchCall(w: Words, t: string): Option<(string, string, string)> {
    if |t| < 3 || t[..3] != "db." then None
    else
      var (collection, afterDot) :- TakeWord(w, t[3..], '.');
      var (name, afterParen) :- TakeWord(w, afterDot, '(');
      if afterParen == "" || afterParen[|afterParen| - 1] != ')' then None
      else Some((collection, name, afterParen[..|afterParen| - 1]))
  }

  lemma {:induction false} CallMatches(w: Words, collection: string, name: string, args: string)
    requires IsWord(w, collection) && IsWord(w, name)
    ensures MatchCall(w, CallText(collection, name, args)) == Some((collection, name, args))
  {
    hide TakeWord;
    assert !w('.') && !w('(');
    var afterParen := args + ")";
    var afterDot := name + ("(" + afterParen);
    var t := "db." + (collection + ("." + afterDot));
    assert t[..3] == "db." && t[3..] == collection + ("." + afterDot);
    TakeWordFinds(w, collection, '.', afterDot);
    TakeWordFinds(w, name, '(', afterParen);
    assert afterParen[..|afterParen| - 1] == args;
  }

  /** The groups are the only way to read the text as a call. */
  lemma {:induction false} MatchCallDecides(w: Words, t: string, collection: string, name: string, args: string)
    ensures MatchCall(w, t) == Some((collection, name, args)) <==> IsCall(w, t, collection, name, args)
  {
    hide TakeWord;
    if IsCall(w, t, collection, name, args) {
      CallMatches(w, collection, name, args);
    }
    if MatchCall(w, t) == Some((collection, name, args)) {
      TakeWordSplits(w, t[3..], '.');
      var afterDot := TakeWord(w, t[3..], '.').value.1;
      TakeWordSplits(w, afterDot, '(');
      var afterParen := TakeWord(w, afterDot, '(').value.1;
      assert afterParen == args + ")";
      assert t == "db." + t[3..];
    }
  }

  // ----- the command

  /** The text is an accepted write command, and this is the command. */
  ghost predicate Accepts(w: Words, sql: string, cmd: Command) {
    && !HasUnsafe(Strip(sql))
    && (exists args :: IsCall(w, Strip(sql), cmd.collection, Name(cmd.op), args)
                       && ArgsFrom([], Strip(args)) == Ok(cmd.args))
    && Shaped(cmd.op, cmd.args)
  }

  /** The text is a call of an allowed operation whose arguments read as stated. */
  ghost predicate Reads(w: Words, sql: string, op: Operation, outcome: Result<seq<Json>>) {
    && !HasUnsafe(Strip(sql))
    && exists c, a :: IsCall(w, Strip(sql), c, Name(op), a) && ArgsFrom([], Strip(a)) == outcome
  }

  /** `_parse_mongo_write`: its early raises, in order. */
  method ParseWrite(w: Words, sql: string) returns (r: Result<Command>)
    ensures r.Ok? ==> Accepts(w, sql, r.value)
    ensures r.Err? ==> forall cmd :: !Accepts(w, sql, cmd)
    ensures r == Err(Unsafe) <==> HasUnsafe(Strip(sql))
    ensures r == Err(BadShape) <==> !HasUnsafe(Strip(sql)) && forall c, n, a :: !IsCall(w, Strip(sql), c, n, a)
    ensures r == Err(BadOperation) ==> exists c, n, a :: IsCall(w, Strip(sql), c, n, a) && forall op :: Name(op) != n
    ensures r.Err? && r.error in {BadJson, BadSeparator} ==> exists op :: Reads(w, sql, op, Err(r.error))
    ensures r == Err(WrongCount) ==> exists op, args :: Reads(w, sql, op, Ok(args)) && |args| != Arity(op)
    ensures r == Err(WrongKind) ==>
              exists op, args :: Reads(w, sql, op, Ok(args)) && |args| == Arity(op) && !Kinds(op, args)
  {
    hide ArgsFrom, Strip, CallText, IsWord;
    var text := Strip(sql);
    if HasUnsafe(text) {
      return Err(Unsafe);
    }
    var m := MatchCall(w, text);
    forall c, n, a ensures m == Some((c, n, a)) <==> IsCall(w, text, c, n, a) {
      MatchCallDecides(w, text, c, n, a);
    }
    if m.None? {
      return Err(BadShape);
    }
    var (collection, name, argsText) := m.value;
    assert IsCall(w, text, collection, name, argsText);
    var op := Allowed(name);
    if op.None? {
      return Err(BadOperation);
    }
    var args := ParseJsonArgs(argsText);
    assert Reads(w, sql, op.value, args);
    if args.Err? {
      ArgsErrors([], Strip(argsText));
      return Err(args.error);
    }
    if |args.value| != Arity(op.value) {
      return Err(WrongCount);
    }
    if !Kinds(op.value, args.value) {
      return Err(WrongKind);
    }
    r := Ok(Command(collection, op.value, args.value));
  }

  lemma {:induction false} ArgsErrors(args: seq<Json>, t: string)
    ensures ArgsFrom(args, t).Err? ==> ArgsFrom(args, t).error in {BadJson, BadSeparator}
    decreases |t|
  {
    if t != "" && NextArg(t).Some? {
      var (v, rest) := NextArg(t).value;
      if rest != "" {
        ArgsErrors(args + [v], rest[1..]);
      }
    }
  }

  /** What the named operation asks of its arguments: two exactly for updates and replaces, a
      list for `insertMany`, objects otherwise. */
  predicate FitsName(n: string, args: seq<Json>) {
    && n in ["insertOne", "insertMany", "updateOne", "updateMany", "deleteOne", "deleteMany", "replaceOne"]
    && |args| == (if "update" <= n || "replace" <= n then 2 else 1)
    && (if n == "insertMany" then args[0].Arr? else args[0].Obj?)
    && (|args| == 2 ==> args[1].Obj?)
  }

  /** A text is accepted exactly when it has no unsafe character anywhere and is a call, by the
      name of its operation, with the JSON arguments that operation asks for. */
  lemma {:induction false} AcceptsDecides(w: Words, sql: string, cmd: Command)
    ensures Accepts(w, sql, cmd) <==>
              && ';' !in sql && '|' !in sql && '`' !in sql
              && exists a :: IsCall(w, Strip(sql), cmd.collection, Name(cmd.op), a) && IsArgs(Strip(a), cmd.args)
                             && FitsName(Name(cmd.op), cmd.args)
  {
    hide ArgsFrom, Strip, CallText, IsWord, IsArgs, FitsName, Shaped, HasUnsafe, Name;
    UnsafeStays(sql);
    FitsShape(cmd.op, cmd.args);
    forall a ensures ArgsFrom([], Strip(a)) == Ok(cmd.args) <==> IsArgs(Strip(a), cmd.args) {
      assert [] + cmd.args == cmd.args;
      ArgsDecide([], Strip(a), cmd.args);
    }
  }

  lemma {:induction false} UnsafeStays(sql: string)
    ensures HasUnsafe(Strip(sql)) <==> ';' in sql || '|' in sql || '`' in sql
  {
    hide Strip;
    StripTrims(sql);
    var pre, post :| All(IsSpace, pre) && All(IsSpace, post) && sql == pre + Strip(sql) + post;
    forall c | c in sql && c !in Strip(sql) ensures IsSpace(c) {
      assert c in pre || c in post;
    }
    assert forall c :: c in Strip(sql) ==> c in sql;
    assert !IsSpace(';') && !IsSpace('|') && !IsSpace('`');
  }

  lemma {:induction false} FitsShape(op: Operation, args: seq<Json>)
    ensures FitsName(Name(op), args) <==> Shaped(op, args)
  {
    NamePrefix(op);
  }

  lemma {:induction false} NamePrefix(op: Operation)
    ensures "update" <= Name(op) || "replace" <= Name(op) <==> Arity(op) == 2
    ensures Name(op) == "insertMany" <==> op.InsertMany?
  {
    var n := Name(op);
    assert n[0] == 'i' || n[0] == 'u' || n[0] == 'd' || n[0] == 'r';
  }

  /** A text is at most one command. */
  lemma {:induction false} AcceptsOne(w: Words, sql: string, a: Command, b: Command)
    requires Accepts(w, sql, a) && Accepts(w, sql, b)
    ensures a == b
  {
    var s :| IsCall(w, Strip(sql), a.collection, Name(a.op), s) && ArgsFrom([], Strip(s)) == Ok(a.args);
    var t :| IsCall(w, Strip(sql), b.collection, Name(b.op), t) && ArgsFrom([], Strip(t)) == Ok(b.args);
    MatchCallDecides(w, Strip(sql), a.collection, Name(a.op), s);
    MatchCallDecides(w, Strip(sql), b.collection, Name(b.op), t);
    assert Allowed(Name(a.op)) == Some(a.op) && Allowed(Name(b.op)) == Some(b.op);
  }

  // ----- printing a command

  /** An argument as it may be written: spaces, the value in some layout, spaces. */
  datatype Slot = Slot(lead: string, value: Json, style: Style, trail: string)

  ghost predicate ValidSlot(s: Slot) {
    All(IsSpace, s.lead) && All(IsSpace, s.trail) && WellFormed(s.value) && ValidStyle(s.style)
  }

  /** Arguments separated by commas, without the outermost spaces; possibly with one comma
      after the last argument. */
  ghost function ArgsCore(slots: seq<Slot>, comma: bool): string
    requires slots != []
  {
    var s := slots[0];
    Print(s.value, s.style, 0)
    + if |slots| == 1 then (if comma then s.trail + "," else "")
      else s.trail + ("," + (slots[1].lead + ArgsCore(slots[1..], comma)))
  }

  ghost function ValuesOf(slots: seq<Slot>): seq<Json> {
    seq(|slots|, i requires 0 <= i < |slots| => slots[i].value)
  }

  /** The whole text of a write command. */
  ghost function CommandText(before: string, collection: string, op: Operation, slots: seq<Slot>, comma: bool,
                             end: string, after: string): string
    requires slots != []
  {
    before + CallText(collection, Name(op), slots[0].lead + ArgsCore(slots, comma) + end) + after
  }

  lemma {:induction false} PrintEnds(v: Json, st: Style)
    requires WellFormed(v)
    ensures Print(v, st, 0) != ""
    ensures !IsSpace(Print(v, st, 0)[|Print(v, st, 0)| - 1])
  {
    if v.Int? {
      var num := Numeral(if v.n < 0 then -v.n else v.n);
      assert PrintInt(v.n)[|PrintInt(v.n)| - 1] == num[|num| - 1];
    } else if v.Float? {
      FloatEnds(v.f);
    }
  }

  lemma {:induction false} FloatEnds(f: FloatText)
    requires ValidFloat(f)
    ensures PrintFloat(f) != "" && !IsSpace(PrintFloat(f)[|PrintFloat(f)| - 1])
  {
    hide Whole, Frac, Exp, IsSpace, Digits;
    match f
    case Decimal(negative, whole, frac, exp) =>
      var last := if exp != "" then exp else frac;
      PartEnds(frac, exp);
      assert PrintFloat(f)[|PrintFloat(f)| - 1] == last[|last| - 1];
    case NaN => assert !IsSpace('N') by { NoSpaces(); }
    case Infinite(negative) =>
      assert !IsSpace('y') by { NoSpaces(); }
      assert PrintFloat(f)[|PrintFloat(f)| - 1] == 'y';
  }

  lemma {:induction false} NoSpaces()
    ensures !IsSpace('N') && !IsSpace('y')
  {
  }

  lemma {:induction false} PartEnds(frac: string, exp: string)
    requires Frac(frac) && Exp(exp)
    ensures frac != "" ==> !IsSpace(frac[|frac| - 1])
    ensures exp != "" ==> !IsSpace(exp[|exp| - 1])
  {
    if frac != "" { assert frac[1..][|frac| - 2] == frac[|frac| - 1]; }
    if exp != "" {
      var k := if Digits(exp[1..]) then 1 else 2;
      assert exp[k..][|exp| - k - 1] == exp[|exp| - 1];
    }
  }

  lemma {:induction false} CoreTrimmed(slots: seq<Slot>, comma: bool)
    requires slots != [] && forall s :: s in slots ==> ValidSlot(s)
    ensures var core := ArgsCore(slots, comma); core != "" && Trimmed(core) && StartsValue(core[0])
    decreases |slots|
  {
    hide Print, WellFormed, ValidStyle, StartsValue, IsSpace, ArgsCore;
    assert ValidSlot(slots[0]) && forall s :: s in slots[1..] ==> s in slots;
    var printed := Print(slots[0].value, slots[0].style, 0);
    PrintStarts(slots[0].value, slots[0].style, 0);
    PrintEnds(slots[0].value, slots[0].style);
    StartIsVisible(printed[0]);
    var tail := CoreTail(slots, comma);
    CoreSplits(slots, comma);
    if tail != "" {
      CommaIsVisible();
      if |slots| > 1 { CoreTrimmed(slots[1..], comma); }
      assert (printed + tail)[|printed + tail| - 1] == tail[|tail| - 1];
    } else {
      assert printed + tail == printed;
    }
  }

  /** The core after the first argument's value. */
  ghost function CoreTail(slots: seq<Slot>, comma: bool): string
    requires slots != []
  {
    if |slots| == 1 then (if comma then slots[0].trail + "," else "")
    else slots[0].trail + ("," + (slots[1].lead + ArgsCore(slots[1..], comma)))
  }

  lemma {:induction false} CoreSplits(slots: seq<Slot>, comma: bool)
    requires slots != []
    ensures ArgsCore(slots, comma) == Print(slots[0].value, slots[0].style, 0) + CoreTail(slots, comma)
  {
    hide Print;
  }

  lemma {:induction false} StartIsVisible(c: char)
    requires StartsValue(c)
    ensures !IsSpace(c)
  {
  }

  lemma {:induction false} CommaIsVisible()
    ensures !IsSpace(',')
  {
  }

  lemma {:induction false} SpacesEndNumber(gap: string, t: string)
    requires All(IsSpace, gap) && EndsNumber(t)
    ensures EndsNumber(gap + t)
  {
    if gap != "" { assert (gap + t)[0] == gap[0]; }
  }

  /** A printed value, spaces, and text that does not start with a space. */
  lemma {:induction false} NextPrinted(lead: string, s: Slot, rest: string)
    requires ValidSlot(s) && All(IsSpace, lead)
    requires rest == "" || rest[0] == ','
    ensures NextArg(lead + (Print(s.value, s.style, 0) + (s.trail + rest))) == Some((s.value, rest))
  {
    hide DecodeValue, Print, LStrip;
    var text := Print(s.value, s.style, 0) + (s.trail + rest);
    PrintStarts(s.value, s.style, 0);
    LStripPadded(lead, text);
    SpacesEndNumber(s.trail, rest);
    DecodePrint(s.value, s.style, 0, s.trail + rest);
    LStripPadded(s.trail, rest);
  }

  lemma {:induction false} ArgsFromPrinted(done: seq<Json>, lead: string, slots: seq<Slot>, comma: bool)
    requires slots != [] && All(IsSpace, lead) && forall s :: s in slots ==> ValidSlot(s)
    ensures ArgsFrom(done, lead + ArgsCore(slots, comma)) == Ok(done + ValuesOf(slots))
    decreases |slots|
  {
    hide NextArg, Print, WellFormed, ValidStyle;
    var s := slots[0];
    assert ValidSlot(s);
    CoreTrimmed(slots, comma);
    var printed := Print(s.value, s.style, 0);
    if |slots| == 1 {
      var rest := if comma then "," else "";
      var slot := if comma then s else s.(trail := "");
      NextPrinted(lead, slot, rest);
      assert printed + (slot.trail + rest) == ArgsCore(slots, comma);
      assert rest != "" ==> rest[1..] == "";
      assert done + ValuesOf(slots) == done + [s.value];
    } else {
      assert ValidSlot(slots[1]) && forall x :: x in slots[1..] ==> x in slots;
      var more := slots[1].lead + ArgsCore(slots[1..], comma);
      NextPrinted(lead, s, "," + more);
      assert printed + (s.trail + ("," + more)) == ArgsCore(slots, comma);
      assert ("," + more)[1..] == more;
      ArgsFromPrinted(done + [s.value], slots[1].lead, slots[1..], comma);
      assert done + [s.value] + ValuesOf(slots[1..]) == done + ValuesOf(slots);
    }
  }

  /** Every text of a well-shaped command that is free of `;`, `|` and backticks is accepted
      as exactly that command: any operation, collection, arguments, JSON layout, spaces
      between arguments or around the text, and a comma after the last argument or none. */
  lemma {:induction false} WriteRoundTrip(w: Words, before: string, collection: string, op: Operation,
                                          slots: seq<Slot>, comma: bool, end: string, after: string)
    requires IsWord(w, collection) && slots != [] && forall s :: s in slots ==> ValidSlot(s)
    requires All(IsSpace, before) && All(IsSpace, end) && All(IsSpace, after)
    requires Shaped(op, ValuesOf(slots))
    requires !HasUnsafe(CommandText(before, collection, op, slots, comma, end, after))
    ensures Accepts(w, CommandText(before, collection, op, slots, comma, end, after),
                    Command(collection, op, ValuesOf(slots)))
  {
    hide ArgsFrom, ArgsCore, Strip, HasUnsafe, IsWord, CallText;
    var args := slots[0].lead + ArgsCore(slots, comma) + end;
    var call := CallText(collection, Name(op), args);
    CallEnds(collection, Name(op), args);
    StripPadded(before, call, after);
    SafePart(before, call, after);
    NameIsWord(w, op);
    assert IsCall(w, call, collection, Name(op), args);
    StripArgs(slots, comma, end);
    ArgsFromCore(slots, comma);
  }

  lemma {:induction false} ArgsFromCore(slots: seq<Slot>, comma: bool)
    requires slots != [] && forall s :: s in slots ==> ValidSlot(s)
    ensures ArgsFrom([], ArgsCore(slots, comma)) == Ok(ValuesOf(slots))
  {
    hide ArgsFrom, ArgsCore;
    ArgsFromPrinted([], "", slots, comma);
    assert "" + ArgsCore(slots, comma) == ArgsCore(slots, comma) && [] + ValuesOf(slots) == ValuesOf(slots);
  }

  lemma {:induction false} SafePart(a: string, b: string, c: string)
    requires !HasUnsafe(a + b + c)
    ensures !HasUnsafe(b)
  {
    assert forall x :: x in b ==> x in a + b + c;
  }

  lemma {:induction false} StripArgs(slots: seq<Slot>, comma: bool, end: string)
    requires slots != [] && (forall s :: s in slots ==> ValidSlot(s)) && All(IsSpace, end)
    ensures Strip(slots[0].lead + ArgsCore(slots, comma) + end) == ArgsCore(slots, comma)
  {
    hide ArgsCore, LStrip, RStrip;
    assert ValidSlot(slots[0]);
    CoreTrimmed(slots, comma);
    StripPadded(slots[0].lead, ArgsCore(slots, comma), end);
  }

  lemma {:induction false} CallEnds(collection: string, name: string, args: string)
    ensures CallText(collection, name, args) != "" && Trimmed(CallText(collection, name, args))
  {
  }

  lemma {:induction false} NameIsWord(w: Words, op: Operation)
    ensures IsWord(w, Name(op))
  {
    forall i | 0 <= i < |Name(op)| ensures w(Name(op)[i]) {
      assert AsciiWord(Name(op)[i]);
    }
  }

  // ----- dispatch

  datatype Outcome = Failed | Done(affected: nat)

  datatype DriverCall = DriverCall(collection: string, method': string, args: seq<Json>)

  /** One row of the review: its error level, and the rows affected. */
  datatype Row = Row(errlevel: nat, affected: nat)

  /** `execute`: whether the server can be reached, and the driver's answer to each call, are
      given. */
  method Execute(w: Words, sql: string, connected: bool, driver: DriverCall -> Outcome)
    returns (calls: seq<DriverCall>, rows: seq<Row>, executed: bool)
    ensures |rows| == 1 && |calls| <= 1
    ensures calls == [] <==> !connected || forall cmd :: !Accepts(w, sql, cmd)
    ensures calls != [] ==> exists op :: Accepts(w, sql, Command(calls[0].collection, op, calls[0].args))
                                         && calls[0].method' == DriverMethod(op)
    ensures calls != [] ==> exists n, a :: IsCall(w, Strip(sql), calls[0].collection, n, a)
                                           && calls[0].method' == Snake(n)
    ensures executed <==> calls != [] && driver(calls[0]).Done?
    ensures executed ==> rows[0] == Row(0, driver(calls[0]).affected)
    ensures !executed ==> rows[0].errlevel == 2
  {
    var parsed := ParseWrite(w, sql);
    if parsed.Err? || !connected {
      return [], [Row(2, 0)], false;
    }
    var cmd := parsed.value;
    var call := DriverCall(cmd.collection, DriverMethod(cmd.op), cmd.args);
    calls := [call];
    assert Accepts(w, sql, Command(call.collection, cmd.op, call.args));
    DriverMethodIsSnake(cmd.op);
    match driver(call)
    case Failed => rows, executed := [Row(2, 0)], false;
    case Done(n) => rows, executed := [Row(0, n)], true;
  }

  function DriverMethod(op: Operation): string {
    match op
    case InsertOne => "insert_one"
    case InsertMany => "insert_many"
    case UpdateOne => "update_one"
    case UpdateMany => "update_many"
    case DeleteOne => "delete_one"
    case DeleteMany => "delete_many"
    case ReplaceOne => "replace_one"
  }

  function LowerLetter(c: char): char
    requires 'A' <= c <= 'Z'
  {
    (c as int + 32) as char
  }

  /** The name in the driver's spelling: each upper-case letter as `_` and its lower case. */
  function Snake(s: string): string {
    if s == "" then ""
    else (if 'A' <= s[0] <= 'Z' then ['_', LowerLetter(s[0])] else [s[0]]) + Snake(s[1..])
  }

  lemma {:induction false} SnakeLower(a: string, b: string)
    requires forall i :: 0 <= i < |a| ==> !('A' <= a[i] <= 'Z')
    ensures Snake(a + b) == a + Snake(b)
  {
    if a == "" {
      assert a + b == b;
    } else {
      SnakeLower(a[1..], b);
      assert (a + b)[1..] == a[1..] + b;
    }
  }

  lemma {:induction false} SnakeTwo(verb: string, first: char, more: string)
    requires forall i :: 0 <= i < |verb| ==> !('A' <= verb[i] <= 'Z')
    requires forall i :: 0 <= i < |more| ==> !('A' <= more[i] <= 'Z')
    requires 'A' <= first <= 'Z'
    ensures Snake(verb + ([first] + more)) == verb + (['_', LowerLetter(first)] + more)
  {
    SnakeLower(verb, [first] + more);
    SnakeLower(more, "");
    assert ([first] + more)[1..] == more && more + "" == more;
  }

  lemma {:induction false} SnakeVerb(verb: string)
    requires verb in ["insert", "update", "delete", "replace"]
    ensures Snake(verb + "One") == verb + "_one" && Snake(verb + "Many") == verb + "_many"
  {
    hide Snake;
    SnakeTwo(verb, 'O', "ne");
    SnakeTwo(verb, 'M', "any");
    assert "One" == ['O'] + "ne" && "Many" == ['M'] + "any";
    assert "_one" == ['_', LowerLetter('O')] + "ne" && "_many" == ['_', LowerLetter('M')] + "any";
  }

  /** The driver's method is the operation's own name in that spelling. */
  lemma {:induction false} DriverMethodIsSnake(op: Operation)
    ensures DriverMethod(op) == Snake(Name(op))
  {
    hide Snake;
    var verb := if op.InsertOne? || op.InsertMany? then "insert"
                else if op.UpdateOne? || op.UpdateMany? then "update"
                else if op.ReplaceOne? then "replace" else "delete";
    SnakeVerb(verb);
    var one := op.InsertOne? || op.UpdateOne? || op.DeleteOne? || op.ReplaceOne?;
    assert Name(op) == verb + if one then "One" else "Many";
    assert DriverMethod(op) == verb + if one then "_one" else "_many";
  }
}
