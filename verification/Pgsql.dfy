/** Named parameters rewritten to positional ones, and when that keeps the meaning. */
module Pgsql {
  import opened Text

  // ----- the rewriting scan

  /** `%\((\w+)\)s` at the start of s: the key, and the text after the match. */
  function ParamAt(w: Words, s: string): (r: Option<(string, string)>)
    ensures r.Some? ==> |r.value.1| < |s|
  {
    if |s| < 2 || s[0] != '%' || s[1] != '(' then None
    else
      var n := Span(w, s[2..]);
      if n > 0 && ")s" <= s[2 + n..] then Some((s[2..2 + n], s[2 + n + 2..])) else None
  }

  function IndexOf(keys: seq<string>, key: string): (i: nat)
    requires key in keys
    ensures i < |keys| && keys[i] == key && key !in keys[..i]
  {
    if keys[0] == key then 0
    else
      var i := 1 + IndexOf(keys[1..], key);
      assert keys[..i] == [keys[0]] + keys[1..][..i - 1];
      i
  }

  function AddKey(keys: seq<string>, key: string): seq<string> {
    if key in keys then keys else keys + [key]
  }

  function Reference(keys: seq<string>, key: string): string
    requires key in keys
  {
    "$" + Numeral(IndexOf(keys, key) + 1)
  }

  /** `re.sub` with the growing key list: text still to scan, keys so far, text written. */
  function Rewrite(w: Words, s: string, keys: seq<string>, done: string): (string, seq<string>)
    decreases |s|
  {
    if s == "" then (done, keys)
    else
      match ParamAt(w, s)
      case Some((key, rest)) =>
        var grown := AddKey(keys, key);
        Rewrite(w, rest, grown, done + Reference(grown, key))
      case None => Rewrite(w, s[1..], keys, done + [s[0]])
  }

  datatype Converted<V> = Converted(text: string, args: seq<V>) | MissingKey(key: string)

  /** `_convert_params` */
  method ConvertParams<V>(w: Words, sql: string, parameters: Option<map<string, V>>) returns (r: Converted<V>)
    ensures parameters.None? || parameters.value == map[] ==> r == Converted(sql, [])
    ensures parameters.Some? && parameters.value != map[] ==>
              var (text, keys) := Rewrite(w, sql, [], "");
              && (r.Converted? <==> forall k :: k in keys ==> k in parameters.value)
              && (r.Converted? ==> r.text == text && |r.args| == |keys|
                                   && forall i :: 0 <= i < |keys| ==> r.args[i] == parameters.value[keys[i]])
              && (r.MissingKey? ==> r.key in keys && r.key !in parameters.value)
  {
    hide Rewrite, ParamAt;
    if parameters.None? || parameters.value == map[] {
      return Converted(sql, []);
    }
    var keys: seq<string> := [];
    var converted := "";
    var pos := 0;
    assert sql[0..] == sql;
    while pos < |sql|
      invariant pos <= |sql|
      invariant Rewrite(w, sql[pos..], keys, converted) == Rewrite(w, sql, [], "")
    {
      RewriteStep(w, sql[pos..], keys, converted);
      var m := ParamAt(w, sql[pos..]);
      if m.Some? {
        var (key, rest) := m.value;
        ParamSuffix(w, sql, pos);
        if key !in keys {
          keys := keys + [key];
        }
        converted := converted + "$" + Numeral(IndexOf(keys, key) + 1);
        pos := |sql| - |rest|;
      } else {
        converted := converted + [sql[pos]];
        pos := pos + 1;
      }
    }
    RewriteEnd(w, keys, converted);
    assert sql[pos..] == "";
    var args: seq<V> := [];
    for i := 0 to |keys|
      invariant |args| == i
      invariant forall j :: 0 <= j < i ==> keys[j] in parameters.value && args[j] == parameters.value[keys[j]]
    {
      if keys[i] !in parameters.value {
        return MissingKey(keys[i]);
      }
      args := args + [parameters.value[keys[i]]];
    }
    r := Converted(converted, args);
  }

  lemma {:induction false} RewriteEnd(w: Words, keys: seq<string>, done: string)
    ensures Rewrite(w, "", keys, done) == (done, keys)
  {
  }

  lemma {:induction false} RewriteStep(w: Words, s: string, keys: seq<string>, done: string)
    requires s != ""
    ensures match ParamAt(w, s)
            case Some((key, rest)) =>
              var grown := AddKey(keys, key);
              Rewrite(w, s, keys, done) == Rewrite(w, rest, grown, done + "$" + Numeral(IndexOf(grown, key) + 1))
            case None => Rewrite(w, s, keys, done) == Rewrite(w, s[1..], keys, done + [s[0]])
  {
    match ParamAt(w, s)
    case Some((key, rest)) =>
      var grown := AddKey(keys, key);
      assert done + Reference(grown, key) == done + "$" + Numeral(IndexOf(grown, key) + 1);
    case None =>
  }

  lemma {:induction false} ParamSuffix(w: Words, sql: string, pos: nat)
    requires pos <= |sql| && ParamAt(w, sql[pos..]).Some?
    ensures var rest := ParamAt(w, sql[pos..]).value.1;
            pos < |sql| - |rest| && rest == sql[|sql| - |rest|..]
  {
  }
}
