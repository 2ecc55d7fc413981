/** Unpadded base64url (RFC 4648, sections 4 and 5): encoding with the padding stripped, and
    Python's lenient decoder run on the value with padding put back. */
module Base64Url {
  import opened Text

  type Byte = x: int | 0 <= x < 256
  type Sextet = x: int | 0 <= x < 64

  function AlphabetChar(d: Sextet): char {
    if d < 26 then (65 + d) as char
    else if d < 52 then (71 + d) as char
    else if d < 62 then (d - 4) as char
    else if d == 62 then '-' else '_'
  }

  /** `urlsafe_b64decode` maps `-_` to `+/` first, so both spellings are read. */
  function CharValue(c: char): Option<Sextet> {
    if 'A' <= c <= 'Z' then Some(c as int - 65)
    else if 'a' <= c <= 'z' then Some(c as int - 71)
    else if '0' <= c <= '9' then Some(c as int + 4)
    else if c == '-' || c == '+' then Some(62)
    else if c == '_' || c == '/' then Some(63)
    else None
  }

  function Quad(a: Byte, b: Byte, c: Byte): (s: string)
    ensures |s| == 4
  {
    [AlphabetChar(a / 4), AlphabetChar(a % 4 * 16 + b / 16), AlphabetChar(b % 16 * 4 + c / 64), AlphabetChar(c % 64)]
  }

  /** `base64.urlsafe_b64encode(data).decode()` */
  function Encode(data: seq<Byte>): string {
    if data == [] then ""
    else if |data| == 1 then Quad(data[0], 0, 0)[..2] + "=="
    else if |data| == 2 then Quad(data[0], data[1], 0)[..3] + "="
    else Quad(data[0], data[1], data[2]) + Encode(data[3..])
  }

  /** `b64url(data)` */
  function B64Url(data: seq<Byte>): string { RStripChar(Encode(data), '=') }

  /** Carried bits that can be left at a position of a group. */
  predicate Fits(position: nat, carry: Sextet) {
    position <= 1 || (position == 2 && carry < 16) || (position == 3 && carry < 4)
  }

  /** The decoder's loop: position in the current group of four, bits carried over, and
      padding characters seen in a row. Characters outside the alphabet are skipped. */
  function Scan(s: string, position: nat, carry: Sextet, pads: nat): Option<seq<Byte>>
    requires Fits(position, carry)
  {
    if s == "" then if position == 0 then Some([]) else None
    else if s[0] == '=' then
      if position >= 2 && position + pads + 1 >= 4 then Some([])
      else Scan(s[1..], position, carry, if position >= 2 then pads + 1 else pads)
    else
      match CharValue(s[0])
      case None => Scan(s[1..], position, carry, pads)
      case Some(d) =>
        if position == 0 then Scan(s[1..], 1, d, 0)
        else if position == 1 then
          var rest :- Scan(s[1..], 2, d % 16, 0);
          Some([carry * 4 + d / 16] + rest)
        else if position == 2 then
          var rest :- Scan(s[1..], 3, d % 4, 0);
          Some([carry * 16 + d / 4] + rest)
        else
          var rest :- Scan(s[1..], 0, 0, 0);
          Some([carry * 64 + d] + rest)
  }

  /** The value with `"=" * (-len(value) % 4)` appended. */
  function Padded(value: string): string { value + Repeat('=', (-|value|) % 4) }

  /** `_b64decode(value)`, with `binascii.Error` as `None`. */
  function B64Decode(value: string): Option<seq<Byte>> { Scan(Padded(value), 0, 0, 0) }

  // ----- proofs

  lemma CharRoundTrip(d: Sextet)
    ensures CharValue(AlphabetChar(d)) == Some(d) && AlphabetChar(d) != '='
  {
  }

  ghost function Prepend(b: Byte, r: Option<seq<Byte>>): Option<seq<Byte>> {
    match r case Some(bs) => Some([b] + bs) case None => None
  }

  /** One character of the alphabet, at each position of a group. */
  lemma {:induction false} ScanOne(d: Sextet, t: string, carry: Sextet)
    ensures Scan([AlphabetChar(d)] + t, 0, carry, 0) == Scan(t, 1, d, 0)
    ensures Scan([AlphabetChar(d)] + t, 1, carry, 0) == Prepend(carry * 4 + d / 16, Scan(t, 2, d % 16, 0))
    ensures carry < 16 ==>
            Scan([AlphabetChar(d)] + t, 2, carry, 0) == Prepend(carry * 16 + d / 4, Scan(t, 3, d % 4, 0))
    ensures carry < 4 ==>
            Scan([AlphabetChar(d)] + t, 3, carry, 0) == Prepend(carry * 64 + d, Scan(t, 0, 0, 0))
  {
    CharRoundTrip(d);
    assert ([AlphabetChar(d)] + t)[1..] == t;
  }

  /** Padding closes a group that holds at least one byte. */
  lemma {:induction false} ScanPadding(n: nat, position: nat, carry: Sextet, pads: nat)
    requires Fits(position, carry)
    ensures position < 2 ==> Scan(Repeat('=', n), position, carry, pads).Some? == (position == 0)
    ensures position >= 2 && n > 0 && position + pads + n >= 4 ==>
              Scan(Repeat('=', n), position, carry, pads) == Some([])
  {
    if n > 0 {
      assert Repeat('=', n)[1..] == Repeat('=', n - 1);
      ScanPadding(n - 1, position, carry, if position >= 2 then pads + 1 else pads);
    }
  }

  lemma {:induction false} ScanFirst(a: Byte, b: Byte, t: string)
    ensures Scan(Quad(a, b, 0)[..2] + t, 0, 0, 0) == Prepend(a, Scan(t, 2, b / 16, 0))
  {
    var q := Quad(a, b, 0);
    assert q[..2] + t == [q[0]] + ([q[1]] + t);
    ScanOne(a / 4, [q[1]] + t, 0);
    ScanOne(a % 4 * 16 + b / 16, t, a / 4);
  }

  lemma {:induction false} ScanSecond(b: Byte, c: Byte, t: string)
    ensures Scan([AlphabetChar(b % 16 * 4 + c / 64)] + t, 2, b / 16, 0) == Prepend(b, Scan(t, 3, c / 64, 0))
  {
    ScanOne(b % 16 * 4 + c / 64, t, b / 16);
  }

  lemma {:induction false} ScanQuad(a: Byte, b: Byte, c: Byte, t: string)
    ensures Scan(Quad(a, b, c) + t, 0, 0, 0) == Prepend(a, Prepend(b, Prepend(c, Scan(t, 0, 0, 0))))
  {
    var q := Quad(a, b, c);
    ScanFirst(a, b, q[2..] + t);
    ScanSecond(b, c, [q[3]] + t);
    ScanOne(c % 64, t, c / 64);
    assert q + t == Quad(a, b, 0)[..2] + (q[2..] + t);
    assert q[2..] + t == [q[2]] + ([q[3]] + t);
  }

  lemma {:induction false} DecodeEncoded(data: seq<Byte>)
    ensures Scan(Encode(data), 0, 0, 0) == Some(data)
  {
    if |data| == 1 {
      ScanFirst(data[0], 0, Repeat('=', 2));
      ScanPadding(2, 2, 0, 0);
      assert Repeat('=', 2) == "==";
      assert Quad(data[0], 0, 0)[..2] + Repeat('=', 2) == Encode(data);
      assert [data[0]] + [] == data;
    } else if |data| == 2 {
      var q := Quad(data[0], data[1], 0);
      ScanFirst(data[0], data[1], [q[2]] + Repeat('=', 1));
      ScanSecond(data[1], 0, Repeat('=', 1));
      ScanPadding(1, 3, 0, 0);
      assert q[..2] + ([q[2]] + Repeat('=', 1)) == Encode(data);
      assert [data[0]] + ([data[1]] + []) == data;
    } else if |data| > 2 {
      DecodeEncoded(data[3..]);
      ScanQuad(data[0], data[1], data[2], Encode(data[3..]));
      assert [data[0]] + ([data[1]] + ([data[2]] + data[3..])) == data;
    }
  }

  /** The encoding without its padding. */
  function Body(data: seq<Byte>): (s: string)
    ensures |s| == (4 * |data| + 2) / 3
    ensures '=' !in s
  {
    if data == [] then ""
    else if |data| == 1 then Quad(data[0], 0, 0)[..2]
    else if |data| == 2 then Quad(data[0], data[1], 0)[..3]
    else Quad(data[0], data[1], data[2]) + Body(data[3..])
  }

  lemma {:induction false} BodyLength(n: nat)
    ensures (4 * n + 2) / 3 % 4 != 1
    ensures n >= 3 ==> (-((4 * n + 2) / 3)) % 4 == (-((4 * (n - 3) + 2) / 3)) % 4
  {
    BodyGroups(n, n / 3, n % 3);
    if n >= 3 {
      assert 4 * n + 2 == (4 * (n - 3) + 2) + 12;
      assert (4 * n + 2) / 3 == (4 * (n - 3) + 2) / 3 + 4;
    }
  }

  lemma {:induction false} BodyGroups(n: nat, k: nat, r: nat)
    requires n == 3 * k + r && r < 3
    ensures (4 * n + 2) / 3 == 4 * k + if r == 0 then 0 else r + 1
  {
  }

  lemma {:induction false} EncodeShape(data: seq<Byte>)
    ensures Encode(data) == Body(data) + Repeat('=', (-|Body(data)|) % 4)
  {
    if |data| > 2 {
      var rest := Body(data[3..]);
      BodyLength(|data|);
      EncodeShape(data[3..]);
      Regroup(Quad(data[0], data[1], data[2]), rest, Repeat('=', (-|rest|) % 4));
    } else if data == [] {
      assert Repeat('=', 0) == "";
    } else {
      assert Repeat('=', 2) == "==" && Repeat('=', 1) == "=";
    }
  }

  lemma {:induction false} StripExactly(body: string, n: nat)
    requires '=' !in body
    ensures RStripChar(body + Repeat('=', n), '=') == body
  {
    var s := body + Repeat('=', n);
    if n == 0 {
      assert s == body;
    } else {
      StripExactly(body, n - 1);
      assert s[..|s| - 1] == body + Repeat('=', n - 1);
    }
  }

  lemma {:induction false} StripsToBody(data: seq<Byte>)
    ensures B64Url(data) == Body(data)
    ensures Padded(Body(data)) == Encode(data)
  {
    EncodeShape(data);
    StripExactly(Body(data), (-|Body(data)|) % 4);
  }

  /** Stripping removes exactly the padding, re-adding `-len % 4` restores it, and decoding
      gives the bytes back. */
  lemma {:induction false} UnpaddedRoundTrip(data: seq<Byte>)
    ensures B64Decode(B64Url(data)) == Some(data)
    ensures Padded(B64Url(data)) == Encode(data)
    ensures '=' !in B64Url(data) && |B64Url(data)| == (4 * |data| + 2) / 3 && |B64Url(data)| % 4 != 1
  {
    BodyLength(|data|);
    StripsToBody(data);
    DecodeEncoded(data);
  }

  /** `groups` is the number of groups of four that s, with its padding, completes. */
  lemma {:induction false} ScanAlphabet(s: string, n: nat, groups: nat, position: nat, carry: Sextet)
    requires forall i :: 0 <= i < |s| ==> CharValue(s[i]).Some?
    requires Fits(position, carry) && position < 4
    requires n < 4 && position + |s| + n == 4 * groups
    ensures Scan(s + Repeat('=', n), position, carry, 0).Some? <==> n != 3
  {
    var t := s + Repeat('=', n);
    if s == "" {
      assert t == Repeat('=', n);
      ScanPadding(n, position, carry, 0);
    } else {
      var d := CharValue(s[0]).value;
      assert t[0] == s[0] && t[1..] == s[1..] + Repeat('=', n);
      if position == 0 { ScanAlphabet(s[1..], n, groups, 1, d); }
      else if position == 1 { ScanAlphabet(s[1..], n, groups, 2, d % 16); }
      else if position == 2 { ScanAlphabet(s[1..], n, groups, 3, d % 4); }
      else { ScanAlphabet(s[1..], n, groups - 1, 0, 0); }
    }
  }

  /** On text in the alphabet, decoding fails exactly when the length is 1 modulo 4. */
  lemma {:induction false} DecodesUnlessOneOver(value: string)
    requires forall i :: 0 <= i < |value| ==> CharValue(value[i]).Some?
    ensures B64Decode(value).Some? <==> |value| % 4 != 1
  {
    var n := (-|value|) % 4;
    ScanAlphabet(value, n, (|value| + n) / 4, 0, 0);
  }
}
