/** The verifier accepts what the signer wrote, and accepts nothing whose files differ in
    digest from the signed ones. */
module ManifestProofs {
  import opened Text
  import opened Sorting
  import opened Json
  import opened JsonCanonical
  import opened Base64Url
  import opened Manifest
  import Ledger

  // ----- a listed path leads back to its file

  lemma {:induction false} SplitName(n: string, rest: string)
    requires '/' !in n
    ensures Split(n + ("/" + rest), '/') == [n] + Split(rest, '/')
  {
    var s := n + ("/" + rest);
    if n == "" {
      assert s[1..] == rest;
    } else {
      assert '/' !in n[1..];
      SplitName(n[1..], rest);
      assert s[1..] == n[1..] + ("/" + rest);
      assert [n[0]] + n[1..] == n;
    }
  }

  lemma {:induction false} JoinCons(p: Path)
    requires |p| > 1
    ensures Join(p) == p[0] + ("/" + Join(p[1..]))
  {
  }

  lemma {:induction false} SplitJoin(p: Path)
    requires p != [] && ValidPath(p)
    ensures Split(Join(p), '/') == p
    ensures Join(p) != "" && Join(p)[0] != '/'
  {
    hide Split;
    assert p[0] in p;
    if |p| == 1 {
      SplitOne(p[0], '/');
    } else {
      assert forall n :: n in p[1..] ==> n in p;
      SplitJoin(p[1..]);
      SplitName(p[0], Join(p[1..]));
      JoinCons(p);
    }
  }

  lemma {:induction false} WalkNames(at: seq<string>, p: Path)
    requires ValidPath(p)
    ensures Walk(at, p) == at + p
    decreases |p|
  {
    if p == [] {
      assert at + p == at;
    } else {
      assert p[0] in p && forall n :: n in p[1..] ==> n in p;
      WalkNames(at + [p[0]], p[1..]);
      assert at + [p[0]] + p[1..] == at + p;
    }
  }

  /** The verifier resolves the path the signer recorded to the same file below its root. */
  lemma {:induction false} SafePathJoin(root: seq<string>, p: Path)
    requires p != [] && ValidPath(p)
    ensures SafePath(root, Join(p)) == Some(p)
  {
    SplitJoin(p);
    WalkNames(root, p);
    assert (root + p)[|root|..] == p;
  }

  lemma {:induction false} SplitParts(s: string, sep: char)
    ensures forall part :: part in Split(s, sep) ==> sep !in part
  {
    if s != "" { SplitParts(s[1..], sep); }
  }

  lemma {:induction false} WalkValid(at: seq<string>, steps: seq<string>)
    requires ValidPath(at) && forall part :: part in steps ==> '/' !in part
    ensures ValidPath(Walk(at, steps))
    decreases |steps|
  {
    if steps != [] {
      var s := steps[0];
      assert s in steps && forall part :: part in steps[1..] ==> part in steps;
      var next := if s == "" || s == "." then at
                  else if s == ".." then (if at == [] then [] else at[..|at| - 1])
                  else at + [s];
      WalkValid(next, steps[1..]);
    }
  }

  /** Whatever text a path is, what it is accepted as is a plain path below the root: no `.`,
      `..` or empty part is left in it, and written out again it names the same file. */
  lemma {:induction false} SafePathStaysInside(root: seq<string>, relative: string, p: Path)
    requires ValidPath(root) && SafePath(root, relative) == Some(p)
    ensures ValidPath(p)
    ensures p != [] ==> SafePath(root, Join(p)) == Some(p)
  {
    SplitParts(relative, '/');
    WalkValid(root, Split(relative, '/'));
    assert forall n :: n in p ==> n in root + p;
    if p != [] { SafePathJoin(root, p); }
  }

  /** The parts that name something. */
  function Kept(parts: seq<string>): seq<string> {
    if parts == [] then []
    else (if parts[0] == "" || parts[0] == "." then [] else [parts[0]]) + Kept(parts[1..])
  }

  lemma {:induction false} WalkForward(at: seq<string>, steps: seq<string>)
    requires ".." !in steps
    ensures Walk(at, steps) == at + Kept(steps)
    decreases |steps|
  {
    if steps == [] {
      assert at + [] == at;
    } else {
      var s := steps[0];
      if s == "" || s == "." {
        WalkForward(at, steps[1..]);
        assert [] + Kept(steps[1..]) == Kept(steps[1..]);
      } else {
        WalkForward(at + [s], steps[1..]);
        assert (at + [s]) + Kept(steps[1..]) == at + ([s] + Kept(steps[1..]));
      }
    }
  }

  /** A relative path without `..` is accepted below every root, as its parts. */
  lemma {:induction false} ForwardPathAccepted(root: seq<string>, relative: string)
    requires relative != "" && relative[0] != '/' && ".." !in Split(relative, '/')
    ensures SafePath(root, relative) == Some(Kept(Split(relative, '/')))
  {
    hide Split;
    var parts := Split(relative, '/');
    WalkForward(root, parts);
    assert (root + Kept(parts))[|root|..] == Kept(parts);
  }

  lemma {:induction false} WalkAppend(at: seq<string>, a: seq<string>, b: seq<string>)
    ensures Walk(at, a + b) == Walk(Walk(at, a), b)
    decreases |a|
  {
    if a == [] {
      assert a + b == b;
    } else {
      var s := a[0];
      var next := if s == "" || s == "." then at
                  else if s == ".." then (if at == [] then [] else at[..|at| - 1])
                  else at + [s];
      assert (a + b)[1..] == a[1..] + b;
      WalkAppend(next, a[1..], b);
    }
  }

  /** A `..` takes back the name before it. */
  lemma {:induction false} ParentUndoes(at: seq<string>, pre: seq<string>, name: string, post: seq<string>)
    requires ValidName(name)
    ensures Walk(at, pre + ([name, ".."] + post)) == Walk(at, pre + post)
  {
    WalkAppend(at, pre, [name, ".."] + post);
    WalkAppend(at, pre, post);
    var here := Walk(at, pre);
    assert ([name, ".."] + post)[1..] == [".."] + post && ([".."] + post)[1..] == post;
    assert (here + [name])[..|here|] == here;
  }

  /** A path that starts by leaving the root is accepted only when it comes back into it. */
  lemma {:induction false} LeavingRootRefused(root: seq<string>, rest: string)
    requires root != [] && ".." !in Split(rest, '/')
    ensures var names := Kept(Split(rest, '/'));
            SafePath(root, "../" + rest)
            == if names != [] && names[0] == root[|root| - 1] then Some(names[1..]) else None
  {
    hide Split;
    var (up, names) := (root[..|root| - 1], Kept(Split(rest, '/')));
    assert "../" + rest == ".." + ("/" + rest);
    SplitName("..", rest);
    var steps := [".."] + Split(rest, '/');
    assert steps[1..] == Split(rest, '/');
    WalkForward(up, Split(rest, '/'));
    assert Resolve(root, "../" + rest) == up + names;
    if names != [] && names[0] == root[|root| - 1] {
      assert up + names == root + names[1..];
    }
  }

  // ----- entries

  /** An entry with a path and a digest is faultless exactly when the path leads to a file of
      the tree with that digest, in whatever case the digest is written. */
  lemma {:induction false} EntryFaultless(t: Tree, sha256: Digest, ms: seq<Member>, path: string, digest: string)
    requires Get(ms, "path") == Some(Str(path)) && Get(ms, "sha256") == Some(Str(digest))
    ensures FaultOf(t, sha256, Obj(ms)).None? <==>
            exists p :: SafePath(t.root, path) == Some(p) && p in t.content && sha256(t.content[p]) == Lower(digest)
  {
    hide Get, Resolve;
  }

  /** An entry equal to a signed one, up to the order of its members. */
  lemma {:induction false} FaultOfSigned(t: Tree, sha256: Digest, item: Json, p: Path, bytes: seq<Byte>)
    requires WellFormed(item) && Same(item, FileItem(sha256, p, bytes))
    requires p != [] && ValidPath(p)
    ensures FaultOf(t, sha256, item).None? <==> p in t.content && sha256(t.content[p]) == sha256(bytes)
  {
    hide SafePath, Same, Join, SameMembers, Get, ValidPath;
    ItemFields(sha256, item, p, bytes);
    SafePathJoin(t.root, p);
    SplitJoin(p);
  }

  lemma {:induction false} ItemFields(sha256: Digest, item: Json, p: Path, bytes: seq<Byte>)
    requires WellFormed(item) && Same(item, FileItem(sha256, p, bytes))
    ensures item.Obj? && Get(item.members, "path") == Some(Str(Join(p)))
    ensures Get(item.members, "sha256") == Some(Str(sha256(bytes)))
  {
    hide Same, Join, SameMembers;
    var signed := [Member("path", Str(Join(p))), Member("sha256", Str(sha256(bytes)))];
    SameObject(item, signed);
    assert DistinctKeys(signed);
    GetIn(signed, signed[0]);
    GetIn(signed, signed[1]);
    SameGet(item.members, signed, "path");
    SameGet(item.members, signed, "sha256");
  }

  lemma {:induction false} SameObject(v: Json, ms: seq<Member>)
    requires Same(v, Obj(ms))
    ensures v.Obj? && SameMembers(v.members, ms)
  {
  }

  lemma {:induction false} SameArray(v: Json, items: seq<Json>)
    requires Same(v, Arr(items))
    ensures v.Arr? && |v.items| == |items| && forall i :: 0 <= i < |items| ==> Same(v.items[i], items[i])
  {
  }

  lemma {:induction false} SameText(v: Json, w: Json)
    requires Same(v, w) && w.Str?
    ensures v == w
  {
  }

  lemma {:induction false} TwinRight(a: seq<Member>, b: seq<Member>, m: Member)
    requires SameMembers(a, b) && m in a
    ensures exists n :: n in b && n.key == m.key && Same(m.value, n.value)
  {
    hide Same;
    var i :| 0 <= i < |a| && a[i] == m;
    assert HasTwin(a[i], b);
    var j :| 0 <= j < |b| && Twins(a[i], b[j]);
    assert b[j] in b;
  }

  lemma {:induction false} TwinLeft(a: seq<Member>, b: seq<Member>, n: Member)
    requires SameMembers(a, b) && n in b
    ensures exists m :: m in a && m.key == n.key && Same(m.value, n.value)
  {
    hide Same;
    var j :| 0 <= j < |b| && b[j] == n;
    assert IsTwin(a, b[j]);
    var i :| 0 <= i < |a| && Twins(a[i], b[j]);
    assert a[i] in a;
  }

  /** Equal dicts give equal values for each key; texts are then identical. */
  lemma {:induction false} SameGet(a: seq<Member>, b: seq<Member>, key: string)
    requires DistinctKeys(a) && DistinctKeys(b) && SameMembers(a, b)
    ensures Get(a, key).Some? <==> Get(b, key).Some?
    ensures Get(a, key).Some? ==> Same(Get(a, key).value, Get(b, key).value)
    ensures Get(b, key).Some? && Get(b, key).value.Str? ==> Get(a, key) == Get(b, key)
  {
    hide Same, Get, SameMembers, DistinctKeys;
    if Get(b, key).Some? {
      TwinLeft(a, b, Member(key, Get(b, key).value));
    }
    if Get(a, key).Some? {
      TwinRight(a, b, Member(key, Get(a, key).value));
      var n :| n in b && n.key == key && Same(Get(a, key).value, n.value);
      GetIn(b, n);
    }
    if Get(b, key).Some? && Get(b, key).value.Str? {
      SameText(Get(a, key).value, Get(b, key).value);
    }
  }

  // ----- the whole manifest

  lemma {:induction false} PayloadWellFormed(sha256: Digest, r: Release)
    requires ValidRelease(r)
    ensures WellFormed(Obj(PayloadMembers(sha256, r)))
    ensures Get(PayloadMembers(sha256, r), "files") == Some(Arr(FileItems(sha256, r)))
  {
    hide FileItems;
    var ms := PayloadMembers(sha256, r);
    FindFiles(ms);
    ItemsWellFormed(sha256, r);
  }

  lemma {:induction false} ItemsWellFormed(sha256: Digest, r: Release)
    requires ValidRelease(r)
    ensures WellFormed(Arr(FileItems(sha256, r)))
  {
    hide FileItem, FileItems;
    forall x | x in FileItems(sha256, r) ensures WellFormed(x) {
      var i :| 0 <= i < |r.files| && FileItems(sha256, r)[i] == x;
      ItemWellFormed(sha256, r.files[i], r.tree.content[r.files[i]]);
    }
  }

  lemma {:induction false} ItemWellFormed(sha256: Digest, p: Path, bytes: seq<Byte>)
    ensures WellFormed(FileItem(sha256, p, bytes))
  {
    hide Join;
  }

  lemma {:induction false} FindFiles(ms: seq<Member>)
    requires |ms| == 5 && ms[0].key == "product" && ms[1].key == "version" && ms[2].key == "algorithm"
    requires ms[3].key == "issued_at" && ms[4].key == "files"
    ensures DistinctKeys(ms) && Get(ms, "files") == Some(ms[4].value)
  {
    assert DistinctKeys(ms);
    GetIn(ms, ms[4]);
  }

  /** What the verifier reads in the file the signer wrote: the canonical form of the payload
      that was signed, and the signature. */
  lemma {:induction false} ReadBack(sha256: Digest, sign: string -> seq<Byte>, r: Release)
    requires ValidRelease(r)
    requires sign(CanonicalText(Obj(PayloadMembers(sha256, r)))) != []
    ensures var payload := Obj(PayloadMembers(sha256, r));
            Contents(ManifestText(sha256, sign, r))
            == Some((Canon(payload).members, B64Url(sign(CanonicalText(payload)))))
  {
    hide Loads, Print, Canon, PayloadMembers, CanonicalText, B64Url;
    var payload := Obj(PayloadMembers(sha256, r));
    var signature := B64Url(sign(CanonicalText(payload)));
    var doc := Document(sha256, sign, r);
    PayloadWellFormed(sha256, r);
    assert WellFormed(Obj(doc));
    assert ValidStyle(INDENTED);
    RereadCanonical(Obj(doc), INDENTED, "\n");
    CanonIsObject(doc);
    CanonIsObject(PayloadMembers(sha256, r));
    CanonText(signature);
    GetCanon(doc, "payload");
    GetCanon(doc, "signature");
    GetIn(doc, doc[0]);
    GetIn(doc, doc[1]);
    UnpaddedRoundTrip(sign(CanonicalText(payload)));
  }

  lemma {:induction false} CanonText(s: string)
    ensures Canon(Str(s)) == Str(s)
  {
  }

  lemma {:induction false} CanonIsObject(ms: seq<Member>)
    ensures Canon(Obj(ms)).Obj?
  {
  }

  lemma {:induction false} CanonIdempotentText(v: Json)
    requires WellFormed(v)
    ensures CanonicalText(Canon(v)) == CanonicalText(v)
    ensures WellFormed(Canon(v)) && Same(Canon(v), v)
  {
    CanonIdempotent(v);
    CanonWellFormed(v);
    CanonSame(v);
  }

  /** Two file lists, one of them signed: the entries are at fault exactly where a file is
      missing or has another digest. */
  ghost predicate DigestsMatch(sha256: Digest, r: Release, t: Tree)
    requires ValidRelease(r)
  {
    forall p :: p in r.files ==> p in t.content && sha256(t.content[p]) == sha256(r.tree.content[p])
  }

  lemma {:induction false} PayloadFiles(sha256: Digest, r: Release, payload: seq<Member>)
    requires ValidRelease(r)
    requires WellFormed(Obj(payload)) && Same(Obj(payload), Obj(PayloadMembers(sha256, r)))
    ensures match Get(payload, "files")
            case Some(Arr(items)) => |items| == |r.files| && forall i :: 0 <= i < |items| ==>
              WellFormed(items[i]) && Same(items[i], FileItem(sha256, r.files[i], r.tree.content[r.files[i]]))
            case _ => false
  {
    hide Same, SameMembers, Get, PayloadMembers, FileItem;
    var signed := PayloadMembers(sha256, r);
    PayloadWellFormed(sha256, r);
    SameObject(Obj(payload), signed);
    SameGet(payload, signed, "files");
    var files := Get(payload, "files").value;
    SameArray(files, FileItems(sha256, r));
    assert Member("files", files) in payload;
    forall i | 0 <= i < |files.items| ensures WellFormed(files.items[i]) {
      assert files.items[i] in files.items;
    }
  }

  lemma {:induction false} SignedItemsHold(sha256: Digest, r: Release, t: Tree, payload: seq<Member>)
    requires ValidRelease(r)
    requires WellFormed(Obj(payload)) && Same(Obj(payload), Obj(PayloadMembers(sha256, r)))
    ensures match Get(payload, "files")
            case Some(Arr(items)) =>
              && |items| == |r.files|
              && ((forall i :: 0 <= i < |items| ==> FaultOf(t, sha256, items[i]).None?) <==> DigestsMatch(sha256, r, t))
            case _ => false
  {
    hide FaultOf, Same, Get, PayloadMembers, FileItem, WellFormed;
    PayloadFiles(sha256, r, payload);
    var items := Get(payload, "files").value.items;
    forall i | 0 <= i < |items|
      ensures FaultOf(t, sha256, items[i]).None? <==>
              r.files[i] in t.content && sha256(t.content[r.files[i]]) == sha256(r.tree.content[r.files[i]])
    {
      assert r.files[i] in r.files;
      FaultOfSigned(t, sha256, items[i], r.files[i], r.tree.content[r.files[i]]);
    }
    assert forall p :: p in r.files <==> exists i :: 0 <= i < |r.files| && r.files[i] == p;
  }

  /** A manifest whose signature holds for the payload of release r is accepted on exactly the
      trees that have every listed file with the digest it had when signed. */
  lemma {:induction false} AcceptedExactly(text: string, t: Tree, sha256: Digest,
                                           verify: (seq<Byte>, string) -> bool, r: Release)
    requires ValidRelease(r) && Contents(text).Some?
    requires SignatureHolds(verify, Contents(text).value.0, Contents(text).value.1)
    requires CanonicalText(Obj(Contents(text).value.0)) == CanonicalText(Obj(PayloadMembers(sha256, r)))
    ensures Accepts(text, t, sha256, verify) <==> r.files != [] && DigestsMatch(sha256, r, t)
  {
    hide Canon, CanonicalText, Contents, FaultOf, Same, WellFormed, Get, PayloadMembers, SignatureHolds, DigestsMatch;
    var payload := Contents(text).value.0;
    ContentsWellFormed(text);
    PayloadWellFormed(sha256, r);
    CanonicalTextDecides(Obj(payload), Obj(PayloadMembers(sha256, r)));
    SignedItemsHold(sha256, r, t, payload);
  }

  /** The verifier accepts what the signer wrote on exactly the trees that have every listed
      file with the digest it had when signed: whatever the root, the other files, the
      enumeration order and the version. Of the signature scheme only this one signature is
      asked to verify. */
  lemma {:induction false} SignerAccepted(sha256: Digest, sign: string -> seq<Byte>,
                                          verify: (seq<Byte>, string) -> bool, r: Release, t: Tree)
    requires ValidRelease(r)
    requires var m := CanonicalText(Obj(PayloadMembers(sha256, r))); verify(sign(m), m) && sign(m) != []
    ensures Accepts(ManifestText(sha256, sign, r), t, sha256, verify) <==> r.files != [] && DigestsMatch(sha256, r, t)
  {
    hide Canon, CanonicalText, Contents, FaultOf, Print, Same, WellFormed, B64Url, Accepts, DigestsMatch,
      PayloadMembers;
    var payload := Obj(PayloadMembers(sha256, r));
    ReadBack(sha256, sign, r);
    PayloadWellFormed(sha256, r);
    UnpaddedRoundTrip(sign(CanonicalText(payload)));
    CanonIdempotentText(payload);
    CanonIsObject(payload.members);
    AcceptedExactly(ManifestText(sha256, sign, r), t, sha256, verify, r);
  }

  // ----- one key for manifests and licenses

  /** The payload of a license document, as the license authority signs it. `iso` writes an
      instant, `limits` is the limits dict in some order. */
  ghost function LicenseMembers(license: Ledger.License, iso: int -> string, limits: seq<Member>): seq<Member> {
    [Member("license_id", Str(license.licenseId)),
     Member("project", Str(Ledger.PROJECT)), Member("product", Str(Ledger.PROJECT)),
     Member("customer_id", Str(license.customer)), Member("company_name", Str(license.company)),
     Member("edition", Str(license.edition)), Member("issued_at", Str(iso(license.issuedAt))),
     Member("not_before", Str(iso(license.notBefore))), Member("expires_at", Str(iso(license.expiresAt))),
     Member("features", Arr(Texts(license.features))), Member("limits", Obj(limits))]
    + if license.fingerprint.Some? then [Member("deployment_fingerprint", Str(license.fingerprint.value))] else []
  }

  function Texts(features: seq<string>): seq<Json> {
    seq(|features|, i requires 0 <= i < |features| => Str(features[i]))
  }

  ghost predicate ListsLimits(limits: seq<Member>, of: map<string, int>) {
    DistinctKeys(limits) && forall m :: m in limits <==> m.key in of && m.value == Int(of[m.key])
  }

  /** The text the authority signs for a license. */
  ghost predicate IsLicenseText(m: string, license: Ledger.License, iso: int -> string) {
    exists limits :: ListsLimits(limits, license.limits)
                     && m == CanonicalText(Obj(LicenseMembers(license, iso, limits)))
  }

  /** Only what was signed verifies: payloads of the signer's own releases, and payloads of
      licenses, which may be signed with the same key. */
  ghost predicate Unforgeable(verify: (seq<Byte>, string) -> bool, sha256: Digest, released: set<Release>,
                              licenses: set<Ledger.License>, iso: int -> string) {
    && (forall r :: r in released ==> ValidRelease(r))
    && forall s, m :: verify(s, m) ==>
         || (exists r :: r in released && m == CanonicalText(Obj(PayloadMembers(sha256, r))))
         || (exists license :: license in licenses && IsLicenseText(m, license, iso))
  }

  function LicenseKeys(): seq<string> {
    ["license_id", "project", "product", "customer_id", "company_name", "edition", "issued_at", "not_before",
     "expires_at", "features", "limits", "deployment_fingerprint"]
  }

  lemma {:induction false} LicenseKeysDistinct()
    ensures Distinct(LicenseKeys()) && "files" !in LicenseKeys()
  {
  }

  lemma {:induction false} LicenseKeyed(license: Ledger.License, iso: int -> string, limits: seq<Member>)
    ensures var (ms, keys) := (LicenseMembers(license, iso, limits), LicenseKeys());
            |ms| <= |keys| && forall i :: 0 <= i < |ms| ==> ms[i].key == keys[i]
  {
    hide Texts;
  }

  lemma {:induction false} LicenseValues(license: Ledger.License, iso: int -> string, limits: seq<Member>)
    ensures forall m :: m in LicenseMembers(license, iso, limits) ==>
              m.value.Str? || m.value == Arr(Texts(license.features)) || m.value == Obj(limits)
  {
    hide Texts;
    var ms := LicenseMembers(license, iso, limits);
    forall m | m in ms
      ensures m.value.Str? || m.value == Arr(Texts(license.features)) || m.value == Obj(limits)
    {
      var i :| 0 <= i < |ms| && ms[i] == m;
      assert i < 9 || i == 11 ==> ms[i].value.Str?;
    }
  }

  lemma {:induction false} LicenseWellFormed(license: Ledger.License, iso: int -> string, limits: seq<Member>)
    requires ListsLimits(limits, license.limits)
    ensures WellFormed(Obj(LicenseMembers(license, iso, limits)))
    ensures Get(LicenseMembers(license, iso, limits), "files").None?
  {
    hide ListsLimits, Get, WellFormed, LicenseMembers, LicenseKeys, Texts;
    var (ms, keys) := (LicenseMembers(license, iso, limits), LicenseKeys());
    LicenseKeysDistinct();
    LicenseKeyed(license, iso, limits);
    LicenseValues(license, iso, limits);
    LimitsWellFormed(limits, license.limits);
    TextsWellFormed(license.features);
    forall m | m in ms ensures WellFormed(m.value) && m.key != "files" {
      var i :| 0 <= i < |ms| && ms[i] == m;
      assert keys[i] in keys;
      StrWellFormed(m.value);
    }
    ObjectWellFormed(ms);
  }

  lemma {:induction false} StrWellFormed(v: Json)
    ensures v.Str? ==> WellFormed(v)
  {
  }

  lemma {:induction false} TextsWellFormed(features: seq<string>)
    ensures WellFormed(Arr(Texts(features)))
  {
    assert forall v :: v in Texts(features) ==> v.Str?;
  }

  lemma {:induction false} ObjectWellFormed(ms: seq<Member>)
    requires DistinctKeys(ms) && forall m :: m in ms ==> WellFormed(m.value)
    ensures WellFormed(Obj(ms))
  {
  }

  lemma {:induction false} LimitsWellFormed(limits: seq<Member>, of: map<string, int>)
    requires ListsLimits(limits, of)
    ensures WellFormed(Obj(limits))
  {
  }

  /** A license payload is never taken for a manifest, though its signature holds: it has no
      file list. */
  lemma {:induction false} LicenseIsNoManifest(text: string, t: Tree, sha256: Digest,
                                               verify: (seq<Byte>, string) -> bool, license: Ledger.License,
                                               iso: int -> string)
    requires Contents(text).Some? && IsLicenseText(CanonicalText(Obj(Contents(text).value.0)), license, iso)
    ensures !Accepts(text, t, sha256, verify)
  {
    hide CanonicalText, Contents, FaultOf, Get, LicenseMembers, SignatureHolds, Same, WellFormed, SameMembers;
    var payload := Contents(text).value.0;
    var limits :| ListsLimits(limits, license.limits)
                  && CanonicalText(Obj(payload)) == CanonicalText(Obj(LicenseMembers(license, iso, limits)));
    ContentsWellFormed(text);
    LicenseWellFormed(license, iso, limits);
    CanonicalTextDecides(Obj(payload), Obj(LicenseMembers(license, iso, limits)));
    SameObject(Obj(payload), LicenseMembers(license, iso, limits));
    KeysOfObject(payload);
    KeysOfObject(LicenseMembers(license, iso, limits));
    SameGet(payload, LicenseMembers(license, iso, limits), "files");
  }

  lemma {:induction false} KeysOfObject(ms: seq<Member>)
    requires WellFormed(Obj(ms))
    ensures DistinctKeys(ms)
  {
  }

  /** Whatever text the manifest file holds and whatever the tree: if the verifier accepts,
      some release of the signer lists files that are all there, each with the digest it had
      when signed. */
  lemma {:induction false} AcceptedIsSigned(text: string, t: Tree, sha256: Digest,
                                            verify: (seq<Byte>, string) -> bool, released: set<Release>,
                                            licenses: set<Ledger.License>, iso: int -> string)
    requires Accepts(text, t, sha256, verify) && Unforgeable(verify, sha256, released, licenses, iso)
    ensures exists r :: r in released && ValidRelease(r) && r.files != [] && DigestsMatch(sha256, r, t)
  {
    hide CanonicalText, Contents, FaultOf, Get, PayloadMembers, SignatureHolds, DigestsMatch, IsLicenseText;
    var (payload, signature) := Contents(text).value;
    VerifiedIsSigned(verify, sha256, released, licenses, iso, payload, signature);
    if license :| license in licenses && IsLicenseText(CanonicalText(Obj(payload)), license, iso) {
      LicenseIsNoManifest(text, t, sha256, verify, license, iso);
    } else {
      var r :| r in released && CanonicalText(Obj(payload)) == CanonicalText(Obj(PayloadMembers(sha256, r)));
      AcceptedExactly(text, t, sha256, verify, r);
    }
  }

  lemma {:induction false} VerifiedIsSigned(verify: (seq<Byte>, string) -> bool, sha256: Digest,
                                            released: set<Release>, licenses: set<Ledger.License>, iso: int -> string,
                                            payload: seq<Member>, signature: string)
    requires SignatureHolds(verify, payload, signature)
    requires Unforgeable(verify, sha256, released, licenses, iso)
    ensures || (exists r :: r in released
                            && CanonicalText(Obj(payload)) == CanonicalText(Obj(PayloadMembers(sha256, r))))
            || (exists license :: license in licenses && IsLicenseText(CanonicalText(Obj(payload)), license, iso))
  {
    hide CanonicalText, B64Decode, PayloadMembers, IsLicenseText;
  }

  /** Both halves speak of the same schemes: for any releases and licenses there is one that
      signs every release and lets nothing else verify. */
  lemma {:induction false} IdealSchemeExists(sha256: Digest, released: set<Release>, licenses: set<Ledger.License>,
                                             iso: int -> string)
    returns (sign: string -> seq<Byte>, verify: (seq<Byte>, string) -> bool)
    requires forall r :: r in released ==> ValidRelease(r)
    ensures Unforgeable(verify, sha256, released, licenses, iso)
    ensures forall r :: r in released ==>
              var m := CanonicalText(Obj(PayloadMembers(sha256, r))); verify(sign(m), m) && sign(m) != []
  {
    hide CanonicalText, PayloadMembers, IsLicenseText;
    var texts := set r | r in released :: CanonicalText(Obj(PayloadMembers(sha256, r)));
    sign := m => [1];
    verify := (s, m) => m in texts && s == [1];
  }

  /** No file of the tree differs from the content released under its path and yet has its
      digest. Only these pairs are compared, so the digest as a whole may well have clashes. */
  ghost predicate NoClash(sha256: Digest, released: set<Release>, t: Tree) {
    forall r, p :: r in released && p in r.tree.content && p in t.content ==>
      sha256(t.content[p]) == sha256(r.tree.content[p]) ==> t.content[p] == r.tree.content[p]
  }

  /** Without such a clash, an accepted tree has every listed file with its content at
      signing time. */
  lemma {:induction false} AcceptedContentIsSigned(text: string, t: Tree, sha256: Digest,
                                                   verify: (seq<Byte>, string) -> bool, released: set<Release>,
                                                   licenses: set<Ledger.License>, iso: int -> string)
    requires Accepts(text, t, sha256, verify) && Unforgeable(verify, sha256, released, licenses, iso)
    requires NoClash(sha256, released, t)
    ensures exists r :: r in released && ValidRelease(r) && r.files != []
                        && forall p :: p in r.files ==> p in t.content && t.content[p] == r.tree.content[p]
  {
    hide Accepts;
    AcceptedIsSigned(text, t, sha256, verify, released, licenses, iso);
  }

  lemma {:induction false} ContentsWellFormed(text: string)
    ensures Contents(text).Some? ==> WellFormed(Obj(Contents(text).value.0))
  {
    LoadsWellFormed(text);
    if Contents(text).Some? {
      var ms := Loads(text).value.members;
      assert Member("payload", Get(ms, "payload").value) in ms;
    }
  }
}
