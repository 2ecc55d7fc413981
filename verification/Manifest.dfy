/** The signed integrity manifest: the signer's file selection and document, the verifier's
    checks at start-up, and the proof that they fit together. */
module Manifest {
  import opened Text
  import opened Sorting
  import opened Json
  import opened JsonCanonical
  import opened Base64Url

  // ----- a symlink-free tree

  type Path = seq<string>  // parts below the root

  predicate ValidName(n: string) { n != "" && '/' !in n && n != "." && n != ".." }

  predicate ValidPath(p: Path) { forall n :: n in p ==> ValidName(n) }

  /** Files and directories below a root. `listing` is the order in which the operating
      system enumerates the files. */
  datatype Tree = Tree(root: seq<string>, listing: seq<Path>, content: map<Path, seq<Byte>>, dirs: set<Path>)

  ghost predicate ValidTree(t: Tree) {
    && (forall p :: p in t.content ==> p != [] && ValidPath(p) && p !in t.dirs)
    && (forall p, n :: p in t.content && 0 <= n < |p| ==> p[..n] in t.dirs)
    && (forall p :: p in t.listing <==> p in t.content)
    && [] in t.dirs
  }

  // ----- path arithmetic

  function Join(parts: seq<string>): string {
    if parts == [] then ""
    else if |parts| == 1 then parts[0]
    else parts[0] + "/" + Join(parts[1..])
  }

  function Walk(at: seq<string>, steps: seq<string>): seq<string>
    decreases |steps|
  {
    if steps == [] then at
    else
      var s := steps[0];
      var next := if s == "" || s == "." then at
                  else if s == ".." then (if at == [] then [] else at[..|at| - 1])
                  else at + [s];
      Walk(next, steps[1..])
  }

  /** `(root / item).resolve()` without symbolic links. */
  function Resolve(root: seq<string>, item: string): seq<string> {
    Walk(if item != "" && item[0] == '/' then [] else root, Split(item, '/'))
  }

  /** `path.relative_to(root)` */
  function RelativeTo(root: seq<string>, path: seq<string>): Option<Path> {
    if root <= path then Some(path[|root|..]) else None
  }

  // ----- the signer's selection

  /** `PurePath.suffix` of a file name. */
  function Suffix(name: string): string {
    var i := LastDot(name, |name|);
    if 0 < i < |name| - 1 then name[i..] else ""
  }

  function LastDot(name: string, upTo: nat): (i: int)
    requires upTo <= |name|
    ensures -1 <= i < upTo
  {
    if upTo == 0 then -1 else if name[upTo - 1] == '.' then upTo - 1 else LastDot(name, upTo - 1)
  }

  predicate Ignored(p: Path) {
    "__pycache__" in p || (p != [] && Suffix(p[|p| - 1]) in [".pyc", ".pyo"])
  }

  /** In a cache directory, or a compiled file: a name of more than the ending. */
  ghost predicate Compiled(p: Path) {
    || "__pycache__" in p
    || (p != [] && exists stem :: stem != "" && (p[|p| - 1] == stem + ".pyc" || p[|p| - 1] == stem + ".pyo"))
  }

  lemma {:induction false} LastDotIs(name: string, upTo: nat, i: nat)
    requires i < upTo <= |name| && name[i] == '.' && '.' !in name[i + 1..upTo]
    ensures LastDot(name, upTo) == i
  {
    if upTo - 1 > i {
      assert name[upTo - 1] == name[i + 1..upTo][upTo - 2 - i];
      assert name[i + 1..upTo - 1] == name[i + 1..upTo][..upTo - 2 - i];
      LastDotIs(name, upTo - 1, i);
    }
  }

  lemma {:induction false} SuffixDecides(name: string, ending: string)
    requires |ending| > 1 && ending[0] == '.' && '.' !in ending[1..]
    ensures Suffix(name) == ending <==> exists stem :: stem != "" && name == stem + ending
  {
    if Suffix(name) == ending {
      var i := LastDot(name, |name|);
      assert name == name[..i] + ending;
    }
    if stem :| stem != "" && name == stem + ending {
      assert name[|stem| + 1..|name|] == ending[1..];
      LastDotIs(name, |name|, |stem|);
      assert name[|stem|..] == ending;
    }
  }

  /** The signer leaves out exactly cache directories and compiled files. */
  lemma {:induction false} IgnoredDecides(p: Path)
    ensures Ignored(p) <==> Compiled(p)
  {
    hide Suffix;
    if p != [] {
      SuffixDecides(p[|p| - 1], ".pyc");
      SuffixDecides(p[|p| - 1], ".pyo");
    }
  }

  datatype Selection = Selected(files: seq<Path>) | Outside(item: string) | NotFound(item: string)

  /** Where an argument points below the root, if it does. */
  function Target(t: Tree, item: string): Option<Path> { RelativeTo(t.root, Resolve(t.root, item)) }

  /** An argument names something of the tree. */
  predicate Names(t: Tree, item: string) {
    Target(t, item).Some? && (Target(t, item).value in t.dirs || Target(t, item).value in t.content)
  }

  /** The argument takes file p: it is the file, or a directory above it. */
  predicate Takes(t: Tree, item: string, p: Path) {
    && p in t.content && !Ignored(p) && Target(t, item).Some?
    && (if Target(t, item).value in t.dirs then Target(t, item).value <= p else Target(t, item).value == p)
  }

  /** The file is what the argument names, or below it. */
  predicate AtOrBelow(t: Tree, item: string, p: Path) { Target(t, item).Some? && Target(t, item).value <= p }

  lemma {:induction false} TakesDecides(t: Tree, item: string, p: Path)
    requires ValidTree(t)
    ensures Takes(t, item, p) <==> p in t.content && !Compiled(p) && AtOrBelow(t, item, p)
  {
    hide Target, Ignored, Compiled;
    IgnoredDecides(p);
    if p in t.content && AtOrBelow(t, item, p) {
      var target := Target(t, item).value;
      assert target == p[..|target|];
    }
  }

  function Filter(t: Tree, item: string, ps: seq<Path>): (r: seq<Path>)
    ensures forall p :: p in r <==> p in ps && Takes(t, item, p)
  {
    if ps == [] then []
    else (if Takes(t, item, ps[0]) then [ps[0]] else []) + Filter(t, item, ps[1..])
  }

  /** The elements of s once each: the list of `set(s)` in some order. */
  function Dedup(s: seq<Path>): (r: seq<Path>)
    ensures forall p :: p in r <==> p in s
    ensures Distinct(r)
  {
    if s == [] then []
    else
      var r := Dedup(s[1..]);
      if s[0] in r then r else [s[0]] + r
  }

  lemma {:induction false} DedupCounts(s: seq<Path>, p: Path)
    requires Distinct(s)
    ensures multiset(s)[p] <= 1
  {
    if s != [] {
      DedupCounts(s[1..], p);
      assert s == [s[0]] + s[1..];
      if s[0] == p { assert p !in s[1..]; }
    }
  }

  /** `sorted(set(s))`: strictly increasing, the same elements. */
  lemma {:induction false} SortedSet(s: seq<Path>)
    ensures StrictlySorted(PartsLe, Sort(PartsLe, Dedup(s)))
    ensures forall p :: p in Sort(PartsLe, Dedup(s)) <==> p in s
  {
    var d := Dedup(s);
    var r := Sort(PartsLe, d);
    PartsLeTotalOrder();
    SortSorts(PartsLe, d);
    SameElements(d, r);
    forall i, j | 0 <= i < j < |r| ensures PartsLe(r[i], r[j]) && !PartsLe(r[j], r[i]) {
      DedupCounts(d, r[i]);
      if r[i] == r[j] { CountTwice(r, i, j); }
    }
  }

  /** Some argument takes file p. */
  ghost predicate Chosen(t: Tree, paths: seq<string>, p: Path) {
    exists item :: item in paths && Takes(t, item, p)
  }

  /** The list is what the arguments select: each file once, in path order. */
  ghost predicate IsSelection(t: Tree, paths: seq<string>, files: seq<Path>) {
    StrictlySorted(PartsLe, files) && forall p :: p in files <==> Chosen(t, paths, p)
  }

  /** What one argument adds to the list. */
  function Listed(t: Tree, item: string): (r: seq<Path>)
    requires ValidTree(t) && Names(t, item)
    ensures forall p :: p in r <==> Takes(t, item, p)
  {
    var target := Target(t, item).value;
    if target in t.dirs then
      SameElements(Filter(t, item, t.listing), Sort(PartsLe, Filter(t, item, t.listing)));
      Sort(PartsLe, Filter(t, item, t.listing))
    else if Ignored(target) then []
    else [target]
  }

  /** `iter_files` */
  method IterFiles(t: Tree, paths: seq<string>) returns (r: Selection)
    requires ValidTree(t)
    ensures r.Selected? <==> forall item :: item in paths ==> Names(t, item)
    ensures r.Selected? ==> IsSelection(t, paths, r.files)
    ensures r.Selected? ==> forall p :: p in r.files <==>
              p in t.content && !Compiled(p) && exists item :: item in paths && AtOrBelow(t, item, p)
    ensures r.Outside? ==> r.item in paths && Target(t, r.item).None?
    ensures r.NotFound? ==> r.item in paths && Target(t, r.item).Some? && !Names(t, r.item)
  {
    hide Target, Takes, Sort, Dedup, Listed, Compiled, AtOrBelow, ValidTree;
    var result: seq<Path> := [];
    for k := 0 to |paths|
      invariant forall item :: item in paths[..k] ==> Names(t, item)
      invariant forall p :: p in result <==> Chosen(t, paths[..k], p)
    {
      var item := paths[k];
      assert paths[..k + 1] == paths[..k] + [item];
      if Target(t, item).None? {
        assert item in paths && !Names(t, item);
        return Outside(item);
      }
      if !Names(t, item) {
        return NotFound(item);
      }
      result := result + Listed(t, item);
      forall p ensures p in result <==> Chosen(t, paths[..k + 1], p) {
        ChosenAppend(t, paths[..k], item, p);
      }
    }
    assert paths[..|paths|] == paths;
    SortedSet(result);
    r := Selected(Sort(PartsLe, Dedup(result)));
    forall item, p ensures Takes(t, item, p) <==> p in t.content && !Compiled(p) && AtOrBelow(t, item, p) {
      TakesDecides(t, item, p);
    }
  }

  lemma {:induction false} ChosenAppend(t: Tree, paths: seq<string>, item: string, p: Path)
    ensures Chosen(t, paths + [item], p) <==> Chosen(t, paths, p) || Takes(t, item, p)
  {
    hide Takes;
    assert forall x :: x in paths + [item] <==> x in paths || x == item;
  }

  /** Arguments that take the same files give the same list. */
  lemma {:induction false} SelectionUnique(t: Tree, u: Tree, a: seq<string>, b: seq<string>,
                                           fa: seq<Path>, fb: seq<Path>)
    requires IsSelection(t, a, fa) && IsSelection(u, b, fb)
    requires forall p :: Chosen(t, a, p) <==> Chosen(u, b, p)
    ensures fa == fb
  {
    StrictlySortedUnique(PartsLe, fa, fb);
  }

  /** Repeating or reordering the arguments, and enumerating the tree in another order, gives
      the same list. */
  lemma {:induction false} SameArgumentsSameList(t: Tree, listing: seq<Path>, a: seq<string>, b: seq<string>,
                                                 fa: seq<Path>, fb: seq<Path>)
    requires IsSelection(t, a, fa) && IsSelection(t.(listing := listing), b, fb)
    requires forall item :: item in a <==> item in b
    ensures fa == fb
  {
    hide IsSelection, Takes;
    forall p ensures Chosen(t, a, p) <==> Chosen(t.(listing := listing), b, p) {
      ListingUnused(t, listing, b, p);
    }
    SelectionUnique(t, t.(listing := listing), a, b, fa, fb);
  }

  lemma {:induction false} ListingUnused(t: Tree, listing: seq<Path>, paths: seq<string>, p: Path)
    ensures Chosen(t.(listing := listing), paths, p) <==> Chosen(t, paths, p)
  {
    hide Resolve, RelativeTo, Ignored;
    forall item ensures Takes(t.(listing := listing), item, p) <==> Takes(t, item, p) {}
  }

  /** One more argument at or below a directory that another argument names changes nothing. */
  lemma {:induction false} OverlapSameList(t: Tree, listing: seq<Path>, a: seq<string>, dir: string, below: string,
                                           fa: seq<Path>, fb: seq<Path>)
    requires IsSelection(t, a, fa) && IsSelection(t.(listing := listing), a + [below], fb)
    requires dir in a && Target(t, dir).Some? && Target(t, dir).value in t.dirs
    requires Target(t, below).Some? && Target(t, dir).value <= Target(t, below).value
    ensures fa == fb
  {
    hide IsSelection, Target, Ignored;
    forall p ensures Chosen(t, a, p) <==> Chosen(t.(listing := listing), a + [below], p) {
      ListingUnused(t, listing, a + [below], p);
      ChosenAppend(t, a, below, p);
      assert Takes(t, below, p) ==> Takes(t, dir, p);
    }
    SelectionUnique(t, t.(listing := listing), a, a + [below], fa, fb);
  }

  // ----- the signer's document

  /** SHA-256 as lower-case hexadecimal text; nothing more is assumed of it. */
  type Digest = h: seq<Byte> -> string | forall b :: |h(b)| == 64 && Lower(h(b)) == h(b)
    witness (b: seq<Byte>) => Zeros()

  function Zeros(): (s: string)
    ensures |s| == 64 && Lower(s) == s
  {
    seq(64, _ => '0')
  }

  /** What one signing run saw and selected. */
  datatype Release = Release(version: string, issuedAt: string, tree: Tree, files: seq<Path>)

  ghost predicate ValidRelease(r: Release) {
    ValidTree(r.tree) && forall p :: p in r.files ==> p in r.tree.content
  }

  function FileItem(sha256: Digest, p: Path, bytes: seq<Byte>): Json {
    Obj([Member("path", Str(Join(p))), Member("sha256", Str(sha256(bytes)))])
  }

  ghost function FileItems(sha256: Digest, r: Release): (items: seq<Json>)
    requires ValidRelease(r)
    ensures |items| == |r.files|
    ensures forall i :: 0 <= i < |items| ==> items[i] == FileItem(sha256, r.files[i], r.tree.content[r.files[i]])
  {
    seq(|r.files|, i requires 0 <= i < |r.files| =>
      assert r.files[i] in r.files; FileItem(sha256, r.files[i], r.tree.content[r.files[i]]))
  }

  ghost function PayloadMembers(sha256: Digest, r: Release): seq<Member>
    requires ValidRelease(r)
  {
    [Member("product", Str("sagitta-control")), Member("version", Str(r.version)), Member("algorithm", Str("sha256")),
     Member("issued_at", Str(r.issuedAt)), Member("files", Arr(FileItems(sha256, r)))]
  }

  ghost function Document(sha256: Digest, sign: string -> seq<Byte>, r: Release): seq<Member>
    requires ValidRelease(r)
  {
    var payload := Obj(PayloadMembers(sha256, r));
    [Member("payload", payload), Member("signature", Str(B64Url(sign(CanonicalText(payload)))))]
  }

  /** The file the signer writes. */
  ghost function ManifestText(sha256: Digest, sign: string -> seq<Byte>, r: Release): string
    requires ValidRelease(r)
  {
    Print(Canon(Obj(Document(sha256, sign, r))), INDENTED, 0) + "\n"
  }

  // ----- the verifier

  datatype Fault = BadItem | BadDigest | BadPath | OutOfRoot | NoFile | Mismatch

  datatype Verdict =
    | Skipped | Verified | Missing | Unreadable | NoPayload | BadSignature | NoFiles | BadFile(fault: Fault)

  /** `str(value or "")`; a float and a non-empty list or dict have no modelled text. */
  function TextOf(v: Option<Json>): Option<string> {
    match v
    case None => Some("")
    case Some(j) =>
      match j
      case Null => Some("")
      case Bool(b) => Some(if b then "True" else "")
      case Int(n) => Some(if n == 0 then "" else PrintInt(n))
      case Float(_) => None
      case Str(s) => Some(s)
      case Arr(items) => if items == [] then Some("") else None
      case Obj(ms) => if ms == [] then Some("") else None
  }

  /** `_safe_manifest_path`, as the path below the root. */
  function SafePath(root: seq<string>, relative: string): (r: Option<Path>)
    ensures r.Some? ==> relative != "" && relative[0] != '/' && root + r.value == Resolve(root, relative)
  {
    if relative == "" || relative[0] == '/' then None
    else RelativeTo(root, Resolve(root, relative))
  }

  /** The first reason, in the order of the checks, why an entry of the file list fails. */
  function FaultOf(t: Tree, sha256: Digest, item: Json): Option<Fault> {
    if !item.Obj? then Some(BadItem)
    else
      var path, digest := TextOf(Get(item.members, "path")), TextOf(Get(item.members, "sha256"));
      if path.None? || digest.None? then Some(BadItem)
      else if |Lower(digest.value)| != 64 then Some(BadDigest)
      else if path.value == "" || path.value[0] == '/' then Some(BadPath)
      else
        match SafePath(t.root, path.value)
        case None => Some(OutOfRoot)
        case Some(p) =>
          if p !in t.content then Some(NoFile)
          else if sha256(t.content[p]) != Lower(digest.value) then Some(Mismatch)
          else None
  }

  /** The loop over the file list: the first entry at fault ends it. */
  method VerifyFiles(t: Tree, sha256: Digest, items: seq<Json>) returns (r: Option<Fault>)
    ensures r.None? <==> forall i :: 0 <= i < |items| ==> FaultOf(t, sha256, items[i]).None?
    ensures r.Some? ==> exists i :: 0 <= i < |items| && FaultOf(t, sha256, items[i]) == r
                                    && forall j :: 0 <= j < i ==> FaultOf(t, sha256, items[j]).None?
  {
    hide FaultOf;
    for i := 0 to |items|
      invariant forall j :: 0 <= j < i ==> FaultOf(t, sha256, items[j]).None?
    {
      var fault := FaultOf(t, sha256, items[i]);
      if fault.Some? {
        return fault;
      }
    }
    r := None;
  }

  /** Payload and signature of a manifest text. */
  function Contents(text: string): Option<(seq<Member>, string)> {
    match Loads(text)
    case Some(Obj(ms)) =>
      (match (Get(ms, "payload"), Get(ms, "signature"))
       case (Some(Obj(payload)), Some(Str(signature))) =>
         if signature == "" then None else Some((payload, signature))
       case _ => None)
    case _ => None
  }

  predicate SignatureHolds(verify: (seq<Byte>, string) -> bool, payload: seq<Member>, signature: string) {
    match B64Decode(signature)
    case Some(bytes) => verify(bytes, CanonicalText(Obj(payload)))
    case None => false
  }

  /** The manifest passes every check against the tree. */
  ghost predicate Accepts(text: string, t: Tree, sha256: Digest, verify: (seq<Byte>, string) -> bool) {
    && Contents(text).Some?
    && var (payload, signature) := Contents(text).value;
    && SignatureHolds(verify, payload, signature)
    && match Get(payload, "files")
       case Some(Arr(items)) => items != [] && forall i :: 0 <= i < |items| ==> FaultOf(t, sha256, items[i]).None?
       case _ => false
  }

  /** `verify_startup_integrity`; `text` is the manifest file, if it exists. */
  method VerifyStartup(required: bool, text: Option<string>, t: Tree, sha256: Digest,
                       verify: (seq<Byte>, string) -> bool) returns (v: Verdict)
    ensures v == Skipped <==> !required
    ensures v == Verified <==> required && text.Some? && Accepts(text.value, t, sha256, verify)
    ensures v == Missing <==> required && text.None?
  {
    hide FaultOf, SignatureHolds, Loads;
    if !required {
      return Skipped;
    }
    if text.None? {
      return Missing;
    }
    if Loads(text.value).None? {
      return Unreadable;
    }
    var contents := Contents(text.value);
    if contents.None? {
      return NoPayload;
    }
    var (payload, signature) := contents.value;
    if !SignatureHolds(verify, payload, signature) {
      return BadSignature;
    }
    match Get(payload, "files")
    case Some(Arr(items)) =>
      if items == [] {
        return NoFiles;
      }
      var fault := VerifyFiles(t, sha256, items);
      if fault.Some? {
        return BadFile(fault.value);
      }
      return Verified;
    case _ =>
      return NoFiles;
  }
}
