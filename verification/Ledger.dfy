/** The license authority's ledger: activations, issued licenses and the audit list, with
    the HTTP and command-line operations that change them. */
module Ledger {
  import opened Text

  type Time = int  // seconds

  const PROJECT := "sagitta-control"
  const DEFAULT_FEATURES := ["workflow", "query", "archive", "monitor", "ai", "masking", "instance"]

  predicate AllowedStatus(status: string) { status in ["active", "suspended", "revoked"] }

  datatype Activation = Activation(
    code: string, customer: string, company: string, edition: string, status: string,
    features: seq<string>, limits: map<string, int>, fingerprint: string,
    notBefore: Option<Time>, expiresAt: Time,
    activationId: Option<string>, licenseId: Option<string>, lastIssued: Option<Time>, updatedAt: Time)

  /** The payload of a signed license document. */
  datatype License = License(
    licenseId: string, customer: string, company: string, edition: string,
    issuedAt: Time, notBefore: Time, expiresAt: Time,
    features: seq<string>, limits: map<string, int>, fingerprint: Option<string>)

  datatype Record = Record(
    code: string, activationId: string, customer: string, status: string, license: License, updatedAt: Time)

  datatype Event =
    | CreateActivation(activation: Activation)
    | ActivateRejected
    | Activated(customer: string, fingerprint: string)
    | RefreshBlocked(reason: string)
    | Refreshed(customer: string)
    | StatusSet(status: string)
    | Renewed(expiresAt: Time, features: seq<string>, limits: map<string, int>)
    | IssueLicense(customer: string, licenseId: string, activationId: string)

  datatype Entry = Entry(id: nat, event: Event, subject: string, at: Time)

  datatype Store = Store(activations: map<string, Activation>, licenses: map<string, Record>, audit: seq<Entry>)

  const EMPTY := Store(map[], map[], [])

  /** A date argument: left out, unreadable, or an instant. */
  datatype DateInput = NoDate | BadDate | At(t: Time)

  datatype Op =
    | Activate(code: string, customer: string, fingerprint: string, project: string, product: string)
    | Refresh(activationId: string, licenseId: string, customer: string, fingerprint: string,
              project: string, product: string)
    | SetStatus(code: string, status: string)
    | Renew(code: string, days: int, expires: DateInput, features: Option<seq<string>>,
            limits: Option<map<string, int>>)
    | CliCreate(code: string, customer: string, company: string, edition: string, days: int, expires: DateInput,
                notBefore: DateInput, featureList: seq<string>, limitMap: map<string, int>, fingerprint: string)
    | CliSetStatus(code: string, status: string)
    | CliRenew(code: string, days: int, expires: DateInput, features: Option<seq<string>>,
               limitMap: map<string, int>, fingerprint: string)
  {
    predicate Http() { Activate? || Refresh? || SetStatus? || Renew? }
  }

  /** What a request meets: the clock, newly drawn ids, whether the caller's token is right
      and whether the signing key can be loaded. */
  datatype Env = Env(now: Time, activationId: string, licenseId: string, authorized: bool, keyLoaded: bool)

  datatype Reply =
    | Issued(status: string, code: string, activationId: string, license: License)
    | Blocked(status: string)
    | Changed(activation: Activation)
    | Denied(httpCode: nat)

  function OrElse(a: string, b: string): string { if a != "" then a else b }

  function Append(s: Store, event: Event, subject: string, now: Time): Store {
    s.(audit := s.audit + [Entry(|s.audit| + 1, event, subject, now)])
  }

  function FeaturesOf(a: Activation): seq<string> { if a.features == [] then DEFAULT_FEATURES else a.features }

  function BuildPayload(a: Activation, licenseId: string, now: Time): License {
    License(licenseId, a.customer, a.company, a.edition, now,
            if a.notBefore.Some? then a.notBefore.value else now, a.expiresAt, FeaturesOf(a), a.limits,
            if a.fingerprint != "" then Some(a.fingerprint) else None)
  }

  /** `issue_for_activation`, with the signing key loaded. */
  function Issue(s: Store, code: string, a: Activation, env: Env): (Store, Reply) {
    var activationId := if a.activationId.Some? then a.activationId.value else env.activationId;
    var licenseId := if a.licenseId.Some? then a.licenseId.value else env.licenseId;
    var license := BuildPayload(a, licenseId, env.now);
    var issued := a.(activationId := Some(activationId), licenseId := Some(licenseId),
                     lastIssued := Some(env.now), updatedAt := env.now);
    var s1 := s.(activations := s.activations[code := issued],
                 licenses := s.licenses[licenseId :=
                   Record(code, activationId, a.customer, a.status, license, env.now)]);
    (Append(s1, IssueLicense(a.customer, licenseId, activationId), code, env.now),
     Issued(a.status, code, activationId, license))
  }

  /** `verify_project`: no project, or this one. */
  predicate ProjectMatches(project: string, product: string) {
    var requested := Lower(Strip(OrElse(project, product)));
    requested == "" || requested == PROJECT
  }

  predicate FingerprintClash(a: Activation, fingerprint: string) {
    a.fingerprint != "" && fingerprint != "" && a.fingerprint != fingerprint
  }

  function DoActivate(s: Store, op: Op, env: Env): (Store, Reply)
    requires op.Activate?
  {
    if !env.authorized then (s, Denied(401))
    else if !ProjectMatches(op.project, op.product) then (s, Denied(403))
    else if op.code !in s.activations then (s, Denied(404))
    else
      var a := s.activations[op.code];
      if a.customer != op.customer || a.status != "active" then (s, Denied(403))
      else if FingerprintClash(a, op.fingerprint) then
        (Append(s, ActivateRejected, op.code, env.now), Denied(403))
      else
        var bound := a.(fingerprint := OrElse(a.fingerprint, op.fingerprint));
        var s1 := Append(s, Activated(op.customer, bound.fingerprint), op.code, env.now);
        if env.keyLoaded then Issue(s1, op.code, bound, env) else (s, Denied(500))
  }

  /** The code whose activation carries an activation id. */
  ghost function Owner(s: Store, activationId: string): Option<string> {
    if exists c :: c in s.activations && s.activations[c].activationId == Some(activationId) then
      var c :| c in s.activations && s.activations[c].activationId == Some(activationId);
      Some(c)
    else None
  }

  /** The activation a refresh is about: by stored license id first, else by activation id. */
  ghost function RefreshTarget(s: Store, op: Op): Option<string>
    requires op.Refresh?
  {
    if op.licenseId in s.licenses then
      var code := s.licenses[op.licenseId].code;
      if code in s.activations then Some(code) else None
    else Owner(s, op.activationId)
  }

  /** `refresh` once the activation is found. */
  function DoRefreshAt(s: Store, code: string, op: Op, env: Env): (Store, Reply)
    requires op.Refresh? && code in s.activations
  {
    var a := s.activations[code];
    if a.customer != op.customer then (s, Denied(403))
    else if FingerprintClash(a, op.fingerprint) then
      (Append(s, RefreshBlocked("deployment_fingerprint_mismatch"), code, env.now), Denied(403))
    else if a.status == "revoked" || a.status == "suspended" then
      (Append(s, RefreshBlocked(a.status), code, env.now), Blocked(a.status))
    else
      var s1 := Append(s, Refreshed(op.customer), code, env.now);
      if env.keyLoaded then Issue(s1, code, a, env) else (s, Denied(500))
  }

  ghost function DoRefresh(s: Store, op: Op, env: Env): (Store, Reply)
    requires op.Refresh?
  {
    if !env.authorized then (s, Denied(401))
    else if !ProjectMatches(op.project, op.product) then (s, Denied(403))
    else
      match RefreshTarget(s, op)
      case None => (s, Denied(404))
      case Some(code) => DoRefreshAt(s, code, op, env)
  }

  function MarkRecord(r: Record, status: string, now: Time): Record { r.(status := status, updatedAt := now) }

  /** The status of an activation, and of the license record it points to. */
  function DoSetStatus(s: Store, code: string, status: string, now: Time): (Store, Reply)
    requires code in s.activations
  {
    var a := s.activations[code].(status := status, updatedAt := now);
    var licenses := if a.licenseId.Some? && a.licenseId.value in s.licenses
                    then s.licenses[a.licenseId.value := MarkRecord(s.licenses[a.licenseId.value], status, now)]
                    else s.licenses;
    var s1 := s.(activations := s.activations[code := a], licenses := licenses);
    (Append(s1, StatusSet(status), code, now), Changed(a))
  }

  function NewExpiry(old_: Time, expires: DateInput, days: int, now: Time): Time {
    if expires.At? then expires.t else if days != 0 then now + 86400 * days else old_
  }

  /** The activation an HTTP renewal saves. */
  function RenewedAs(a: Activation, op: Op, now: Time): Activation
    requires op.Renew?
  {
    a.(expiresAt := NewExpiry(a.expiresAt, op.expires, op.days, now),
       features := if op.features.Some? then op.features.value else a.features,
       limits := if op.limits.Some? then op.limits.value else a.limits,
       updatedAt := now)
  }

  function DoRenew(s: Store, op: Op, env: Env): (Store, Reply)
    requires op.Renew?
  {
    if !env.authorized then (s, Denied(401))
    else if op.code !in s.activations then (s, Denied(404))
    else if op.expires.BadDate? then (s, Denied(500))
    else
      var b := RenewedAs(s.activations[op.code], op, env.now);
      var s1 := Append(s.(activations := s.activations[op.code := b]),
                       Renewed(b.expiresAt, FeaturesOf(b), b.limits), op.code, env.now);
      if env.keyLoaded then Issue(s1, op.code, b, env) else (s1, Denied(500))
  }

  function DoCreate(s: Store, op: Op, env: Env): (Store, Reply)
    requires op.CliCreate?
  {
    if op.expires.BadDate? || op.notBefore.BadDate? then (s, Denied(1))
    else
      var a := Activation(op.code, op.customer, op.company, op.edition, "active", op.featureList, op.limitMap,
                          op.fingerprint, if op.notBefore.At? then Some(op.notBefore.t) else None,
                          if op.expires.At? then op.expires.t else env.now + 86400 * op.days,
                          None, None, None, env.now);
      (Append(s.(activations := s.activations[op.code := a]), CreateActivation(a), op.code, env.now), Changed(a))
  }

  function DoCliRenew(s: Store, op: Op, env: Env): (Store, Reply)
    requires op.CliRenew?
  {
    if op.code !in s.activations || op.expires.BadDate? then (s, Denied(1))
    else
      var a := s.activations[op.code];
      var b := a.(expiresAt := NewExpiry(a.expiresAt, op.expires, op.days, env.now),
                  features := if op.features.Some? then op.features.value else a.features,
                  limits := if op.limitMap != map[] then op.limitMap else a.limits,
                  fingerprint := OrElse(op.fingerprint, a.fingerprint),
                  updatedAt := env.now);
      (Append(s.(activations := s.activations[op.code := b]),
              Renewed(b.expiresAt, FeaturesOf(b), b.limits), op.code, env.now), Changed(b))
  }

  /** One request or command: the store it leaves in the file, and the answer. */
  ghost function Apply(s: Store, op: Op, env: Env): (Store, Reply) {
    match op
    case Activate(_, _, _, _, _) => DoActivate(s, op, env)
    case Refresh(_, _, _, _, _, _) => DoRefresh(s, op, env)
    case SetStatus(code, status) =>
      if !env.authorized then (s, Denied(401))
      else if !AllowedStatus(status) then (s, Denied(400))
      else if code !in s.activations then (s, Denied(404))
      else DoSetStatus(s, code, status, env.now)
    case Renew(_, _, _, _, _) => DoRenew(s, op, env)
    case CliCreate(_, _, _, _, _, _, _, _, _, _) => DoCreate(s, op, env)
    case CliSetStatus(code, status) =>
      if !AllowedStatus(status) || code !in s.activations then (s, Denied(1))
      else DoSetStatus(s, code, status, env.now)
    case CliRenew(_, _, _, _, _, _) => DoCliRenew(s, op, env)
  }

  // ----- the invariant

  /** What holds in the file after any run of operations. */
  ghost predicate Inv(s: Store) {
    && (forall c :: c in s.activations ==> ActivationOk(s, c))
    && (forall l :: l in s.licenses ==> RecordOk(s, l))
    && OneRecordEach(s.licenses)
    && (forall i :: 0 <= i < |s.audit| ==> s.audit[i].id == i + 1 && EntryOk(s, s.audit[i]))
  }

  /** No two records carry the same activation id. */
  ghost predicate OneRecordEach(licenses: map<string, Record>) {
    forall l, m :: l in licenses && m in licenses && licenses[l].activationId == licenses[m].activationId ==> l == m
  }

  /** An audited issue is still on record, under the same code and customer. */
  ghost predicate EntryOk(s: Store, e: Entry) {
    e.event.IssueLicense? ==>
      && e.event.licenseId in s.licenses
      && var r := s.licenses[e.event.licenseId];
      r.code == e.subject && r.activationId == e.event.activationId && r.customer == e.event.customer
  }

  /** An activation stores its own code; its ids are both set or both unset; a set license
      id names a record that points back and agrees on ids, customer and status. */
  ghost predicate ActivationOk(s: Store, c: string)
    requires c in s.activations
  {
    var a := s.activations[c];
    && a.code == c
    && AllowedStatus(a.status)
    && (a.activationId.Some? <==> a.licenseId.Some?)
    && (a.licenseId.Some? ==>
          && a.licenseId.value in s.licenses
          && var r := s.licenses[a.licenseId.value];
          r.code == c && Some(r.activationId) == a.activationId && r.customer == a.customer && r.status == a.status)
  }

  /** A record holds a document for its own id, its code is still there, and its issue was
      audited. */
  ghost predicate RecordOk(s: Store, l: string)
    requires l in s.licenses
  {
    var r := s.licenses[l];
    && r.code in s.activations && r.license.licenseId == l && r.license.customer == r.customer
    && IssueAudited(s.audit, l, r)
  }

  ghost predicate IssueAudited(audit: seq<Entry>, l: string, r: Record) {
    exists i :: 0 <= i < |audit| && audit[i].event == IssueLicense(r.customer, l, r.activationId)
                && audit[i].subject == r.code
  }

  /** Newly drawn ids are not in use. */
  ghost predicate Fresh(s: Store, env: Env) {
    env.licenseId !in s.licenses && forall l :: l in s.licenses ==> s.licenses[l].activationId != env.activationId
  }

  // ----- the authority: every operation loads the file, changes a copy and may save it

  class Authority {
    var file: Store

    constructor ()
      ensures file == EMPTY
    {
      file := EMPTY;
    }

    method HandleActivate(op: Op, env: Env) returns (reply: Reply)
      requires op.Activate? && Inv(file)
      modifies this
      ensures (file, reply) == Apply(old(file), op, env)
    {
      if !env.authorized { return Denied(401); }
      if !ProjectMatches(op.project, op.product) { return Denied(403); }
      var store := file;
      if op.code !in store.activations { return Denied(404); }
      var activation := store.activations[op.code];
      if activation.customer != op.customer { return Denied(403); }
      if activation.status != "active" { return Denied(403); }
      if FingerprintClash(activation, op.fingerprint) {
        file := Append(store, ActivateRejected, op.code, env.now);
        return Denied(403);
      }
      if op.fingerprint != "" && activation.fingerprint == "" {
        activation := activation.(fingerprint := op.fingerprint);
      }
      store := Append(store, Activated(op.customer, activation.fingerprint), op.code, env.now);
      reply := IssueFor(store, op.code, activation, env);
    }

    /** Signs, records and saves; without a key the working copy is lost. */
    method IssueFor(store: Store, code: string, activation: Activation, env: Env) returns (reply: Reply)
      modifies this
      ensures (file, reply) == if env.keyLoaded then Issue(store, code, activation, env) else (old(file), Denied(500))
    {
      if !env.keyLoaded { return Denied(500); }
      var activationId := if activation.activationId.Some? then activation.activationId.value else env.activationId;
      var licenseId := if activation.licenseId.Some? then activation.licenseId.value else env.licenseId;
      var license := BuildPayload(activation, licenseId, env.now);
      var issued := activation.(activationId := Some(activationId), licenseId := Some(licenseId),
                                lastIssued := Some(env.now), updatedAt := env.now);
      var activations := store.activations[code := issued];
      var record := Record(code, activationId, issued.customer, issued.status, license, env.now);
      var s := Store(activations, store.licenses[licenseId := record], store.audit);
      file := Append(s, IssueLicense(issued.customer, licenseId, activationId), code, env.now);
      reply := Issued(issued.status, code, activationId, license);
    }

    /** The first activation that carries the id, in whatever order they are visited. */
    method FindByActivationId(store: Store, activationId: string) returns (r: Option<Activation>)
      requires Inv(store)
      ensures r == match Owner(store, activationId) case Some(c) => Some(store.activations[c]) case None => None
    {
      var rest := store.activations.Keys;
      while rest != {}
        invariant rest <= store.activations.Keys
        invariant forall c :: c in store.activations && c !in rest ==>
                              store.activations[c].activationId != Some(activationId)
        decreases |rest|
      {
        var c :| c in rest;
        if store.activations[c].activationId == Some(activationId) {
          OwnerUnique(store, activationId, c);
          return Some(store.activations[c]);
        }
        rest := rest - {c};
      }
      r := None;
    }

    method HandleRefresh(op: Op, env: Env) returns (reply: Reply)
      requires op.Refresh? && Inv(file)
      modifies this
      ensures (file, reply) == Apply(old(file), op, env)
    {
      hide ProjectMatches, FingerprintClash;
      if !env.authorized { return Denied(401); }
      if !ProjectMatches(op.project, op.product) { return Denied(403); }
      var store := file;
      var found: Option<Activation>;
      if op.licenseId in store.licenses {
        var code := store.licenses[op.licenseId].code;
        found := if code in store.activations then Some(store.activations[code]) else None;
      } else {
        found := FindByActivationId(store, op.activationId);
      }
      if found.None? { return Denied(404); }
      var activation := found.value;
      var code := activation.code;
      assert code in store.activations && ActivationOk(store, code);
      if activation.customer != op.customer { return Denied(403); }
      if FingerprintClash(activation, op.fingerprint) {
        file := Append(store, RefreshBlocked("deployment_fingerprint_mismatch"), code, env.now);
        return Denied(403);
      }
      if activation.status == "revoked" || activation.status == "suspended" {
        file := Append(store, RefreshBlocked(activation.status), code, env.now);
        return Blocked(activation.status);
      }
      store := Append(store, Refreshed(op.customer), code, env.now);
      reply := IssueFor(store, code, activation, env);
    }

    /** `set_status` and `command_set_status`. */
    method HandleSetStatus(op: Op, env: Env) returns (reply: Reply)
      requires (op.SetStatus? || op.CliSetStatus?) && Inv(file)
      modifies this
      ensures (file, reply) == Apply(old(file), op, env)
    {
      if op.SetStatus? && !env.authorized { return Denied(401); }
      if !AllowedStatus(op.status) { return Denied(if op.SetStatus? then 400 else 1); }
      var store := file;
      if op.code !in store.activations { return Denied(if op.SetStatus? then 404 else 1); }
      var activation := store.activations[op.code];
      activation := activation.(status := op.status);
      activation := activation.(updatedAt := env.now);
      store := store.(activations := store.activations[op.code := activation]);
      if activation.licenseId.Some? && activation.licenseId.value in store.licenses {
        var record := store.licenses[activation.licenseId.value];
        record := record.(status := op.status, updatedAt := activation.updatedAt);
        store := store.(licenses := store.licenses[activation.licenseId.value := record]);
      }
      file := Append(store, StatusSet(op.status), op.code, env.now);
      reply := Changed(activation);
    }

    /** HTTP `renew`: saved before the license is issued. */
    method HandleRenew(op: Op, env: Env) returns (reply: Reply)
      requires op.Renew? && Inv(file)
      modifies this
      ensures (file, reply) == Apply(old(file), op, env)
    {
      if !env.authorized { return Denied(401); }
      var store := file;
      if op.code !in store.activations { return Denied(404); }
      var activation := store.activations[op.code];
      match op.expires {
        case BadDate => return Denied(500);
        case At(t) => activation := activation.(expiresAt := t);
        case NoDate =>
          if op.days != 0 { activation := activation.(expiresAt := env.now + 86400 * op.days); }
      }
      if op.features.Some? { activation := activation.(features := op.features.value); }
      if op.limits.Some? { activation := activation.(limits := op.limits.value); }
      activation := activation.(updatedAt := env.now);
      store := store.(activations := store.activations[op.code := activation]);
      var event := Renewed(activation.expiresAt, FeaturesOf(activation), activation.limits);
      store := Append(store, event, op.code, env.now);
      file := store;
      reply := IssueFor(store, op.code, activation, env);
    }

    /** `command_create_activation`: creates or replaces. */
    method RunCreate(op: Op, env: Env) returns (reply: Reply)
      requires op.CliCreate? && Inv(file)
      modifies this
      ensures (file, reply) == Apply(old(file), op, env)
    {
      if op.expires.BadDate? || op.notBefore.BadDate? { return Denied(1); }
      var store := file;
      var expiresAt := if op.expires.At? then op.expires.t else env.now + 86400 * op.days;
      var activation := Activation(op.code, op.customer, op.company, op.edition, "active", op.featureList, op.limitMap,
                                   op.fingerprint, if op.notBefore.At? then Some(op.notBefore.t) else None,
                                   expiresAt, None, None, None, env.now);
      store := store.(activations := store.activations[op.code := activation]);
      file := Append(store, CreateActivation(activation), op.code, env.now);
      reply := Changed(activation);
    }

    /** `command_renew`: changes the activation, issues nothing. */
    method RunRenew(op: Op, env: Env) returns (reply: Reply)
      requires op.CliRenew? && Inv(file)
      modifies this
      ensures (file, reply) == Apply(old(file), op, env)
    {
      var store := file;
      if op.code !in store.activations { return Denied(1); }
      var activation := store.activations[op.code];
      match op.expires {
        case BadDate => return Denied(1);
        case At(t) => activation := activation.(expiresAt := t);
        case NoDate =>
          if op.days != 0 { activation := activation.(expiresAt := env.now + 86400 * op.days); }
      }
      if op.features.Some? { activation := activation.(features := op.features.value); }
      if op.limitMap != map[] { activation := activation.(limits := op.limitMap); }
      if op.fingerprint != "" { activation := activation.(fingerprint := op.fingerprint); }
      activation := activation.(updatedAt := env.now);
      store := store.(activations := store.activations[op.code := activation]);
      file := Append(store, Renewed(activation.expiresAt, FeaturesOf(activation), activation.limits), op.code, env.now);
      reply := Changed(activation);
    }
  }

  /** No two activations carry the same id, so the search order does not matter. */
  lemma OwnerUnique(s: Store, activationId: string, c: string)
    requires Inv(s) && c in s.activations && s.activations[c].activationId == Some(activationId)
    ensures Owner(s, activationId) == Some(c)
  {
    var d :| Owner(s, activationId) == Some(d) && d in s.activations
             && s.activations[d].activationId == Some(activationId);
    assert ActivationOk(s, c) && ActivationOk(s, d);
    assert s.activations[c].licenseId == s.activations[d].licenseId;
  }

  /** `list_audit`: Python's `list(reversed(audit))[0:limit]`. */
  function ListAudit(audit: seq<Entry>, limit: int): seq<Entry> {
    var reversed := seq(|audit|, i requires 0 <= i < |audit| => audit[|audit| - 1 - i]);
    var end := if limit < 0 then |audit| + limit else limit;
    reversed[..if end < 0 then 0 else if end > |audit| then |audit| else end]
  }
}
