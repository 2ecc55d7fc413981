/** What every run of the license authority keeps. */
module LedgerRuns {
  import opened Text
  import opened Ledger

  datatype Step = Step(op: Op, env: Env)

  // ----- the invariant is kept by every operation

  lemma {:induction false} AuditedStays(audit: seq<Entry>, more: seq<Entry>, l: string, r: Record)
    requires IssueAudited(audit, l, r)
    ensures IssueAudited(audit + more, l, r)
  {
    var i :| 0 <= i < |audit| && audit[i].event == IssueLicense(r.customer, l, r.activationId)
             && audit[i].subject == r.code;
    assert (audit + more)[i] == audit[i];
  }

  lemma {:induction false} AppendKeeps(s: Store, event: Event, subject: string, now: Time)
    requires Inv(s) && !event.IssueLicense?
    ensures Inv(Append(s, event, subject, now))
  {
    var t := Append(s, event, subject, now);
    forall i | 0 <= i < |t.audit| ensures t.audit[i].id == i + 1 && EntryOk(t, t.audit[i]) {
      if i < |s.audit| { assert EntryOk(s, s.audit[i]); }
    }
    forall c | c in t.activations ensures ActivationOk(t, c) {
      assert ActivationOk(s, c);
    }
    forall l | l in t.licenses ensures RecordOk(t, l) {
      assert RecordOk(s, l);
      AuditedStays(s.audit, [t.audit[|s.audit|]], l, s.licenses[l]);
    }
  }

  /** Same identity, ids and status: what may change without touching the license records. */
  ghost predicate SameStanding(a: Activation, b: Activation) {
    && a.code == b.code && a.customer == b.customer && a.status == b.status
    && a.activationId == b.activationId && a.licenseId == b.licenseId
  }

  lemma {:induction false} EditKeeps(s: Store, c: string, b: Activation)
    requires Inv(s) && c in s.activations && SameStanding(s.activations[c], b)
    ensures Inv(s.(activations := s.activations[c := b]))
  {
    var t := s.(activations := s.activations[c := b]);
    forall d | d in t.activations ensures ActivationOk(t, d) {
      assert d in s.activations && ActivationOk(s, d);
    }
    forall l | l in t.licenses ensures RecordOk(t, l) {
      assert RecordOk(s, l);
    }
    forall i | 0 <= i < |t.audit| ensures EntryOk(t, t.audit[i]) {
      assert EntryOk(s, s.audit[i]);
    }
  }

  /** Issuing for activation b, which stands as the stored one does. */
  lemma {:induction false} IssueKeeps(s: Store, c: string, b: Activation, env: Env)
    requires Inv(s) && Fresh(s, env) && c in s.activations && SameStanding(s.activations[c], b)
    ensures Inv(Issue(s, c, b, env).0)
  {
    hide Issue, ActivationOk, RecordOk, EntryOk, SameStanding;
    IssueKeepsActivations(s, c, b, env);
    IssueKeepsRecords(s, c, b, env);
    IssueKeepsEntries(s, c, b, env);
  }

  lemma {:induction false} IssueKeepsActivations(s: Store, c: string, b: Activation, env: Env)
    requires Inv(s) && Fresh(s, env) && c in s.activations && SameStanding(s.activations[c], b)
    ensures var t := Issue(s, c, b, env).0; forall d :: d in t.activations ==> ActivationOk(t, d)
  {
    hide RecordOk, EntryOk, BuildPayload;
    var t := Issue(s, c, b, env).0;
    assert ActivationOk(s, c);
    forall d | d in t.activations ensures ActivationOk(t, d) {
      if d != c {
        assert d in s.activations && ActivationOk(s, d);
      }
    }
  }

  lemma {:induction false} IssueKeepsRecords(s: Store, c: string, b: Activation, env: Env)
    requires Inv(s) && Fresh(s, env) && c in s.activations && SameStanding(s.activations[c], b)
    ensures var t := Issue(s, c, b, env).0;
            && (forall l :: l in t.licenses ==> RecordOk(t, l))
            && OneRecordEach(t.licenses)
  {
    hide EntryOk, IssueAudited;
    var (t, reply) := Issue(s, c, b, env);
    var l := reply.license.licenseId;
    assert ActivationOk(s, c);
    NewEntryAudits(s, t, l, t.licenses[l]);
    forall m | m in t.licenses ensures RecordOk(t, m) {
      if m != l {
        assert m in s.licenses && RecordOk(s, m);
        AuditedStays(s.audit, [t.audit[|s.audit|]], m, s.licenses[m]);
      }
    }
  }

  lemma {:induction false} NewEntryAudits(s: Store, t: Store, l: string, r: Record)
    requires |t.audit| == |s.audit| + 1
    requires t.audit[|s.audit|].event == IssueLicense(r.customer, l, r.activationId)
    requires t.audit[|s.audit|].subject == r.code
    ensures IssueAudited(t.audit, l, r)
  {
  }

  lemma {:induction false} IssueKeepsEntries(s: Store, c: string, b: Activation, env: Env)
    requires Inv(s) && Fresh(s, env) && c in s.activations && SameStanding(s.activations[c], b)
    ensures var t := Issue(s, c, b, env).0;
            forall i :: 0 <= i < |t.audit| ==> t.audit[i].id == i + 1 && EntryOk(t, t.audit[i])
  {
    hide RecordOk, BuildPayload;
    var t := Issue(s, c, b, env).0;
    assert ActivationOk(s, c);
    forall i | 0 <= i < |t.audit| ensures t.audit[i].id == i + 1 && EntryOk(t, t.audit[i]) {
      if i < |s.audit| { assert EntryOk(s, s.audit[i]); }
    }
  }

  /** The store with a status set, before it is audited. */
  ghost predicate Marked(s: Store, c: string, status: string, now: Time, t: Store)
    requires c in s.activations
  {
    var a := s.activations[c];
    && t.audit == s.audit && t.activations == s.activations[c := a.(status := status, updatedAt := now)]
    && t.licenses == if a.licenseId.Some? && a.licenseId.value in s.licenses
                     then s.licenses[a.licenseId.value := MarkRecord(s.licenses[a.licenseId.value], status, now)]
                     else s.licenses
  }

  lemma {:induction false} MarkedActivations(s: Store, c: string, status: string, now: Time, t: Store)
    requires Inv(s) && c in s.activations && AllowedStatus(status) && Marked(s, c, status, now, t)
    ensures forall d :: d in t.activations ==> ActivationOk(t, d)
  {
    hide RecordOk, EntryOk, AllowedStatus;
    assert ActivationOk(s, c);
    forall d | d in t.activations ensures ActivationOk(t, d) {
      assert d in s.activations && ActivationOk(s, d);
    }
  }

  lemma {:induction false} MarkedRecords(s: Store, c: string, status: string, now: Time, t: Store)
    requires Inv(s) && c in s.activations && Marked(s, c, status, now, t)
    ensures OneRecordEach(t.licenses) && forall l :: l in t.licenses ==> RecordOk(t, l)
  {
    hide ActivationOk, EntryOk, IssueAudited;
    forall l | l in t.licenses ensures RecordOk(t, l) {
      assert l in s.licenses && RecordOk(s, l);
      SameIssue(s.audit, l, s.licenses[l], t.licenses[l]);
    }
  }

  lemma {:induction false} SameIssue(audit: seq<Entry>, l: string, r: Record, q: Record)
    requires IssueAudited(audit, l, r)
    requires r.customer == q.customer && r.activationId == q.activationId && r.code == q.code
    ensures IssueAudited(audit, l, q)
  {
  }

  lemma {:induction false} StatusKeeps(s: Store, c: string, status: string, now: Time)
    requires Inv(s) && c in s.activations && AllowedStatus(status)
    ensures Inv(DoSetStatus(s, c, status, now).0)
  {
    hide ActivationOk, RecordOk, OneRecordEach;
    var marked := DoSetStatus(s, c, status, now).0.(audit := s.audit);
    MarkedActivations(s, c, status, now, marked);
    MarkedRecords(s, c, status, now, marked);
    forall i | 0 <= i < |marked.audit| ensures EntryOk(marked, marked.audit[i]) {
      assert EntryOk(s, s.audit[i]);
    }
    AppendKeeps(marked, StatusSet(status), c, now);
  }

  lemma {:induction false} CreateKeeps(s: Store, op: Op, env: Env)
    requires Inv(s) && op.CliCreate?
    ensures Inv(DoCreate(s, op, env).0)
  {
    if !op.expires.BadDate? && !op.notBefore.BadDate? {
      var a := DoCreate(s, op, env).1.activation;
      var t := s.(activations := s.activations[op.code := a]);
      forall d | d in t.activations ensures ActivationOk(t, d) {
        if d != op.code { assert ActivationOk(s, d); }
      }
      forall l | l in t.licenses ensures RecordOk(t, l) {
        assert RecordOk(s, l);
      }
      forall i | 0 <= i < |t.audit| ensures EntryOk(t, t.audit[i]) {
        assert EntryOk(s, s.audit[i]);
      }
      AppendKeeps(t, CreateActivation(a), op.code, env.now);
    }
  }

  lemma {:induction false} ActivateKeeps(s: Store, op: Op, env: Env)
    requires Inv(s) && Fresh(s, env) && op.Activate?
    ensures Inv(DoActivate(s, op, env).0)
  {
    hide Inv, Issue;
    if op.code in s.activations {
      var a := s.activations[op.code];
      var bound := a.(fingerprint := OrElse(a.fingerprint, op.fingerprint));
      AppendKeeps(s, ActivateRejected, op.code, env.now);
      AppendKeeps(s, Activated(op.customer, bound.fingerprint), op.code, env.now);
      IssueKeeps(Append(s, Activated(op.customer, bound.fingerprint), op.code, env.now), op.code, bound, env);
    }
  }

  lemma {:induction false} RefreshKeeps(s: Store, code: string, op: Op, env: Env)
    requires Inv(s) && Fresh(s, env) && op.Refresh? && code in s.activations
    ensures Inv(DoRefreshAt(s, code, op, env).0)
  {
    hide Inv, Issue;
    var a := s.activations[code];
    AppendKeeps(s, RefreshBlocked("deployment_fingerprint_mismatch"), code, env.now);
    AppendKeeps(s, RefreshBlocked(a.status), code, env.now);
    AppendKeeps(s, Refreshed(op.customer), code, env.now);
    IssueKeeps(Append(s, Refreshed(op.customer), code, env.now), code, a, env);
  }

  lemma {:induction false} RenewKeeps(s: Store, op: Op, env: Env)
    requires Inv(s) && Fresh(s, env) && op.Renew?
    ensures Inv(DoRenew(s, op, env).0)
  {
    hide Inv, Issue;
    if op.code in s.activations && !op.expires.BadDate? {
      var b := RenewedAs(s.activations[op.code], op, env.now);
      EditKeeps(s, op.code, b);
      var t := s.(activations := s.activations[op.code := b]);
      AppendKeeps(t, Renewed(b.expiresAt, FeaturesOf(b), b.limits), op.code, env.now);
      IssueKeeps(Append(t, Renewed(b.expiresAt, FeaturesOf(b), b.limits), op.code, env.now), op.code, b, env);
    }
  }

  lemma {:induction false} CliRenewKeeps(s: Store, op: Op, env: Env)
    requires Inv(s) && op.CliRenew?
    ensures Inv(DoCliRenew(s, op, env).0)
  {
    hide Inv;
    if op.code in s.activations && !op.expires.BadDate? {
      var b := DoCliRenew(s, op, env).1.activation;
      EditKeeps(s, op.code, b);
      AppendKeeps(s.(activations := s.activations[op.code := b]),
                  Renewed(b.expiresAt, FeaturesOf(b), b.limits), op.code, env.now);
    }
  }

  lemma {:induction false} StepKeeps(s: Store, op: Op, env: Env)
    requires Inv(s) && Fresh(s, env)
    ensures Inv(Apply(s, op, env).0)
  {
    hide Inv, DoActivate, DoRefreshAt, DoSetStatus, DoRenew, DoCreate, DoCliRenew;
    match op
    case Activate(_, _, _, _, _) => ActivateKeeps(s, op, env);
    case Refresh(_, _, _, _, _, _) =>
      if RefreshTarget(s, op).Some? { RefreshKeeps(s, RefreshTarget(s, op).value, op, env); }
    case SetStatus(code, status) =>
      if code in s.activations && AllowedStatus(status) { StatusKeeps(s, code, status, env.now); }
    case Renew(_, _, _, _, _) => RenewKeeps(s, op, env);
    case CliCreate(_, _, _, _, _, _, _, _, _, _) => CreateKeeps(s, op, env);
    case CliSetStatus(code, status) =>
      if code in s.activations && AllowedStatus(status) { StatusKeeps(s, code, status, env.now); }
    case CliRenew(_, _, _, _, _, _) => CliRenewKeeps(s, op, env);
  }

  // ----- runs

  ghost function After(s: Store, step: Step): Store { Apply(s, step.op, step.env).0 }

  ghost function ReplyOf(s: Store, step: Step): Reply { Apply(s, step.op, step.env).1 }

  /** t is reached from s by the steps, each drawing ids not in use when it runs. */
  ghost predicate Runs(s: Store, steps: seq<Step>, t: Store)
    decreases |steps|
  {
    if steps == [] then s == t else Fresh(s, steps[0].env) && Runs(After(s, steps[0]), steps[1..], t)
  }

  lemma {:induction false} InvariantOverRuns(s: Store, steps: seq<Step>, t: Store)
    requires Inv(s) && Runs(s, steps, t)
    ensures Inv(t)
    decreases |steps|
  {
    hide Inv, After;
    if steps != [] {
      StepInv(s, steps[0]);
      InvariantOverRuns(After(s, steps[0]), steps[1..], t);
    }
  }

  lemma {:induction false} StepInv(s: Store, step: Step)
    requires Inv(s) && Fresh(s, step.env)
    ensures Inv(After(s, step))
  {
    hide Inv, Apply;
    StepKeeps(s, step.op, step.env);
  }

  /** The invariant holds in every state reached from the empty file, by whatever operations
      in whatever order. */
  lemma {:induction false} Reachable(steps: seq<Step>, t: Store)
    requires Runs(EMPTY, steps, t)
    ensures Inv(t)
  {
    hide Runs;
    InvariantOverRuns(EMPTY, steps, t);
  }

  /** One request served by the authority: the file stays consistent. */
  method Serve(authority: Authority, op: Op, env: Env) returns (reply: Reply)
    requires Inv(authority.file) && Fresh(authority.file, env)
    modifies authority
    ensures (authority.file, reply) == Apply(old(authority.file), op, env)
    ensures Inv(authority.file)
  {
    hide Inv, Apply, Fresh;
    StepKeeps(authority.file, op, env);
    match op
    case Activate(_, _, _, _, _) => reply := authority.HandleActivate(op, env);
    case Refresh(_, _, _, _, _, _) => reply := authority.HandleRefresh(op, env);
    case SetStatus(_, _) => reply := authority.HandleSetStatus(op, env);
    case Renew(_, _, _, _, _) => reply := authority.HandleRenew(op, env);
    case CliCreate(_, _, _, _, _, _, _, _, _, _) => reply := authority.RunCreate(op, env);
    case CliSetStatus(_, _) => reply := authority.HandleSetStatus(op, env);
    case CliRenew(_, _, _, _, _, _) => reply := authority.RunRenew(op, env);
  }

  /** No two codes share a license id or an activation id. */
  lemma {:induction false} NoSharedIds(s: Store, c: string, d: string)
    requires Inv(s) && c in s.activations && d in s.activations && c != d
    ensures s.activations[c].licenseId.Some? ==> s.activations[c].licenseId != s.activations[d].licenseId
    ensures s.activations[c].activationId.Some? ==> s.activations[c].activationId != s.activations[d].activationId
  {
    assert ActivationOk(s, c) && ActivationOk(s, d);
  }

  // ----- what one operation does to the store, said once for all operations

  /** The log only grows at its end; an issue adds two entries, the last of them its
      `issue_license`; anything else adds at most one, which is no `issue_license`. */
  ghost predicate AuditShape(s: Store, t: Store, r: Reply) {
    && s.audit <= t.audit
    && (if r.Issued? then
          && |t.audit| == |s.audit| + 2
          && !t.audit[|s.audit|].event.IssueLicense?
          && t.audit[|s.audit| + 1].subject == r.code
          && t.audit[|s.audit| + 1].event == IssueLicense(r.license.customer, r.license.licenseId, r.activationId)
        else
          && |t.audit| <= |s.audit| + 1
          && (|t.audit| == |s.audit| + 1 ==> !t.audit[|s.audit|].event.IssueLicense?))
  }

  /** HTTP renew of a known code, past its checks, without a signing key: the renewal has
      been saved when signing fails. */
  ghost predicate SavedThenFailed(s: Store, op: Op, env: Env) {
    op.Renew? && env.authorized && op.code in s.activations && !op.expires.BadDate? && !env.keyLoaded
  }

  /** A refusal leaves licenses and activations alone, unless a renewal was saved before
      signing failed; exactly then it leaves a `renew` entry. */
  ghost predicate RefusalShape(s: Store, op: Op, env: Env, t: Store, r: Reply) {
    (r.Denied? || r.Blocked?) ==>
      && t.licenses == s.licenses
      && (!SavedThenFailed(s, op, env) ==> t.activations == s.activations)
      && (SavedThenFailed(s, op, env) <==> |t.audit| > |s.audit| && t.audit[|s.audit|].event.Renewed?)
  }

  /** What an issue hands out is what it stores, and it carries the activation's fingerprint
      and expiry; activate and refresh issue only for an active activation. */
  ghost predicate IssueShape(s: Store, op: Op, t: Store, r: Reply) {
    r.Issued? ==>
      && r.code in s.activations && r.code in t.activations
      && var (a, b) := (s.activations[r.code], t.activations[r.code]);
      && b.licenseId == Some(r.license.licenseId) && r.license.licenseId in t.licenses
      && t.licenses[r.license.licenseId].license == r.license
      && t.licenses[r.license.licenseId].status == r.status == a.status
      && r.license.fingerprint == (if b.fingerprint == "" then None else Some(b.fingerprint))
      && r.license.expiresAt == b.expiresAt
      && (a.licenseId.Some? ==> b.licenseId == a.licenseId)
      && (op.Activate? || op.Refresh? ==> a.status == "active" && b.expiresAt == a.expiresAt)
  }

  /** HTTP operations keep every code and customer, and a non-empty fingerprint for good;
      only renew can move an expiry, only set-status a status. */
  ghost predicate HttpShape(s: Store, op: Op, t: Store) {
    op.Http() ==> forall c :: c in s.activations ==>
      && c in t.activations && t.activations[c].customer == s.activations[c].customer
      && (s.activations[c].fingerprint != "" ==> t.activations[c].fingerprint == s.activations[c].fingerprint)
      && (!op.Renew? ==> t.activations[c].expiresAt == s.activations[c].expiresAt)
      && (!op.SetStatus? ==> t.activations[c].status == s.activations[c].status)
  }

  ghost predicate StepShape(s: Store, op: Op, env: Env, t: Store, r: Reply) {
    AuditShape(s, t, r) && RefusalShape(s, op, env, t, r) && IssueShape(s, op, t, r) && HttpShape(s, op, t)
  }

  lemma {:induction false} ActivateShape(s: Store, op: Op, env: Env)
    requires op.Activate?
    ensures StepShape(s, op, env, DoActivate(s, op, env).0, DoActivate(s, op, env).1)
  {
    hide ProjectMatches, FeaturesOf;
  }

  lemma {:induction false} RefreshShape(s: Store, code: string, op: Op, env: Env)
    requires op.Refresh? && code in s.activations && AllowedStatus(s.activations[code].status)
    ensures StepShape(s, op, env, DoRefreshAt(s, code, op, env).0, DoRefreshAt(s, code, op, env).1)
  {
  }

  lemma {:induction false} StatusShape(s: Store, op: Op, env: Env, code: string, status: string)
    requires (op.SetStatus? || op.CliSetStatus?) && code in s.activations
    ensures StepShape(s, op, env, DoSetStatus(s, code, status, env.now).0, DoSetStatus(s, code, status, env.now).1)
  {
  }

  lemma {:induction false} RenewShape(s: Store, op: Op, env: Env)
    requires op.Renew?
    ensures StepShape(s, op, env, DoRenew(s, op, env).0, DoRenew(s, op, env).1)
  {
  }

  lemma {:induction false} CreateShape(s: Store, op: Op, env: Env)
    requires op.CliCreate?
    ensures StepShape(s, op, env, DoCreate(s, op, env).0, DoCreate(s, op, env).1)
  {
  }

  lemma {:induction false} CliRenewShape(s: Store, op: Op, env: Env)
    requires op.CliRenew?
    ensures StepShape(s, op, env, DoCliRenew(s, op, env).0, DoCliRenew(s, op, env).1)
  {
  }

  lemma {:induction false} UnchangedShape(s: Store, op: Op, env: Env, httpCode: nat)
    requires !SavedThenFailed(s, op, env)
    ensures StepShape(s, op, env, s, Denied(httpCode))
  {
  }

  lemma {:induction false} ShapeOf(s: Store, step: Step)
    requires Inv(s)
    ensures StepShape(s, step.op, step.env, After(s, step), ReplyOf(s, step))
  {
    hide StepShape, DoActivate, DoRefreshAt, DoSetStatus, DoRenew, DoCreate, DoCliRenew, Inv;
    var (op, env) := (step.op, step.env);
    if !op.Renew? { UnchangedShape(s, op, env, 1); UnchangedShape(s, op, env, 400); UnchangedShape(s, op, env, 401);
      UnchangedShape(s, op, env, 403); UnchangedShape(s, op, env, 404); }
    match op
    case Activate(_, _, _, _, _) => ActivateShape(s, op, env);
    case Refresh(_, _, _, _, _, _) =>
      if RefreshTarget(s, op).Some? {
        StatusAllowed(s, RefreshTarget(s, op).value);
        RefreshShape(s, RefreshTarget(s, op).value, op, env);
      }
    case SetStatus(code, status) => if code in s.activations { StatusShape(s, op, env, code, status); }
    case Renew(_, _, _, _, _) => RenewShape(s, op, env);
    case CliCreate(_, _, _, _, _, _, _, _, _, _) => CreateShape(s, op, env);
    case CliSetStatus(code, status) => if code in s.activations { StatusShape(s, op, env, code, status); }
    case CliRenew(_, _, _, _, _, _) => CliRenewShape(s, op, env);
  }

  lemma {:induction false} Standing(s: Store, c: string)
    requires Inv(s) && c in s.activations
    ensures ActivationOk(s, c)
  {
  }

  lemma {:induction false} StatusAllowed(s: Store, c: string)
    requires Inv(s) && c in s.activations
    ensures AllowedStatus(s.activations[c].status)
  {
    assert ActivationOk(s, c);
  }

  // ----- the audit list

  /** Number of steps that issue a license. */
  ghost function Issues(s: Store, steps: seq<Step>, t: Store): nat
    requires Runs(s, steps, t)
    decreases |steps|
  {
    if steps == [] then 0
    else (if ReplyOf(s, steps[0]).Issued? then 1 else 0) + Issues(After(s, steps[0]), steps[1..], t)
  }

  ghost function IssueEntries(audit: seq<Entry>): nat {
    if audit == [] then 0
    else IssueEntries(audit[..|audit| - 1]) + if audit[|audit| - 1].event.IssueLicense? then 1 else 0
  }

  lemma {:induction false} AuditStep(s: Store, step: Step)
    requires Inv(s)
    ensures AuditShape(s, After(s, step), ReplyOf(s, step))
  {
    ShapeOf(s, step);
  }

  lemma {:induction false} IssueEntriesStep(s: Store, step: Step)
    requires Inv(s)
    ensures IssueEntries(After(s, step).audit)
         == IssueEntries(s.audit) + if ReplyOf(s, step).Issued? then 1 else 0
  {
    hide After, ReplyOf, StepShape;
    AuditStep(s, step);
    var a := After(s, step).audit;
    if |a| > |s.audit| {
      assert a[..|a| - 1][..|s.audit|] == s.audit;
      assert a[..|s.audit|] == s.audit;
      if |a| == |s.audit| + 2 {
        assert a[..|a| - 1][|s.audit|] == a[|s.audit|];
        assert a[..|a| - 1][..|a| - 2] == s.audit;
      }
    } else {
      assert a == s.audit;
    }
  }

  /** Over a run the log grows by a suffix, with one `issue_license` for each license issued. */
  lemma {:induction false} AuditOverRuns(s: Store, steps: seq<Step>, t: Store)
    requires Inv(s) && Runs(s, steps, t)
    ensures s.audit <= t.audit && |t.audit| <= |s.audit| + 2 * |steps|
    ensures IssueEntries(t.audit) == IssueEntries(s.audit) + Issues(s, steps, t)
    decreases |steps|
  {
    hide After, ReplyOf, Inv;
    if steps != [] {
      AuditStep(s, steps[0]);
      IssueEntriesStep(s, steps[0]);
      StepInv(s, steps[0]);
      AuditOverRuns(After(s, steps[0]), steps[1..], t);
    }
  }

  /** Listing: the newest entries first, for a non-negative limit; a negative one drops
      that many of the oldest. */
  lemma {:induction false} ListsNewestFirst(audit: seq<Entry>, limit: int)
    ensures var n := if limit < 0 then |audit| + limit else limit;
            |ListAudit(audit, limit)| == if n < 0 then 0 else if n > |audit| then |audit| else n
    ensures forall i :: 0 <= i < |ListAudit(audit, limit)| ==> ListAudit(audit, limit)[i] == audit[|audit| - 1 - i]
  {
  }

  // ----- refusals

  /** The renewal asks for exactly what is stored, at the instant of the last change. */
  ghost predicate AsksNothingNew(s: Store, op: Op, now: Time)
    requires op.Renew? && op.code in s.activations
  {
    var a := s.activations[op.code];
    && NewExpiry(a.expiresAt, op.expires, op.days, now) == a.expiresAt
    && (op.features.Some? ==> op.features.value == a.features)
    && (op.limits.Some? ==> op.limits.value == a.limits)
    && a.updatedAt == now
  }

  /** A refusal never touches the licenses, and adds at most one audit entry. It leaves the
      activations as they were exactly unless a renewal that asks for something new was saved
      before signing failed; every renewal saved that way leaves a `renew` entry, and nothing
      else that is refused does. */
  lemma {:induction false} RefusalChangesNothing(s: Store, step: Step)
    requires Inv(s) && (ReplyOf(s, step).Denied? || ReplyOf(s, step).Blocked?)
    ensures After(s, step).licenses == s.licenses
    ensures s.audit <= After(s, step).audit && |After(s, step).audit| <= |s.audit| + 1
    ensures After(s, step).activations == s.activations <==>
            (SavedThenFailed(s, step.op, step.env) ==> AsksNothingNew(s, step.op, step.env.now))
    ensures SavedThenFailed(s, step.op, step.env) <==>
            After(s, step).audit != s.audit && After(s, step).audit[|s.audit|].event.Renewed?
  {
    hide After, ReplyOf, Inv;
    ShapeOf(s, step);
    if SavedThenFailed(s, step.op, step.env) { SavedRenewal(s, step); }
  }

  lemma {:induction false} SavedRenewal(s: Store, step: Step)
    requires SavedThenFailed(s, step.op, step.env)
    ensures After(s, step).activations == s.activations <==> AsksNothingNew(s, step.op, step.env.now)
  {
    hide NewExpiry;
    var (c, b) := (step.op.code, RenewedAs(s.activations[step.op.code], step.op, step.env.now));
    assert After(s, step).activations == s.activations[c := b];
    assert s.activations[c := b] == s.activations <==> b == s.activations[c];
  }

  /** The failing family is not empty: an expiry moves although the caller gets an error. */
  lemma RefusedRenewMovesExpiry(s: Store, c: string, t: Time, now: Time)
    requires Inv(s) && c in s.activations && s.activations[c].expiresAt != t
    ensures var step := Step(Renew(c, 0, At(t), None, None), Env(now, "", "", true, false));
            && ReplyOf(s, step) == Denied(500)
            && After(s, step).activations[c].expiresAt == t
            && After(s, step).licenses == s.licenses
  {
  }

  // ----- issued documents

  /** What an issue hands out is what it stores; see `IssueShape`. */
  lemma {:induction false} IssuedDocument(s: Store, step: Step)
    requires Inv(s)
    ensures IssueShape(s, step.op, After(s, step), ReplyOf(s, step))
  {
    ShapeOf(s, step);
  }

  lemma {:induction false} HttpStep(s: Store, step: Step)
    requires Inv(s)
    ensures HttpShape(s, step.op, After(s, step))
  {
    ShapeOf(s, step);
  }

  /** Every document issued for code c in the run satisfies p. */
  ghost predicate Documents(s: Store, steps: seq<Step>, t: Store, c: string, p: License -> bool)
    requires Runs(s, steps, t)
    decreases |steps|
  {
    steps != [] ==>
      && (ReplyOf(s, steps[0]).Issued? && ReplyOf(s, steps[0]).code == c ==> p(ReplyOf(s, steps[0]).license))
      && Documents(After(s, steps[0]), steps[1..], t, c, p)
  }

  /** Once bound, a deployment fingerprint stays over every run of HTTP operations, and every
      later document for that code carries it. */
  lemma {:induction false} FingerprintForGood(s: Store, steps: seq<Step>, t: Store, c: string)
    requires Inv(s) && Runs(s, steps, t) && c in s.activations && s.activations[c].fingerprint != ""
    requires forall i :: 0 <= i < |steps| ==> steps[i].op.Http()
    ensures c in t.activations && t.activations[c].fingerprint == s.activations[c].fingerprint
    ensures var f := s.activations[c].fingerprint;
            Documents(s, steps, t, c, (license: License) => license.fingerprint == Some(f))
    decreases |steps|
  {
    hide After, ReplyOf, Inv;
    if steps != [] {
      HttpStep(s, steps[0]);
      IssuedDocument(s, steps[0]);
      StepInv(s, steps[0]);
      FingerprintForGood(After(s, steps[0]), steps[1..], t, c);
    }
  }

  // ----- terms

  /** The operation renews or recreates code c. */
  predicate Recasts(op: Op, c: string) { (op.Renew? || op.CliRenew? || op.CliCreate?) && op.code == c }

  ghost predicate SameTerms(a: Activation, b: Activation) {
    a.expiresAt == b.expiresAt && a.features == b.features && a.limits == b.limits
  }

  /** The document carries the terms of the activation. */
  ghost predicate Carries(license: License, a: Activation) {
    license.expiresAt == a.expiresAt && license.features == FeaturesOf(a) && license.limits == a.limits
  }

  ghost predicate TermsShape(s: Store, c: string, t: Store, r: Reply)
    requires c in s.activations
  {
    && c in t.activations && SameTerms(s.activations[c], t.activations[c])
    && (r.Issued? && r.code == c ==> Carries(r.license, s.activations[c]))
  }

  lemma {:induction false} IssueTerms(s: Store, code: string, a: Activation, env: Env, c: string)
    requires c in s.activations && (code == c ==> SameTerms(s.activations[c], a))
    ensures TermsShape(s, c, Issue(s, code, a, env).0, Issue(s, code, a, env).1)
  {
  }

  /** No other operation moves the terms of c, and what is issued for c carries them. */
  lemma {:induction false} TermsStep(s: Store, step: Step, c: string)
    requires Inv(s) && c in s.activations && !Recasts(step.op, c)
    ensures TermsShape(s, c, After(s, step), ReplyOf(s, step))
  {
    hide Inv, Issue, ProjectMatches, FingerprintClash, TermsShape, DoSetStatus;
    var (op, env) := (step.op, step.env);
    KeptTerms(s, c);
    match op
    case Activate(_, _, _, _, _) => ActivateTerms(s, op, env, c);
    case Refresh(_, _, _, _, _, _) =>
      if RefreshTarget(s, op).Some? { RefreshTerms(s, RefreshTarget(s, op).value, op, env, c); }
    case SetStatus(code, status) => if code in s.activations { StatusTerms(s, code, status, env.now, c); }
    case Renew(_, _, _, _, _) => RenewTerms(s, op, env, c);
    case CliCreate(_, _, _, _, _, _, _, _, _, _) => EditTerms(s, DoCreate(s, op, env).0, op.code, c);
    case CliSetStatus(code, status) => if code in s.activations { StatusTerms(s, code, status, env.now, c); }
    case CliRenew(_, _, _, _, _, _) => EditTerms(s, DoCliRenew(s, op, env).0, op.code, c);
  }

  lemma {:induction false} KeptTerms(s: Store, c: string)
    requires c in s.activations
    ensures forall r: Reply :: !r.Issued? ==> TermsShape(s, c, s, r)
  {
  }

  lemma {:induction false} EditTerms(s: Store, t: Store, code: string, c: string)
    requires c in s.activations && c != code
    requires || t.activations == s.activations
             || (code in t.activations && t.activations == s.activations[code := t.activations[code]])
    ensures forall r: Reply :: !r.Issued? ==> TermsShape(s, c, t, r)
  {
  }

  lemma {:induction false} ActivateTerms(s: Store, op: Op, env: Env, c: string)
    requires op.Activate? && c in s.activations
    ensures TermsShape(s, c, DoActivate(s, op, env).0, DoActivate(s, op, env).1)
  {
    hide Issue, ProjectMatches;
    if op.code in s.activations {
      var a := s.activations[op.code];
      var bound := a.(fingerprint := OrElse(a.fingerprint, op.fingerprint));
      IssueTerms(Append(s, Activated(op.customer, bound.fingerprint), op.code, env.now), op.code, bound, env, c);
    }
  }

  lemma {:induction false} RefreshTerms(s: Store, code: string, op: Op, env: Env, c: string)
    requires op.Refresh? && code in s.activations && c in s.activations
    ensures TermsShape(s, c, DoRefreshAt(s, code, op, env).0, DoRefreshAt(s, code, op, env).1)
  {
    hide Issue;
    IssueTerms(Append(s, Refreshed(op.customer), code, env.now), code, s.activations[code], env, c);
  }

  lemma {:induction false} StatusTerms(s: Store, code: string, status: string, now: Time, c: string)
    requires code in s.activations && c in s.activations
    ensures TermsShape(s, c, DoSetStatus(s, code, status, now).0, DoSetStatus(s, code, status, now).1)
  {
  }

  lemma {:induction false} RenewTerms(s: Store, op: Op, env: Env, c: string)
    requires op.Renew? && c in s.activations && op.code != c
    ensures TermsShape(s, c, DoRenew(s, op, env).0, DoRenew(s, op, env).1)
  {
    hide Issue, RenewedAs;
    if op.code in s.activations && !op.expires.BadDate? {
      var b := RenewedAs(s.activations[op.code], op, env.now);
      var s1 := Append(s.(activations := s.activations[op.code := b]),
                       Renewed(b.expiresAt, FeaturesOf(b), b.limits), op.code, env.now);
      IssueTerms(s1, op.code, b, env, c);
    }
  }

  /** Over any run of operations that neither renew nor recreate c, its terms stay, and every
      document issued for it carries them. */
  lemma {:induction false} TermsStay(s: Store, steps: seq<Step>, t: Store, c: string, a: Activation)
    requires Inv(s) && Runs(s, steps, t) && c in s.activations && SameTerms(s.activations[c], a)
    requires forall i :: 0 <= i < |steps| ==> !Recasts(steps[i].op, c)
    ensures c in t.activations && SameTerms(t.activations[c], a)
    ensures Documents(s, steps, t, c, (license: License) => Carries(license, a))
    decreases |steps|
  {
    hide After, ReplyOf, Inv, Recasts;
    if steps != [] {
      TermsStep(s, steps[0], c);
      StepInv(s, steps[0]);
      TermsStay(After(s, steps[0]), steps[1..], t, c, a);
    }
  }

  // ----- behaviour across operations

  /** The operation leaves a code that is not active so: it does not activate, renew or
      recreate it. */
  predicate LeavesClosed(op: Op, c: string) {
    && !((op.SetStatus? || op.CliSetStatus?) && op.code == c && op.status == "active")
    && !((op.Renew? || op.CliCreate?) && op.code == c)
  }

  ghost predicate ClosedShape(t: Store, c: string, r: Reply) {
    c in t.activations && t.activations[c].status != "active" && !(r.Issued? && r.code == c)
  }

  lemma {:induction false} StaysClosed(s: Store, step: Step, c: string)
    requires Inv(s) && c in s.activations && s.activations[c].status != "active" && LeavesClosed(step.op, c)
    ensures ClosedShape(After(s, step), c, ReplyOf(s, step))
  {
    hide Inv, After, ReplyOf;
    if step.op.Activate? || step.op.Refresh? {
      ShapeOf(s, step);
    } else {
      OthersClosed(s, step, c);
    }
  }

  lemma {:induction false} OthersClosed(s: Store, step: Step, c: string)
    requires c in s.activations && s.activations[c].status != "active" && LeavesClosed(step.op, c)
    requires !step.op.Activate? && !step.op.Refresh?
    ensures ClosedShape(After(s, step), c, ReplyOf(s, step))
  {
    hide BuildPayload, FeaturesOf;
  }

  /** A suspended or revoked code gets no license from any run of operations that do not set
      it active, renew it or recreate it, whoever sends them and whatever ids they name. */
  lemma {:induction false} NothingWhileSuspended(s: Store, steps: seq<Step>, t: Store, c: string)
    requires Inv(s) && Runs(s, steps, t) && c in s.activations && s.activations[c].status != "active"
    requires forall i :: 0 <= i < |steps| ==> LeavesClosed(steps[i].op, c)
    ensures c in t.activations && t.activations[c].status != "active"
    ensures Documents(s, steps, t, c, (license: License) => false)
    decreases |steps|
  {
    hide After, ReplyOf, Inv, LeavesClosed;
    if steps != [] {
      StaysClosed(s, steps[0], c);
      StepInv(s, steps[0]);
      NothingWhileSuspended(After(s, steps[0]), steps[1..], t, c);
    }
  }

  lemma {:induction false} RenewalIssued(s: Store, step: Step)
    requires step.op.Renew? && ReplyOf(s, step).Issued?
    ensures var (t, op, license) := (After(s, step), step.op, ReplyOf(s, step).license);
            && op.code in s.activations && t.activations.Keys == s.activations.Keys
            && (op.expires.At? ==> license.expiresAt == op.expires.t)
            && (op.expires.NoDate? && op.days != 0 ==> license.expiresAt == step.env.now + 86400 * op.days)
            && (op.expires.NoDate? && op.days == 0 ==> license.expiresAt == s.activations[op.code].expiresAt)
            && (op.limits.Some? ==> license.limits == op.limits.value)
            && (op.features.Some? && op.features.value != [] ==> license.features == op.features.value)
            && Carries(license, t.activations[op.code])
            && forall c :: c in s.activations && c != op.code ==> t.activations[c] == s.activations[c]
  {
  }

  /** A renewal lasts: the document it issues has the given date, else the given days from
      the renewal, else the old expiry, and the features and limits given; until the code is
      renewed or recreated, every document issued for it has the same terms. No other
      activation changes. */
  lemma {:induction false} RenewTakesEffect(s: Store, renew: Step, steps: seq<Step>, t: Store)
    requires Inv(s) && Fresh(s, renew.env) && renew.op.Renew? && ReplyOf(s, renew).Issued?
    requires Runs(After(s, renew), steps, t)
    requires forall i :: 0 <= i < |steps| ==> !Recasts(steps[i].op, renew.op.code)
    ensures var (u, op, license) := (After(s, renew), renew.op, ReplyOf(s, renew).license);
            && op.code in s.activations && u.activations.Keys == s.activations.Keys
            && (op.expires.At? ==> license.expiresAt == op.expires.t)
            && (op.expires.NoDate? && op.days != 0 ==> license.expiresAt == renew.env.now + 86400 * op.days)
            && (op.expires.NoDate? && op.days == 0 ==> license.expiresAt == s.activations[op.code].expiresAt)
            && (op.limits.Some? ==> license.limits == op.limits.value)
            && (op.features.Some? && op.features.value != [] ==> license.features == op.features.value)
            && Carries(license, u.activations[op.code])
            && Documents(u, steps, t, op.code, (later: License) => Carries(later, u.activations[op.code]))
            && op.code in t.activations && SameTerms(t.activations[op.code], u.activations[op.code])
            && forall c :: c in s.activations && c != op.code ==> u.activations[c] == s.activations[c]
  {
    hide Inv, Runs, Documents, After, ReplyOf;
    RenewalIssued(s, renew);
    StepInv(s, renew);
    TermsStay(After(s, renew), steps, t, renew.op.code, After(s, renew).activations[renew.op.code]);
  }

  /** HTTP renew issues whatever the status; the new document is stored under that status,
      and a refresh right after it is blocked unless the status is active. */
  lemma {:induction false} RenewIgnoresStatus(s: Store, renew: Step, refresh: Step)
    requires Inv(s) && Fresh(s, renew.env)
    requires renew.op.Renew? && renew.env.authorized && renew.env.keyLoaded && !renew.op.expires.BadDate?
    requires renew.op.code in s.activations
    requires refresh.op.Refresh? && refresh.env.authorized
    requires ProjectMatches(refresh.op.project, refresh.op.product)
    requires refresh.op.customer == s.activations[renew.op.code].customer
    requires !FingerprintClash(s.activations[renew.op.code], refresh.op.fingerprint)
    requires ReplyOf(s, renew).Issued? ==> refresh.op.licenseId == ReplyOf(s, renew).license.licenseId
    ensures ReplyOf(s, renew).Issued? && ReplyOf(s, renew).status == s.activations[renew.op.code].status
    ensures Inv(After(s, renew))
    ensures s.activations[renew.op.code].status != "active" <==> ReplyOf(After(s, renew), refresh).Blocked?
  {
    hide Inv;
    StepInv(s, renew);
    Standing(s, renew.op.code);
  }

  // ----- when an operation is granted, and what it changes

  /** Every HTTP operation turns an unauthorized caller away and changes nothing. */
  lemma {:induction false} UnauthorizedRefused(s: Store, step: Step)
    requires step.op.Http() && !step.env.authorized
    ensures ReplyOf(s, step) == Denied(401) && After(s, step) == s
  {
  }

  /** A project that is given decides, without the spaces around it and in whatever case; one
      that is not leaves the decision to the product. */
  lemma {:induction false} ProjectDecides(pre: string, text: string, post: string, product: string)
    requires All(IsSpace, pre) && All(IsSpace, post) && Trimmed(text)
    ensures pre + text + post != "" ==>
              (ProjectMatches(pre + text + post, product) <==> text == "" || Lower(text) == "sagitta-control")
    ensures ProjectMatches("", product) <==> ProjectMatches(product, "")
  {
    hide Strip;
    StripPadded(pre, text, post);
  }

  /** The request does not contradict the deployment the activation is bound to. */
  predicate SuitsDeployment(a: Activation, fingerprint: string) {
    a.fingerprint == "" || fingerprint == "" || fingerprint == a.fingerprint
  }

  /** Activation issues exactly when all its checks pass; it binds the deployment if none was
      bound, and touches no other activation. */
  lemma {:induction false} ActivateDecides(s: Store, step: Step)
    requires step.op.Activate?
    ensures var (op, env) := (step.op, step.env);
            ReplyOf(s, step).Issued? <==>
              && env.authorized && env.keyLoaded && ProjectMatches(op.project, op.product)
              && op.code in s.activations && s.activations[op.code].customer == op.customer
              && s.activations[op.code].status == "active" && SuitsDeployment(s.activations[op.code], op.fingerprint)
    ensures ReplyOf(s, step).Issued? ==>
              var (c, t) := (step.op.code, After(s, step));
              && ReplyOf(s, step).code == c && t.activations.Keys == s.activations.Keys
              && t.activations[c].fingerprint
                 == (if s.activations[c].fingerprint == "" then step.op.fingerprint else s.activations[c].fingerprint)
              && forall d :: d in s.activations && d != c ==> t.activations[d] == s.activations[d]
  {
    hide ProjectMatches, BuildPayload;
  }

  /** The activation a refresh names: that of the license id if it is on record, else one with
      the activation id. */
  ghost predicate Named(s: Store, op: Op, c: string)
    requires op.Refresh?
  {
    && c in s.activations
    && (if op.licenseId in s.licenses then s.licenses[op.licenseId].code == c
        else s.activations[c].activationId == Some(op.activationId))
  }

  lemma {:induction false} NamedIsTarget(s: Store, op: Op, c: string)
    requires Inv(s) && op.Refresh?
    ensures Named(s, op, c) <==> RefreshTarget(s, op) == Some(c)
  {
    hide Inv;
    if Named(s, op, c) && op.licenseId !in s.licenses { OwnerUnique(s, op.activationId, c); }
  }

  /** A refresh issues exactly when all its checks pass against the activation it names. */
  lemma {:induction false} RefreshIssues(s: Store, step: Step, c: string)
    requires Inv(s) && step.op.Refresh?
    ensures ReplyOf(s, step).Issued? && ReplyOf(s, step).code == c <==>
              && step.env.authorized && step.env.keyLoaded && ProjectMatches(step.op.project, step.op.product)
              && Named(s, step.op, c) && s.activations[c].customer == step.op.customer
              && SuitsDeployment(s.activations[c], step.op.fingerprint) && s.activations[c].status == "active"
  {
    hide Inv, ProjectMatches, Named, RefreshTarget, BuildPayload;
    NamedIsTarget(s, step.op, c);
    NamedOnFile(s, step.op, c);
    if c in s.activations { StatusAllowed(s, c); }
  }

  lemma {:induction false} NamedOnFile(s: Store, op: Op, c: string)
    requires op.Refresh?
    ensures Named(s, op, c) ==> c in s.activations
  {
  }

  /** HTTP renew issues for every known code when the date can be read and the key loads. */
  lemma {:induction false} RenewDecides(s: Store, step: Step)
    requires step.op.Renew?
    ensures ReplyOf(s, step).Issued? <==>
              step.env.authorized && step.env.keyLoaded && step.op.code in s.activations && !step.op.expires.BadDate?
  {
    hide BuildPayload, RenewedAs;
  }

  /** A status is set exactly for a known code and one of three statuses, by an authorized
      caller or on the command line; it then stands in the activation and in its license
      record, and nothing else changes but the audit and the time of the change. */
  lemma {:induction false} StatusTakesEffect(s: Store, step: Step)
    requires Inv(s) && (step.op.SetStatus? || step.op.CliSetStatus?)
    ensures ReplyOf(s, step).Changed? <==>
              && (step.op.CliSetStatus? || step.env.authorized) && step.op.code in s.activations
              && step.op.status in ["active", "suspended", "revoked"]
    ensures ReplyOf(s, step).Changed? ==>
              var (t, c, now) := (After(s, step), step.op.code, step.env.now);
              && t.activations == s.activations[c := s.activations[c].(status := step.op.status, updatedAt := now)]
              && t.licenses.Keys == s.licenses.Keys
              && forall l :: l in s.licenses ==>
                   t.licenses[l] == if s.activations[c].licenseId == Some(l)
                                    then s.licenses[l].(status := step.op.status, updatedAt := now)
                                    else s.licenses[l]
  {
    hide Inv;
  }

  /** The command line creates an active activation with the terms given, without ids. */
  lemma {:induction false} CreateTakesEffect(s: Store, step: Step)
    requires step.op.CliCreate?
    ensures ReplyOf(s, step).Changed? <==> !step.op.expires.BadDate? && !step.op.notBefore.BadDate?
    ensures ReplyOf(s, step).Changed? ==>
              var (t, op) := (After(s, step), step.op);
              && op.code in t.activations && t.licenses == s.licenses
              && var a := t.activations[op.code];
              && a.code == op.code && a.customer == op.customer && a.company == op.company && a.edition == op.edition
              && a.status == "active" && a.features == op.featureList && a.limits == op.limitMap
              && a.fingerprint == op.fingerprint && a.activationId.None? && a.licenseId.None?
              && a.expiresAt == (if op.expires.At? then op.expires.t else step.env.now + 86400 * op.days)
              && a.notBefore == (if op.notBefore.At? then Some(op.notBefore.t) else None)
              && forall c :: c != op.code ==> (c in t.activations <==> c in s.activations)
                                              && (c in s.activations ==> t.activations[c] == s.activations[c])
  {
  }

  /** The command line renews a known code: what is given replaces what was there, the rest
      stays, and no license changes. */
  lemma {:induction false} CliRenewTakesEffect(s: Store, step: Step)
    requires step.op.CliRenew?
    ensures ReplyOf(s, step).Changed? <==> step.op.code in s.activations && !step.op.expires.BadDate?
    ensures ReplyOf(s, step).Changed? ==>
              var (t, op) := (After(s, step), step.op);
              && t.licenses == s.licenses && t.activations.Keys == s.activations.Keys
              && var (a, b) := (s.activations[op.code], t.activations[op.code]);
              && SameStanding(a, b) && b.company == a.company && b.edition == a.edition && b.notBefore == a.notBefore
              && b.expiresAt == (if op.expires.At? then op.expires.t
                                 else if op.days != 0 then step.env.now + 86400 * op.days else a.expiresAt)
              && b.features == (if op.features.Some? then op.features.value else a.features)
              && b.limits == (if op.limitMap == map[] then a.limits else op.limitMap)
              && b.fingerprint == (if op.fingerprint == "" then a.fingerprint else op.fingerprint)
              && forall c :: c in s.activations && c != op.code ==> t.activations[c] == s.activations[c]
  {
  }

  /** The issued document says what the stored activation says. */
  ghost predicate Describes(license: License, a: Activation, now: Time) {
    && Some(license.licenseId) == a.licenseId && license.customer == a.customer && license.company == a.company
    && license.edition == a.edition && license.issuedAt == now && license.expiresAt == a.expiresAt
    && license.notBefore == (if a.notBefore.Some? then a.notBefore.value else now)
    && license.features == (if a.features == [] then DEFAULT_FEATURES else a.features)
    && license.limits == a.limits && license.fingerprint == (if a.fingerprint == "" then None else Some(a.fingerprint))
  }

  lemma {:induction false} IssueDescribes(s: Store, code: string, a: Activation, env: Env)
    ensures var (t, r) := Issue(s, code, a, env);
            && r.Issued? && r.code == code && code in t.activations
            && Describes(r.license, t.activations[code], env.now)
            && t.activations[code].activationId == Some(r.activationId)
            && r.license.licenseId == (if a.licenseId.Some? then a.licenseId.value else env.licenseId)
            && r.activationId == (if a.activationId.Some? then a.activationId.value else env.activationId)
  {
  }

  lemma {:induction false} TargetOnFile(s: Store, op: Op)
    requires op.Refresh?
    ensures RefreshTarget(s, op).Some? ==> RefreshTarget(s, op).value in s.activations
  {
  }

  /** Whatever issues, the document handed out describes the activation as it is stored then,
      under its old ids or newly drawn ones. */
  lemma {:induction false} IssuedDescribes(s: Store, step: Step)
    requires Inv(s) && ReplyOf(s, step).Issued?
    ensures var (t, r) := (After(s, step), ReplyOf(s, step));
            && r.code in s.activations && r.code in t.activations
            && Describes(r.license, t.activations[r.code], step.env.now)
            && t.activations[r.code].activationId == Some(r.activationId)
            && r.license.licenseId
               == (if s.activations[r.code].licenseId.Some? then s.activations[r.code].licenseId.value
                   else step.env.licenseId)
  {
    hide Inv, Issue, Describes, ProjectMatches, RefreshTarget, FingerprintClash, FeaturesOf;
    var (op, env) := (step.op, step.env);
    match op
    case Activate(_, _, _, _, _) =>
      var a := s.activations[op.code];
      var bound := a.(fingerprint := OrElse(a.fingerprint, op.fingerprint));
      IssueDescribes(Append(s, Activated(op.customer, bound.fingerprint), op.code, env.now), op.code, bound, env);
    case Refresh(_, _, _, _, _, _) =>
      TargetOnFile(s, op);
      var code := RefreshTarget(s, op).value;
      IssueDescribes(Append(s, Refreshed(op.customer), code, env.now), code, s.activations[code], env);
    case Renew(_, _, _, _, _) =>
      var b := RenewedAs(s.activations[op.code], op, env.now);
      var s1 := Append(s.(activations := s.activations[op.code := b]),
                       Renewed(b.expiresAt, FeaturesOf(b), b.limits), op.code, env.now);
      IssueDescribes(s1, op.code, b, env);
    case _ =>
  }

  /** A refresh that names a license id on record issues exactly when all its checks pass
      against the activation its code has now, whatever became of the license. */
  lemma {:induction false} RefreshDecides(s: Store, refresh: Step)
    requires Inv(s) && refresh.op.Refresh? && refresh.op.licenseId in s.licenses
    ensures var (op, env, code) := (refresh.op, refresh.env, s.licenses[refresh.op.licenseId].code);
            && code in s.activations
            && (ReplyOf(s, refresh).Issued? <==>
                  && env.authorized && env.keyLoaded && ProjectMatches(op.project, op.product)
                  && s.activations[code].customer == op.customer
                  && SuitsDeployment(s.activations[code], op.fingerprint) && s.activations[code].status == "active")
  {
    hide Inv, ProjectMatches;
    CodeStays(s, refresh.op.licenseId);
    StatusAllowed(s, s.licenses[refresh.op.licenseId].code);
  }

  lemma {:induction false} CodeStays(s: Store, l: string)
    requires Inv(s) && l in s.licenses
    ensures s.licenses[l].code in s.activations
  {
    assert RecordOk(s, l);
  }

  /** A license id left behind by a replaced activation still refreshes its code, exactly when
      the request is authorized, names the replacement's customer and does not contradict its
      fingerprint: the holder gets a document under a new id with the replacement's terms and
      fingerprint, and the old record keeps its old status. */
  lemma {:induction false} ReplacedStillRefreshes(s: Store, l: string, create: Step, refresh: Step)
    requires Inv(s) && l in s.licenses && Fresh(s, create.env)
    requires create.op.CliCreate? && create.op.code == s.licenses[l].code
    requires !create.op.expires.BadDate? && !create.op.notBefore.BadDate?
    requires refresh.op.Refresh? && refresh.op.licenseId == l && Fresh(s, refresh.env)
    ensures Inv(After(s, create)) && create.op.code in After(s, create).activations
    ensures ReplyOf(After(s, create), refresh).Issued? <==>
              && refresh.env.authorized && refresh.env.keyLoaded
              && ProjectMatches(refresh.op.project, refresh.op.product)
              && refresh.op.customer == create.op.customer
              && (create.op.fingerprint == "" || refresh.op.fingerprint in ["", create.op.fingerprint])
    ensures var (t, r) := (After(After(s, create), refresh), ReplyOf(After(s, create), refresh));
            r.Issued? ==>
              && r.license.licenseId == refresh.env.licenseId != l
              && r.license.expiresAt == After(s, create).activations[create.op.code].expiresAt
              && r.license.fingerprint == (if create.op.fingerprint == "" then None else Some(create.op.fingerprint))
              && l in t.licenses && t.licenses[l] == s.licenses[l]
  {
    hide Inv, ProjectMatches;
    StepInv(s, create);
    RefreshDecides(After(s, create), refresh);
  }
}
