/** The sliding-window limiter over a Redis sorted set, and the two-sided limit on
    authentication requests. Times are ticks of one non-decreasing clock, shared by scores
    and key expiry. */
module Limiter {
  import opened Text
  import opened Net

  type Time = nat

  /** A sorted set with its time to live. */
  datatype ZSet = ZSet(members: map<string, Time>, expireAt: Option<Time>)

  /** What became of a check: an answer within or over the limit, or no answer because Redis
      failed after the commands had run. */
  datatype Outcome = Admitted | Refused | Unanswered

  datatype Hit = Hit(member: string, time: Time, outcome: Outcome)

  // ----- the meaning: filter the whole history

  function CountAfter(h: seq<Hit>, lo: int): nat {
    if h == [] then 0
    else CountAfter(h[..|h| - 1], lo) + if h[|h| - 1].time > lo then 1 else 0
  }

  /** Checks admitted with a time in (lo, hi]. */
  function AdmittedIn(h: seq<Hit>, lo: int, hi: int): nat {
    if h == [] then 0
    else AdmittedIn(h[..|h| - 1], lo, hi)
         + var x := h[|h| - 1]; if x.outcome.Admitted? && lo < x.time <= hi then 1 else 0
  }

  /** The members whose time is later than lo. */
  function Later(h: seq<Hit>, lo: int): map<string, Time> {
    if h == [] then map[]
    else
      var m := Later(h[..|h| - 1], lo);
      var x := h[|h| - 1];
      if x.time > lo then m[x.member := x.time] else m
  }

  /** Each answer compares the count over the whole history, this check included, with the
      limit. */
  ghost predicate Judged(h: seq<Hit>, limit: int, window: nat) {
    h != [] ==>
      var x := h[|h| - 1];
      && Judged(h[..|h| - 1], limit, window)
      && (x.outcome.Admitted? ==> CountAfter(h, x.time - window) <= limit)
      && (x.outcome.Refused? ==> CountAfter(h, x.time - window) > limit)
  }

  ghost predicate Chronological(h: seq<Hit>) {
    && (forall i, j :: 0 <= i < j < |h| ==> h[i].time <= h[j].time)
    && (forall i, j :: 0 <= i < j < |h| ==> h[i].member != h[j].member)
  }

  /** The stored set is the part of the history inside the window of the last check, and
      lives as long as its newest member can matter. */
  ghost predicate Holds(z: Option<ZSet>, h: seq<Hit>, window: nat) {
    match z
    case None => h == []
    case Some(s) =>
      && h != []
      && s.members == Later(h, h[|h| - 1].time - window)
      && s.expireAt == Some(h[|h| - 1].time + window)
  }

  // ----- lemmas about the history

  lemma {:induction false} AdmittedAtMostCount(h: seq<Hit>, lo: int, hi: int, below: int)
    requires below <= lo
    ensures AdmittedIn(h, lo, hi) <= CountAfter(h, below)
  {
    if h != [] {
      AdmittedAtMostCount(h[..|h| - 1], lo, hi, below);
    }
  }

  /** In every window of every run, at most `limit` checks are admitted. */
  lemma {:induction false} WindowBound(h: seq<Hit>, limit: nat, window: nat, end: int)
    requires Judged(h, limit, window)
    ensures AdmittedIn(h, end - window, end) <= limit
  {
    if h != [] {
      var x := h[|h| - 1];
      if x.outcome.Admitted? && end - window < x.time <= end {
        AdmittedAtMostCount(h, end - window, end, x.time - window);
      } else {
        WindowBound(h[..|h| - 1], limit, window, end);
      }
    }
  }

  ghost predicate HasHit(h: seq<Hit>, member: string, time: Time) {
    exists i :: 0 <= i < |h| && h[i].member == member && h[i].time == time
  }

  lemma {:induction false} LaterHits(h: seq<Hit>, lo: int)
    ensures forall m :: m in Later(h, lo) ==> HasHit(h, m, Later(h, lo)[m])
  {
    if h != [] {
      var g, x, m := h[..|h| - 1], h[|h| - 1], Later(h[..|h| - 1], lo);
      LaterHits(g, lo);
      forall k | k in Later(h, lo) ensures HasHit(h, k, Later(h, lo)[k]) {
        if k == x.member && x.time > lo {
          assert h[|h| - 1].member == k;
        } else {
          var i :| 0 <= i < |g| && g[i].member == k && g[i].time == m[k];
          assert h[i] == g[i];
        }
      }
    }
  }

  lemma {:induction false} LaterCount(h: seq<Hit>, lo: int)
    requires Chronological(h)
    ensures |Later(h, lo)| == CountAfter(h, lo)
  {
    if h != [] {
      var g, x, m := h[..|h| - 1], h[|h| - 1], Later(h[..|h| - 1], lo);
      LaterCount(g, lo);
      LaterHits(g, lo);
      assert x.member !in m;
      assert m[x.member := x.time].Keys == m.Keys + {x.member};
    }
  }

  /** Removing the scores up to a later bound is filtering the history by that bound. */
  lemma {:induction false} PruneLater(h: seq<Hit>, lo: int, bound: int)
    requires Chronological(h) && lo <= bound
    ensures Later(h, bound) == map m | m in Later(h, lo) && Later(h, lo)[m] > bound :: Later(h, lo)[m]
  {
    if h != [] {
      var n := |h| - 1;
      PruneLater(h[..n], lo, bound);
      LaterHits(h[..n], lo);
    }
  }

  /** Once the key has expired, pruning would have removed every member. */
  lemma {:induction false} NothingLater(h: seq<Hit>, bound: int)
    requires forall i :: 0 <= i < |h| ==> h[i].time <= bound
    ensures Later(h, bound) == map[]
  {
    if h != [] {
      NothingLater(h[..|h| - 1], bound);
    }
  }

  // ----- Redis

  class Redis {
    var keys: map<string, ZSet>

    constructor ()
      ensures keys == map[]
    {
      keys := map[];
    }

    /** The members of a key that exists and has not expired. */
    function Members(key: string, now: Time): map<string, Time>
      reads this
    {
      if key in keys && (keys[key].expireAt.None? || now <= keys[key].expireAt.value) then keys[key].members else map[]
    }

    function TimeToLive(key: string, now: Time): Option<Time>
      reads this
    {
      if key in keys && (keys[key].expireAt.None? || now <= keys[key].expireAt.value) then keys[key].expireAt else None
    }

    method ZRemRangeByScore(key: string, lo: int, hi: int, now: Time)
      modifies this
      ensures Members(key, now) == map m | m in old(Members(key, now)) && !(lo <= old(Members(key, now))[m] <= hi)
                                     :: old(Members(key, now))[m]
      ensures forall k :: k != key ==> (k in keys <==> k in old(keys)) && (k in keys ==> keys[k] == old(keys)[k])
    {
      var members := Members(key, now);
      var left := map m | m in members && !(lo <= members[m] <= hi) :: members[m];
      var ttl := TimeToLive(key, now);
      keys := if left == map[] then map k | k in keys && k != key :: keys[k] else keys[key := ZSet(left, ttl)];
    }

    method ZAdd(key: string, member: string, score: Time, now: Time)
      modifies this
      ensures key in keys && Members(key, now) == old(Members(key, now))[member := score] == keys[key].members
      ensures forall k :: k != key ==> (k in keys <==> k in old(keys)) && (k in keys ==> keys[k] == old(keys)[k])
    {
      var ttl := TimeToLive(key, now);
      keys := keys[key := ZSet(Members(key, now)[member := score], ttl)];
    }

    method Expire(key: string, seconds: nat, now: Time)
      requires key in keys
      modifies this
      ensures keys == old(keys)[key := ZSet(old(keys)[key].members, Some(now + seconds))]
    {
      keys := keys[key := keys[key].(expireAt := Some(now + seconds))];
    }

    /** `_sliding_window_allow`: the four commands of the pipeline, in order. */
    method SlidingWindowAllow(key: string, limit: int, window: nat, now: Time, member: string) returns (allowed: bool)
      modifies this
      ensures key in keys
      ensures keys[key].members == (map m | m in old(Members(key, now)) && old(Members(key, now))[m] > now - window
                                      :: old(Members(key, now))[m])[member := now]
      ensures keys[key].expireAt == Some(now + window)
      ensures allowed <==> |keys[key].members| <= limit
      ensures forall k :: k != key ==> (k in keys <==> k in old(keys)) && (k in keys ==> keys[k] == old(keys)[k])
    {
      ZRemRangeByScore(key, 0, now - window, now);
      ZAdd(key, member, now, now);
      var count := |Members(key, now)|;
      Expire(key, window, now);
      allowed := count <= limit;
    }
  }

  /** One check is one more entry of the history: the stored set is again the filtered
      history, and its size is the count over the whole history. */
  lemma {:induction false} CheckRefines(z: Option<ZSet>, h: seq<Hit>, window: nat, x: Hit, visible: map<string, Time>,
                                        s: ZSet)
    requires Holds(z, h, window) && Chronological(h + [x])
    requires visible == if z.Some? && x.time <= z.value.expireAt.value then z.value.members else map[]
    requires s.members == (map m | m in visible && visible[m] > x.time - window :: visible[m])[x.member := x.time]
    requires s.expireAt == Some(x.time + window) && window > 0
    ensures Holds(Some(s), h + [x], window)
    ensures |s.members| == CountAfter(h + [x], x.time - window)
  {
    var g := h + [x];
    var bound := x.time - window;
    assert g[..|h|] == h && g[|h|] == x;
    VisibleLater(z, h, window, x, visible);
    assert Later(g, bound) == Later(h, bound)[x.member := x.time];
    LaterCount(g, bound);
  }

  /** Of what a key shows, pruning leaves the history inside the new window. */
  lemma {:induction false} VisibleLater(z: Option<ZSet>, h: seq<Hit>, window: nat, x: Hit, visible: map<string, Time>)
    requires Holds(z, h, window) && Chronological(h + [x])
    requires visible == if z.Some? && x.time <= z.value.expireAt.value then z.value.members else map[]
    ensures (map m | m in visible && visible[m] > x.time - window :: visible[m]) == Later(h, x.time - window)
  {
    var g := h + [x];
    assert forall i :: 0 <= i < |h| ==> h[i] == g[i] && h[i].time <= g[|h|].time;
    if h != [] {
      var last := h[|h| - 1].time;
      PruneLater(h, last - window, x.time - window);
      if x.time > last + window {
        NothingLater(h, x.time - window);
      }
    }
  }

  /** Whether the key has been deleted at its expiry or merely outlives it makes no
      difference: pruning keeps nothing an expiry drops. */
  lemma {:induction false} ExpiryDropsNothing(s: ZSet, h: seq<Hit>, window: nat, now: Time)
    requires Holds(Some(s), h, window) && Chronological(h) && now > s.expireAt.value
    ensures forall m :: m in s.members ==> s.members[m] <= now - window
  {
    var last := h[|h| - 1].time;
    LaterHits(h, last - window);
    forall m | m in s.members ensures s.members[m] <= now - window {
      assert HasHit(h, m, s.members[m]);
      var i :| 0 <= i < |h| && h[i].member == m && h[i].time == s.members[m];
      assert h[i].time <= last;
    }
  }

  // ----- the limits on authentication

  datatype Failure = NoFailure | BeforeCommands | AfterCommands

  /** One entry point's limiter: a scope with its two limits. */
  class AuthLimiter {
    const scope: string
    const ipLimit: nat
    const ipWindow: nat
    const idLimit: nat
    const idWindow: nat
    const redis: Redis
    ghost var log: map<string, seq<Hit>>
    ghost var clock: Time

    constructor (scope: string, ipLimit: nat, ipWindow: nat, idLimit: nat, idWindow: nat)
      requires ipWindow > 0 && idWindow > 0
      ensures Valid() && log == map[] && fresh(redis) && clock == 0
      ensures this.scope == scope && this.ipLimit == ipLimit && this.ipWindow == ipWindow
      ensures this.idLimit == idLimit && this.idWindow == idWindow
    {
      this.scope := scope;
      this.ipLimit, this.ipWindow, this.idLimit, this.idWindow := ipLimit, ipWindow, idLimit, idWindow;
      redis := new Redis();
      log, clock := map[], 0;
    }

    function IpKey(ip: string): string { "rl:" + scope + ":ip:" + ip }

    function IdKey(identifier: string): string { "rl:" + scope + ":id:" + identifier }

    predicate IsIpKey(key: string) { IpKey("") <= key }

    function WindowOf(key: string): nat { if IsIpKey(key) then ipWindow else idWindow }

    function LimitOf(key: string): nat { if IsIpKey(key) then ipLimit else idLimit }

    ghost function History(key: string): seq<Hit>
      reads this
    {
      if key in log then log[key] else []
    }

    ghost function Stored(key: string): Option<ZSet>
      reads redis
    {
      if key in redis.keys then Some(redis.keys[key]) else None
    }

    /** Every key's stored set is its filtered history, and every answer given on it agrees
        with the count over that history. */
    ghost predicate Valid()
      reads this, redis
    {
      && ipWindow > 0 && idWindow > 0
      && forall key :: KeyOk(key)
    }

    ghost predicate KeyOk(key: string)
      reads this, redis
    {
      var h := History(key);
      && Holds(Stored(key), h, WindowOf(key))
      && Chronological(h)
      && (h != [] ==> h[|h| - 1].time <= clock)
      && Judged(h, LimitOf(key), WindowOf(key))
    }

    /** `enforce_rate_limit`: true when the request may go on. */
    method Enforce(key: string, limit: nat, window: nat, now: Time, member: string, failure: Failure)
      returns (pass: bool)
      requires Valid() && now >= clock && limit == LimitOf(key) && window == WindowOf(key)
      requires forall i :: 0 <= i < |History(key)| ==> History(key)[i].member != member
      modifies this`log, this`clock, redis
      ensures Valid() && clock == now
      ensures forall k :: k != key ==> History(k) == old(History(k))
      ensures failure.BeforeCommands? ==> pass && History(key) == old(History(key))
      ensures !failure.BeforeCommands? ==>
                exists outcome :: History(key) == old(History(key)) + [Hit(member, now, outcome)]
                                  && (failure.AfterCommands? <==> outcome.Unanswered?)
                                  && (pass <==> !outcome.Refused?)
    {
      hide Holds, Judged, Chronological, CountAfter;
      if failure.BeforeCommands? {
        clock := now;
        forall k ensures KeyOk(k) {
          assert old(KeyOk(k)) && History(k) == old(History(k)) && Stored(k) == old(Stored(k));
        }
        return true;
      }
      ghost var h, z, visible := History(key), Stored(key), redis.Members(key, now);
      assert KeyOk(key);
      var allowed := redis.SlidingWindowAllow(key, limit, window, now, member);
      ghost var outcome := if failure.AfterCommands? then Unanswered else if allowed then Admitted else Refused;
      ghost var x := Hit(member, now, outcome);
      CheckedKey(z, h, limit, window, x, visible, redis.keys[key]);
      log := log[key := h + [x]];
      clock := now;
      pass := failure.AfterCommands? || allowed;
      forall k ensures KeyOk(k) {
        assert old(KeyOk(k));
        assert k != key ==> History(k) == old(History(k)) && Stored(k) == old(Stored(k));
      }
    }

    /** The key after a check: refinement, order and verdict. */
    lemma CheckedKey(z: Option<ZSet>, h: seq<Hit>, limit: nat, window: nat, x: Hit, visible: map<string, Time>, s: ZSet)
      requires Holds(z, h, window) && Chronological(h) && Judged(h, limit, window) && window > 0
      requires h != [] ==> h[|h| - 1].time <= x.time
      requires forall i :: 0 <= i < |h| ==> h[i].member != x.member
      requires visible == if z.Some? && z.value.expireAt.Some? && x.time <= z.value.expireAt.value then z.value.members
                          else if z.Some? && z.value.expireAt.None? then z.value.members else map[]
      requires s.members == (map m | m in visible && visible[m] > x.time - window :: visible[m])[x.member := x.time]
      requires s.expireAt == Some(x.time + window)
      requires x.outcome.Admitted? ==> |s.members| <= limit
      requires x.outcome.Refused? ==> |s.members| > limit
      ensures Holds(Some(s), h + [x], window) && Chronological(h + [x]) && Judged(h + [x], limit, window)
    {
      hide Judged, Later, CountAfter;
      assert Chronological(h + [x]);
      CheckRefines(z, h, window, x, visible, s);
      JudgedAppend(h, x, limit, window);
    }

    lemma JudgedAppend(h: seq<Hit>, x: Hit, limit: nat, window: nat)
      requires Judged(h, limit, window)
      requires x.outcome.Admitted? ==> CountAfter(h + [x], x.time - window) <= limit
      requires x.outcome.Refused? ==> CountAfter(h + [x], x.time - window) > limit
      ensures Judged(h + [x], limit, window)
    {
      assert (h + [x])[..|h|] == h;
    }

    /** `enforce_auth_rate_limit`: the source address first, then the account. */
    method EnforceAuth(peer: string, forwarded: Option<string>, hops: int, identifier: string, now: Time,
                       ipMember: string, idMember: string, ipFailure: Failure, idFailure: Failure)
      returns (pass: bool)
      requires Valid() && now >= clock
      requires forall key, i :: 0 <= i < |History(key)| ==>
                 History(key)[i].member != ipMember && History(key)[i].member != idMember
      modifies this`log, this`clock, redis
      ensures Valid() && clock == now
      ensures var ip := OrUnknown(ResolveClientIp(peer, forwarded, hops));
              && (forall key :: key != IpKey(ip) && (identifier == "" || key != IdKey(identifier)) ==>
                    History(key) == old(History(key)))
              && (ipFailure.BeforeCommands? || CheckedOnce(IpKey(ip), old(History(IpKey(ip))), ipMember, now))
              && (!pass <==> EndsWith(History(IpKey(ip)), Hit(ipMember, now, Refused))
                             || (identifier != "" && EndsWith(History(IdKey(identifier)), Hit(idMember, now, Refused))))
              && (EndsWith(History(IpKey(ip)), Hit(ipMember, now, Refused)) ==>
                    History(IdKey(identifier)) == old(History(IdKey(identifier))))
              && (pass && identifier != "" && !idFailure.BeforeCommands? ==>
                    CheckedOnce(IdKey(identifier), old(History(IdKey(identifier))), idMember, now))
      ensures forall other :: other != identifier || identifier == "" ==>
                History(IdKey(other)) == old(History(IdKey(other)))
      ensures var found := ResolveClientIp(peer, forwarded, hops);
              forall other :: other != (if found == "" then "unknown" else found) ==>
                History(IpKey(other)) == old(History(IpKey(other)))
    {
      var ip := OrUnknown(ResolveClientIp(peer, forwarded, hops));
      KeyKinds(ip, identifier);
      forall other
        ensures IpKey(ip) != IdKey(other) && IpKey(other) != IdKey(identifier)
        ensures IpKey(other) == IpKey(ip) ==> other == ip
        ensures IdKey(other) == IdKey(identifier) ==> other == identifier
      {
        KeyKinds(ip, other);
        KeyKinds(other, identifier);
        OneKeyEach(ip, other);
        OneKeyEach(identifier, other);
      }
      var first := Enforce(IpKey(ip), ipLimit, ipWindow, now, ipMember, ipFailure);
      if !first {
        return false;
      }
      if identifier != "" {
        pass := Enforce(IdKey(identifier), idLimit, idWindow, now, idMember, idFailure);
      } else {
        pass := true;
      }
    }

    ghost predicate EndsWith(h: seq<Hit>, x: Hit) { h != [] && h[|h| - 1] == x }

    /** The key's history has one more check, at this time. */
    ghost predicate CheckedOnce(key: string, before: seq<Hit>, member: string, now: Time)
      reads this
    {
      exists outcome :: History(key) == before + [Hit(member, now, outcome)]
    }

    function OrUnknown(ip: string): string { if ip != "" then ip else "unknown" }

    /** Two addresses have two keys, and so have two accounts. */
    lemma OneKeyEach(a: string, b: string)
      ensures IpKey(a) == IpKey(b) <==> a == b
      ensures IdKey(a) == IdKey(b) <==> a == b
    {
      var n := |IpKey("")|;
      assert IpKey(a)[n..] == a && IpKey(b)[n..] == b;
      assert IdKey(a)[n..] == a && IdKey(b)[n..] == b;
    }

    /** Address keys and account keys never meet. */
    lemma KeyKinds(ip: string, identifier: string)
      ensures IsIpKey(IpKey(ip)) && !IsIpKey(IdKey(identifier)) && IpKey(ip) != IdKey(identifier)
    {
      var n := |"rl:" + scope| + 2;
      assert IpKey("") == "rl:" + scope + ":ip:";
      assert IpKey(ip)[n] == 'p' && IdKey(identifier)[n] == 'd' && IpKey("")[n] == 'p';
      assert IpKey(ip)[..|IpKey("")|] == IpKey("");
    }

    /** Behind trusted proxies the key an address is counted under depends on nothing but what
        the outermost of them saw: whatever headers two clients send, through whatever chains
        of the trusted length, they share a key exactly when they share that address. */
    lemma KeyOfOutermost(header: Option<string>, peers: seq<string>, socket: string,
                         header': Option<string>, peers': seq<string>, socket': string)
      requires peers != [] && |peers'| == |peers| && forall p :: p in peers + peers' ==> IsAddress(p)
      ensures var ip := OrUnknown(ResolveClientIp(socket, Through(header, peers), |peers|));
              var ip' := OrUnknown(ResolveClientIp(socket', Through(header', peers'), |peers|));
              && IpKey(ip) == IpKey(peers[0])
              && (IpKey(ip) == IpKey(ip') <==> peers[0] == peers'[0])
    {
      hide ResolveClientIp, Through;
      assert forall p :: p in peers ==> p in peers + peers';
      assert forall p :: p in peers' ==> p in peers + peers';
      ProxyRecovery(header, peers, socket);
      ProxyRecovery(header', peers', socket');
      assert peers[0] in peers && peers'[0] in peers';
      var n := |IpKey("")|;
      assert IpKey(peers[0])[n..] == peers[0] && IpKey(peers'[0])[n..] == peers'[0];
    }

    /** In every window of every run: at most `ipLimit` admitted checks for each address, and
        at most `idLimit` for each account. */
    lemma BoundedPerAddressAndAccount(ip: string, identifier: string, end: int)
      requires Valid()
      ensures AdmittedIn(History(IpKey(ip)), end - ipWindow, end) <= ipLimit
      ensures AdmittedIn(History(IdKey(identifier)), end - idWindow, end) <= idLimit
    {
      KeyKinds(ip, identifier);
      assert KeyOk(IpKey(ip)) && KeyOk(IdKey(identifier));
      WindowBound(History(IpKey(ip)), ipLimit, ipWindow, end);
      WindowBound(History(IdKey(identifier)), idLimit, idWindow, end);
    }
  }
}
