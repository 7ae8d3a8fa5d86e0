/**
 The integrity token protocol: asynchronous callers share one cached token, one request in flight
 and one refresh timer. Every stretch of code between two awaits is one atomic step; which caller
 goes on next, how requests end and what the clock says is up to the environment.
 */
module Integrity {
  import opened Prelude

  /** A promise for a request: still open, or settled with a value or an error. */
  datatype Promise = Pending | Fulfilled(value: string) | Rejected

  /** An integrity request: for whom it was made and when (the `now` its expiration is checked against). */
  datatype Request = Request(authorization: string, startedAt: real, promise: Promise)

  datatype Kind = Execute | Refresh

  /** Where a caller stands. `retry` is the argument of `execute`, `force` that of `acquireIntegrity`. */
  datatype Phase =
    | Versioning(retry: bool)
    | AwaitVersion(version: nat, owner: bool, retry: bool)
    | Acquiring(force: bool, retry: bool)
    | AwaitOther(request: nat, force: bool, retry: bool)
    | AwaitOwn(request: nat, force: bool, retry: bool)
    | Fetching(token: string, retry: bool)
    | Finished

  datatype Caller = Caller(authorization: string, kind: Kind, phase: Phase)

  /** `acquireIntegrity` resolved: for which caller, to what, and whether from the cache at what time. */
  datatype Resolution = Resolution(caller: nat, token: string, cached: bool, at: real, expiration: real)

  datatype State = State(
    token: string, authorization: string, refreshAt: real, expiration: real,
    request: Option<nat>, requests: seq<Request>,
    version: string, versionExpiresAt: real,
    versionRequest: Option<nat>, versions: seq<Promise>,
    timer: Option<string>,
    callers: seq<Caller>,
    issued: set<(string, string)>,
    resolutions: seq<Resolution>,
    sent: multiset<nat>)

  const INITIAL_STATE := State("", "", 0.0, 0.0, None, [], "", 0.0, None, [], None, [], {}, [], multiset{})

  const VERSION_LIFETIME := 900_000.0

  datatype Event =
    | Call(authorization: string)                                  // the page is asked to execute something
    | Continue(caller: nat, now: real)                             // a caller runs to its next await
    | VersionReply(version: nat, found: Option<string>, now: real)
    | IntegrityReply(request: nat, reply: Option<(string, real)>)  // token and expiration, or any failure
    | GqlReply(caller: nat, failed: bool, integrityRefused: bool)
    | TimerFires

  // ---------------------------------------------------------------------------------------------
  // The steps
  // ---------------------------------------------------------------------------------------------

  function Move(s: State, c: nat, phase: Phase): State
    requires c < |s.callers|
  {
    s.(callers := s.callers[c := s.callers[c].(phase := phase)])
  }

  /** `execute` sends its one result and is done. */
  function SendResult(s: State, c: nat): State
    requires c < |s.callers|
  {
    Move(s, c, Finished).(sent := s.sent + multiset{c})
  }

  /** An error: `execute` reports it, a timer's refresh swallows it. */
  function Fail(s: State, c: nat): State
    requires c < |s.callers|
  {
    if s.callers[c].kind == Execute then SendResult(s, c) else Move(s, c, Finished)
  }

  /** `acquireIntegrity` returns a token to its caller. */
  function Resolve(s: State, c: nat, token: string, force: bool, retry: bool, cached: bool, now: real): State
    requires c < |s.callers|
  {
    var logged := s.(resolutions := s.resolutions + [Resolution(c, token, cached, now, s.expiration)]);
    if s.callers[c].kind == Refresh then Move(logged, c, Finished)
    else if force then Move(logged, c, Versioning(false))
    else Move(logged, c, Fetching(token, retry))
  }

  /** A new request, or a new fetch of the version, for a caller that waits for it in `phase`. */
  function Opened(s: State, c: nat, phase: Phase, now: real): State
    requires c < |s.callers|
  {
    var begun := if phase.AwaitOwn?
                 then s.(requests := s.requests + [Request(s.callers[c].authorization, now, Pending)],
                         request := Some(|s.requests|))
                 else s.(versions := s.versions + [Pending], versionRequest := Some(|s.versions|));
    Move(begun, c, phase)
  }

  function GetClientVersion(s: State, c: nat, retry: bool, now: real): State
    requires c < |s.callers|
  {
    if s.version != "" && now < s.versionExpiresAt then Move(s, c, Acquiring(false, retry))
    else if s.versionRequest.Some? then Move(s, c, AwaitVersion(s.versionRequest.value, false, retry))
    else
      Opened(s, c, AwaitVersion(|s.versions|, true, retry), now)
  }

  function AcquireIntegrity(s: State, c: nat, force: bool, retry: bool, now: real): State
    requires c < |s.callers|
  {
    var me := s.callers[c];
    if !force && s.token != "" && s.authorization == me.authorization && now < s.refreshAt then
      Resolve(s, c, s.token, force, retry, true, now)
    else if s.request.Some? then Move(s, c, AwaitOther(s.request.value, force, retry))
    else
      Opened(s, c, AwaitOwn(|s.requests|, force, retry), now)
  }

  /** A caller that awaits a settled promise goes on. */
  function ContinueCaller(s: State, c: nat, now: real): State {
    if c >= |s.callers| then s
    else
      match s.callers[c].phase
      case Versioning(retry) => GetClientVersion(s, c, retry, now)
      case AwaitVersion(v, owner, retry) =>
        if v >= |s.versions| || s.versions[v] == Pending then s
        else
          var s' := if owner && s.versionRequest == Some(v) then s.(versionRequest := None) else s;
          if s.versions[v] == Rejected then Fail(s', c) else Move(s', c, Acquiring(false, retry))
      case Acquiring(force, retry) => AcquireIntegrity(s, c, force, retry, now)
      case AwaitOther(r, force, retry) =>
        if r >= |s.requests| || s.requests[r].promise == Pending then s
        else Move(s, c, Acquiring(force, retry))
      case AwaitOwn(r, force, retry) =>
        if r >= |s.requests| || s.requests[r].promise == Pending then s
        else
          var s' := if s.request == Some(r) then s.(request := None) else s;
          if s.requests[r].promise == Rejected then Fail(s', c)
          else Resolve(s', c, s.requests[r].promise.value, force, retry, false, now)
      case Fetching(_, _) => s
      case Finished => s
  }

  function SettleVersion(s: State, v: nat, found: Option<string>, now: real): State {
    if v >= |s.versions| || s.versions[v] != Pending then s
    else if found.None? || found.value == "" then s.(versions := s.versions[v := Rejected])
    else s.(versions := s.versions[v := Fulfilled(found.value)],
            version := found.value, versionExpiresAt := now + VERSION_LIFETIME)
  }

  /** When to renew: after nine tenths of the token's remaining lifetime. */
  function RefreshTime(now: real, expiration: real): real {
    now + (expiration - now) * 0.9
  }

  /** The reply is cached for the authorization it was requested for, and its renewal is scheduled. */
  function AcceptToken(s: State, r: nat, token: string, expiration: real): State
    requires r < |s.requests|
  {
    var request := s.requests[r];
    s.(requests := s.requests[r := request.(promise := Fulfilled(token))],
       token := token, authorization := request.authorization,
       refreshAt := RefreshTime(request.startedAt, expiration), expiration := expiration,
       timer := Some(request.authorization),
       issued := s.issued + {(token, request.authorization)})
  }

  function SettleIntegrity(s: State, r: nat, reply: Option<(string, real)>): State {
    if r >= |s.requests| || s.requests[r].promise != Pending then s
    else if reply.None? || reply.value.0 == "" || reply.value.1 <= s.requests[r].startedAt then
      s.(requests := s.requests[r := s.requests[r].(promise := Rejected)])
    else AcceptToken(s, r, reply.value.0, reply.value.1)
  }

  function SettleGql(s: State, c: nat, failed: bool, integrityRefused: bool): State {
    if c >= |s.callers| || !s.callers[c].phase.Fetching? then s
    else if failed then Fail(s, c)
    else
      var retry := s.callers[c].phase.retry;
      if retry && integrityRefused then
        Move(s.(version := "", versionExpiresAt := 0.0), c, Acquiring(true, retry))
      else SendResult(s, c)
  }

  function Step(s: State, e: Event): State {
    match e
    case Call(authorization) => s.(callers := s.callers + [Caller(authorization, Execute, Versioning(true))])
    case Continue(c, now) => ContinueCaller(s, c, now)
    case VersionReply(v, found, now) => SettleVersion(s, v, found, now)
    case IntegrityReply(r, reply) => SettleIntegrity(s, r, reply)
    case GqlReply(c, failed, refused) => SettleGql(s, c, failed, refused)
    case TimerFires =>
      if s.timer.None? then s
      else s.(timer := None, callers := s.callers + [Caller(s.timer.value, Refresh, Acquiring(true, false))])
  }

  function Run(s: State, events: seq<Event>): State
    decreases |events|
  {
    if events == [] then s else Run(Step(s, events[0]), events[1..])
  }

  // ---------------------------------------------------------------------------------------------
  // The invariant
  // ---------------------------------------------------------------------------------------------

  /** Only the recorded request can be open, and while one is recorded its owner awaits it. */
  ghost predicate OneRequest(s: State) {
    && (forall r :: 0 <= r < |s.requests| && s.requests[r].promise == Pending ==> s.request == Some(r))
    && (s.request.Some? ==>
          && s.request.value < |s.requests|
          && exists c ::
               0 <= c < |s.callers| && s.callers[c].phase.AwaitOwn? && s.callers[c].phase.request == s.request.value)
  }

  ghost predicate OneVersionRequest(s: State) {
    && (forall r :: 0 <= r < |s.versions| && s.versions[r] == Pending ==> s.versionRequest == Some(r))
    && (s.versionRequest.Some? ==>
          && s.versionRequest.value < |s.versions|
          && exists c ::
               && 0 <= c < |s.callers| && s.callers[c].phase.AwaitVersion? && s.callers[c].phase.owner
               && s.callers[c].phase.version == s.versionRequest.value)
  }

  /** Every token around was issued for the authorization it is kept for, and is renewed before it expires. */
  ghost predicate TokensIssued(s: State) {
    && (s.token != "" ==> (s.token, s.authorization) in s.issued && s.refreshAt < s.expiration)
    && (forall r :: 0 <= r < |s.requests| && s.requests[r].promise.Fulfilled? ==>
          (s.requests[r].promise.value, s.requests[r].authorization) in s.issued)
  }

  ghost predicate CallerOk(s: State, c: nat)
    requires c < |s.callers|
  {
    var me := s.callers[c];
    && (me.kind == Refresh ==> me.phase.Acquiring? || me.phase.AwaitOther? || me.phase.AwaitOwn? || me.phase.Finished?)
    && (me.phase.AwaitVersion? ==> me.phase.version < |s.versions|)
    && (me.phase.AwaitOther? ==> me.phase.request < |s.requests|)
    && (me.phase.AwaitOwn? ==> me.phase.request < |s.requests|
                               && s.requests[me.phase.request].authorization == me.authorization)
    && (me.phase.Fetching? ==> (me.phase.token, me.authorization) in s.issued)
    && s.sent[c] == (if me.kind == Execute && me.phase == Finished then 1 else 0)
  }

  ghost predicate ResolutionOk(s: State, r: Resolution) {
    && r.caller < |s.callers|
    && (r.token, s.callers[r.caller].authorization) in s.issued
    && (r.cached ==> r.at < r.expiration)
  }

  ghost predicate Inv(s: State) {
    && OneRequest(s)
    && OneVersionRequest(s)
    && TokensIssued(s)
    && (forall c :: 0 <= c < |s.callers| ==> CallerOk(s, c))
    && (forall c :: c >= |s.callers| ==> s.sent[c] == 0)
    && (forall k :: 0 <= k < |s.resolutions| ==> ResolutionOk(s, s.resolutions[k]))
  }

  /** The recorded requests keep their owners when a caller moves that owns neither. */
  ghost predicate OwnsRecorded(s: State, c: nat)
    requires c < |s.callers|
  {
    var phase := s.callers[c].phase;
    || (phase.AwaitOwn? && s.request == Some(phase.request))
    || (phase.AwaitVersion? && phase.owner && s.versionRequest == Some(phase.version))
  }

  /** A phase a caller may be moved to, given what is known in `s`. */
  ghost predicate PhaseOk(s: State, me: Caller, phase: Phase) {
    && phase != Finished
    && (me.kind == Refresh ==> phase.Acquiring? || phase.AwaitOther? || phase.AwaitOwn?)
    && (phase.AwaitVersion? ==> phase.version < |s.versions|)
    && (phase.AwaitOther? ==> phase.request < |s.requests|)
    && (phase.AwaitOwn? ==> phase.request < |s.requests| && s.requests[phase.request].authorization == me.authorization)
    && (phase.Fetching? ==> (phase.token, me.authorization) in s.issued)
  }

  lemma MoveKeepsOwners(s: State, c: nat, phase: Phase)
    requires c < |s.callers| && OneRequest(s) && OneVersionRequest(s) && !OwnsRecorded(s, c)
    ensures OneRequest(Move(s, c, phase)) && OneVersionRequest(Move(s, c, phase))
  {
    var s' := Move(s, c, phase);
    if s.request.Some? {
      var o :| 0 <= o < |s.callers| && s.callers[o].phase.AwaitOwn? && s.callers[o].phase.request == s.request.value;
      assert s'.callers[o] == s.callers[o];
    }
    if s.versionRequest.Some? {
      var o :| 0 <= o < |s.callers| && s.callers[o].phase.AwaitVersion? && s.callers[o].phase.owner
               && s.callers[o].phase.version == s.versionRequest.value;
      assert s'.callers[o] == s.callers[o];
    }
  }

  lemma MoveKeepsInv(s: State, c: nat, phase: Phase)
    requires c < |s.callers| && Inv(s) && !OwnsRecorded(s, c) && s.callers[c].phase != Finished
    requires PhaseOk(s, s.callers[c], phase)
    ensures Inv(Move(s, c, phase))
  {
    var s' := Move(s, c, phase);
    MoveKeepsOwners(s, c, phase);
    forall d | 0 <= d < |s'.callers| ensures CallerOk(s', d) {
      assert CallerOk(s, d);
    }
  }

  /** A caller that is done with an error, or that sends its result, leaves everything else in order. */
  lemma FailKeepsInv(s: State, c: nat)
    requires c < |s.callers| && Inv(s) && !OwnsRecorded(s, c) && s.callers[c].phase != Finished
    ensures Inv(Fail(s, c))
  {
    var s' := Fail(s, c);
    MoveKeepsOwners(s, c, Finished);
    forall d | 0 <= d < |s'.callers| ensures CallerOk(s', d) {
      assert CallerOk(s, d);
    }
  }

  lemma ResolveKeepsInv(s: State, c: nat, token: string, force: bool, retry: bool, cached: bool, now: real)
    requires c < |s.callers| && Inv(s) && !OwnsRecorded(s, c) && s.callers[c].phase != Finished
    requires (token, s.callers[c].authorization) in s.issued && (cached ==> now < s.expiration)
    ensures Inv(Resolve(s, c, token, force, retry, cached, now))
  {
    var logged := s.(resolutions := s.resolutions + [Resolution(c, token, cached, now, s.expiration)]);
    assert Inv(logged) by {
      forall d | 0 <= d < |logged.callers| ensures CallerOk(logged, d) {
        assert CallerOk(s, d);
      }
      forall k | 0 <= k < |logged.resolutions| ensures ResolutionOk(logged, logged.resolutions[k]) {
        assert k < |s.resolutions| ==> ResolutionOk(s, s.resolutions[k]);
      }
    }
    if s.callers[c].kind == Refresh {
      FailKeepsInv(logged, c);
    } else if force {
      MoveKeepsInv(logged, c, Versioning(false));
    } else {
      MoveKeepsInv(logged, c, Fetching(token, retry));
    }
  }

  /** Forgetting a recorded request that is settled. */
  lemma ClearKeepsInv(s: State, clearRequest: bool, clearVersion: bool)
    requires Inv(s)
    requires clearRequest && s.request.Some? ==> s.requests[s.request.value].promise != Pending
    requires clearVersion && s.versionRequest.Some? ==> s.versions[s.versionRequest.value] != Pending
    ensures Inv(s.(request := if clearRequest then None else s.request,
                   versionRequest := if clearVersion then None else s.versionRequest))
  {
    var s' := s.(request := if clearRequest then None else s.request,
                 versionRequest := if clearVersion then None else s.versionRequest);
    forall d | 0 <= d < |s'.callers| ensures CallerOk(s', d) {
      assert CallerOk(s, d);
    }
  }

  /** Opening either on behalf of a caller that owns nothing recorded. */
  lemma OpenKeepsInv(s: State, c: nat, phase: Phase, now: real)
    requires c < |s.callers| && Inv(s)
    requires if phase.AwaitOwn? then s.callers[c].phase.Acquiring? && s.request.None? && phase.request == |s.requests|
             else s.callers[c].phase.Versioning? && s.versionRequest.None?
                  && phase.AwaitVersion? && phase.owner && phase.version == |s.versions|
    ensures Inv(Opened(s, c, phase, now))
  {
    var s' := Opened(s, c, phase, now);
    MoveKeepsOwners(s, c, phase);
    assert s'.callers[c].phase == phase;
    forall d | 0 <= d < |s'.callers| ensures CallerOk(s', d) {
      assert CallerOk(s, d) && CallerOk(s, c);
    }
  }

  lemma ContinueKeepsInv(s: State, c: nat, now: real)
    requires Inv(s)
    ensures Inv(ContinueCaller(s, c, now))
  {
    if c < |s.callers| {
      assert CallerOk(s, c);
      match s.callers[c].phase {
        case Versioning(retry) =>
          if s.version != "" && now < s.versionExpiresAt {
            MoveKeepsInv(s, c, Acquiring(false, retry));
          } else if s.versionRequest.Some? {
            MoveKeepsInv(s, c, AwaitVersion(s.versionRequest.value, false, retry));
          } else {
            OpenKeepsInv(s, c, AwaitVersion(|s.versions|, true, retry), now);
          }
        case AwaitVersion(v, owner, retry) =>
          if s.versions[v] != Pending {
            var clear := owner && s.versionRequest == Some(v);
            ClearKeepsInv(s, false, clear);
            var s' := if clear then s.(versionRequest := None) else s;
            if s.versions[v] == Rejected {
              FailKeepsInv(s', c);
            } else {
              MoveKeepsInv(s', c, Acquiring(false, retry));
            }
          }
        case Acquiring(force, retry) =>
          if !force && s.token != "" && s.authorization == s.callers[c].authorization && now < s.refreshAt {
            ResolveKeepsInv(s, c, s.token, force, retry, true, now);
          } else if s.request.Some? {
            MoveKeepsInv(s, c, AwaitOther(s.request.value, force, retry));
          } else {
            OpenKeepsInv(s, c, AwaitOwn(|s.requests|, force, retry), now);
          }
        case AwaitOther(r, force, retry) =>
          if s.requests[r].promise != Pending {
            MoveKeepsInv(s, c, Acquiring(force, retry));
          }
        case AwaitOwn(r, force, retry) =>
          if s.requests[r].promise != Pending {
            var clear := s.request == Some(r);
            ClearKeepsInv(s, clear, false);
            var s' := if clear then s.(request := None) else s;
            if s.requests[r].promise == Rejected {
              FailKeepsInv(s', c);
            } else {
              ResolveKeepsInv(s', c, s.requests[r].promise.value, force, retry, false, now);
            }
          }
        case _ =>
      }
    }
  }

  lemma SettleVersionKeepsInv(s: State, v: nat, found: Option<string>, now: real)
    requires Inv(s)
    ensures Inv(SettleVersion(s, v, found, now))
  {
    var s' := SettleVersion(s, v, found, now);
    assert s' == s.(version := s'.version, versionExpiresAt := s'.versionExpiresAt, versions := s'.versions);
    assert OneVersionRequest(s');
    hide SettleVersion, OneVersionRequest;
    forall d | 0 <= d < |s'.callers| ensures CallerOk(s', d) {
      assert CallerOk(s, d);
    }
  }

  lemma SettleIntegrityKeepsInv(s: State, r: nat, reply: Option<(string, real)>)
    requires Inv(s)
    ensures Inv(SettleIntegrity(s, r, reply))
  {
    var s' := SettleIntegrity(s, r, reply);
    forall d | 0 <= d < |s'.callers| ensures CallerOk(s', d) {
      assert CallerOk(s, d);
    }
  }

  lemma GqlKeepsInv(s: State, c: nat, failed: bool, integrityRefused: bool)
    requires Inv(s)
    ensures Inv(SettleGql(s, c, failed, integrityRefused))
  {
    if c < |s.callers| && s.callers[c].phase.Fetching? {
      assert CallerOk(s, c);
      if failed {
        FailKeepsInv(s, c);
      } else if s.callers[c].phase.retry && integrityRefused {
        var reset := s.(version := "", versionExpiresAt := 0.0);
        assert Inv(reset) by {
          forall d | 0 <= d < |reset.callers| ensures CallerOk(reset, d) {
            assert CallerOk(s, d);
          }
          forall k | 0 <= k < |reset.resolutions| ensures ResolutionOk(reset, reset.resolutions[k]) {
            assert ResolutionOk(s, s.resolutions[k]);
          }
        }
        MoveKeepsInv(reset, c, Acquiring(true, s.callers[c].phase.retry));
      } else {
        FailKeepsInv(s, c);
      }
    }
  }

  lemma NewCallerKeepsInv(s: State, caller: Caller, timer: Option<string>)
    requires Inv(s)
    requires (caller.phase.Versioning? && caller.kind == Execute) || caller.phase.Acquiring?
    ensures Inv(s.(timer := timer, callers := s.callers + [caller]))
  {
    var s' := s.(timer := timer, callers := s.callers + [caller]);
    assert forall d :: 0 <= d < |s.callers| ==> s'.callers[d] == s.callers[d];
    forall d | 0 <= d < |s'.callers| ensures CallerOk(s', d) {
      assert d < |s.callers| ==> CallerOk(s, d);
    }
  }

  lemma StepKeepsInv(s: State, e: Event)
    requires Inv(s)
    ensures Inv(Step(s, e))
  {
    match e {
      case Call(authorization) => NewCallerKeepsInv(s, Caller(authorization, Execute, Versioning(true)), s.timer);
      case Continue(c, now) => ContinueKeepsInv(s, c, now);
      case VersionReply(v, found, now) => SettleVersionKeepsInv(s, v, found, now);
      case IntegrityReply(r, reply) => SettleIntegrityKeepsInv(s, r, reply);
      case GqlReply(c, failed, refused) => GqlKeepsInv(s, c, failed, refused);
      case TimerFires =>
        if s.timer.Some? {
          NewCallerKeepsInv(s, Caller(s.timer.value, Refresh, Acquiring(true, false)), None);
        }
    }
  }

  lemma {:induction false} RunKeepsInv(s: State, events: seq<Event>)
    requires Inv(s)
    ensures Inv(Run(s, events))
    decreases |events|
  {
    if events != [] {
      StepKeepsInv(s, events[0]);
      RunKeepsInv(Step(s, events[0]), events[1..]);
    }
  }

  // ---------------------------------------------------------------------------------------------
  // What every interleaving guarantees
  // ---------------------------------------------------------------------------------------------

  /** What a page must never violate. */
  ghost predicate Safe(s: State) {
    // at most one integrity request (and one version request) is in flight
    && (forall q, r | 0 <= q < r < |s.requests| ::
          s.requests[q].promise != Pending || s.requests[r].promise != Pending)
    && (forall q, r | 0 <= q < r < |s.versions| ::
          s.versions[q] != Pending || s.versions[r] != Pending)
    // a caller only ever gets a token issued for its own authorization,
    // and a cached one only strictly before it expires
    && (forall k :: 0 <= k < |s.resolutions| ==>
          && s.resolutions[k].caller < |s.callers|
          && (s.resolutions[k].token, s.callers[s.resolutions[k].caller].authorization) in s.issued
          && (s.resolutions[k].cached ==> s.resolutions[k].at < s.resolutions[k].expiration))
    // no call sends two results
    && (forall c :: s.sent[c] <= 1)
  }

  /** For every interleaving of callers, replies, failures and clock readings. */
  lemma ProtocolSafety(events: seq<Event>)
    ensures Safe(Run(INITIAL_STATE, events))
  {
    assert Inv(INITIAL_STATE);
    RunKeepsInv(INITIAL_STATE, events);
    var s := Run(INITIAL_STATE, events);
    forall c ensures s.sent[c] <= 1 {
      if 0 <= c < |s.callers| {
        assert CallerOk(s, c);
      }
    }
    forall k | 0 <= k < |s.resolutions| ensures ResolutionOk(s, s.resolutions[k]) {}
  }

  // ---------------------------------------------------------------------------------------------
  // What single steps guarantee
  // ---------------------------------------------------------------------------------------------

  /** A version is used while it is unexpired; otherwise the one recorded fetch is awaited, or begun if there is none. */
  ghost predicate VersionIsShared(s: State, s': State, c: nat, retry: bool, now: real)
    requires c < |s.callers| == |s'.callers|
  {
    var phase := s'.callers[c].phase;
    && (phase.Acquiring? || phase.AwaitVersion?) && phase.retry == retry
    && (phase.Acquiring? <==> s.version != "" && now < s.versionExpiresAt)
    && (phase.Acquiring? ==> !phase.force && s'.versions == s.versions && s'.versionRequest == s.versionRequest)
    && (phase.AwaitVersion? ==>
          && s'.versionRequest == Some(phase.version)
          && (phase.owner <==> s.versionRequest.None?)
          && s'.versions == if phase.owner then s.versions + [Pending] else s.versions)
  }

  lemma GetClientVersionShares(s: State, c: nat, retry: bool, now: real)
    requires c < |s.callers|
    ensures var s' := GetClientVersion(s, c, retry, now);
            |s'.callers| == |s.callers| && VersionIsShared(s, s', c, retry, now)
    ensures Inv(s) && s.callers[c].phase == Versioning(retry) ==>
              Inv(GetClientVersion(s, c, retry, now))
  {
    if Inv(s) && s.callers[c].phase == Versioning(retry) {
      ContinueKeepsInv(s, c, now);
    }
  }

  /**
   A caller gets the cached token exactly if it does not force a new one and that token was issued for
   its authorization and is not due for renewal; then it has not expired either. Otherwise the one
   recorded request is awaited, or begun if there is none.
   */
  ghost predicate TokenIsShared(s: State, s': State, c: nat, force: bool, retry: bool, now: real)
    requires c < |s.callers| == |s'.callers|
  {
    var phase := s'.callers[c].phase;
    if force || s.token == "" || s.authorization != s.callers[c].authorization || s.refreshAt <= now then
      && s'.resolutions == s.resolutions
      && (phase.AwaitOwn? || phase.AwaitOther?) && s'.request == Some(phase.request)
      && phase.force == force && phase.retry == retry
      && (phase.AwaitOwn? <==> s.request.None?)
      && s'.requests == if phase.AwaitOwn? then s.requests + [Request(s.callers[c].authorization, now, Pending)]
                        else s.requests
    else
      && s'.request == s.request && s'.requests == s.requests
      && s'.resolutions == s.resolutions + [Resolution(c, s.token, true, now, s.expiration)]
      && (s.token, s.callers[c].authorization) in s.issued && now < s.expiration
      && phase == if s.callers[c].kind == Execute then Fetching(s.token, retry) else Finished
  }

  lemma AcquireIntegrityShares(s: State, c: nat, force: bool, retry: bool, now: real)
    requires c < |s.callers| && TokensIssued(s)
    ensures var s' := AcquireIntegrity(s, c, force, retry, now);
            |s'.callers| == |s.callers| && TokenIsShared(s, s', c, force, retry, now)
    ensures Inv(s) && s.callers[c].phase == Acquiring(force, retry) ==>
              Inv(AcquireIntegrity(s, c, force, retry, now))
  {
    if Inv(s) && s.callers[c].phase == Acquiring(force, retry) {
      ContinueKeepsInv(s, c, now);
      assert ContinueCaller(s, c, now) == AcquireIntegrity(s, c, force, retry, now);
    }
    hide Inv, ContinueCaller;
  }

  /** A recorded request is only forgotten by the caller that made it, and only once it has settled. */
  ghost predicate ClearedByOwner(s: State, s': State, c: nat) {
    && (s.request.Some? && s'.request != s.request ==>
          && s'.request.None? && c < |s.callers| && s.callers[c].phase.AwaitOwn?
          && s.callers[c].phase.request == s.request.value < |s.requests|
          && s.requests[s.request.value].promise != Pending)
    && (s.versionRequest.Some? && s'.versionRequest != s.versionRequest ==>
          && s'.versionRequest.None? && c < |s.callers| && s.callers[c].phase.AwaitVersion?
          && s.callers[c].phase.owner && s.callers[c].phase.version == s.versionRequest.value < |s.versions|
          && s.versions[s.versionRequest.value] != Pending)
  }

  /** At most one request is begun, and only when none is recorded. */
  ghost predicate BegunIfNone(s: State, s': State) {
    && (s'.requests == s.requests || (s.request.None? && |s'.requests| == |s.requests| + 1 && s.requests <= s'.requests))
    && (s'.versions == s.versions
        || (s.versionRequest.None? && |s'.versions| == |s.versions| + 1 && s.versions <= s'.versions))
  }

  /** Only caller `c` moves, or sends anything. */
  ghost predicate OthersStay(s: State, s': State, c: nat) {
    && |s'.callers| == |s.callers|
    && (forall d :: 0 <= d < |s.callers| && d != c ==> s'.callers[d] == s.callers[d] && s'.sent[d] == s.sent[d])
  }

  lemma ResolveIs(s: State, c: nat, token: string, force: bool, retry: bool, cached: bool, now: real)
    requires c < |s.callers|
    ensures var s' := Resolve(s, c, token, force, retry, cached, now);
            && OthersStay(s, s', c) && s'.sent == s.sent
            && s'.callers[c].phase == if s.callers[c].kind == Refresh then Finished
                                      else if force then Versioning(false) else Fetching(token, retry)
  {
  }

  lemma FailIs(s: State, c: nat)
    requires c < |s.callers|
    ensures var s' := Fail(s, c);
            && OthersStay(s, s', c) && s'.callers[c].phase == Finished
            && s'.sent[c] == s.sent[c] + if s.callers[c].kind == Execute then 1 else 0
  {
  }

  lemma MoveIs(s: State, c: nat, phase: Phase)
    requires c < |s.callers|
    ensures var s' := Move(s, c, phase); OthersStay(s, s', c) && s'.sent == s.sent && s'.callers[c].phase == phase
  {
  }

  /**
   A caller waits until its promise has settled. A version is taken on to acquiring a token, unforced;
   the end of a request made by another caller, whatever it is, makes the caller look again for itself;
   a failure of its own wait is reported, once, by a call and swallowed by a refresh. A token of its own
   is used, or, if it was forced, the call starts over and does not repeat again. No other caller moves.
   */
  ghost predicate WaitEnds(s: State, s': State, c: nat)
    requires c < |s.callers|
  {
    var me := s.callers[c];
    && OthersStay(s, s', c)
    && var phase := s'.callers[c].phase;
       var reports := if me.kind == Execute then 1 else 0;
       match me.phase
       case AwaitVersion(v, _, retry) =>
         v < |s.versions| ==>
           && (s.versions[v] == Pending <==> s' == s)
           && (s.versions[v].Fulfilled? ==> phase == Acquiring(false, retry) && s'.sent[c] == s.sent[c])
           && (s.versions[v].Rejected? ==> phase == Finished && s'.sent[c] == s.sent[c] + reports)
       case AwaitOther(r, force, retry) =>
         r < |s.requests| ==>
           && (s.requests[r].promise == Pending <==> s' == s)
           && (s.requests[r].promise != Pending ==> phase == Acquiring(force, retry) && s'.sent[c] == s.sent[c])
       case AwaitOwn(r, force, retry) =>
         r < |s.requests| ==>
           && (s.requests[r].promise == Pending <==> s' == s)
           && (s.requests[r].promise.Rejected? ==> phase == Finished && s'.sent[c] == s.sent[c] + reports)
           && (s.requests[r].promise.Fulfilled? ==>
                 && s'.sent[c] == s.sent[c]
                 && (me.kind == Refresh ==> phase == Finished)
                 && (me.kind == Execute && force ==> phase == Versioning(false))
                 && (me.kind == Execute && !force ==> phase == Fetching(s.requests[r].promise.value, retry)))
       case _ => s'.sent == s.sent
  }

  lemma OpenedIs(s: State, c: nat, phase: Phase, now: real)
    requires c < |s.callers|
    ensures var s' := Opened(s, c, phase, now);
            if phase.AwaitOwn?
            then s'.requests == s.requests + [Request(s.callers[c].authorization, now, Pending)]
                 && s'.request == Some(|s.requests|) && s'.versions == s.versions && s'.versionRequest == s.versionRequest
            else s'.versions == s.versions + [Pending] && s'.versionRequest == Some(|s.versions|)
                 && s'.requests == s.requests && s'.request == s.request
  {
  }

  lemma ClearedStay(s: State, cleared: State, s': State, c: nat)
    requires s.callers == cleared.callers && s.sent == cleared.sent && OthersStay(cleared, s', c)
    ensures OthersStay(s, s', c)
  {
  }

  lemma TurnAsks(s: State, c: nat, now: real)
    requires c < |s.callers| && (s.callers[c].phase.Versioning? || s.callers[c].phase.Acquiring?)
    ensures OthersStay(s, ContinueCaller(s, c, now), c) && ContinueCaller(s, c, now).sent == s.sent
  {
  }

  lemma VersionWaitEnds(s: State, c: nat, now: real)
    requires c < |s.callers| && s.callers[c].phase.AwaitVersion?
    ensures WaitEnds(s, ContinueCaller(s, c, now), c)
  {
    assert OthersStay(s, s, c);
    var phase := s.callers[c].phase;
    var cleared := if phase.owner && s.versionRequest == Some(phase.version) then s.(versionRequest := None) else s;
    FailIs(cleared, c);
    MoveIs(cleared, c, Acquiring(false, phase.retry));
    hide Fail, Move, OthersStay;
    var s' := ContinueCaller(s, c, now);
    if s' != s {
      ClearedStay(s, cleared, s', c);
    }
  }

  lemma OwnWaitEnds(s: State, c: nat, now: real)
    requires c < |s.callers| && s.callers[c].phase.AwaitOwn?
    ensures WaitEnds(s, ContinueCaller(s, c, now), c)
  {
    assert OthersStay(s, s, c);
    var phase := s.callers[c].phase;
    var cleared := if s.request == Some(phase.request) then s.(request := None) else s;
    FailIs(cleared, c);
    if phase.request < |s.requests| && s.requests[phase.request].promise.Fulfilled? {
      ResolveIs(cleared, c, s.requests[phase.request].promise.value, phase.force, phase.retry, false, now);
    }
    hide Fail, Resolve, OthersStay;
    var s' := ContinueCaller(s, c, now);
    if s' != s {
      ClearedStay(s, cleared, s', c);
    }
  }

  lemma OtherWaitEnds(s: State, c: nat, now: real)
    requires c < |s.callers| && s.callers[c].phase.AwaitOther?
    ensures WaitEnds(s, ContinueCaller(s, c, now), c)
  {
    assert OthersStay(s, s, c);
    MoveIs(s, c, Acquiring(s.callers[c].phase.force, s.callers[c].phase.retry));
    hide Move, OthersStay;
  }

  lemma TurnEndsWait(s: State, c: nat, now: real)
    ensures if c < |s.callers| then WaitEnds(s, ContinueCaller(s, c, now), c) else ContinueCaller(s, c, now) == s
  {
    if c < |s.callers| {
      var phase := s.callers[c].phase;
      if phase.Versioning? || phase.Acquiring? {
        TurnAsks(s, c, now);
        hide ContinueCaller, OthersStay;
      } else if phase.AwaitVersion? {
        VersionWaitEnds(s, c, now);
      } else if phase.AwaitOther? {
        OtherWaitEnds(s, c, now);
      } else if phase.AwaitOwn? {
        OwnWaitEnds(s, c, now);
      }
    }
  }

  lemma WaitIsOrderly(s: State, c: nat, now: real)
    requires c < |s.callers| && !s.callers[c].phase.Versioning? && !s.callers[c].phase.Acquiring?
    ensures ClearedByOwner(s, ContinueCaller(s, c, now), c) && BegunIfNone(s, ContinueCaller(s, c, now))
  {
  }

  lemma TurnIsOrderly(s: State, c: nat, now: real)
    ensures ClearedByOwner(s, ContinueCaller(s, c, now), c) && BegunIfNone(s, ContinueCaller(s, c, now))
  {
    hide Opened;
    if c < |s.callers| && !s.callers[c].phase.Versioning? && !s.callers[c].phase.Acquiring? {
      WaitIsOrderly(s, c, now);
      hide *;
    } else if c < |s.callers| {
      match s.callers[c].phase {
        case Versioning(retry) => OpenedIs(s, c, AwaitVersion(|s.versions|, true, retry), now);
        case Acquiring(force, retry) => OpenedIs(s, c, AwaitOwn(|s.requests|, force, retry), now);
        case _ =>
      }
    }
  }

  /**
   The first reply to a request settles it. A token that was still valid when the request was made is
   cached for the authorization the request was made for, to be renewed after nine tenths of its
   lifetime; any other reply leaves the cache and the timer alone.
   */
  ghost predicate CachedForRequest(s: State, s': State, r: nat, reply: Option<(string, real)>) {
    && s'.request == s.request && |s'.requests| == |s.requests|
    && (forall q :: 0 <= q < |s.requests| && q != r ==> s'.requests[q] == s.requests[q])
    && (r < |s.requests| && s.requests[r].promise != Pending ==> s' == s)
    && if r < |s.requests| && s.requests[r].promise == Pending
          && reply.Some? && reply.value.0 != "" && s.requests[r].startedAt < reply.value.1
       then
         && s'.token == reply.value.0 && s'.expiration == reply.value.1
         && s'.authorization == s.requests[r].authorization && s'.timer == Some(s.requests[r].authorization)
         && s.requests[r].startedAt < s'.refreshAt < reply.value.1
         && 10.0 * (s'.refreshAt - s.requests[r].startedAt) == 9.0 * (reply.value.1 - s.requests[r].startedAt)
         && s'.requests[r].promise == Fulfilled(s'.token)
       else
         && (s'.token, s'.authorization, s'.refreshAt, s'.timer) == (s.token, s.authorization, s.refreshAt, s.timer)
         && (r < |s.requests| && s.requests[r].promise == Pending ==> s'.requests[r].promise == Rejected)
  }

  lemma ReplyIsCached(s: State, r: nat, reply: Option<(string, real)>)
    ensures CachedForRequest(s, SettleIntegrity(s, r, reply), r, reply)
  {
  }

  /**
   The call starts over, with a forced token and no version, exactly if the answer refuses the token and
   the call has not been repeated before; otherwise, error or not, its one result is sent.
   */
  ghost predicate SentOrRepeated(s: State, s': State, c: nat, failed: bool, integrityRefused: bool) {
    if c < |s.callers| && s.callers[c].phase.Fetching? then
      && |s'.callers| == |s.callers|
      && var phase := s'.callers[c].phase;
         && (phase == Acquiring(true, true) <==> !failed && s.callers[c].phase.retry && integrityRefused)
         && (phase == Acquiring(true, true) ==> s'.sent == s.sent && s'.version == "")
         && (phase != Acquiring(true, true) ==>
               phase == Finished && s'.sent == s.sent + multiset{c}
               && s'.version == s.version && s'.versionExpiresAt == s.versionExpiresAt)
    else s' == s
  }

  lemma GqlSentOrRepeated(s: State, c: nat, failed: bool, integrityRefused: bool)
    requires Inv(s)
    ensures SentOrRepeated(s, SettleGql(s, c, failed, integrityRefused), c, failed, integrityRefused)
  {
    if c < |s.callers| {
      assert CallerOk(s, c);
    }
  }

  /** A caller that would do something if it were its turn. */
  ghost predicate CanContinue(s: State, c: nat)
    requires c < |s.callers|
  {
    match s.callers[c].phase
    case Versioning(_) => true
    case AwaitVersion(v, _, _) => v < |s.versions| && s.versions[v] != Pending
    case Acquiring(_, _) => true
    case AwaitOther(r, _, _) => r < |s.requests| && s.requests[r].promise != Pending
    case AwaitOwn(r, _, _) => r < |s.requests| && s.requests[r].promise != Pending
    case Fetching(_, _) => false
    case Finished => false
  }

  /** All fetches have settled and every caller has run as far as it can. */
  ghost predicate Quiet(s: State) {
    && (forall r :: 0 <= r < |s.requests| ==> s.requests[r].promise != Pending)
    && (forall v :: 0 <= v < |s.versions| ==> s.versions[v] != Pending)
    && (forall c :: 0 <= c < |s.callers| ==> !s.callers[c].phase.Fetching? && !CanContinue(s, c))
  }

  /** Nobody is left waiting: once everything has settled, each call has sent exactly one result. */
  lemma QuietMeansAnswered(s: State)
    requires Inv(s) && Quiet(s)
    ensures s.request.None? && s.versionRequest.None?
    ensures forall c :: 0 <= c < |s.callers| ==>
              s.callers[c].phase == Finished && (s.callers[c].kind == Execute ==> s.sent[c] == 1)
  {
    forall c | 0 <= c < |s.callers|
      ensures s.callers[c].phase == Finished && (s.callers[c].kind == Execute ==> s.sent[c] == 1)
    {
      assert CallerOk(s, c) && !CanContinue(s, c);
    }
  }

  // ---------------------------------------------------------------------------------------------
  // Every run gets there
  // ---------------------------------------------------------------------------------------------

  /** An event other than a new call or a timer: a caller's turn or the end of a fetch. */
  predicate Settling(e: Event) {
    !e.Call? && !e.TimerFires?
  }

  /**
   The owner of a request registered for it first, so its turn comes before that of the callers that
   wait for the same request.
   */
  predicate OwnerFirst(s: State, e: Event) {
    e.Continue? && e.caller < |s.callers| && s.callers[e.caller].phase.AwaitOther? ==>
      s.request != Some(s.callers[e.caller].phase.request)
  }

  /** Stages still in front of a caller; going back from a shared request to acquiring is no new stage. */
  function Life(phase: Phase): (n: nat)
    ensures n <= 12
  {
    match phase
    case Versioning(retry) => if retry then 12 else 5
    case AwaitVersion(_, _, retry) => if retry then 11 else 4
    case Acquiring(force, retry) => if force then 7 else if retry then 10 else 3
    case AwaitOther(_, force, retry) => if force then 7 else if retry then 10 else 3
    case AwaitOwn(_, force, retry) => if force then 6 else if retry then 9 else 2
    case Fetching(_, retry) => if retry then 8 else 1
    case Finished => 0
  }

  /** Turns a caller can take without reaching a new stage, while `request` is the recorded one. */
  function Turns(request: Option<nat>, phase: Phase): (n: nat)
    ensures n <= 2
  {
    match phase
    case Acquiring(_, _) => 1
    case AwaitOther(r, _, _) => if request == Some(r) then 0 else 2
    case _ => 0
  }

  function Lives(callers: seq<Caller>): (n: nat)
    ensures n <= 12 * |callers|
  {
    if callers == [] then 0 else Life(callers[0].phase) + Lives(callers[1..])
  }

  function AllTurns(request: Option<nat>, callers: seq<Caller>): (n: nat)
    ensures n <= 2 * |callers|
  {
    if callers == [] then 0 else Turns(request, callers[0].phase) + AllTurns(request, callers[1..])
  }

  /** How many of the two recorded requests are open. */
  function Open(s: State): (n: nat)
    ensures n <= 2
  {
    (if s.request.Some? && s.request.value < |s.requests| && s.requests[s.request.value].promise == Pending then 1 else 0)
    + (if s.versionRequest.Some? && s.versionRequest.value < |s.versions| && s.versions[s.versionRequest.value] == Pending
       then 1 else 0)
  }

  function Distance(s: State): nat {
    Lives(s.callers) * (2 * |s.callers| + 3) + AllTurns(s.request, s.callers) + Open(s)
  }

  lemma {:induction false} LivesAfterMove(callers: seq<Caller>, c: nat, me: Caller)
    requires c < |callers|
    ensures Lives(callers[c := me]) == Lives(callers) - Life(callers[c].phase) + Life(me.phase)
    ensures forall q :: AllTurns(q, callers[c := me])
                        == AllTurns(q, callers) - Turns(q, callers[c].phase) + Turns(q, me.phase)
  {
    var moved := callers[c := me];
    if c == 0 {
      assert moved[1..] == callers[1..];
    } else {
      assert moved[1..] == callers[1..][c - 1 := me];
      LivesAfterMove(callers[1..], c - 1, me);
    }
  }

  lemma Outweighs(l': nat, x': nat, l: nat, x: nat, width: nat)
    requires l' < l && x' < width
    ensures l' * width + x' < l * width + x
  {
    TimesMonotone(width, l' + 1, l);
  }

  /** Reaching a new stage outweighs everything else. */
  lemma NewStage(s: State, s': State, c: nat, phase: Phase)
    requires c < |s.callers| && s'.callers == s.callers[c := s.callers[c].(phase := phase)]
    requires Life(phase) < Life(s.callers[c].phase)
    ensures Distance(s') < Distance(s)
  {
    LivesAfterMove(s.callers, c, s.callers[c].(phase := phase));
    hide Lives, AllTurns, Open, Life;
    Outweighs(Lives(s'.callers), AllTurns(s'.request, s'.callers) + Open(s'),
              Lives(s.callers), AllTurns(s.request, s.callers) + Open(s), 2 * |s.callers| + 3);
  }

  /** A turn that only goes to or comes back from a shared request. */
  lemma OneTurnLess(s: State, c: nat, phase: Phase)
    requires c < |s.callers| && Life(phase) == Life(s.callers[c].phase)
    requires Turns(s.request, phase) < Turns(s.request, s.callers[c].phase)
    ensures Distance(Move(s, c, phase)) < Distance(s)
  {
    LivesAfterMove(s.callers, c, s.callers[c].(phase := phase));
  }

  /** One caller, and only that one, has come to a later stage. */
  ghost predicate Advanced(callers: seq<Caller>, callers': seq<Caller>, c: nat) {
    && c < |callers| == |callers'|
    && callers' == callers[c := callers[c].(phase := callers'[c].phase)]
    && Life(callers'[c].phase) < Life(callers[c].phase)
  }

  lemma MoveAdvances(s: State, c: nat, phase: Phase)
    requires c < |s.callers| && Life(phase) < Life(s.callers[c].phase)
    ensures Advanced(s.callers, Move(s, c, phase).callers, c)
  {
  }

  lemma FailAdvances(s: State, c: nat)
    requires c < |s.callers| && s.callers[c].phase != Finished
    ensures Advanced(s.callers, Fail(s, c).callers, c)
  {
  }

  lemma ResolveAdvances(s: State, c: nat, token: string, force: bool, retry: bool, cached: bool, now: real)
    requires c < |s.callers|
    requires Life(if force then Versioning(false) else Fetching(token, retry)) < Life(s.callers[c].phase)
    ensures Advanced(s.callers, Resolve(s, c, token, force, retry, cached, now).callers, c)
  {
  }

  lemma VersionAdvances(s: State, c: nat, now: real)
    requires c < |s.callers| && s.callers[c].phase.AwaitVersion? && ContinueCaller(s, c, now) != s
    ensures Advanced(s.callers, ContinueCaller(s, c, now).callers, c)
  {
    hide Fail, Advanced;
    var cleared := s.(versionRequest := None);
    FailAdvances(s, c);
    FailAdvances(cleared, c);
    MoveAdvances(s, c, Acquiring(false, s.callers[c].phase.retry));
  }

  lemma OwnerAdvances(s: State, c: nat, now: real)
    requires c < |s.callers| && s.callers[c].phase.AwaitOwn? && ContinueCaller(s, c, now) != s
    ensures Advanced(s.callers, ContinueCaller(s, c, now).callers, c)
  {
    hide Fail, Resolve, Advanced;
    var phase := s.callers[c].phase;
    var cleared := if s.request == Some(phase.request) then s.(request := None) else s;
    var promise := s.requests[phase.request].promise;
    if promise.Fulfilled? {
      ResolveAdvances(cleared, c, promise.value, phase.force, phase.retry, false, now);
    } else {
      FailAdvances(cleared, c);
    }
  }

  lemma ContinueGetsCloser(s: State, c: nat, now: real)
    requires OwnerFirst(s, Continue(c, now)) && ContinueCaller(s, c, now) != s
    ensures |ContinueCaller(s, c, now).callers| == |s.callers| && Distance(ContinueCaller(s, c, now)) < Distance(s)
  {
    hide Distance, Resolve, Advanced;
    var s' := ContinueCaller(s, c, now);
    match s.callers[c].phase {
      case Versioning(retry) =>
        MoveAdvances(s, c, s'.callers[c].phase);
      case AwaitVersion(v, owner, retry) =>
        VersionAdvances(s, c, now);
      case Acquiring(force, retry) =>
        if !force && s.token != "" && s.authorization == s.callers[c].authorization && now < s.refreshAt {
          ResolveAdvances(s, c, s.token, force, retry, true, now);
        } else if s.request.Some? {
          OneTurnLess(s, c, AwaitOther(s.request.value, force, retry));
        } else {
          MoveAdvances(s, c, AwaitOwn(|s.requests|, force, retry));
        }
      case AwaitOther(r, force, retry) => OneTurnLess(s, c, Acquiring(force, retry));
      case AwaitOwn(r, force, retry) =>
        OwnerAdvances(s, c, now);
      case _ =>
    }
    if Advanced(s.callers, s'.callers, c) {
      AdvanceGetsCloser(s, s', c);
    }
  }

  lemma AdvanceGetsCloser(s: State, s': State, c: nat)
    requires Advanced(s.callers, s'.callers, c)
    ensures |s'.callers| == |s.callers| && Distance(s') < Distance(s)
  {
    NewStage(s, s', c, s'.callers[c].phase);
  }

  lemma ReplyGetsCloser(s: State, e: Event)
    requires OneRequest(s) && OneVersionRequest(s) && (e.VersionReply? || e.IntegrityReply?) && Step(s, e) != s
    ensures Step(s, e).callers == s.callers && Distance(Step(s, e)) < Distance(s)
  {
  }

  lemma GqlGetsCloser(s: State, c: nat, failed: bool, refused: bool)
    requires SettleGql(s, c, failed, refused) != s
    ensures var s' := SettleGql(s, c, failed, refused); |s'.callers| == |s.callers| && Distance(s') < Distance(s)
  {
    var s' := SettleGql(s, c, failed, refused);
    NewStage(s, s', c, s'.callers[c].phase);
  }

  /** Every effective turn and every settled fetch brings the state closer to being quiet. */
  lemma StepGetsCloser(s: State, e: Event)
    requires Inv(s) && Settling(e) && OwnerFirst(s, e) && Step(s, e) != s
    ensures |Step(s, e).callers| == |s.callers| && Distance(Step(s, e)) < Distance(s)
  {
    hide Distance, Open, OneRequest, OneVersionRequest, ContinueCaller, SettleVersion, SettleIntegrity, SettleGql;
    match e {
      case Continue(c, now) => ContinueGetsCloser(s, c, now);
      case GqlReply(c, failed, refused) => GqlGetsCloser(s, c, failed, refused);
      case VersionReply(v, found, now) =>
        ReplyGetsCloser(s, e);
      case IntegrityReply(r, reply) =>
        ReplyGetsCloser(s, e);
    }
  }

  /** Every event of the run does something, and owners go first. */
  ghost predicate BusyRun(s: State, events: seq<Event>)
    decreases |events|
  {
    events != [] ==>
      && Settling(events[0]) && OwnerFirst(s, events[0]) && Step(s, events[0]) != s
      && BusyRun(Step(s, events[0]), events[1..])
  }

  /**
   However replies turn out and turns are taken, without new calls or timers only so many steps are
   possible: callers cannot keep each other waiting forever.
   */
  lemma {:induction false} BusyRunsAreBounded(s: State, events: seq<Event>)
    requires Inv(s) && BusyRun(s, events)
    ensures |events| + Distance(Run(s, events)) <= Distance(s)
    decreases |events|
  {
    if events != [] {
      StepGetsCloser(s, events[0]);
      StepKeepsInv(s, events[0]);
      BusyRunsAreBounded(Step(s, events[0]), events[1..]);
    }
  }

  lemma TurnDoesSomething(s: State, c: nat, now: real)
    requires c < |s.callers| && CanContinue(s, c)
    ensures ContinueCaller(s, c, now) != s
  {
  }

  /** As long as the state is not quiet, some caller's turn or some reply does something. */
  lemma NotQuietMeansBusy(s: State) returns (e: Event)
    requires Inv(s) && !Quiet(s)
    ensures Settling(e) && OwnerFirst(s, e) && Step(s, e) != s
  {
    if r :| 0 <= r < |s.requests| && s.requests[r].promise == Pending {
      e := IntegrityReply(r, None);
    } else if v :| 0 <= v < |s.versions| && s.versions[v] == Pending {
      e := VersionReply(v, None, 0.0);
    } else if c :| 0 <= c < |s.callers| && s.callers[c].phase.Fetching? {
      e := GqlReply(c, true, false);
    } else {
      var c :| 0 <= c < |s.callers| && CanContinue(s, c);
      if s.callers[c].phase.AwaitOther? && s.request == Some(s.callers[c].phase.request) {
        c :| 0 <= c < |s.callers| && s.callers[c].phase.AwaitOwn? && s.callers[c].phase.request == s.request.value;
      }
      e := Continue(c, 0.0);
      TurnDoesSomething(s, c, 0.0);
    }
  }

  /** The state is such that no turn and no reply would do anything any more. */
  ghost predicate Stuck(s: State) {
    forall e :: Settling(e) && OwnerFirst(s, e) ==> Step(s, e) == s
  }

  /**
   Whatever happened before: from there on, without new calls or timers, every run of turns and
   replies is over after at most `Distance` steps, and once it can go no further each call has sent
   exactly one result.
   */
  lemma EveryCallIsAnswered(past: seq<Event>, events: seq<Event>)
    requires BusyRun(Run(INITIAL_STATE, past), events)
    ensures |events| <= Distance(Run(INITIAL_STATE, past))
    ensures var s := Run(Run(INITIAL_STATE, past), events);
            Stuck(s) ==> forall c :: 0 <= c < |s.callers| ==>
              s.callers[c].phase == Finished && (s.callers[c].kind == Execute ==> s.sent[c] == 1)
  {
    assert Inv(INITIAL_STATE);
    var before := Run(INITIAL_STATE, past);
    RunKeepsInv(INITIAL_STATE, past);
    BusyRunsAreBounded(before, events);
    var s := Run(before, events);
    RunKeepsInv(before, events);
    if Stuck(s) {
      if !Quiet(s) {
        var _ := NotQuietMeansBusy(s);
      }
      QuietMeansAnswered(s);
    }
  }

  // ---------------------------------------------------------------------------------------------
  // The script
  // ---------------------------------------------------------------------------------------------

  /** The variables the closures share, and the callers suspended at their awaits. */
  class Page {
    var integrityToken: string
    var integrityRefreshAt: real
    var integrityAuthorization: string
    var integrityRefreshTimer: Option<string>
    var integrityRequest: Option<nat>
    var clientVersion: string
    var clientVersionExpiresAt: real
    var clientVersionRequest: Option<nat>
    var requests: seq<Request>
    var versions: seq<Promise>
    var callers: seq<Caller>
    var sent: multiset<nat>
    ghost var expiration: real
    ghost var issued: set<(string, string)>
    ghost var resolutions: seq<Resolution>

    ghost function View(): State
      reads this
    {
      State(integrityToken, integrityAuthorization, integrityRefreshAt, expiration, integrityRequest, requests,
            clientVersion, clientVersionExpiresAt, clientVersionRequest, versions, integrityRefreshTimer, callers,
            issued, resolutions, sent)
    }

    constructor ()
      ensures View() == INITIAL_STATE
    {
      integrityToken, integrityRefreshAt, integrityAuthorization, expiration := "", 0.0, "", 0.0;
      integrityRefreshTimer, integrityRequest, clientVersionRequest := None, None, None;
      clientVersion, clientVersionExpiresAt := "", 0.0;
      requests, versions, callers, sent := [], [], [], multiset{};
      issued, resolutions := {}, [];
    }

    method Suspend(c: nat, phase: Phase)
      requires c < |callers|
      modifies this`callers
      ensures View() == Move(old(View()), c, phase)
    {
      callers := callers[c := callers[c].(phase := phase)];
    }

    method Send(c: nat)
      requires c < |callers|
      modifies this`callers, this`sent
      ensures View() == SendResult(old(View()), c)
    {
      sent := sent + multiset{c};
      Suspend(c, Finished);
    }

    method Throw(c: nat)
      requires c < |callers|
      modifies this`callers, this`sent
      ensures View() == Fail(old(View()), c)
    {
      if callers[c].kind == Execute {
        Send(c);
      } else {
        Suspend(c, Finished);
      }
    }

    method ReturnToken(c: nat, token: string, force: bool, retry: bool, ghost cached: bool, ghost now: real)
      requires c < |callers|
      modifies this`callers, this`resolutions
      ensures View() == Resolve(old(View()), c, token, force, retry, cached, now)
    {
      resolutions := resolutions + [Resolution(c, token, cached, now, expiration)];
      if callers[c].kind == Refresh {
        Suspend(c, Finished);
      } else if force {
        Suspend(c, Versioning(false));
      } else {
        Suspend(c, Fetching(token, retry));
      }
    }

    method EnterGetClientVersion(c: nat, retry: bool, now: real)
      requires c < |callers|
      modifies this`callers, this`versions, this`clientVersionRequest
      ensures View() == GetClientVersion(old(View()), c, retry, now)
      ensures |callers| == |old(callers)| && VersionIsShared(old(View()), View(), c, retry, now)
      ensures Inv(old(View())) && old(callers)[c].phase == Versioning(retry) ==> Inv(View())
    {
      GetClientVersionShares(View(), c, retry, now);
      hide VersionIsShared, Inv;
      if clientVersion != "" && now < clientVersionExpiresAt {
        Suspend(c, Acquiring(false, retry));
        return;
      }
      if clientVersionRequest.Some? {
        Suspend(c, AwaitVersion(clientVersionRequest.value, false, retry));
        return;
      }
      var request := |versions|;
      versions := versions + [Pending];
      clientVersionRequest := Some(request);
      Suspend(c, AwaitVersion(request, true, retry));
    }

    method EnterAcquireIntegrity(c: nat, force: bool, retry: bool, now: real)
      requires c < |callers|
      modifies this`callers, this`requests, this`integrityRequest, this`resolutions
      ensures View() == AcquireIntegrity(old(View()), c, force, retry, now)
      ensures TokensIssued(old(View())) ==>
                |callers| == |old(callers)| && TokenIsShared(old(View()), View(), c, force, retry, now)
      ensures Inv(old(View())) && old(callers)[c].phase == Acquiring(force, retry) ==> Inv(View())
    {
      if TokensIssued(View()) {
        AcquireIntegrityShares(View(), c, force, retry, now);
      } else {
        assert !Inv(View());
      }
      hide TokenIsShared, Inv, TokensIssued;
      var config := callers[c];
      if !force && integrityToken != "" && integrityAuthorization == config.authorization && now < integrityRefreshAt {
        ReturnToken(c, integrityToken, force, retry, true, now);
        return;
      }
      if integrityRequest.Some? {
        Suspend(c, AwaitOther(integrityRequest.value, force, retry));
        return;
      }
      var request := |requests|;
      requests := requests + [Request(config.authorization, now, Pending)];
      integrityRequest := Some(request);
      Suspend(c, AwaitOwn(request, force, retry));
    }

    /** The end of `getClientVersion`, once its fetch is settled. */
    method LeaveGetClientVersion(c: nat, request: nat, owner: bool, retry: bool, ghost now: real)
      requires c < |callers| && callers[c].phase == AwaitVersion(request, owner, retry)
      modifies this`callers, this`sent, this`clientVersionRequest
      ensures View() == ContinueCaller(old(View()), c, now)
    {
      hide Fail, Move;
      if request >= |versions| || versions[request] == Pending {
        return;
      }
      if owner && clientVersionRequest == Some(request) {
        clientVersionRequest := None;
      }
      if versions[request] == Rejected {
        Throw(c);
      } else {
        Suspend(c, Acquiring(false, retry));
      }
    }

    /** The end of `acquireIntegrity` for the caller that made the request, once that is settled. */
    method LeaveAcquireIntegrity(c: nat, request: nat, force: bool, retry: bool, ghost now: real)
      requires c < |callers| && callers[c].phase == AwaitOwn(request, force, retry)
      modifies this`callers, this`sent, this`integrityRequest, this`resolutions
      ensures View() == ContinueCaller(old(View()), c, now)
    {
      hide Fail, Resolve;
      if request >= |requests| || requests[request].promise == Pending {
        return;
      }
      if integrityRequest == Some(request) {
        integrityRequest := None;
      }
      if requests[request].promise == Rejected {
        Throw(c);
      } else {
        ReturnToken(c, requests[request].promise.value, force, retry, false, now);
      }
    }

    /** One caller's turn. */
    method Proceed(c: nat, now: real)
      modifies this`callers, this`sent, this`versions, this`clientVersionRequest, this`requests, this`integrityRequest,
               this`resolutions
      ensures View() == ContinueCaller(old(View()), c, now)
      ensures ClearedByOwner(old(View()), View(), c) && BegunIfNone(old(View()), View())
      ensures c < |old(callers)| ==> WaitEnds(old(View()), View(), c)
      ensures Inv(old(View())) ==> Inv(View())
    {
      TurnIsOrderly(View(), c, now);
      TurnEndsWait(View(), c, now);
      if Inv(View()) {
        ContinueKeepsInv(View(), c, now);
      }
      hide GetClientVersion, AcquireIntegrity, Resolve, Fail, Move, ClearedByOwner, BegunIfNone, WaitEnds, Inv,
           VersionIsShared, TokenIsShared;
      if c >= |callers| {
        return;
      }
      match callers[c].phase {
        case Versioning(retry) => EnterGetClientVersion(c, retry, now);
        case AwaitVersion(request, owner, retry) =>
          LeaveGetClientVersion(c, request, owner, retry, now);
        case Acquiring(force, retry) => EnterAcquireIntegrity(c, force, retry, now);
        case AwaitOther(request, force, retry) =>
          if request >= |requests| || requests[request].promise == Pending {
            return;
          }
          Suspend(c, Acquiring(force, retry));
        case AwaitOwn(request, force, retry) =>
          LeaveAcquireIntegrity(c, request, force, retry, now);
        case Fetching(_, _) =>
        case Finished =>
      }
    }

    method OnVersionReply(v: nat, found: Option<string>, now: real)
      modifies this`clientVersion, this`clientVersionExpiresAt, this`versions
      ensures View() == SettleVersion(old(View()), v, found, now)
      ensures v < |old(versions)| && old(versions)[v] == Pending ==>
                if found.Some? && found.value != "" then
                  && versions == old(versions)[v := Fulfilled(found.value)]
                  && clientVersion == found.value && clientVersionExpiresAt - now == 15.0 * 60.0 * 1000.0
                else
                  && versions == old(versions)[v := Rejected]
                  && clientVersion == old(clientVersion) && clientVersionExpiresAt == old(clientVersionExpiresAt)
    {
      if v >= |versions| || versions[v] != Pending {
        return;
      }
      if found.None? || found.value == "" {
        versions := versions[v := Rejected];
        return;
      }
      clientVersion := found.value;
      clientVersionExpiresAt := now + VERSION_LIFETIME;
      versions := versions[v := Fulfilled(clientVersion)];
    }

    method Accept(r: nat, token: string, expires: real)
      requires r < |requests|
      modifies this`integrityToken, this`integrityAuthorization, this`integrityRefreshAt, this`integrityRefreshTimer,
               this`requests, this`expiration, this`issued
      ensures View() == AcceptToken(old(View()), r, token, expires)
    {
      var request := requests[r];
      integrityToken := token;
      integrityAuthorization := request.authorization;
      integrityRefreshAt := RefreshTime(request.startedAt, expires);
      expiration := expires;
      issued := issued + {(token, request.authorization)};
      integrityRefreshTimer := Some(request.authorization);
      requests := requests[r := request.(promise := Fulfilled(token))];
    }

    method OnIntegrityReply(r: nat, reply: Option<(string, real)>)
      modifies this`integrityToken, this`integrityAuthorization, this`integrityRefreshAt, this`integrityRefreshTimer,
               this`requests, this`expiration, this`issued
      ensures View() == SettleIntegrity(old(View()), r, reply)
      ensures CachedForRequest(old(View()), View(), r, reply)
      ensures Inv(old(View())) ==> Inv(View())
    {
      ReplyIsCached(View(), r, reply);
      if Inv(View()) {
        SettleIntegrityKeepsInv(View(), r, reply);
      }
      hide AcceptToken, CachedForRequest, Inv;
      if r >= |requests| || requests[r].promise != Pending {
        return;
      }
      if reply.None? || reply.value.0 == "" || reply.value.1 <= requests[r].startedAt {
        requests := requests[r := requests[r].(promise := Rejected)];
        return;
      }
      Accept(r, reply.value.0, reply.value.1);
    }

    method OnGqlReply(c: nat, failed: bool, integrityRefused: bool)
      modifies this`clientVersion, this`clientVersionExpiresAt, this`callers, this`sent
      ensures View() == SettleGql(old(View()), c, failed, integrityRefused)
      ensures Inv(old(View())) ==> SentOrRepeated(old(View()), View(), c, failed, integrityRefused) && Inv(View())
      ensures c < |old(callers)| && old(callers)[c].phase.Fetching? ==>
                |callers| == |old(callers)|
                && (callers[c].phase == Acquiring(true, true)
                    <==> !failed && old(callers)[c].phase.retry && integrityRefused)
    {
      if Inv(View()) {
        GqlKeepsInv(View(), c, failed, integrityRefused);
        GqlSentOrRepeated(View(), c, failed, integrityRefused);
      }
      hide SentOrRepeated, Inv;
      if c >= |callers| || !callers[c].phase.Fetching? {
        return;
      }
      if failed {
        Throw(c);
        return;
      }
      var retry := callers[c].phase.retry;
      if retry && integrityRefused {
        clientVersion := "";
        clientVersionExpiresAt := 0.0;
        Suspend(c, Acquiring(true, retry));
        return;
      }
      Send(c);
    }

    method Handle(e: Event)
      modifies this
      ensures View() == Step(old(View()), e)
      ensures e.Call? ==> callers == old(callers) + [Caller(e.authorization, Execute, Versioning(true))]
      ensures e.TimerFires? && old(integrityRefreshTimer).Some? ==>
                && integrityRefreshTimer.None?
                && callers == old(callers) + [Caller(old(integrityRefreshTimer).value, Refresh, Acquiring(true, false))]
    {
      hide ContinueCaller, SettleVersion, SettleIntegrity, SettleGql;
      match e {
        case Call(authorization) => callers := callers + [Caller(authorization, Execute, Versioning(true))];
        case Continue(c, now) => Proceed(c, now);
        case VersionReply(v, found, now) => OnVersionReply(v, found, now);
        case IntegrityReply(r, reply) => OnIntegrityReply(r, reply);
        case GqlReply(c, failed, refused) => OnGqlReply(c, failed, refused);
        case TimerFires =>
          if integrityRefreshTimer.Some? {
            callers := callers + [Caller(integrityRefreshTimer.value, Refresh, Acquiring(true, false))];
            integrityRefreshTimer := None;
          }
      }
    }

    /** Any schedule whatsoever, one atomic stretch of the script after the other. */
    method Play(events: seq<Event>)
      modifies this
      ensures View() == Run(old(View()), events)
      ensures old(View()) == INITIAL_STATE ==> Safe(View())
    {
      ProtocolSafety(events);
      hide Step;
      for k := 0 to |events|
        invariant Run(View(), events[k..]) == Run(old(View()), events)
      {
        assert events[k..][1..] == events[k + 1..];
        Handle(events[k]);
      }
    }
  }
}
