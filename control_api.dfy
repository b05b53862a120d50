/**
 * The control plane's write paths on the runtime registration table: expiry of
 * silent backends, dynamic registration, the weight override, and the clamp on the
 * audit-log tail length.
 *
 * The table is read from and written back to a JSON file around each call; here it is
 * the value passed in and the value returned. The clock is the parameter `now` (whole
 * seconds) and the configured TTL the parameter `ttl`.
 */
module ControlApi {
  import opened Basics
  import opened BackendMerge

  /** The runtime file's object: its backend records and its updated_at stamp. */
  datatype RuntimeTable = RuntimeTable(backends: seq<RawBackend>, updatedAt: int)

  /** `str(b.get("ip", ""))`. */
  function RawIp(b: RawBackend): string
  {
    if b.ip.Some? then b.ip.value else ""
  }

  // ---------------------------------------------------------------------------
  // apply_runtime_ttl
  // ---------------------------------------------------------------------------

  /** A record the TTL disables: it has reported, has been silent too long and is enabled. */
  predicate Expires(b: RawBackend, ttl: int, now: int)
  {
    var lastSeen := IntOr(b.lastSeen, 0);
    lastSeen > 0 && now - lastSeen > ttl && BoolOr(b.enabled, true)
  }

  function ExpireEntry(b: RawBackend, ttl: int, now: int): RawBackend
  {
    if Expires(b, ttl, now) then b.(enabled := Some(false)) else b
  }

  function ExpireAll(bs: seq<RawBackend>, ttl: int, now: int): seq<RawBackend>
  {
    seq(|bs|, i requires 0 <= i < |bs| => ExpireEntry(bs[i], ttl, now))
  }

  predicate AnyExpires(bs: seq<RawBackend>, ttl: int, now: int)
  {
    exists i :: 0 <= i < |bs| && Expires(bs[i], ttl, now)
  }

  /**
   * The table after the TTL pass: nothing happens when ttl <= 0; otherwise every expiring
   * record is disabled, and updated_at becomes `now` only if one was.
   */
  function RuntimeTtl(rt: RuntimeTable, ttl: int, now: int): RuntimeTable
  {
    if ttl <= 0 then rt
    else RuntimeTable(ExpireAll(rt.backends, ttl, now),
      if AnyExpires(rt.backends, ttl, now) then now else rt.updatedAt)
  }

  /** apply_runtime_ttl, with its loop over the records and its `changed` flag. */
  method ApplyRuntimeTtl(rt: RuntimeTable, ttl: int, now: int) returns (res: RuntimeTable)
    ensures res == RuntimeTtl(rt, ttl, now)
  {
    if ttl <= 0 {
      return rt;
    }
    var bs := rt.backends;
    var changed := false;
    for i := 0 to |bs|
      invariant |bs| == |rt.backends|
      invariant forall k :: 0 <= k < i ==> bs[k] == ExpireEntry(rt.backends[k], ttl, now)
      invariant forall k :: i <= k < |bs| ==> bs[k] == rt.backends[k]
      invariant changed <==> exists k :: 0 <= k < i && Expires(rt.backends[k], ttl, now)
    {
      var b := bs[i];
      var lastSeen := IntOr(b.lastSeen, 0);
      if lastSeen > 0 && now - lastSeen > ttl {
        if BoolOr(b.enabled, true) {
          bs := bs[i := b.(enabled := Some(false))];
          changed := true;
        }
      }
    }
    assert bs == ExpireAll(rt.backends, ttl, now);
    res := RuntimeTable(bs, if changed then now else rt.updatedAt);
  }

  /** A second TTL pass at the same time finds nothing to do. */
  lemma RuntimeTtlIdempotent(rt: RuntimeTable, ttl: int, now: int)
    ensures RuntimeTtl(RuntimeTtl(rt, ttl, now), ttl, now) == RuntimeTtl(rt, ttl, now)
  {
    if ttl > 0 {
      var once := RuntimeTtl(rt, ttl, now);
      assert forall i :: 0 <= i < |once.backends| ==> !Expires(once.backends[i], ttl, now);
      assert ExpireAll(once.backends, ttl, now) == once.backends;
    }
  }

  /**
   * The pass only ever disables: each record is kept or has enabled set to false (exactly
   * when it expires), a disabled record stays disabled, and no other field changes.
   */
  lemma RuntimeTtlOnlyDisables(rt: RuntimeTable, ttl: int, now: int, i: nat)
    requires ttl > 0 && i < |rt.backends|
    ensures var b, b2 := rt.backends[i], RuntimeTtl(rt, ttl, now).backends[i];
      b2 == b.(enabled := b2.enabled) &&
      (b2 != b <==> Expires(b, ttl, now)) &&
      (!BoolOr(b.enabled, true) ==> !BoolOr(b2.enabled, true)) &&
      (Expires(b, ttl, now) ==> !NormalizeBackend(b2, "runtime").enabled)
  {
  }

  /** Once the TTL has run at `now`, no enabled record there has been silent more than ttl. */
  lemma RuntimeTtlLeavesNoStaleEnabled(rt: RuntimeTable, ttl: int, now: int)
    requires ttl > 0
    ensures forall b :: b in RuntimeTtl(rt, ttl, now).backends ==> !Expires(b, ttl, now)
  {
    var r := RuntimeTtl(rt, ttl, now).backends;
    forall b | b in r
      ensures !Expires(b, ttl, now)
    {
      var i :| 0 <= i < |r| && r[i] == b;
      assert r[i] == ExpireEntry(rt.backends[i], ttl, now);
    }
  }

  // ---------------------------------------------------------------------------
  // Upserts shared by /api/register and the weight override
  // ---------------------------------------------------------------------------

  /** The loop's match test: the raw ip string and the port as `int(port or 0)`. */
  predicate Matches(b: RawBackend, ip: string, port: int)
  {
    RawIp(b) == ip && IntOr(b.port, 0) == port
  }

  /** The first record the loop's `break` stops at. */
  function FirstMatch(bs: seq<RawBackend>, ip: string, port: int): (r: Option<nat>)
    ensures r.Some? ==> r.value < |bs| && Matches(bs[r.value], ip, port)
    ensures r.Some? ==> forall k :: 0 <= k < r.value ==> !Matches(bs[k], ip, port)
    ensures r.None? ==> forall k :: 0 <= k < |bs| ==> !Matches(bs[k], ip, port)
  {
    if bs == [] then None
    else if Matches(bs[0], ip, port) then Some(0)
    else match FirstMatch(bs[1..], ip, port)
      case None => None
      case Some(i) => Some(i + 1)
  }

  // ---------------------------------------------------------------------------
  // /api/register
  // ---------------------------------------------------------------------------

  /** The JSON body of a registration; a field is None when absent or null. */
  datatype RegisterRequest = RegisterRequest(
    ip: Option<string>,
    port: Option<int>,
    weight: Option<int>,
    gpuUsage: Option<real>,
    vramUsage: Option<real>)

  /** The response: 400 "invalid ip/port", or success with the table written back. */
  datatype ApiResult = InvalidIpPort | Registered(table: RuntimeTable)

  /** The stripped ip of the request. */
  function RequestIp(req: RegisterRequest): string
  {
    Strip(if req.ip.Some? then req.ip.value else "")
  }

  /** A re-registration: new weight and GPU figures, enabled, seen now, warm-up flag kept (default true). */
  function ReRegistered(b: RawBackend, weight: int, gpu: Option<real>, vram: Option<real>, now: int): RawBackend
  {
    b.(weight := Some(weight), gpuUsage := gpu, vramUsage := vram, enabled := Some(true),
      isWarmingUp := Some(BoolOr(b.isWarmingUp, true)), lastSeen := Some(now))
  }

  /** A first registration: enabled and warming up, seen now. */
  function NewRegistration(ip: string, port: int, weight: int, gpu: Option<real>, vram: Option<real>, now: int): RawBackend
  {
    RawBackend(Some(ip), Some(port), Some(weight), gpu, vram, Some(true), Some(true), Some(now))
  }

  /**
   * What /api/register does to the table: reject an empty ip or a port <= 0; otherwise
   * update the first record matching ip and port, or append a new warming one, and stamp
   * updated_at. The weight defaults to 10 when absent, null or 0.
   */
  function Register(rt: RuntimeTable, req: RegisterRequest, now: int): ApiResult
  {
    var ip, port, weight := RequestIp(req), IntOr(req.port, 0), IntOr(req.weight, 10);
    if ip == "" || port <= 0 then InvalidIpPort
    else Registered(RuntimeTable(RegisterInto(rt.backends, ip, port, weight, req.gpuUsage, req.vramUsage, now), now))
  }

  /** The records after a valid registration: the first match refreshed, or a new one appended. */
  function RegisterInto(bs: seq<RawBackend>, ip: string, port: int, weight: int,
                        gpu: Option<real>, vram: Option<real>, now: int): seq<RawBackend>
  {
    match FirstMatch(bs, ip, port)
    case Some(i) => bs[i := ReRegistered(bs[i], weight, gpu, vram, now)]
    case None => bs + [NewRegistration(ip, port, weight, gpu, vram, now)]
  }

  /** api_register: validation, then the search loop of RegisterLoop. */
  method ApiRegister(rt: RuntimeTable, req: RegisterRequest, now: int) returns (res: ApiResult)
    ensures res == Register(rt, req, now)
  {
    var ip := RequestIp(req);
    var port := IntOr(req.port, 0);
    var weight := IntOr(req.weight, 10);
    if ip == "" || port <= 0 {
      return InvalidIpPort;
    }
    var bs := RegisterLoop(rt.backends, ip, port, weight, req.gpuUsage, req.vramUsage, now);
    res := Registered(RuntimeTable(bs, now));
  }

  /** The search loop of api_register with its `found` flag. */
  method RegisterLoop(bs0: seq<RawBackend>, ip: string, port: int, weight: int,
                      gpu: Option<real>, vram: Option<real>, now: int) returns (bs: seq<RawBackend>)
    ensures bs == RegisterInto(bs0, ip, port, weight, gpu, vram, now)
  {
    bs := bs0;
    var found := false;
    var i := 0;
    while i < |bs|
      invariant 0 <= i <= |bs| && bs == bs0
      invariant forall k :: 0 <= k < i ==> !Matches(bs[k], ip, port)
    {
      if RawIp(bs[i]) == ip && IntOr(bs[i].port, 0) == port {
        FirstMatchAt(bs0, ip, port, i);
        bs := bs[i := ReRegistered(bs[i], weight, gpu, vram, now)];
        found := true;
        break;
      }
      i := i + 1;
    }
    if !found {
      bs := bs + [NewRegistration(ip, port, weight, gpu, vram, now)];
    }
  }

  /** Rejection happens exactly for an empty (stripped) ip or a port <= 0. */
  lemma RegisterValidation(rt: RuntimeTable, req: RegisterRequest, now: int)
    ensures Register(rt, req, now).InvalidIpPort? <==> RequestIp(req) == "" || IntOr(req.port, 0) <= 0
  {
  }

  /**
   * An accepted registration stamps updated_at, grows the table by one record exactly
   * when no record matched, and leaves every record that does not match untouched.
   */
  lemma RegisterEffect(rt: RuntimeTable, req: RegisterRequest, now: int)
    requires Register(rt, req, now).Registered?
    ensures var t := Register(rt, req, now).table; var ip, port := RequestIp(req), IntOr(req.port, 0);
      t.updatedAt == now &&
      |rt.backends| <= |t.backends| <= |rt.backends| + 1 &&
      (|t.backends| == |rt.backends| + 1 <==> FirstMatch(rt.backends, ip, port).None?) &&
      forall k :: 0 <= k < |rt.backends| && !Matches(rt.backends[k], ip, port) ==> t.backends[k] == rt.backends[k]
  {
  }

  /** After an accepted registration, the record it found or added is live and matches. */
  lemma RegisterLive(rt: RuntimeTable, req: RegisterRequest, now: int)
    requires Register(rt, req, now).Registered?
    ensures var t := Register(rt, req, now).table; var ip, port := RequestIp(req), IntOr(req.port, 0);
      var m := FirstMatch(t.backends, ip, port);
      m.Some? && var b := t.backends[m.value];
      b.enabled == Some(true) && b.lastSeen == Some(now) && b.weight == Some(IntOr(req.weight, 10)) &&
      (FirstMatch(rt.backends, ip, port).None? ==> b.isWarmingUp == Some(true))
  {
    var bs := rt.backends;
    var t := Register(rt, req, now).table;
    var ip, port := RequestIp(req), IntOr(req.port, 0);
    match FirstMatch(bs, ip, port)
    case Some(i) =>
      assert Matches(t.backends[i], ip, port);
      assert forall k :: 0 <= k < i ==> t.backends[k] == bs[k];
      FirstMatchAt(t.backends, ip, port, i);
    case None =>
      assert forall k :: 0 <= k < |bs| ==> t.backends[k] == bs[k];
      FirstMatchAt(t.backends, ip, port, |bs|);
  }

  lemma {:induction false} FirstMatchAt(bs: seq<RawBackend>, ip: string, port: int, i: nat)
    requires i < |bs| && Matches(bs[i], ip, port)
    requires forall k :: 0 <= k < i ==> !Matches(bs[k], ip, port)
    ensures FirstMatch(bs, ip, port) == Some(i)
  {
    if i > 0 {
      FirstMatchAt(bs[1..], ip, port, i - 1);
    }
  }

  /** Registering the same request twice at the same time is registering it once. */
  lemma RegisterIdempotent(rt: RuntimeTable, req: RegisterRequest, now: int)
    requires Register(rt, req, now).Registered?
    ensures Register(Register(rt, req, now).table, req, now) == Register(rt, req, now)
  {
    var ip, port, weight := RequestIp(req), IntOr(req.port, 0), IntOr(req.weight, 10);
    RegisterIntoIdempotent(rt.backends, ip, port, weight, req.gpuUsage, req.vramUsage, now);
  }

  lemma RegisterIntoIdempotent(bs: seq<RawBackend>, ip: string, port: int, weight: int,
                               gpu: Option<real>, vram: Option<real>, now: int)
    ensures var t := RegisterInto(bs, ip, port, weight, gpu, vram, now);
      RegisterInto(t, ip, port, weight, gpu, vram, now) == t
  {
    var t := RegisterInto(bs, ip, port, weight, gpu, vram, now);
    match FirstMatch(bs, ip, port)
    case Some(i) =>
      assert forall k :: 0 <= k < i ==> t[k] == bs[k];
      FirstMatchAt(t, ip, port, i);
      assert t[i := ReRegistered(t[i], weight, gpu, vram, now)] == t;
    case None =>
      assert forall k :: 0 <= k < |bs| ==> t[k] == bs[k];
      FirstMatchAt(t, ip, port, |bs|);
      assert t[|bs| := ReRegistered(t[|bs|], weight, gpu, vram, now)] == t;
  }

  /**
   * A first registration is in the next proxy configuration: the merge lists it, enabled
   * and warming up, and it shadows any k8s record for the same ip and port.
   */
  lemma FirstRegistrationIsMerged(k8s: seq<RawBackend>, rt: RuntimeTable, req: RegisterRequest, now: int)
    requires Register(rt, req, now).Registered?
    requires FirstMatch(rt.backends, RequestIp(req), IntOr(req.port, 0)).None?
    ensures var t := Register(rt, req, now).table;
      var nb := NormalizeBackend(t.backends[|t.backends| - 1], "runtime");
      nb in MergeBackends(k8s, t.backends) && nb.enabled && nb.isWarmingUp &&
      nb.ip == RequestIp(req) && nb.port == IntOr(req.port, 0) &&
      forall b :: b in MergeBackends(k8s, t.backends) && SameIpPort(b, nb) ==> b == nb
  {
    var ip, port, weight := RequestIp(req), IntOr(req.port, 0), IntOr(req.weight, 10);
    var r := NewRegistration(ip, port, weight, req.gpuUsage, req.vramUsage, now);
    var t := Register(rt, req, now).table;
    assert t.backends == RegisterInto(rt.backends, ip, port, weight, req.gpuUsage, req.vramUsage, now);
    assert t.backends == rt.backends + [r];
    StripIdempotent(if req.ip.Some? then req.ip.value else "");
    var nb := NormalizeBackend(r, "runtime");
    assert nb.ip == ip && nb.port == port && nb.enabled && nb.isWarmingUp;
    RuntimeOverridesK8s(k8s, rt.backends, r);
  }

  // ---------------------------------------------------------------------------
  // The weight override
  // ---------------------------------------------------------------------------

  /** A weight override of an existing record: new weight, enabled, seen now. */
  function Reweighted(b: RawBackend, weight: int, now: int): RawBackend
  {
    b.(weight := Some(weight), enabled := Some(true), lastSeen := Some(now))
  }

  /** An override for an unknown backend: no GPU figures, enabled, not warming up. */
  function NewOverride(ip: string, port: int, weight: int, now: int): RawBackend
  {
    RawBackend(Some(ip), Some(port), Some(weight), None, None, Some(true), Some(false), Some(now))
  }

  /**
   * What the weight override does: the weight is `int(weight or 0)`, with no validation;
   * the first record matching the ip and port from the URL is updated, or a new record
   * is appended; updated_at is stamped.
   */
  function SetWeight(rt: RuntimeTable, ip: string, port: nat, weightArg: Option<int>, now: int): RuntimeTable
  {
    var weight, bs := IntOr(weightArg, 0), rt.backends;
    RuntimeTable(
      match FirstMatch(bs, ip, port)
      case Some(i) => bs[i := Reweighted(bs[i], weight, now)]
      case None => bs + [NewOverride(ip, port, weight, now)],
      now)
  }

  /** api_set_weight, with its search loop and `updated` flag. */
  method ApiSetWeight(rt: RuntimeTable, ip: string, port: nat, weightArg: Option<int>, now: int)
    returns (res: RuntimeTable)
    ensures res == SetWeight(rt, ip, port, weightArg, now)
  {
    var weight := IntOr(weightArg, 0);
    var bs := rt.backends;
    var updated := false;
    var i := 0;
    while i < |bs|
      invariant 0 <= i <= |bs| && bs == rt.backends
      invariant forall k :: 0 <= k < i ==> !Matches(bs[k], ip, port)
    {
      if RawIp(bs[i]) == ip && IntOr(bs[i].port, 0) == port {
        FirstMatchAt(rt.backends, ip, port, i);
        bs := bs[i := Reweighted(bs[i], weight, now)];
        updated := true;
        break;
      }
      i := i + 1;
    }
    if !updated {
      bs := bs + [NewOverride(ip, port, weight, now)];
    }
    res := RuntimeTable(bs, now);
  }

  /**
   * After an override the first record for ip and port carries the new weight and is
   * enabled; the table grows by one record at most, and only when there was no match.
   */
  lemma SetWeightEffect(rt: RuntimeTable, ip: string, port: nat, weightArg: Option<int>, now: int)
    ensures var t := SetWeight(rt, ip, port, weightArg, now);
      var m := FirstMatch(t.backends, ip, port);
      m.Some? && t.backends[m.value].weight == Some(IntOr(weightArg, 0)) &&
      t.backends[m.value].enabled == Some(true) &&
      (|t.backends| == |rt.backends| + 1 <==> FirstMatch(rt.backends, ip, port).None?) &&
      (|t.backends| == |rt.backends| <==> FirstMatch(rt.backends, ip, port).Some?) &&
      (FirstMatch(rt.backends, ip, port).None? ==>
        t.backends[m.value].isWarmingUp == Some(false) && t.backends[m.value].gpuUsage.None?)
  {
    var bs := rt.backends;
    var t := SetWeight(rt, ip, port, weightArg, now);
    match FirstMatch(bs, ip, port)
    case Some(i) =>
      assert forall k :: 0 <= k < i ==> t.backends[k] == bs[k];
      FirstMatchAt(t.backends, ip, port, i);
    case None =>
      assert forall k :: 0 <= k < |bs| ==> t.backends[k] == bs[k];
      FirstMatchAt(t.backends, ip, port, |bs|);
  }

  /**
   * An override for a backend the table did not hold, with a clean ip and a positive
   * port, is in the next proxy configuration: enabled, out of warm-up, with the new
   * weight, and shadowing any k8s record for the same ip and port.
   */
  lemma FirstOverrideIsMerged(k8s: seq<RawBackend>, rt: RuntimeTable, ip: string, port: nat, weightArg: Option<int>, now: int)
    requires Strip(ip) == ip && ip != "" && port > 0
    requires FirstMatch(rt.backends, ip, port).None?
    ensures var t := SetWeight(rt, ip, port, weightArg, now);
      var nb := NormalizeBackend(t.backends[|t.backends| - 1], "runtime");
      nb in MergeBackends(k8s, t.backends) && nb.enabled && !nb.isWarmingUp &&
      nb.ip == ip && nb.port == port && nb.weight == IntOr(weightArg, 0) &&
      forall b :: b in MergeBackends(k8s, t.backends) && SameIpPort(b, nb) ==> b == nb
  {
    var t := SetWeight(rt, ip, port, weightArg, now);
    var r := t.backends[|t.backends| - 1];
    assert t.backends == rt.backends + [r];
    RuntimeOverridesK8s(k8s, rt.backends, r);
  }

  // ---------------------------------------------------------------------------
  // /api/logs/audit
  // ---------------------------------------------------------------------------

  /**
   * The tail length: the `tail` argument, 100 when it is absent or empty, clamped to
   * [10, 2000].
   */
  function ClampTail(tailArg: Option<int>): (n: int)
    ensures 10 <= n <= 2000
    ensures tailArg.None? ==> n == 100
    ensures tailArg.Some? && 10 <= tailArg.value <= 2000 ==> n == tailArg.value
    ensures tailArg.Some? && tailArg.value < 10 ==> n == 10
    ensures tailArg.Some? && tailArg.value > 2000 ==> n == 2000
  {
    var tail := if tailArg.Some? then tailArg.value else 100;
    if tail > 2000 then 2000 else if tail < 10 then 10 else tail
  }
}
