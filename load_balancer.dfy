/**
 * The load balancer: a list of backends held by value, a 32-bit round-robin cursor,
 * one 32-bit live-connection counter per backend, and the active policy.
 *
 * A backend "pointer" is its index in `backends`; null is None. Every selection first
 * runs the warm-up check on every backend, in list order, and keeps those that pass.
 */
module LoadBalancing {
  import opened Basics
  import opened BackendServer

  /** The policies selectBackend dispatches on. */
  datatype LoadBalanceType = RoundRobin | LeastConn | GpuAware

  /** 32-bit unsigned increment and decrement (fetch_add / fetch_sub of 1). */
  function Inc32(x: u32): (r: u32)
    ensures x < UINT32_MAX ==> r == x + 1
    ensures x == UINT32_MAX ==> r == 0
  {
    (x + 1) % TWO_TO_32
  }

  function Dec32(x: u32): (r: u32)
    ensures x > 0 ==> r == x - 1
    ensures x == 0 ==> r == UINT32_MAX
  {
    (x - 1) % TWO_TO_32
  }

  /** Decrement undoes increment and vice versa, wrap-around included. */
  lemma Dec32Inc32Inverse(x: u32)
    ensures Dec32(Inc32(x)) == x && Inc32(Dec32(x)) == x
  {
  }

  // ---------------------------------------------------------------------------
  // The warm-up gate (getAvailableBackends)
  // ---------------------------------------------------------------------------

  /** Every backend after one warm-up check at `now`. */
  function Refreshed(bs: seq<BackendServer>, now: int): seq<BackendServer>
  {
    seq(|bs|, i requires 0 <= i < |bs| => CheckWarmupFinish(bs[i], now).after)
  }

  /** Strictly increasing: list order, each index once. */
  predicate Increasing(s: seq<nat>)
  {
    forall k, l :: 0 <= k < l < |s| ==> s[k] < s[l]
  }

  /**
   * The available list at `now`: exactly the indices of the backends whose warm-up
   * check passes, in list order.
   */
  function Available(bs: seq<BackendServer>, now: int): (avail: seq<nat>)
    ensures forall k :: 0 <= k < |avail| ==> avail[k] < |bs| && Ready(bs[avail[k]], now)
    ensures forall i :: 0 <= i < |bs| && Ready(bs[i], now) ==> i in avail
    ensures Increasing(avail)
  {
    if bs == [] then []
    else Available(bs[..|bs| - 1], now) + (if Ready(bs[|bs| - 1], now) then [|bs| - 1] else [])
  }

  /** One more backend examined: its index is appended exactly when its check passes. */
  lemma AvailableStep(bs: seq<BackendServer>, i: nat, now: int)
    requires i < |bs|
    ensures Available(bs[..i + 1], now) == Available(bs[..i], now) + (if Ready(bs[i], now) then [i] else [])
  {
    assert bs[..i + 1][..i] == bs[..i];
  }

  /**
   * The loop of getAvailableBackends over a backend list: each backend in turn gets its
   * warm-up check, its updated copy replaces it, and its index is kept when it passed.
   */
  method CheckAll(bs: seq<BackendServer>, now: int) returns (after: seq<BackendServer>, avail: seq<nat>)
    ensures after == Refreshed(bs, now)
    ensures avail == Available(bs, now)
  {
    after := bs;
    avail := [];
    var i := 0;
    while i < |bs|
      invariant 0 <= i <= |bs| == |after|
      invariant forall j :: 0 <= j < i ==> after[j] == CheckWarmupFinish(bs[j], now).after
      invariant forall j :: i <= j < |bs| ==> after[j] == bs[j]
      invariant avail == Available(bs[..i], now)
    {
      AvailableStep(bs, i, now);
      var check := CheckWarmupFinish(after[i], now);
      after := after[i := check.after];
      if check.finished {
        avail := avail + [i];
      }
      i := i + 1;
    }
    assert bs[..i] == bs;
  }

  /**
   * Eligibility only grows: after the checks at `now`, a check at any later time
   * keeps every backend that was available, and a second pass at the same time
   * changes nothing and finds the same list.
   */
  lemma {:induction false} AvailableAfterRefresh(bs: seq<BackendServer>, now: int, later: int)
    requires now <= later
    ensures forall i :: i in Available(bs, now) ==> i in Available(Refreshed(bs, now), later)
    ensures Refreshed(Refreshed(bs, now), now) == Refreshed(bs, now)
    ensures Available(Refreshed(bs, now), now) == Available(bs, now)
  {
    var rs := Refreshed(bs, now);
    forall i | 0 <= i < |bs|
      ensures Ready(bs[i], now) ==> Ready(rs[i], later)
      ensures Ready(rs[i], now) == Ready(bs[i], now)
      ensures CheckWarmupFinish(rs[i], now).after == rs[i]
    {
      if Ready(bs[i], now) {
        CheckWarmupIdempotent(bs[i], now, later);
        CheckWarmupIdempotent(bs[i], now, now);
      }
    }
    AvailableSameReadiness(bs, rs, now, now);
  }

  /** Two lists with the same readiness, position by position, have the same available list. */
  lemma {:induction false} AvailableSameReadiness(bs: seq<BackendServer>, cs: seq<BackendServer>, t: int, u: int)
    requires |bs| == |cs|
    requires forall i :: 0 <= i < |bs| ==> (Ready(bs[i], t) <==> Ready(cs[i], u))
    ensures Available(bs, t) == Available(cs, u)
  {
    if bs != [] {
      AvailableSameReadiness(bs[..|bs| - 1], cs[..|cs| - 1], t, u);
    }
  }

  /** After the checks at `now`, no available backend is still warming up. */
  lemma AvailableAreWarm(bs: seq<BackendServer>, now: int)
    ensures forall k :: 0 <= k < |Available(bs, now)| ==>
      !Refreshed(bs, now)[Available(bs, now)[k]].isWarmingUp
  {
  }

  // ---------------------------------------------------------------------------
  // Round robin
  // ---------------------------------------------------------------------------

  /** available[cursor mod n], or null when nothing is available. */
  function RoundRobinPick(avail: seq<nat>, cursor: nat): (sel: Option<nat>)
    ensures avail == [] <==> sel.None?
  {
    if avail == [] then None else Some(avail[cursor % |avail|])
  }

  /** Division with remainder is unique. */
  lemma {:induction false} ModOfDecomposition(x: int, q: int, r: int, n: int)
    requires n > 0 && 0 <= r < n && x == q * n + r
    ensures x % n == r
  {
    var q', r' := x / n, x % n;
    assert (q - q') * n == r' - r;
    if q - q' >= 1 {
      MulMonotone(q - q', n);
    } else if q' - q >= 1 {
      MulMonotone(q' - q, n);
    }
  }

  lemma MulMonotone(a: int, n: int)
    requires a >= 1 && n > 0
    ensures a * n >= n
  {
    assert a * n == (a - 1) * n + n;
  }

  lemma ModStep(c: nat, j: nat, n: nat)
    requires n > 0 && j < n
    ensures (c + j) % n == if c % n + j < n then c % n + j else c % n + j - n
  {
    var q, r := c / n, c % n;
    assert c == q * n + r;
    if r + j < n {
      ModOfDecomposition(c + j, q, r + j, n);
    } else {
      ModOfDecomposition(c + j, q + 1, r + j - n, n);
    }
  }

  /**
   * With n available backends and no cursor wrap-around in between, n consecutive
   * round-robin picks starting at `cursor` are the available list rotated by
   * cursor mod n: every backend exactly once, in stable cyclic order.
   */
  lemma RoundRobinRotation(avail: seq<nat>, cursor: nat)
    requires avail != [] && cursor + |avail| <= TWO_TO_32
    ensures var n := |avail|; var r := cursor % n;
      forall j :: 0 <= j < n ==> RoundRobinPick(avail, cursor + j) == Some((avail[r..] + avail[..r])[j])
  {
    var n, r := |avail|, cursor % |avail|;
    forall j | 0 <= j < n
      ensures RoundRobinPick(avail, cursor + j) == Some((avail[r..] + avail[..r])[j])
    {
      ModStep(cursor, j, n);
    }
  }

  /** The n picks of one round form a permutation of the available list. */
  lemma RoundRobinRoundIsPermutation(avail: seq<nat>, cursor: nat)
    requires avail != [] && cursor + |avail| <= TWO_TO_32
    ensures var n := |avail|;
      multiset(seq(n, j requires 0 <= j < n => RoundRobinPick(avail, cursor + j).value)) == multiset(avail)
  {
    var n, r := |avail|, cursor % |avail|;
    var picks := seq(n, j requires 0 <= j < n => RoundRobinPick(avail, cursor + j).value);
    RoundRobinRotation(avail, cursor);
    assert picks == avail[r..] + avail[..r];
    assert avail == avail[..r] + avail[r..];
  }

  /**
   * The 32-bit cursor wraps from 2^32-1 to 0; with three backends both cursor values
   * pick the first one, so the rotation repeats a backend across the wrap.
   */
  lemma RoundRobinWrapRepeats(avail: seq<nat>)
    requires |avail| == 3
    ensures RoundRobinPick(avail, UINT32_MAX) == RoundRobinPick(avail, Inc32(UINT32_MAX)) == Some(avail[0])
  {
  }

  // ---------------------------------------------------------------------------
  // Least connections
  // ---------------------------------------------------------------------------

  /**
   * What selectLeastConn returns: null exactly when every available count is UINT32_MAX
   * (the scan starts from UINT32_MAX with a strict <); otherwise an available backend
   * with the least count, the first such in list order.
   */
  predicate LeastConnChoice(avail: seq<nat>, counts: seq<u32>, sel: Option<nat>)
    requires forall k :: 0 <= k < |avail| ==> avail[k] < |counts|
  {
    (sel.None? <==> forall k :: 0 <= k < |avail| ==> counts[avail[k]] == UINT32_MAX) &&
    (sel.Some? ==>
      sel.value in avail && sel.value < |counts| &&
      (forall k :: 0 <= k < |avail| ==> counts[sel.value] <= counts[avail[k]]) &&
      (forall k :: 0 <= k < |avail| && avail[k] < sel.value ==> counts[sel.value] < counts[avail[k]]))
  }

  /** The scan of selectLeastConn over the available list. */
  method LeastConnScan(avail: seq<nat>, counts: seq<u32>) returns (sel: Option<nat>)
    requires Increasing(avail)
    requires forall k :: 0 <= k < |avail| ==> avail[k] < |counts|
    ensures LeastConnChoice(avail, counts, sel)
  {
    sel := None;
    var minConn: u32 := UINT32_MAX;
    ghost var pos: nat := 0;
    for k := 0 to |avail|
      invariant sel.None? ==> minConn == UINT32_MAX && forall j :: 0 <= j < k ==> counts[avail[j]] == UINT32_MAX
      invariant sel.Some? ==> minConn < UINT32_MAX
      invariant sel.Some? ==> pos < k && sel.value == avail[pos] && minConn == counts[sel.value]
      invariant forall j :: 0 <= j < k ==> minConn <= counts[avail[j]]
      invariant sel.Some? ==> forall j :: 0 <= j < pos ==> minConn < counts[avail[j]]
    {
      var conn := counts[avail[k]];
      if conn < minConn {
        minConn := conn;
        sel := Some(avail[k]);
        pos := k;
      }
    }
    if sel.Some? {
      forall k | 0 <= k < |avail| && avail[k] < sel.value
        ensures counts[sel.value] < counts[avail[k]]
      {
        assert k < pos;
      }
    }
  }

  // ---------------------------------------------------------------------------
  // GPU aware
  // ---------------------------------------------------------------------------

  /**
   * What selectGPUAware returns: the scan starts at -1 with a strict >, so it is null
   * exactly when every available weight is at most -1; otherwise an available backend
   * of maximal GPU-aware weight, the first such in list order.
   */
  predicate GpuAwareChoice(bs: seq<BackendServer>, avail: seq<nat>, sel: Option<nat>)
    requires forall k :: 0 <= k < |avail| ==> avail[k] < |bs|
  {
    (sel.None? <==> forall k :: 0 <= k < |avail| ==> GpuAwareWeight(bs[avail[k]]) <= -1.0) &&
    (sel.Some? ==>
      sel.value in avail && sel.value < |bs| &&
      GpuAwareWeight(bs[sel.value]) > -1.0 &&
      (forall k :: 0 <= k < |avail| ==> GpuAwareWeight(bs[avail[k]]) <= GpuAwareWeight(bs[sel.value])) &&
      (forall k :: 0 <= k < |avail| && avail[k] < sel.value ==>
        GpuAwareWeight(bs[avail[k]]) < GpuAwareWeight(bs[sel.value])))
  }

  /** The scan of selectGPUAware over the available list. */
  method GpuAwareScan(bs: seq<BackendServer>, avail: seq<nat>) returns (sel: Option<nat>)
    requires Increasing(avail)
    requires forall k :: 0 <= k < |avail| ==> avail[k] < |bs|
    ensures GpuAwareChoice(bs, avail, sel)
  {
    sel := None;
    var maxWeight: real := -1.0;
    ghost var pos: nat := 0;
    for k := 0 to |avail|
      invariant sel.None? ==> maxWeight == -1.0 && forall j :: 0 <= j < k ==> GpuAwareWeight(bs[avail[j]]) <= -1.0
      invariant sel.Some? ==> pos < k && sel.value == avail[pos] && maxWeight == GpuAwareWeight(bs[sel.value])
      invariant sel.Some? ==> maxWeight > -1.0
      invariant forall j :: 0 <= j < k ==> GpuAwareWeight(bs[avail[j]]) <= maxWeight
      invariant sel.Some? ==> forall j :: 0 <= j < pos ==> GpuAwareWeight(bs[avail[j]]) < maxWeight
    {
      var weight := GpuAwareWeight(bs[avail[k]]);
      if weight > maxWeight {
        maxWeight := weight;
        sel := Some(avail[k]);
        pos := k;
      }
    }
    if sel.Some? {
      forall k | 0 <= k < |avail| && avail[k] < sel.value
        ensures GpuAwareWeight(bs[avail[k]]) < GpuAwareWeight(bs[sel.value])
      {
        assert k < pos;
      }
    }
  }

  /**
   * With memory usage within [0, 1] on every available backend, GPU-aware selection
   * returns a backend whenever one is available.
   */
  lemma GpuAwareFindsOne(bs: seq<BackendServer>, avail: seq<nat>, sel: Option<nat>)
    requires forall k :: 0 <= k < |avail| ==> avail[k] < |bs| && 0.0 <= bs[avail[k]].vramUsage <= 1.0
    requires GpuAwareChoice(bs, avail, sel)
    ensures avail != [] ==> sel.Some?
  {
    if avail != [] {
      GpuAwareWeightBounds(bs[avail[0]]);
    }
  }

  // ---------------------------------------------------------------------------
  // Source-IP affinity
  // ---------------------------------------------------------------------------

  /**
   * The value of `c - '0'` for a std::string byte where `char` is signed (x86-64):
   * bytes 0x80..0xFF read as -128..-1. A character above 0xFF stands for its low byte.
   */
  function DigitOf(c: char): (d: int)
    ensures '0' <= c <= '9' ==> d == c as int - '0' as int
    ensures -176 <= d <= 79
  {
    var b := c as int % 256;
    (if b >= 128 then b - 256 else b) - '0' as int
  }

  /**
   * ip_hash: hash := hash * 10 + (c - '0') in 32-bit unsigned arithmetic over every
   * character other than '.'.
   */
  function IpHash(ip: string): u32
  {
    if ip == [] then 0
    else
      var h := IpHash(ip[..|ip| - 1]);
      var c := ip[|ip| - 1];
      if c == '.' then h else (h * 10 + DigitOf(c)) % TWO_TO_32
  }

  /** A byte of 0x80 or more counts as negative: "\xC3" hashes to 2^32 - 109, not 147. */
  lemma IpHashHighByteIsNegative()
    ensures IpHash("\U{C3}") == TWO_TO_32 - 109
    ensures IpHash("\U{C3}") % 11 == 5
  {
    assert "\U{C3}"[..0] == [];
  }

  /** The loop of the ip_hash lambda. */
  method ComputeIpHash(ip: string) returns (hash: u32)
    ensures hash == IpHash(ip)
  {
    hash := 0;
    for k := 0 to |ip|
      invariant hash == IpHash(ip[..k])
    {
      assert ip[..k + 1][..k] == ip[..k];
      var c := ip[k];
      if c != '.' {
        hash := (hash * 10 + DigitOf(c)) % TWO_TO_32;
      }
    }
    assert ip[..|ip|] == ip;
  }

  /** The same fold in unbounded integers: the digits read as one decimal number. */
  function DigitFold(s: string): int
  {
    if s == [] then 0
    else
      var c := s[|s| - 1];
      if c == '.' then DigitFold(s[..|s| - 1]) else DigitFold(s[..|s| - 1]) * 10 + DigitOf(c)
  }

  lemma ModMulAdd(a: int, d: int)
    ensures ((a % TWO_TO_32) * 10 + d) % TWO_TO_32 == (a * 10 + d) % TWO_TO_32
  {
    var q := a / TWO_TO_32;
    assert a * 10 + d == (a % TWO_TO_32) * 10 + d + (q * 10) * TWO_TO_32;
  }

  /** The 32-bit hash is the unbounded digit fold reduced mod 2^32. */
  lemma {:induction false} IpHashIsFoldMod(ip: string)
    ensures IpHash(ip) == DigitFold(ip) % TWO_TO_32
  {
    if ip != [] {
      var p := ip[..|ip| - 1];
      IpHashIsFoldMod(p);
      if ip[|ip| - 1] != '.' {
        ModMulAdd(DigitFold(p), DigitOf(ip[|ip| - 1]));
      }
    }
  }

  /** Dots do not contribute: removing one leaves the hash unchanged. */
  lemma {:induction false} IpHashIgnoresDot(a: string, b: string)
    ensures IpHash(a + "." + b) == IpHash(a + b)
    decreases |b|
  {
    if b == [] {
      assert (a + "." + b)[..|a + "." + b| - 1] == a;
      assert a + b == a;
    } else {
      var b' := b[..|b| - 1];
      IpHashIgnoresDot(a, b');
      assert (a + "." + b)[..|a + "." + b| - 1] == a + "." + b';
      assert (a + b)[..|a + b| - 1] == a + b';
    }
  }

  /**
   * Addresses that differ only in where the dots fall collide: "1.23.4.5" and
   * "12.3.4.5" always go to the same backend.
   */
  lemma IpHashDotPlacementCollides()
    ensures IpHash("1.23.4.5") == IpHash("12.3.4.5")
  {
    IpHashIgnoresDot("1", "23.4.5");
    IpHashIgnoresDot("12", "3.4.5");
    assert "1.23.4.5" == "1" + "." + "23.4.5";
    assert "12.3.4.5" == "12" + "." + "3.4.5";
    assert "1" + "23.4.5" == "12" + "3.4.5";
  }

  /** available[hash mod n], or null when nothing is available. */
  function ClientIpPick(avail: seq<nat>, ip: string): (sel: Option<nat>)
    ensures avail == [] <==> sel.None?
    ensures sel.Some? ==> sel.value in avail
  {
    if avail == [] then None else Some(avail[IpHash(ip) % |avail|])
  }

  /**
   * Stickiness: with the backends as one selection left them, a second selection for
   * the same address at the same time routes to the same backend.
   */
  lemma ClientIpSticky(bs: seq<BackendServer>, ip: string, now: int)
    ensures ClientIpPick(Available(Refreshed(bs, now), now), ip) == ClientIpPick(Available(bs, now), ip)
  {
    AvailableAfterRefresh(bs, now, now);
  }

  // ---------------------------------------------------------------------------
  // The balancer
  // ---------------------------------------------------------------------------

  class LoadBalancer {
    var lbType: LoadBalanceType
    var backends: seq<BackendServer>
    var rrIndex: u32
    var connCounts: seq<u32>
    /** Per backend, how many times incrConnCount and decrConnCount were called. */
    ghost var opens: seq<nat>
    ghost var closes: seq<nat>

    /** One counter per backend, each equal to opens minus closes modulo 2^32. */
    ghost predicate Valid()
      reads this
    {
      |connCounts| == |backends| && |opens| == |backends| && |closes| == |backends| &&
      forall i :: 0 <= i < |backends| ==> connCounts[i] == (opens[i] - closes[i]) % TWO_TO_32
    }

    constructor(lbType: LoadBalanceType := RoundRobin)
      ensures Valid()
      ensures this.lbType == lbType && backends == [] && rrIndex == 0
    {
      this.lbType := lbType;
      backends := [];
      rrIndex := 0;
      connCounts := [];
      opens := [];
      closes := [];
    }

    /** Appends a copy of `b` with a connection count of 0; nothing else changes. */
    method AddBackend(b: BackendServer)
      requires Valid()
      modifies this
      ensures Valid()
      ensures backends == old(backends) + [b] && connCounts == old(connCounts) + [0]
      ensures lbType == old(lbType) && rrIndex == old(rrIndex)
    {
      backends := backends + [b];
      connCounts := connCounts + [0];
      opens := opens + [0];
      closes := closes + [0];
    }

    /**
     * getAvailableBackends: runs the warm-up check on every backend in list order,
     * writing each back, and returns the indices of those that passed.
     */
    method GetAvailableBackends(now: int) returns (avail: seq<nat>)
      requires Valid()
      modifies this
      ensures Valid()
      ensures avail == Available(old(backends), now)
      ensures backends == Refreshed(old(backends), now)
      ensures connCounts == old(connCounts) && rrIndex == old(rrIndex) && lbType == old(lbType)
      ensures opens == old(opens) && closes == old(closes)
    {
      var after;
      after, avail := CheckAll(backends, now);
      backends := after;
    }

    method SelectRoundRobin(now: int) returns (sel: Option<nat>)
      requires Valid()
      modifies this
      ensures Valid()
      ensures backends == Refreshed(old(backends), now)
      ensures sel == RoundRobinPick(Available(old(backends), now), old(rrIndex))
      ensures rrIndex == if sel.None? then old(rrIndex) else Inc32(old(rrIndex))
      ensures connCounts == old(connCounts) && lbType == old(lbType)
    {
      var avail := GetAvailableBackends(now);
      if avail == [] {
        return None;
      }
      var idx := rrIndex % |avail|;
      rrIndex := Inc32(rrIndex);
      sel := Some(avail[idx]);
    }

    method SelectLeastConn(now: int) returns (sel: Option<nat>)
      requires Valid()
      modifies this
      ensures Valid()
      ensures backends == Refreshed(old(backends), now)
      ensures LeastConnChoice(Available(old(backends), now), connCounts, sel)
      ensures connCounts == old(connCounts) && rrIndex == old(rrIndex) && lbType == old(lbType)
    {
      var avail := GetAvailableBackends(now);
      if avail == [] {
        return None;
      }
      sel := LeastConnScan(avail, connCounts);
    }

    method SelectGpuAware(now: int) returns (sel: Option<nat>)
      requires Valid()
      modifies this
      ensures Valid()
      ensures backends == Refreshed(old(backends), now)
      ensures GpuAwareChoice(backends, Available(old(backends), now), sel)
      ensures connCounts == old(connCounts) && rrIndex == old(rrIndex) && lbType == old(lbType)
    {
      var avail := GetAvailableBackends(now);
      if avail == [] {
        return None;
      }
      sel := GpuAwareScan(backends, avail);
    }

    /**
     * selectBackend: dispatches on the policy. Whatever the policy, the result is an
     * available backend, and null whenever none is available.
     */
    method SelectBackend(now: int) returns (sel: Option<nat>)
      requires Valid()
      modifies this
      ensures Valid()
      ensures backends == Refreshed(old(backends), now)
      ensures sel.Some? ==> sel.value in Available(old(backends), now)
      ensures Available(old(backends), now) == [] ==> sel.None?
      ensures old(lbType) == RoundRobin ==> sel == RoundRobinPick(Available(old(backends), now), old(rrIndex))
      ensures old(lbType) == LeastConn ==> LeastConnChoice(Available(old(backends), now), connCounts, sel)
      ensures old(lbType) == GpuAware ==> GpuAwareChoice(backends, Available(old(backends), now), sel)
      ensures rrIndex == if old(lbType) == RoundRobin && sel.Some? then Inc32(old(rrIndex)) else old(rrIndex)
      ensures connCounts == old(connCounts) && lbType == old(lbType)
    {
      match lbType
      case RoundRobin => sel := SelectRoundRobin(now);
      case LeastConn => sel := SelectLeastConn(now);
      case GpuAware => sel := SelectGpuAware(now);
    }

    /** selectByClientIP: available[ip_hash(ip) mod n]; not reachable from SelectBackend. */
    method SelectByClientIp(clientIp: string, now: int) returns (sel: Option<nat>)
      requires Valid()
      modifies this
      ensures Valid()
      ensures backends == Refreshed(old(backends), now)
      ensures sel == ClientIpPick(Available(old(backends), now), clientIp)
      ensures connCounts == old(connCounts) && rrIndex == old(rrIndex) && lbType == old(lbType)
    {
      var avail := GetAvailableBackends(now);
      if avail == [] {
        return None;
      }
      var hashVal := ComputeIpHash(clientIp);
      var idx := hashVal % |avail|;
      sel := Some(avail[idx]);
    }

    /** Connection opened on `backend`: its counter goes up by one (mod 2^32); null is a no-op. */
    method IncrConnCount(backend: Option<nat>)
      requires Valid()
      requires backend.Some? ==> backend.value < |backends|
      modifies this
      ensures Valid()
      ensures backend.None? ==> connCounts == old(connCounts) && opens == old(opens)
      ensures backend.Some? ==>
        connCounts == old(connCounts)[backend.value := Inc32(old(connCounts)[backend.value])] &&
        opens == old(opens)[backend.value := old(opens)[backend.value] + 1]
      ensures backends == old(backends) && rrIndex == old(rrIndex) && lbType == old(lbType)
      ensures closes == old(closes)
    {
      if backend.Some? {
        var i := backend.value;
        connCounts := connCounts[i := Inc32(connCounts[i])];
        opens := opens[i := opens[i] + 1];
      }
    }

    /** Connection closed on `backend`: its counter goes down by one, 0 wrapping to 2^32-1. */
    method DecrConnCount(backend: Option<nat>)
      requires Valid()
      requires backend.Some? ==> backend.value < |backends|
      modifies this
      ensures Valid()
      ensures backend.None? ==> connCounts == old(connCounts) && closes == old(closes)
      ensures backend.Some? ==>
        connCounts == old(connCounts)[backend.value := Dec32(old(connCounts)[backend.value])] &&
        closes == old(closes)[backend.value := old(closes)[backend.value] + 1]
      ensures backends == old(backends) && rrIndex == old(rrIndex) && lbType == old(lbType)
      ensures opens == old(opens)
    {
      if backend.Some? {
        var i := backend.value;
        connCounts := connCounts[i := Dec32(connCounts[i])];
        closes := closes[i := closes[i] + 1];
      }
    }
  }

  /** An open followed by a close on the same backend leaves every counter as it was. */
  method OpenThenClose(lb: LoadBalancer, backend: Option<nat>)
    requires lb.Valid()
    requires backend.Some? ==> backend.value < |lb.backends|
    modifies lb
    ensures lb.Valid() && lb.connCounts == old(lb.connCounts)
  {
    lb.IncrConnCount(backend);
    lb.DecrConnCount(backend);
    if backend.Some? {
      Dec32Inc32Inverse(old(lb.connCounts)[backend.value]);
    }
  }
}
