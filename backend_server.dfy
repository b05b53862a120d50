/**
 * One backend compute node as the load balancer stores it: address, static weight,
 * GPU telemetry and the time-boxed warm-up state.
 *
 * The C++ struct is held by value inside the balancer's vector, so it is a datatype
 * here; the in-place update of checkWarmupFinish is the transition function
 * CheckWarmupFinish, which the balancer writes back into its sequence.
 * Time is whole seconds on a monotonic clock, passed in as `now`.
 */
module BackendServer {
  import opened Basics

  /** Seconds a new backend stays in warm-up. */
  const WARMUP_SECONDS: int := 5

  datatype BackendServer = BackendServer(
    ip: string,
    port: u16,
    weight: u32,
    gpuUsage: real,
    vramUsage: real,
    isWarmingUp: bool,
    warmupStart: int)

  /** The constructor: usages start at zero, the node starts warming up at `now`. */
  function NewBackend(ip: string, port: u16, now: int, weight: u32 := 1): (b: BackendServer)
    ensures b.ip == ip && b.port == port && b.weight == weight
    ensures b.gpuUsage == 0.0 && b.vramUsage == 0.0
    ensures b.isWarmingUp && b.warmupStart == now
  {
    BackendServer(ip, port, weight, 0.0, 0.0, true, now)
  }

  /** What checkWarmupFinish returns, and the backend as it leaves the call. */
  datatype WarmupCheck = WarmupCheck(finished: bool, after: BackendServer)

  /**
   * checkWarmupFinish at time `now`: a backend out of warm-up reports true untouched;
   * one warming up for at least WARMUP_SECONDS leaves warm-up with weight reset to 1;
   * otherwise it reports false untouched.
   */
  function CheckWarmupFinish(b: BackendServer, now: int): (r: WarmupCheck)
    ensures r.finished == !r.after.isWarmingUp
    ensures r.after == b || (b.isWarmingUp && r.after == b.(isWarmingUp := false, weight := 1))
    ensures !b.isWarmingUp ==> r.finished && r.after == b
    ensures b.isWarmingUp ==> (r.finished <==> now - b.warmupStart >= WARMUP_SECONDS)
  {
    if !b.isWarmingUp then WarmupCheck(true, b)
    else if now - b.warmupStart >= WARMUP_SECONDS then WarmupCheck(true, b.(isWarmingUp := false, weight := 1))
    else WarmupCheck(false, b)
  }

  /** Whether the check at `now` lets the backend through. */
  predicate Ready(b: BackendServer, now: int)
  {
    CheckWarmupFinish(b, now).finished
  }

  /**
   * Repeating the check is harmless: once a check has let a backend through, any later
   * check (at any time) lets it through again and changes nothing further.
   */
  lemma CheckWarmupIdempotent(b: BackendServer, now: int, later: int)
    requires Ready(b, now)
    ensures var a := CheckWarmupFinish(b, now).after;
      CheckWarmupFinish(a, later) == WarmupCheck(true, a)
  {
  }

  /** The warm-up flag is never set again once it has been cleared. */
  lemma WarmupNeverResumes(b: BackendServer, now: int)
    requires !b.isWarmingUp
    ensures !CheckWarmupFinish(b, now).after.isWarmingUp
  {
  }

  /**
   * A backend created at `start` is held back for the whole grace interval and let
   * through from then on, with weight 1 whatever its constructor weight was.
   */
  lemma WarmupGate(ip: string, port: u16, weight: u32, start: int, now: int)
    ensures var c := CheckWarmupFinish(NewBackend(ip, port, start, weight), now);
      (c.finished <==> now >= start + WARMUP_SECONDS) &&
      (c.finished ==> c.after.weight == 1 && !c.after.isWarmingUp) &&
      (!c.finished ==> c.after == NewBackend(ip, port, start, weight))
  {
  }

  /** Readiness only grows with time. */
  lemma ReadyMonotone(b: BackendServer, now: int, later: int)
    requires now <= later && Ready(b, now)
    ensures Ready(b, later)
  {
  }

  /**
   * getGPUAwareWeight: 0 while warming up, otherwise (1 - vram_usage) * weight
   * (computed in single precision in the source; exact reals here).
   */
  function GpuAwareWeight(b: BackendServer): (w: real)
    ensures b.isWarmingUp ==> w == 0.0
  {
    if b.isWarmingUp then 0.0 else (1.0 - b.vramUsage) * b.weight as real
  }

  /**
   * With vram_usage in [0, 1] the weight lies between 0 and the static weight, and it is
   * positive for a ready backend with spare memory and a positive static weight.
   */
  lemma GpuAwareWeightBounds(b: BackendServer)
    requires 0.0 <= b.vramUsage <= 1.0
    ensures 0.0 <= GpuAwareWeight(b) <= b.weight as real
    ensures !b.isWarmingUp && b.vramUsage < 1.0 && b.weight > 0 ==> GpuAwareWeight(b) > 0.0
  {
    if !b.isWarmingUp {
      var free, w := 1.0 - b.vramUsage, b.weight as real;
      assert GpuAwareWeight(b) == free * w;
      MulBounds(free, w);
      assert b.weight > 0 ==> w > 0.0;
    }
  }

  lemma MulBounds(x: real, w: real)
    requires 0.0 <= x <= 1.0 && 0.0 <= w
    ensures 0.0 <= x * w <= w
    ensures x > 0.0 && w > 0.0 ==> x * w > 0.0
  {
    assert (1.0 - x) * w >= 0.0;
  }

  /** A freer GPU never weighs less, at equal static weight. */
  lemma GpuAwareWeightAntitone(b: BackendServer, vram: real)
    requires !b.isWarmingUp && vram <= b.vramUsage
    ensures GpuAwareWeight(b) <= GpuAwareWeight(b.(vramUsage := vram))
  {
    var d := b.vramUsage - vram;
    assert GpuAwareWeight(b.(vramUsage := vram)) == GpuAwareWeight(b) + d * b.weight as real;
  }
}
