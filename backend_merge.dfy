/**
 * The control plane's backend table: backend records from the service-discovery file
 * (k8s) and from the runtime registration file are normalised, merged by their
 * "<ip>:<port>" key with runtime records taking precedence, filtered and sorted by
 * (ip, port) before they are written into the proxy configuration.
 *
 * A record read from JSON is a RawBackend: each field is None when the key is absent
 * (or, for the numeric fields, null). The merge is pure, so it is a function.
 */
module BackendMerge {
  import opened Basics
  import opened Decimal

  // ---------------------------------------------------------------------------
  // Records
  // ---------------------------------------------------------------------------

  datatype RawBackend = RawBackend(
    ip: Option<string>,
    port: Option<int>,
    weight: Option<int>,
    gpuUsage: Option<real>,
    vramUsage: Option<real>,
    enabled: Option<bool>,
    isWarmingUp: Option<bool>,
    lastSeen: Option<int>)

  /** A normalised backend, tagged with the file it came from. */
  datatype Backend = Backend(
    ip: string,
    port: int,
    weight: int,
    gpuUsage: Option<real>,
    vramUsage: Option<real>,
    enabled: bool,
    isWarmingUp: bool,
    lastSeen: int,
    source: string)

  /** Python's `int(x or d)` on an optional integer: absent, null and 0 all give `d`. */
  function IntOr(x: Option<int>, d: int): (r: int)
    ensures x.Some? && x.value != 0 ==> r == x.value
    ensures x.None? || x.value == 0 ==> r == d
  {
    if x.None? || x.value == 0 then d else x.value
  }

  /** `b.get(key, d)` on an optional boolean. */
  function BoolOr(x: Option<bool>, d: bool): bool
  {
    if x.Some? then x.value else d
  }

  // ---------------------------------------------------------------------------
  // str.strip()
  // ---------------------------------------------------------------------------

  /** The characters str.isspace() accepts. */
  predicate IsPyWhitespace(c: char)
  {
    var n := c as int;
    (9 <= n <= 13) || (28 <= n <= 32) || n == 0x85 || n == 0xA0 || n == 0x1680 ||
    (0x2000 <= n <= 0x200A) || n == 0x2028 || n == 0x2029 || n == 0x202F ||
    n == 0x205F || n == 0x3000
  }

  function StripLeft(s: string): (r: string)
    ensures |r| <= |s| && r == s[|s| - |r|..]
    ensures forall i :: 0 <= i < |s| - |r| ==> IsPyWhitespace(s[i])
    ensures r != [] ==> !IsPyWhitespace(r[0])
  {
    if s != [] && IsPyWhitespace(s[0]) then StripLeft(s[1..]) else s
  }

  function StripRight(s: string): (r: string)
    ensures |r| <= |s| && r == s[..|r|]
    ensures forall i :: |r| <= i < |s| ==> IsPyWhitespace(s[i])
    ensures r != [] ==> !IsPyWhitespace(r[|r| - 1])
  {
    if s != [] && IsPyWhitespace(s[|s| - 1]) then StripRight(s[..|s| - 1]) else s
  }

  /** str.strip(): whitespace removed from both ends. */
  function Strip(s: string): (r: string)
    ensures r != [] ==> !IsPyWhitespace(r[0]) && !IsPyWhitespace(r[|r| - 1])
    ensures exists i, j ::
      (0 <= i <= j <= |s| && r == s[i..j] &&
       (forall k :: 0 <= k < i ==> IsPyWhitespace(s[k])) &&
       (forall k :: j <= k < |s| ==> IsPyWhitespace(s[k])))
  {
    var l := StripLeft(s);
    var r := StripRight(l);
    SliceCompose(s, l, r);
    WhitespaceAfter(s, l, |r|);
    r
  }

  /** Whitespace after position `n` of a suffix `l` of `s` is whitespace in `s`. */
  lemma WhitespaceAfter(s: string, l: string, n: nat)
    requires |l| <= |s| && l == s[|s| - |l|..] && n <= |l|
    requires forall k :: n <= k < |l| ==> IsPyWhitespace(l[k])
    ensures forall k :: |s| - |l| + n <= k < |s| ==> IsPyWhitespace(s[k])
  {
    var i := |s| - |l|;
    forall k | i + n <= k < |s|
      ensures IsPyWhitespace(s[k])
    {
      assert s[k] == l[k - i];
    }
  }

  /** A prefix of a suffix is a slice. */
  lemma SliceCompose<T>(s: seq<T>, l: seq<T>, r: seq<T>)
    requires |l| <= |s| && l == s[|s| - |l|..]
    requires |r| <= |l| && r == l[..|r|]
    ensures r == s[|s| - |l|..|s| - |l| + |r|]
  {
  }

  /** A string without whitespace at its ends is its own strip. */
  lemma StripFixed(s: string)
    requires s != [] ==> !IsPyWhitespace(s[0]) && !IsPyWhitespace(s[|s| - 1])
    ensures Strip(s) == s
  {
    assert StripLeft(s) == s;
  }

  lemma StripIdempotent(s: string)
    ensures Strip(Strip(s)) == Strip(s)
  {
    StripFixed(Strip(s));
  }

  // ---------------------------------------------------------------------------
  // normalize_backend and key_of
  // ---------------------------------------------------------------------------

  /**
   * normalize_backend: the stripped ip ("" when absent); port, weight and last_seen
   * with 0 for absent, null or 0; GPU figures as given; enabled defaulting to true,
   * is_warming_up to false; the source tag as given.
   */
  function NormalizeBackend(b: RawBackend, source: string): Backend
  {
    Backend(
      Strip(if b.ip.Some? then b.ip.value else ""),
      IntOr(b.port, 0),
      IntOr(b.weight, 0),
      b.gpuUsage,
      b.vramUsage,
      BoolOr(b.enabled, true),
      BoolOr(b.isWarmingUp, false),
      IntOr(b.lastSeen, 0),
      source)
  }

  /** A normalised backend written back as a record with every key present. */
  function ToRaw(b: Backend): RawBackend
  {
    RawBackend(Some(b.ip), Some(b.port), Some(b.weight), b.gpuUsage, b.vramUsage,
      Some(b.enabled), Some(b.isWarmingUp), Some(b.lastSeen))
  }

  /** An empty record normalises to all the defaults. */
  lemma NormalizeDefaults(source: string)
    ensures NormalizeBackend(RawBackend(None, None, None, None, None, None, None, None), source)
      == Backend("", 0, 0, None, None, true, false, 0, source)
  {
    assert Strip("") == "";
  }

  /** Normalising is a projection: a normalised record, written back and re-read, is unchanged. */
  lemma NormalizeIdempotent(b: RawBackend, source: string)
    ensures var nb := NormalizeBackend(b, source);
      NormalizeBackend(ToRaw(nb), source) == nb
  {
    var nb := NormalizeBackend(b, source);
    var again := NormalizeBackend(ToRaw(nb), source);
    NormalizeIpIdempotent(b, source);
    assert again.port == nb.port && again.weight == nb.weight && again.lastSeen == nb.lastSeen;
  }

  lemma NormalizeIpIdempotent(b: RawBackend, source: string)
    ensures var nb := NormalizeBackend(b, source);
      NormalizeBackend(ToRaw(nb), source).ip == nb.ip
  {
    StripIdempotent(if b.ip.Some? then b.ip.value else "");
  }

  /** key_of: "<ip>:<port>". */
  function KeyOf(b: Backend): string
  {
    b.ip + ":" + IntToString(b.port)
  }

  lemma ColonJoinIndex(x: string, p: string, i: int)
    ensures i == |x| ==> (x + ":" + p)[i] == ':'
    ensures |x| < i < |x| + 1 + |p| ==> (x + ":" + p)[i] == p[i - |x| - 1]
  {
  }

  lemma SplitAtLastColon(x: string, p: string, y: string, q: string)
    requires ':' !in p && ':' !in q
    requires x + ":" + p == y + ":" + q
    ensures x == y && p == q
  {
    var s := x + ":" + p;
    if |x| < |y| {
      ColonJoinIndex(x, p, |y|);
      ColonJoinIndex(y, q, |y|);
      assert false;
    } else if |y| < |x| {
      ColonJoinIndex(x, p, |x|);
      ColonJoinIndex(y, q, |x|);
      assert false;
    }
    assert x == s[..|x|];
    assert p == s[|x| + 1..];
  }

  /**
   * The key identifies ip and port: a decimal port holds no ':', so the key's last ':'
   * separates them, even when the ip itself contains ':'.
   */
  lemma KeyOfInjective(a: Backend, b: Backend)
    requires KeyOf(a) == KeyOf(b)
    ensures a.ip == b.ip && a.port == b.port
  {
    assert ':' !in IntToString(a.port) && ':' !in IntToString(b.port);
    SplitAtLastColon(a.ip, IntToString(a.port), b.ip, IntToString(b.port));
    IntToStringInjective(a.port, b.port);
  }

  // ---------------------------------------------------------------------------
  // The dict `out` of merge_backends
  // ---------------------------------------------------------------------------

  /** No two entries share a key. */
  predicate DistinctKeys(d: seq<Backend>)
  {
    forall i, j :: 0 <= i < j < |d| ==> KeyOf(d[i]) != KeyOf(d[j])
  }

  /** `out[k]`: the entry stored under key `k`, if any. */
  function Lookup(d: seq<Backend>, k: string): (r: Option<Backend>)
    ensures r.Some? ==> r.value in d && KeyOf(r.value) == k
    ensures r.None? ==> forall i :: 0 <= i < |d| ==> KeyOf(d[i]) != k
  {
    if d == [] then None
    else if KeyOf(d[0]) == k then Some(d[0])
    else Lookup(d[1..], k)
  }

  /** `out[key_of(nb)] = nb`: overwrites in place the entry with that key, or appends. */
  function Upsert(d: seq<Backend>, nb: Backend): (r: seq<Backend>)
    ensures nb in r
    ensures forall y :: y in r ==> y == nb || y in d
    ensures forall i :: 0 <= i < |d| && KeyOf(d[i]) != KeyOf(nb) ==> d[i] in r
  {
    if d == [] then [nb]
    else if KeyOf(d[0]) == KeyOf(nb) then [nb] + d[1..]
    else [d[0]] + Upsert(d[1..], nb)
  }

  lemma {:induction false} UpsertLookup(d: seq<Backend>, nb: Backend, k: string)
    requires DistinctKeys(d)
    ensures DistinctKeys(Upsert(d, nb))
    ensures Lookup(Upsert(d, nb), k) == if k == KeyOf(nb) then Some(nb) else Lookup(d, k)
  {
    if d == [] {
    } else if KeyOf(d[0]) == KeyOf(nb) {
      assert Upsert(d, nb) == [nb] + d[1..];
      ReplaceHeadDistinct(d, nb);
    } else {
      var tail := d[1..];
      DistinctKeysTail(d);
      UpsertLookup(tail, nb, k);
      assert Upsert(d, nb) == [d[0]] + Upsert(tail, nb);
      ConsDistinct(d, Upsert(tail, nb), nb);
    }
  }

  /** Replacing the first entry by one with the same key keeps the keys distinct. */
  lemma ReplaceHeadDistinct(d: seq<Backend>, nb: Backend)
    requires d != [] && DistinctKeys(d) && KeyOf(d[0]) == KeyOf(nb)
    ensures DistinctKeys([nb] + d[1..])
  {
    var r := [nb] + d[1..];
    forall i, j | 0 <= i < j < |r|
      ensures KeyOf(r[i]) != KeyOf(r[j])
    {
      assert r[j] == d[j];
      if i > 0 {
        assert r[i] == d[i];
      }
    }
  }

  /** The first entry, put before the upserted rest of the dict, keeps the keys distinct. */
  lemma ConsDistinct(d: seq<Backend>, rt: seq<Backend>, nb: Backend)
    requires d != [] && DistinctKeys(d) && KeyOf(d[0]) != KeyOf(nb)
    requires DistinctKeys(rt)
    requires forall y :: y in rt ==> y == nb || y in d[1..]
    ensures DistinctKeys([d[0]] + rt)
  {
    var r := [d[0]] + rt;
    forall i, j | 0 <= i < j < |r|
      ensures KeyOf(r[i]) != KeyOf(r[j])
    {
      assert r[j] == rt[j - 1];
      if i == 0 {
        assert r[j] in rt;
        if r[j] != nb {
          var m :| 0 <= m < |d[1..]| && d[1..][m] == r[j];
          assert d[1..][m] == d[m + 1];
        }
      } else {
        assert r[i] == rt[i - 1];
      }
    }
  }

  lemma DistinctKeysTail(d: seq<Backend>)
    requires d != [] && DistinctKeys(d)
    ensures DistinctKeys(d[1..])
  {
    var tail := d[1..];
    forall a, b | 0 <= a < b < |tail|
      ensures KeyOf(tail[a]) != KeyOf(tail[b])
    {
      assert tail[a] == d[a + 1] && tail[b] == d[b + 1];
    }
  }

  /** In a dict without repeated keys, an entry is present iff it is stored under its own key. */
  lemma {:induction false} MemberIffLookup(d: seq<Backend>, b: Backend)
    requires DistinctKeys(d)
    ensures b in d <==> Lookup(d, KeyOf(b)) == Some(b)
  {
    if d != [] && KeyOf(d[0]) != KeyOf(b) {
      MemberIffLookup(d[1..], b);
      assert b in d <==> b in d[1..];
    }
  }

  /** The dict after assigning the normalised `raws` in order. */
  function UpsertAll(d: seq<Backend>, raws: seq<RawBackend>, source: string): seq<Backend>
  {
    if raws == [] then d
    else Upsert(UpsertAll(d, raws[..|raws| - 1], source), NormalizeBackend(raws[|raws| - 1], source))
  }

  /** The normalised form of the last record among `raws` whose key is `k`. */
  function LastWithKey(raws: seq<RawBackend>, source: string, k: string): Option<Backend>
  {
    if raws == [] then None
    else if KeyOf(NormalizeBackend(raws[|raws| - 1], source)) == k then Some(NormalizeBackend(raws[|raws| - 1], source))
    else LastWithKey(raws[..|raws| - 1], source, k)
  }

  lemma {:induction false} UpsertAllLookup(d: seq<Backend>, raws: seq<RawBackend>, source: string, k: string)
    requires DistinctKeys(d)
    ensures DistinctKeys(UpsertAll(d, raws, source))
    ensures Lookup(UpsertAll(d, raws, source), k)
      == match LastWithKey(raws, source, k) case Some(b) => Some(b) case None => Lookup(d, k)
    decreases |raws|
  {
    if raws != [] {
      var init, nb := raws[..|raws| - 1], NormalizeBackend(raws[|raws| - 1], source);
      var d0 := UpsertAll(d, init, source);
      assert UpsertAll(d, raws, source) == Upsert(d0, nb);
      assert LastWithKey(raws, source, k) == if KeyOf(nb) == k then Some(nb) else LastWithKey(init, source, k);
      UpsertAllLookup(d, init, source, k);
      UpsertLookup(d0, nb, k);
    }
  }

  // ---------------------------------------------------------------------------
  // Ordering by (ip, port)
  // ---------------------------------------------------------------------------

  /** Python's `<` on str: lexicographic by code point. */
  predicate StrLess(a: string, b: string)
  {
    if a == [] then b != []
    else if b == [] then false
    else a[0] < b[0] || (a[0] == b[0] && StrLess(a[1..], b[1..]))
  }

  lemma {:induction false} StrLessIrreflexive(a: string)
    ensures !StrLess(a, a)
  {
    if a != [] {
      StrLessIrreflexive(a[1..]);
    }
  }

  lemma {:induction false} StrLessTransitive(a: string, b: string, c: string)
    requires StrLess(a, b) && StrLess(b, c)
    ensures StrLess(a, c)
  {
    if a != [] && b != [] && c != [] && a[0] == b[0] && b[0] == c[0] {
      StrLessTransitive(a[1..], b[1..], c[1..]);
    }
  }

  lemma {:induction false} StrLessTotal(a: string, b: string)
    requires a != b
    ensures StrLess(a, b) || StrLess(b, a)
  {
    if a != [] && b != [] && a[0] == b[0] {
      assert a == [a[0]] + a[1..] && b == [b[0]] + b[1..];
      StrLessTotal(a[1..], b[1..]);
    }
  }

  /** The sort key (ip, port) compared as a Python tuple. */
  predicate IpPortLess(x: Backend, y: Backend)
  {
    StrLess(x.ip, y.ip) || (x.ip == y.ip && x.port < y.port)
  }

  predicate SameIpPort(x: Backend, y: Backend)
  {
    x.ip == y.ip && x.port == y.port
  }

  lemma IpPortLessTransitive(x: Backend, y: Backend, z: Backend)
    requires IpPortLess(x, y) && IpPortLess(y, z)
    ensures IpPortLess(x, z)
  {
    if StrLess(x.ip, y.ip) && StrLess(y.ip, z.ip) {
      StrLessTransitive(x.ip, y.ip, z.ip);
    }
  }

  lemma IpPortLessTotal(x: Backend, y: Backend)
    requires !SameIpPort(x, y)
    ensures IpPortLess(x, y) || IpPortLess(y, x)
  {
    if x.ip != y.ip {
      StrLessTotal(x.ip, y.ip);
    }
  }

  lemma IpPortLessIrreflexive(x: Backend, y: Backend)
    requires SameIpPort(x, y)
    ensures !IpPortLess(x, y)
  {
    StrLessIrreflexive(x.ip);
  }

  /** Strictly increasing by (ip, port): sorted, and no (ip, port) twice. */
  predicate StrictlySorted(s: seq<Backend>)
  {
    forall i, j :: 0 <= i < j < |s| ==> IpPortLess(s[i], s[j])
  }

  /** Inserts `x` before the first entry it precedes. */
  function Insert(x: Backend, s: seq<Backend>): (r: seq<Backend>)
    ensures multiset(r) == multiset(s) + multiset{x}
  {
    if s == [] then [x]
    else if IpPortLess(s[0], x) then
      assert s == [s[0]] + s[1..];
      [s[0]] + Insert(x, s[1..])
    else [x] + s
  }

  lemma {:induction false} InsertSorted(x: Backend, s: seq<Backend>)
    requires StrictlySorted(s)
    requires forall y :: y in s ==> !SameIpPort(x, y)
    ensures StrictlySorted(Insert(x, s))
  {
    if s == [] {
    } else if IpPortLess(s[0], x) {
      InsertSorted(x, s[1..]);
      var r := Insert(x, s);
      var rest := Insert(x, s[1..]);
      forall j | 1 <= j < |r|
        ensures IpPortLess(r[0], r[j])
      {
        assert r[j] in multiset(rest);
        if r[j] != x {
          var k :| 1 <= k < |s| && s[k] == r[j];
        }
      }
    } else {
      IpPortLessTotal(x, s[0]);
      forall j | 0 <= j < |s|
        ensures IpPortLess(x, s[j])
      {
        if j > 0 {
          IpPortLessTransitive(x, s[0], s[j]);
        }
      }
    }
  }

  /** No two entries share (ip, port). */
  predicate DistinctIpPort(s: seq<Backend>)
  {
    forall i, j :: 0 <= i < j < |s| ==> !SameIpPort(s[i], s[j])
  }

  /** `res.sort(key=lambda x: (x["ip"], x["port"]))`, as an insertion sort. */
  function SortByIpPort(s: seq<Backend>): (r: seq<Backend>)
    ensures multiset(r) == multiset(s)
  {
    if s == [] then []
    else
      assert s == s[..|s| - 1] + [s[|s| - 1]];
      Insert(s[|s| - 1], SortByIpPort(s[..|s| - 1]))
  }

  lemma {:induction false} SortByIpPortSorted(s: seq<Backend>)
    requires DistinctIpPort(s)
    ensures StrictlySorted(SortByIpPort(s))
  {
    if s != [] {
      var init, x := s[..|s| - 1], s[|s| - 1];
      SortByIpPortSorted(init);
      forall y | y in SortByIpPort(init)
        ensures !SameIpPort(x, y)
      {
        assert y in multiset(init);
        var k :| 0 <= k < |init| && init[k] == y;
      }
      InsertSorted(x, SortByIpPort(init));
    }
  }

  // ---------------------------------------------------------------------------
  // merge_backends
  // ---------------------------------------------------------------------------

  /** Entries kept in the proxy configuration: a non-empty ip and a positive port. */
  predicate Usable(b: Backend)
  {
    b.ip != [] && b.port > 0
  }

  function FilterUsable(d: seq<Backend>): (r: seq<Backend>)
    ensures forall b :: b in r <==> b in d && Usable(b)
  {
    if d == [] then []
    else (if Usable(d[0]) then [d[0]] else []) + FilterUsable(d[1..])
  }

  lemma {:induction false} FilterKeepsDistinct(d: seq<Backend>)
    requires DistinctKeys(d)
    ensures DistinctIpPort(FilterUsable(d))
  {
    if d != [] {
      DistinctKeysTail(d);
      FilterKeepsDistinct(d[1..]);
      var rest := FilterUsable(d[1..]);
      if Usable(d[0]) {
        assert FilterUsable(d) == [d[0]] + rest;
        ConsDistinctIpPort(d, rest);
      } else {
        assert FilterUsable(d) == rest;
      }
    }
  }

  /** The first entry, put before entries taken from the rest of the dict, shares no (ip, port). */
  lemma ConsDistinctIpPort(d: seq<Backend>, rest: seq<Backend>)
    requires d != [] && DistinctKeys(d) && DistinctIpPort(rest)
    requires forall y :: y in rest ==> y in d[1..]
    ensures DistinctIpPort([d[0]] + rest)
  {
    var r := [d[0]] + rest;
    forall i, j | 0 <= i < j < |r|
      ensures !SameIpPort(r[i], r[j])
    {
      assert r[j] == rest[j - 1];
      if i == 0 {
        assert r[j] in rest;
        var m :| 0 <= m < |d[1..]| && d[1..][m] == r[j];
        assert d[1..][m] == d[m + 1];
        assert KeyOf(d[0]) != KeyOf(r[j]);
      } else {
        assert r[i] == rest[i - 1];
      }
    }
  }

  /** The dict of merge_backends: the k8s records, then the runtime records, by key. */
  function MergedDict(k8s: seq<RawBackend>, runtime: seq<RawBackend>): seq<Backend>
  {
    UpsertAll(UpsertAll([], k8s, "k8s"), runtime, "runtime")
  }

  /** merge_backends. */
  function MergeBackends(k8s: seq<RawBackend>, runtime: seq<RawBackend>): seq<Backend>
  {
    SortByIpPort(FilterUsable(MergedDict(k8s, runtime)))
  }

  /**
   * The record that wins a key: the last runtime record with that key, otherwise the
   * last k8s record with it.
   */
  function Winner(k8s: seq<RawBackend>, runtime: seq<RawBackend>, k: string): Option<Backend>
  {
    match LastWithKey(runtime, "runtime", k)
    case Some(b) => Some(b)
    case None => LastWithKey(k8s, "k8s", k)
  }

  lemma MergedDictLookup(k8s: seq<RawBackend>, runtime: seq<RawBackend>, k: string)
    ensures DistinctKeys(MergedDict(k8s, runtime))
    ensures Lookup(MergedDict(k8s, runtime), k) == Winner(k8s, runtime, k)
  {
    UpsertAllLookup([], k8s, "k8s", k);
    UpsertAllLookup(UpsertAll([], k8s, "k8s"), runtime, "runtime", k);
  }

  /**
   * What the merge keeps: a backend is in the result exactly when it is usable and is
   * the winning record for its key (runtime over k8s, later over earlier).
   */
  lemma MergeBackendsMembers(k8s: seq<RawBackend>, runtime: seq<RawBackend>, b: Backend)
    ensures b in MergeBackends(k8s, runtime) <==> Usable(b) && Winner(k8s, runtime, KeyOf(b)) == Some(b)
  {
    var d := MergedDict(k8s, runtime);
    MergedDictLookup(k8s, runtime, KeyOf(b));
    MemberIffLookup(d, b);
    var f := FilterUsable(d);
    assert b in MergeBackends(k8s, runtime) <==> b in multiset(SortByIpPort(f));
  }

  /**
   * How the merge is ordered: strictly increasing by (ip, port), so no (ip, port) and
   * no key appears twice, and every entry is usable.
   */
  lemma MergeBackendsSorted(k8s: seq<RawBackend>, runtime: seq<RawBackend>)
    ensures StrictlySorted(MergeBackends(k8s, runtime))
    ensures forall b :: b in MergeBackends(k8s, runtime) ==> Usable(b)
  {
    var d := MergedDict(k8s, runtime);
    MergedDictLookup(k8s, runtime, "");
    FilterKeepsDistinct(d);
    SortByIpPortSorted(FilterUsable(d));
    forall b | b in MergeBackends(k8s, runtime)
      ensures Usable(b)
    {
      assert b in multiset(FilterUsable(d));
    }
  }

  /** A runtime record shadows a k8s record with the same ip and port. */
  lemma RuntimeOverridesK8s(k8s: seq<RawBackend>, runtime: seq<RawBackend>, r: RawBackend)
    requires Usable(NormalizeBackend(r, "runtime"))
    ensures NormalizeBackend(r, "runtime") in MergeBackends(k8s, runtime + [r])
    ensures var nb := NormalizeBackend(r, "runtime");
      forall b :: b in MergeBackends(k8s, runtime + [r]) && SameIpPort(b, nb) ==> b == nb
  {
    var nb := NormalizeBackend(r, "runtime");
    var rt := runtime + [r];
    assert rt[..|rt| - 1] == runtime;
    MergeBackendsMembers(k8s, rt, nb);
    forall b | b in MergeBackends(k8s, rt) && SameIpPort(b, nb)
      ensures b == nb
    {
      MergeBackendsMembers(k8s, rt, b);
    }
  }
}
