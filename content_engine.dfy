/**
 * The content engine: the /api/all aggregation of several backend responses into one
 * JSON-like object, and the injection of the proxy identification header.
 */
module ContentEngine {
  import opened Decimal
  import opened Http

  /** The team name injected when the caller names none. */
  const DEFAULT_TEAM: string := "TeamB-LinuxExp"

  /** The (lower-case) header key the proxy identifies itself under. */
  const PROXY_ID_HEADER: string := "x-proxy-id"

  // ---------------------------------------------------------------------------
  // aggregateApiAll
  // ---------------------------------------------------------------------------

  /** One entry of the aggregate: `  "backend_<k>": <response>`. */
  function Entry(k: nat, response: string): string
  {
    "  \"backend_" + NatToString(k) + "\": " + response
  }

  /** The entries for a list of responses, numbered from 1 in input order. */
  function Entries(rs: seq<string>): (es: seq<string>)
    ensures |es| == |rs|
    ensures forall i :: 0 <= i < |rs| ==> es[i] == Entry(i + 1, rs[i])
  {
    seq(|rs|, i requires 0 <= i < |rs| => Entry(i + 1, rs[i]))
  }

  /** The strings with `sep` between each neighbouring pair. */
  function Join(xs: seq<string>, sep: string): string
  {
    if |xs| == 0 then ""
    else if |xs| == 1 then xs[0]
    else Join(xs[..|xs| - 1], sep) + sep + xs[|xs| - 1]
  }

  /**
   * The aggregate, defined independently of the loop that builds it: the entries
   * joined by ",\n" inside "{\n" ... "\n}", or "{\n}" when there are none.
   */
  function Aggregate(rs: seq<string>): string
  {
    if rs == [] then "{\n}" else "{\n" + Join(Entries(rs), ",\n") + "\n}"
  }

  /** What the loop has built once `i` of the entries are in. */
  function AggregatePrefix(es: seq<string>, i: nat): string
    requires i <= |es|
  {
    if i == 0 then "{\n" else "{\n" + Join(es[..i], ",\n") + (if i == |es| then "\n" else ",\n")
  }

  /** One loop iteration appends entry `i`, a "," unless it is the last, and a "\n". */
  lemma AggregatePrefixStep(es: seq<string>, i: nat)
    requires i < |es|
    ensures AggregatePrefix(es, i + 1)
      == AggregatePrefix(es, i) + es[i] + (if i != |es| - 1 then "," else "") + "\n"
  {
    var c := if i != |es| - 1 then "," else "";
    var tail := if i + 1 == |es| then "\n" else ",\n";
    assert c + "\n" == tail;
    var p := AggregatePrefix(es, i);
    if i > 0 {
      var j := Join(es[..i], ",\n");
      assert es[..i + 1][..i] == es[..i];
      assert Join(es[..i + 1], ",\n") == (j + ",\n") + es[i];
      assert p == ("{\n" + j) + ",\n";
      ConcatAssoc("{\n", j + ",\n", es[i]);
      ConcatAssoc("{\n", j, ",\n");
      assert AggregatePrefix(es, i + 1) == (p + es[i]) + tail;
    } else {
      assert Join(es[..1], ",\n") == es[0];
      assert AggregatePrefix(es, 1) == (p + es[0]) + tail;
    }
    ConcatAssoc(p + es[i], c, "\n");
  }

  /**
   * aggregateApiAll: appends each entry, a "," after every entry but the last, and a
   * "\n" after every entry, between "{\n" and "}".
   */
  method AggregateApiAll(rs: seq<string>) returns (aggregated: string)
    ensures aggregated == Aggregate(rs)
  {
    ghost var es := Entries(rs);
    aggregated := "{\n";
    for i := 0 to |rs|
      invariant aggregated == AggregatePrefix(es, i)
    {
      AggregatePrefixStep(es, i);
      aggregated := aggregated + Entry(i + 1, rs[i]);
      if i != |rs| - 1 {
        aggregated := aggregated + ",";
      }
      aggregated := aggregated + "\n";
    }
    assert es[..|rs|] == es;
    aggregated := aggregated + "}";
  }

  function SumLengths(xs: seq<string>): nat
  {
    if xs == [] then 0 else SumLengths(xs[..|xs| - 1]) + |xs[|xs| - 1]|
  }

  lemma {:induction false} JoinLength(xs: seq<string>, sep: string)
    requires xs != []
    ensures |Join(xs, sep)| == SumLengths(xs) + |sep| * (|xs| - 1)
    decreases |xs|
  {
    if |xs| > 1 {
      JoinLength(xs[..|xs| - 1], sep);
    } else {
      assert xs[..0] == [];
    }
  }

  /**
   * The aggregate's length is its entries plus the three brace-and-newline characters,
   * one closing "\n" and a two-character ",\n" for each of the n - 1 gaps.
   */
  lemma AggregateLength(rs: seq<string>)
    ensures rs == [] ==> |Aggregate(rs)| == 3
    ensures rs != [] ==> |Aggregate(rs)| == 4 + SumLengths(Entries(rs)) + 2 * (|rs| - 1)
  {
    if rs != [] {
      JoinLength(Entries(rs), ",\n");
    }
  }

  /**
   * Appending a response to a non-empty list inserts exactly one ",\n" separator and the
   * new entry, numbered |rs| + 1, before the closing "\n}"; everything before stays.
   */
  lemma AggregateSnoc(rs: seq<string>, r: string)
    requires rs != []
    ensures var a := Aggregate(rs);
      |a| >= 2 && Aggregate(rs + [r]) == a[..|a| - 2] + ",\n" + Entry(|rs| + 1, r) + "\n}"
  {
    var es := Entries(rs);
    var es2 := Entries(rs + [r]);
    assert es2[..|es2| - 1] == es;
    var a := Aggregate(rs);
    var j := Join(es, ",\n");
    assert a == ("{\n" + j) + "\n}";
    assert a[..|a| - 2] == "{\n" + j;
    assert Join(es2, ",\n") == (j + ",\n") + Entry(|rs| + 1, r);
    ConcatAssoc("{\n", j + ",\n", Entry(|rs| + 1, r));
    ConcatAssoc("{\n", j, ",\n");
  }

  /** The frame of the aggregate: it opens with "{\n" and closes with "}". */
  lemma AggregateBraces(rs: seq<string>)
    ensures var a := Aggregate(rs); |a| >= 3 && a[..2] == "{\n" && a[|a| - 1] == '}'
  {
  }

  // ---------------------------------------------------------------------------
  // forceInsertProxyHeader
  // ---------------------------------------------------------------------------

  /**
   * forceInsertProxyHeader: x-proxy-id is set to the team name, replacing any value a
   * client supplied; no other header and no other field changes.
   */
  function ForceInsertProxyHeader(req: HttpRequest, team: string := DEFAULT_TEAM): (r: HttpRequest)
    ensures r == req.(headers := r.headers)
    ensures PROXY_ID_HEADER in r.headers && r.headers[PROXY_ID_HEADER] == team
    ensures forall k :: k != PROXY_ID_HEADER ==>
      (k in r.headers <==> k in req.headers) && (k in req.headers ==> r.headers[k] == req.headers[k])
  {
    req.(headers := req.headers[PROXY_ID_HEADER := team])
  }

  /** Inserting twice leaves only the last team name. */
  lemma ForceInsertLastWins(req: HttpRequest, first: string, second: string)
    ensures ForceInsertProxyHeader(ForceInsertProxyHeader(req, first), second)
      == ForceInsertProxyHeader(req, second)
  {
    var a := ForceInsertProxyHeader(ForceInsertProxyHeader(req, first), second);
    var b := ForceInsertProxyHeader(req, second);
    assert a.headers == b.headers;
  }
}
