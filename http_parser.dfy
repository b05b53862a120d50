/**
 * The HTTP/1.1 request parser: a loose reading of the request-line and header-field
 * syntax of RFC 9112 (sections 3 and 5).
 *
 * The C++ functions fill an HttpRequest passed by reference; here each takes the
 * request as it was and returns it as the call leaves it, together with the boolean
 * result. Lines come from std::getline, words of the request line from istream >>.
 */
module Http {
  import opened Basics

  datatype ProtocolType = Http11 | Http2Downgrade | WebSocket

  datatype HttpRequest = HttpRequest(
    requestMethod: string,
    path: string,
    version: string,
    headers: map<string, string>,
    body: string,
    protocolType: ProtocolType)

  /** A parsing step's boolean result and the request as the step leaves it. */
  datatype Parsed = Parsed(ok: bool, request: HttpRequest)

  // ---------------------------------------------------------------------------
  // Character helpers
  // ---------------------------------------------------------------------------

  /** ::tolower in the C locale. */
  function LowerChar(c: char): char
  {
    if 'A' <= c <= 'Z' then (c as int + 32) as char else c
  }

  /** toLower: the same length, ASCII capitals lowered, everything else kept. */
  function ToLower(s: string): (r: string)
    ensures |r| == |s|
    ensures forall i :: 0 <= i < |s| ==> r[i] == LowerChar(s[i])
  {
    if s == [] then [] else [LowerChar(s[0])] + ToLower(s[1..])
  }

  lemma ToLowerIdempotent(s: string)
    ensures ToLower(ToLower(s)) == ToLower(s)
  {
    assert forall i :: 0 <= i < |s| ==> ToLower(ToLower(s))[i] == ToLower(s)[i];
  }

  /** The first position of `c` in `s`. */
  function FirstIndexOf(s: string, c: char): (r: Option<nat>)
    ensures r.None? <==> c !in s
    ensures r.Some? ==> r.value < |s| && s[r.value] == c && c !in s[..r.value]
  {
    if s == [] then None
    else if s[0] == c then Some(0)
    else match FirstIndexOf(s[1..], c)
      case None => None
      case Some(i) =>
        assert s[..i + 1] == [s[0]] + s[1..][..i];
        Some(i + 1)
  }

  // ---------------------------------------------------------------------------
  // istream >> std::string
  // ---------------------------------------------------------------------------

  /** isspace in the C locale: space, \t, \n, \v, \f, \r. */
  predicate IsSpace(c: char)
  {
    c == ' ' || c == '\t' || c == '\n' || c == '\r' || c as int == 11 || c as int == 12
  }

  function SkipSpace(s: string): (r: string)
    ensures |r| <= |s| && r == s[|s| - |r|..]
    ensures forall i :: 0 <= i < |s| - |r| ==> IsSpace(s[i])
    ensures r != [] ==> !IsSpace(r[0])
  {
    if s != [] && IsSpace(s[0]) then SkipSpace(s[1..]) else s
  }

  /** The longest prefix of `s` without whitespace. */
  function Word(s: string): (w: string)
    ensures |w| <= |s| && w == s[..|w|]
    ensures forall i :: 0 <= i < |w| ==> !IsSpace(w[i])
    ensures |w| < |s| ==> IsSpace(s[|w|])
  {
    if s != [] && !IsSpace(s[0]) then [s[0]] + Word(s[1..]) else []
  }

  datatype Extraction = Extracted(word: string, rest: string) | Failed

  /**
   * One `stream >> str`: skip whitespace; at end of input the extraction fails and the
   * target string is left as it was; otherwise the word is the longest run of
   * non-whitespace, and reading resumes after it.
   */
  function ExtractWord(s: string): (e: Extraction)
    ensures e.Failed? <==> forall i :: 0 <= i < |s| ==> IsSpace(s[i])
    ensures e.Extracted? ==> e.word != [] && NoSpace(e.word)
  {
    var t := SkipSpace(s);
    if t == [] then Failed else Extracted(Word(t), t[|Word(t)|..])
  }

  /** Once an extraction fails the stream is in a failed state and later ones fail too. */
  function ExtractNext(e: Extraction): Extraction
  {
    if e.Extracted? then ExtractWord(e.rest) else Failed
  }

  function WordOr(e: Extraction, previous: string): string
  {
    if e.Extracted? then e.word else previous
  }

  // ---------------------------------------------------------------------------
  // The request line and header lines
  // ---------------------------------------------------------------------------

  /**
   * parseRequestLine: reads method, path and version with three extractions and
   * succeeds iff all three fields end up non-empty. A field whose extraction failed
   * keeps the value it had before the call.
   */
  function ParseRequestLine(line: string, req: HttpRequest): (r: Parsed)
    ensures r.request == req.(requestMethod := r.request.requestMethod, path := r.request.path, version := r.request.version)
    ensures r.ok <==> r.request.requestMethod != [] && r.request.path != [] && r.request.version != []
  {
    var e1 := ExtractWord(line);
    var e2 := ExtractNext(e1);
    var e3 := ExtractNext(e2);
    var updated := req.(requestMethod := WordOr(e1, req.requestMethod), path := WordOr(e2, req.path), version := WordOr(e3, req.version));
    Parsed(updated.requestMethod != [] && updated.path != [] && updated.version != [], updated)
  }

  /** No character of `w` is whitespace. */
  predicate NoSpace(w: string)
  {
    forall i :: 0 <= i < |w| ==> !IsSpace(w[i])
  }

  lemma {:induction false} WordOfWordThenSpace(w: string, rest: string)
    requires NoSpace(w)
    requires rest == [] || IsSpace(rest[0])
    ensures Word(w + rest) == w
    decreases |w|
  {
    if w != [] {
      assert (w + rest)[1..] == w[1..] + rest;
      WordOfWordThenSpace(w[1..], rest);
    }
  }

  lemma ExtractWordOf(w: string, rest: string)
    requires w != [] && NoSpace(w)
    requires rest == [] || IsSpace(rest[0])
    ensures ExtractWord(w + rest) == Extracted(w, rest)
  {
    assert SkipSpace(w + rest) == w + rest;
    WordOfWordThenSpace(w, rest);
  }

  lemma ExtractAfterSpace(w: string, rest: string)
    requires w != [] && NoSpace(w)
    requires rest == [] || IsSpace(rest[0])
    ensures ExtractWord(" " + w + rest) == Extracted(w, rest)
  {
    var s := " " + w + rest;
    assert s[1..] == w + rest;
    assert SkipSpace(s) == SkipSpace(w + rest);
    ExtractWordOf(w, rest);
  }

  /**
   * A request line of three whitespace-free words separated by single spaces (and ending
   * in the '\r' that getline leaves) parses back into those three words, whatever the
   * request held before.
   */
  lemma RequestLineRoundTrip(m: string, p: string, v: string, req: HttpRequest)
    requires m != [] && p != [] && v != []
    requires NoSpace(m) && NoSpace(p) && NoSpace(v)
    ensures ParseRequestLine(m + " " + p + " " + v + "\r", req)
      == Parsed(true, req.(requestMethod := m, path := p, version := v))
  {
    var tail3 := "\r";
    var tail2 := " " + v + tail3;
    var tail1 := " " + p + tail2;
    assert m + " " + p + " " + v + "\r" == m + tail1;
    ExtractWordOf(m, tail1);
    ExtractAfterSpace(p, tail2);
    ExtractAfterSpace(v, tail3);
  }

  /**
   * A line with fewer than three words leaves the missing fields as they were: on a
   * request reused from an earlier parse, the one-word line "GET" still succeeds.
   */
  lemma ShortLineKeepsOldFields(req: HttpRequest)
    requires req.path != [] && req.version != []
    ensures ParseRequestLine("GET", req) == Parsed(true, req.(requestMethod := "GET"))
  {
    assert NoSpace("GET");
    ExtractWordOf("GET", "");
    assert "GET" + "" == "GET";
  }

  function TrimLeft(s: string): (r: string)
    ensures |r| <= |s| && r == s[|s| - |r|..]
    ensures forall i :: 0 <= i < |s| - |r| ==> s[i] == ' ' || s[i] == '\t'
    ensures r != [] ==> r[0] != ' ' && r[0] != '\t'
  {
    if s != [] && (s[0] == ' ' || s[0] == '\t') then TrimLeft(s[1..]) else s
  }

  function TrimRight(s: string): (r: string)
    ensures |r| <= |s| && r == s[..|r|]
    ensures forall i :: |r| <= i < |s| ==> s[i] == ' ' || s[i] == '\t'
    ensures r != [] ==> r[|r| - 1] != ' ' && r[|r| - 1] != '\t'
  {
    if s != [] && (s[|s| - 1] == ' ' || s[|s| - 1] == '\t') then TrimRight(s[..|s| - 1]) else s
  }

  /** The two erase calls: spaces and tabs removed from both ends, nothing else. */
  function TrimSpaceTab(s: string): string
  {
    TrimRight(TrimLeft(s))
  }

  /** A value ending in '\r' keeps it: only spaces and tabs are trimmed. */
  lemma TrimKeepsCarriageReturn(s: string)
    requires s != [] && s[|s| - 1] == '\r'
    ensures var t := TrimSpaceTab(s); t != [] && t[|t| - 1] == '\r'
  {
    var l := TrimLeft(s);
    assert l != [] && l[|l| - 1] == '\r';
    assert TrimRight(l) == l;
  }

  /**
   * parseHeaderLine: a line without ':' is rejected and changes nothing; otherwise the
   * key is the lower-cased text before the first ':' (not trimmed), the value the text
   * after it trimmed of spaces and tabs, and the entry overwrites any earlier one.
   */
  function ParseHeaderLine(line: string, req: HttpRequest): (r: Parsed)
    ensures ':' !in line ==> r == Parsed(false, req)
    ensures ':' in line ==> r.ok && r.request == req.(headers := r.request.headers)
    ensures ':' in line ==> var i := FirstIndexOf(line, ':').value;
      r.request.headers == req.headers[ToLower(line[..i]) := TrimSpaceTab(line[i + 1..])]
  {
    match FirstIndexOf(line, ':')
    case None => Parsed(false, req)
    case Some(i) =>
      Parsed(true, req.(headers := req.headers[ToLower(line[..i]) := TrimSpaceTab(line[i + 1..])]))
  }

  /** A header line read with its '\r' stores a value that still ends in '\r'. */
  lemma HeaderValueKeepsCarriageReturn(line: string, req: HttpRequest)
    requires ':' in line && line[|line| - 1] == '\r'
    ensures var i := FirstIndexOf(line, ':').value;
      var v := ParseHeaderLine(line, req).request.headers[ToLower(line[..i])];
      v != [] && v[|v| - 1] == '\r'
  {
    var i := FirstIndexOf(line, ':').value;
    assert line[i + 1..] != [] && line[i + 1..][|line[i + 1..]| - 1] == '\r';
    TrimKeepsCarriageReturn(line[i + 1..]);
  }

  // ---------------------------------------------------------------------------
  // Protocol classification
  // ---------------------------------------------------------------------------

  /**
   * detectProtocol: an `upgrade` header equal to "websocket" ignoring case gives
   * WEBSOCKET; otherwise version HTTP/2.0 gives HTTP_2_DOWNGRADE and is rewritten to
   * HTTP/1.1; otherwise HTTP_1_1. Nothing else changes.
   */
  function DetectProtocol(req: HttpRequest): (r: HttpRequest)
    ensures r == req.(protocolType := r.protocolType, version := r.version)
    ensures r.protocolType == WebSocket <==> "upgrade" in req.headers && ToLower(req.headers["upgrade"]) == "websocket"
    ensures r.protocolType == Http2Downgrade <==> r.protocolType != WebSocket && req.version == "HTTP/2.0"
    ensures r.version == if r.protocolType == Http2Downgrade then "HTTP/1.1" else req.version
  {
    if "upgrade" in req.headers && ToLower(req.headers["upgrade"]) == "websocket" then
      req.(protocolType := WebSocket)
    else if req.version == "HTTP/2.0" then
      req.(protocolType := Http2Downgrade, version := "HTTP/1.1")
    else
      req.(protocolType := Http11)
  }

  /**
   * An upgrade value that kept the line's '\r' is never "websocket": with CRLF line
   * endings a WebSocket upgrade request is classified as plain HTTP.
   */
  lemma UpgradeWithCarriageReturnMissed(req: HttpRequest)
    requires "upgrade" in req.headers
    requires var v := req.headers["upgrade"]; v != [] && v[|v| - 1] == '\r'
    ensures DetectProtocol(req).protocolType != WebSocket
  {
    var v := req.headers["upgrade"];
    assert ToLower(v)[|v| - 1] == '\r';
  }

  // ---------------------------------------------------------------------------
  // std::getline and the whole request
  // ---------------------------------------------------------------------------

  /**
   * The lines std::getline yields: pieces between '\n's; a final '\n' does not start
   * another (empty) line, and the empty input has no line at all.
   */
  function Lines(s: string): seq<string>
    decreases |s|
  {
    if s == [] then []
    else match FirstIndexOf(s, '\n')
      case None => [s]
      case Some(i) => [s[..i]] + Lines(s[i + 1..])
  }

  /** No line holds a '\n'. */
  lemma {:induction false} LinesHaveNoNewline(s: string)
    ensures forall k :: 0 <= k < |Lines(s)| ==> '\n' !in Lines(s)[k]
    decreases |s|
  {
    if s != [] {
      match FirstIndexOf(s, '\n')
      case None =>
      case Some(i) =>
        LinesHaveNoNewline(s[i + 1..]);
    }
  }

  /** Each line followed by "\n", all concatenated: the body accumulation of parse. */
  function JoinLines(ls: seq<string>): string
  {
    if ls == [] then [] else ls[0] + "\n" + JoinLines(ls[1..])
  }

  lemma {:induction false} JoinLinesAppend(ls: seq<string>, l: string)
    ensures JoinLines(ls + [l]) == JoinLines(ls) + l + "\n"
  {
    if ls != [] {
      assert (ls + [l])[1..] == ls[1..] + [l];
      JoinLinesAppend(ls[1..], l);
    }
  }

  /**
   * Splitting and re-joining gives the input back, with a final "\n" added when the
   * input did not end with one.
   */
  lemma {:induction false} LinesJoinRoundTrip(s: string)
    ensures s == [] || s[|s| - 1] == '\n' ==> JoinLines(Lines(s)) == s
    ensures s != [] && s[|s| - 1] != '\n' ==> JoinLines(Lines(s)) == s + "\n"
    decreases |s|
  {
    if s != [] {
      match FirstIndexOf(s, '\n')
      case None =>
        assert s[|s| - 1] != '\n';
      case Some(i) =>
        var head, rest := s[..i], s[i + 1..];
        assert s == head + "\n" + rest;
        LinesCons(head, rest);
        LinesJoinRoundTrip(rest);
        var ls := Lines(rest);
        assert ([head] + ls)[1..] == ls;
        assert JoinLines(Lines(s)) == head + "\n" + JoinLines(ls);
        if rest != [] {
          assert rest[|rest| - 1] == s[|s| - 1];
        }
    }
  }

  lemma ConcatAssoc<T>(a: seq<T>, b: seq<T>, c: seq<T>)
    ensures a + (b + c) == (a + b) + c
  {
  }

  /** A line without '\n' and its terminator split off as the first line. */
  lemma LinesCons(head: string, tail: string)
    requires '\n' !in head
    ensures Lines(head + "\n" + tail) == [head] + Lines(tail)
  {
    var s := head + "\n" + tail;
    assert s[..|head|] == head;
    assert s[|head| + 1..] == tail;
    FirstIndexOfAt(s, '\n', |head|);
  }

  /** Lines without '\n', joined, split back into themselves followed by what comes after. */
  lemma {:induction false} LinesOfJoin(ls: seq<string>, rest: string)
    requires forall k :: 0 <= k < |ls| ==> '\n' !in ls[k]
    ensures Lines(JoinLines(ls) + rest) == ls + Lines(rest)
  {
    if ls != [] {
      var head, more := ls[0], ls[1..];
      var tail := JoinLines(more) + rest;
      assert JoinLines(ls) == head + "\n" + JoinLines(more);
      ConcatAssoc(head + "\n", JoinLines(more), rest);
      LinesCons(head, tail);
      assert forall k :: 0 <= k < |more| ==> more[k] == ls[k + 1];
      LinesOfJoin(more, rest);
      assert ls == [head] + more;
      ConcatAssoc([head], more, Lines(rest));
    } else {
      assert JoinLines(ls) + rest == rest;
    }
  }

  /** The first occurrence is unique: any position with `c` and none before it is it. */
  lemma FirstIndexOfAt(s: string, c: char, i: nat)
    requires i < |s| && s[i] == c && c !in s[..i]
    ensures FirstIndexOf(s, c) == Some(i)
  {
  }

  /** The line that ends the header section: "\r" or empty. */
  predicate EndsHeaders(line: string)
  {
    line == "\r" || line == ""
  }

  /** Where the header section stops: the first line from `from` on that EndsHeaders. */
  function HeaderEnd(lines: seq<string>, from: nat): (e: nat)
    requires from <= |lines|
    ensures from <= e <= |lines|
    ensures forall k :: from <= k < e ==> !EndsHeaders(lines[k])
    ensures e < |lines| ==> EndsHeaders(lines[e])
    decreases |lines| - from
  {
    if from == |lines| || EndsHeaders(lines[from]) then from else HeaderEnd(lines, from + 1)
  }

  /** parseHeaderLine applied to each line in turn, its result ignored. */
  function ApplyHeaders(req: HttpRequest, hs: seq<string>): HttpRequest
  {
    if hs == [] then req else ParseHeaderLine(hs[|hs| - 1], ApplyHeaders(req, hs[..|hs| - 1])).request
  }

  lemma ApplyHeadersSnoc(req: HttpRequest, hs: seq<string>, h: string)
    ensures ApplyHeaders(req, hs + [h]) == ParseHeaderLine(h, ApplyHeaders(req, hs)).request
  {
    assert (hs + [h])[..|hs|] == hs;
  }

  /** The lines after the one that ended the header section. */
  function BodyLines(lines: seq<string>, e: nat): seq<string>
  {
    if e < |lines| then lines[e + 1..] else []
  }

  /**
   * What parse computes: it fails only when there is no first line or the request line
   * is rejected (keeping what that step wrote); header lines run up to the first "\r"
   * or empty line, malformed ones skipped; every later line goes into the body; then
   * the protocol is classified.
   */
  function ParseSpec(raw: string, req0: HttpRequest): Parsed
  {
    var lines := Lines(raw);
    if lines == [] then Parsed(false, req0)
    else
      var first := ParseRequestLine(lines[0], req0);
      if !first.ok then first
      else Parsed(true, AfterRequestLine(lines, first.request))
  }

  /** The headers up to the terminating line, then the body after it, then the protocol. */
  function AfterRequestLine(lines: seq<string>, req: HttpRequest): HttpRequest
    requires lines != []
  {
    var e := HeaderEnd(lines, 1);
    var withHeaders := ApplyHeaders(req, lines[1..e]);
    DetectProtocol(withHeaders.(body := JoinLines(BodyLines(lines, e))))
  }

  /** The header loop of parse: getline until a line that EndsHeaders, each line applied. */
  method ReadHeaders(lines: seq<string>, from: nat, req0: HttpRequest) returns (e: nat, req: HttpRequest)
    requires from <= |lines|
    ensures e == HeaderEnd(lines, from)
    ensures req == ApplyHeaders(req0, lines[from..e])
  {
    e := from;
    req := req0;
    while e < |lines| && !EndsHeaders(lines[e])
      invariant from <= e <= |lines|
      invariant HeaderEnd(lines, e) == HeaderEnd(lines, from)
      invariant req == ApplyHeaders(req0, lines[from..e])
      decreases |lines| - e
    {
      HeadersStep(lines, from, e, req0);
      req := ParseHeaderLine(lines[e], req).request;
      e := e + 1;
    }
    HeaderEndHere(lines, e);
  }

  /** One header line applied: the end is still ahead and the applied prefix grows by it. */
  lemma HeadersStep(lines: seq<string>, from: nat, e: nat, req0: HttpRequest)
    requires from <= e < |lines| && !EndsHeaders(lines[e])
    ensures HeaderEnd(lines, e + 1) == HeaderEnd(lines, e)
    ensures ApplyHeaders(req0, lines[from..e + 1]) == ParseHeaderLine(lines[e], ApplyHeaders(req0, lines[from..e])).request
  {
    assert lines[from..e + 1] == lines[from..e] + [lines[e]];
    ApplyHeadersSnoc(req0, lines[from..e], lines[e]);
  }

  /** At the terminating line, or past the last line, the header section ends here. */
  lemma HeaderEndHere(lines: seq<string>, e: nat)
    requires e <= |lines| && (e == |lines| || EndsHeaders(lines[e]))
    ensures HeaderEnd(lines, e) == e
  {
  }

  /** The body loop of parse: every remaining line appended with a "\n". */
  method ReadBody(lines: seq<string>, from: nat) returns (body: string)
    requires from <= |lines|
    ensures body == JoinLines(lines[from..])
  {
    body := "";
    var j := from;
    while j < |lines|
      invariant from <= j <= |lines|
      invariant body == JoinLines(lines[from..j])
      decreases |lines| - j
    {
      assert lines[from..j + 1] == lines[from..j] + [lines[j]];
      JoinLinesAppend(lines[from..j], lines[j]);
      body := body + lines[j] + "\n";
      j := j + 1;
    }
    assert lines[from..j] == lines[from..];
  }

  /** HttpParser::parse. */
  method Parse(raw: string, req0: HttpRequest) returns (ok: bool, req: HttpRequest)
    ensures Parsed(ok, req) == ParseSpec(raw, req0)
  {
    var lines := Lines(raw);
    if lines == [] {
      return false, req0;
    }
    var first := ParseRequestLine(lines[0], req0);
    if !first.ok {
      return false, first.request;
    }
    req := ReadAfterRequestLine(lines, first.request);
    ok := true;
  }

  /** The rest of parse: the header loop, the body loop and the protocol check. */
  method ReadAfterRequestLine(lines: seq<string>, req0: HttpRequest) returns (req: HttpRequest)
    requires lines != []
    ensures req == AfterRequestLine(lines, req0)
  {
    var e, withHeaders := ReadHeaders(lines, 1, req0);
    // The getline that ended the header loop consumed the terminating line.
    var body := "";
    if e < |lines| {
      body := ReadBody(lines, e + 1);
    }
    assert body == JoinLines(BodyLines(lines, e));
    req := DetectProtocol(withHeaders.(body := body));
  }

  /**
   * A request written as a request line, header lines and an empty "\r" line, each
   * ending in "\n", followed by a body that is empty or ends in "\n", parses with exactly
   * that body and with the headers those lines set.
   */
  lemma ParseBodyRoundTrip(line: string, hs: seq<string>, body: string, req0: HttpRequest)
    requires '\n' !in line && ParseRequestLine(line, req0).ok
    requires forall k :: 0 <= k < |hs| ==> '\n' !in hs[k] && !EndsHeaders(hs[k])
    requires body == [] || body[|body| - 1] == '\n'
    ensures var r := ParseSpec(line + "\n" + JoinLines(hs) + "\r\n" + body, req0);
      r.ok && r.request.body == body &&
      r.request.headers == ApplyHeaders(ParseRequestLine(line, req0).request, hs).headers
  {
    RequestLines(line, hs, body);
    HeaderSection(line, hs, Lines(body));
    LinesJoinRoundTrip(body);
  }

  /** Where HeaderEnd stops on such a request, and what lies on either side of it. */
  lemma HeaderSection(line: string, hs: seq<string>, rest: seq<string>)
    requires forall k :: 0 <= k < |hs| ==> !EndsHeaders(hs[k])
    ensures var lines := [line] + hs + ["\r"] + rest;
      lines[0] == line && HeaderEnd(lines, 1) == 1 + |hs| &&
      lines[1..1 + |hs|] == hs && BodyLines(lines, 1 + |hs|) == rest
  {
    var lines := [line] + hs + ["\r"] + rest;
    var e := 1 + |hs|;
    assert lines[e] == "\r";
    assert HeaderEnd(lines, e) == e;
    assert forall k :: 1 <= k < e ==> lines[k] == hs[k - 1];
    HeaderEndSkips(lines, 1, e);
    assert lines[1..e] == hs;
    assert lines[e + 1..] == rest;
  }

  /** The lines of such a request: the request line, the header lines, "\r", then the body's. */
  lemma RequestLines(line: string, hs: seq<string>, body: string)
    requires '\n' !in line
    requires forall k :: 0 <= k < |hs| ==> '\n' !in hs[k]
    ensures Lines(line + "\n" + JoinLines(hs) + "\r\n" + body) == [line] + hs + ["\r"] + Lines(body)
  {
    var all := [line] + hs + ["\r"];
    assert forall k :: 0 <= k < |all| ==> '\n' !in all[k];
    LinesOfJoin(all, body);
    JoinLinesAppend(hs, "\r");
    assert all == [line] + (hs + ["\r"]);
    assert JoinLines(all) == line + "\n" + JoinLines(hs + ["\r"]);
    assert JoinLines(all) == line + "\n" + JoinLines(hs) + "\r\n";
  }

  lemma {:induction false} HeaderEndSkips(lines: seq<string>, from: nat, to: nat)
    requires from <= to <= |lines|
    requires forall k :: from <= k < to ==> !EndsHeaders(lines[k])
    ensures HeaderEnd(lines, from) == HeaderEnd(lines, to)
    decreases |lines| - from
  {
    if from < to {
      HeaderEndSkips(lines, from + 1, to);
    }
  }
}
