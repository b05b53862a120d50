/**
 * The protocol converter's two mock transformations: wrapping a request into a
 * length-prefixed frame, and the character substitution that stands in for
 * JSON-to-Protobuf conversion. A byte of a std::string is a character below 256;
 * request fields are not constrained to that range (see README).
 */
module ProtocolConvert {
  import opened Basics
  import opened Http

  // ---------------------------------------------------------------------------
  // httpToGrpcMock
  // ---------------------------------------------------------------------------

  /** The mock method-and-data text: "/" + path + ":" + body. */
  function GrpcPayload(req: HttpRequest): (p: string)
    ensures |p| == |req.path| + |req.body| + 2
    ensures p[0] == '/' && p[1..|req.path| + 1] == req.path
    ensures p[|req.path| + 1] == ':' && p[|req.path| + 2..] == req.body
  {
    "/" + req.path + ":" + req.body
  }

  predicate IsByte(c: char)
  {
    c as int < 256
  }

  /** htonl: the four bytes of `n`, most significant first. */
  function BigEndian32(n: u32): (bs: string)
    ensures |bs| == 4
    ensures forall k :: 0 <= k < 4 ==> IsByte(bs[k])
  {
    var m1 := n / 256;
    var m2 := m1 / 256;
    [(m2 / 256) as char, (m2 % 256) as char, (m1 % 256) as char, (n % 256) as char]
  }

  /** Reads four bytes, most significant first. */
  function DecodeBigEndian32(bs: string): nat
    requires |bs| == 4
  {
    ((bs[0] as nat * 256 + bs[1] as nat) * 256 + bs[2] as nat) * 256 + bs[3] as nat
  }

  lemma BigEndian32RoundTrip(n: u32)
    ensures DecodeBigEndian32(BigEndian32(n)) == n
  {
    var m1 := n / 256;
    var m2 := m1 / 256;
    assert m2 == (m2 / 256) * 256 + m2 % 256;
    assert m1 == m2 * 256 + m1 % 256;
    assert n == m1 * 256 + n % 256;
  }

  /** Four bytes decode to a 32-bit value, which encodes back to those bytes. */
  lemma DecodeBigEndian32RoundTrip(bs: string)
    requires |bs| == 4 && forall k :: 0 <= k < 4 ==> IsByte(bs[k])
    ensures DecodeBigEndian32(bs) < TWO_TO_32
    ensures BigEndian32(DecodeBigEndian32(bs)) == bs
  {
    var b0, b1, b2, b3 := bs[0] as nat, bs[1] as nat, bs[2] as nat, bs[3] as nat;
    var m2 := b0 * 256 + b1;
    var m1 := m2 * 256 + b2;
    var n := m1 * 256 + b3;
    assert n / 256 == m1 && n % 256 == b3;
    assert m1 / 256 == m2 && m1 % 256 == b2;
    assert m2 / 256 == b0 && m2 % 256 == b1;
  }

  /**
   * httpToGrpcMock: the payload's length as four big-endian bytes (size_t narrowed to
   * 32 bits), the flag byte 0x00, then the payload.
   */
  function HttpToGrpcMock(req: HttpRequest): (frame: string)
    ensures |frame| == |GrpcPayload(req)| + 5
  {
    var payload := GrpcPayload(req);
    BigEndian32(|payload| % TWO_TO_32) + ['\0'] + payload
  }

  /** A frame's three parts, as a receiver would read them. */
  datatype Frame = Frame(length: nat, flag: char, payload: string)

  function DecodeFrame(frame: string): (r: Option<Frame>)
    ensures r.None? <==> |frame| < 5
  {
    if |frame| < 5 then None
    else Some(Frame(DecodeBigEndian32(frame[..4]), frame[4], frame[5..]))
  }

  /**
   * Decoding a mock frame gives back the payload length modulo 2^32, the flag 0 and the
   * payload itself.
   */
  lemma GrpcFrameRoundTrip(req: HttpRequest)
    ensures var payload := GrpcPayload(req);
      DecodeFrame(HttpToGrpcMock(req)) == Some(Frame(|payload| % TWO_TO_32, '\0', payload))
  {
    var payload := GrpcPayload(req);
    var frame := HttpToGrpcMock(req);
    var header := BigEndian32(|payload| % TWO_TO_32);
    assert frame[..4] == header;
    assert frame[5..] == payload;
    BigEndian32RoundTrip(|payload| % TWO_TO_32);
  }

  /** Path and body are recovered from the payload when the path holds no ':'. */
  lemma GrpcPayloadSplits(req: HttpRequest)
    requires ':' !in req.path
    ensures var p := GrpcPayload(req);
      FirstIndexOf(p[1..], ':') == Some(|req.path|) &&
      p[1..][..|req.path|] == req.path && p[1..][|req.path| + 1..] == req.body
  {
    var p := GrpcPayload(req);
    assert p[1..][..|req.path|] == req.path;
    assert p[1..][|req.path| + 1..] == req.body;
    FirstIndexOfAt(p[1..], ':', |req.path|);
  }

  // ---------------------------------------------------------------------------
  // jsonToProtobufMock
  // ---------------------------------------------------------------------------

  /** std::replace: every `from` becomes `to`, everything else is kept. */
  function Replace(s: string, from: char, to: char): (r: string)
    ensures |r| == |s|
    ensures forall i :: 0 <= i < |s| ==> r[i] == if s[i] == from then to else s[i]
  {
    if s == [] then [] else [if s[0] == from then to else s[0]] + Replace(s[1..], from, to)
  }

  /** jsonToProtobufMock: the three std::replace passes in source order. */
  function JsonToProtobufMock(json: string): string
  {
    Replace(Replace(Replace(json, '{', '<'), '}', '>'), ':', '=')
  }

  /** The substitution as a single character map. */
  function ProtoChar(c: char): char
  {
    match c
    case '{' => '<'
    case '}' => '>'
    case ':' => '='
    case _ => c
  }

  /** The three passes amount to mapping every character through ProtoChar. */
  lemma JsonToProtobufPointwise(json: string)
    ensures |JsonToProtobufMock(json)| == |json|
    ensures forall i :: 0 <= i < |json| ==> JsonToProtobufMock(json)[i] == ProtoChar(json[i])
  {
    var a := Replace(json, '{', '<');
    var b := Replace(a, '}', '>');
    var c := Replace(b, ':', '=');
    forall i | 0 <= i < |json|
      ensures c[i] == ProtoChar(json[i])
    {
      assert a[i] == if json[i] == '{' then '<' else json[i];
      assert b[i] == if a[i] == '}' then '>' else a[i];
    }
  }

  /** No brace or colon survives. */
  lemma JsonToProtobufClean(json: string)
    ensures '{' !in JsonToProtobufMock(json)
    ensures '}' !in JsonToProtobufMock(json)
    ensures ':' !in JsonToProtobufMock(json)
  {
    JsonToProtobufPointwise(json);
  }

  /** Converting twice is converting once. */
  lemma JsonToProtobufIdempotent(json: string)
    ensures JsonToProtobufMock(JsonToProtobufMock(json)) == JsonToProtobufMock(json)
  {
    var once := JsonToProtobufMock(json);
    JsonToProtobufPointwise(json);
    JsonToProtobufPointwise(once);
    assert forall i :: 0 <= i < |once| ==> JsonToProtobufMock(once)[i] == once[i];
  }
}
