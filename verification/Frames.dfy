/** Length-prefixed frames, and streams of them. */
module Frames {
  import opened Basics
  import opened Wire
  import opened Messages

  /** A message body behind its length. */
  function Frame(body: seq<byte>): (f: seq<byte>)
    requires |body| < 0x1_0000_0000
    ensures |f| == 4 + |body|
  {
    Fixed32(|body|) + body
  }

  predicate Framable(q: RequestData) {
    Encodable(q) && |EncodeRequest(q)| < 0x1_0000_0000
  }

  predicate FramableResponse(r: ResponseData) {
    EncodableResponse(r) && |EncodeResponse(r)| < 0x1_0000_0000
  }

  function RequestFrame(q: RequestData): seq<byte>
    requires Framable(q)
  {
    Frame(EncodeRequest(q))
  }

  function ResponseFrame(r: ResponseData): seq<byte>
    requires FramableResponse(r)
  {
    Frame(EncodeResponse(r))
  }

  predicate AllFramableRequests(qs: seq<RequestData>) {
    forall i :: 0 <= i < |qs| ==> Framable(qs[i])
  }

  function RequestFrames(qs: seq<RequestData>): seq<byte>
    requires AllFramableRequests(qs)
  {
    if qs == [] then [] else RequestFrame(qs[0]) + RequestFrames(qs[1..])
  }

  function ResponseFrames(rs: seq<ResponseData>): seq<byte>
    requires forall i :: 0 <= i < |rs| ==> FramableResponse(rs[i])
  {
    if rs == [] then [] else ResponseFrames(rs[..|rs| - 1]) + ResponseFrame(rs[|rs| - 1])
  }

  /** The body announced at the head of the stream, as far as it is there. */
  function Body(s: seq<byte>): (b: seq<byte>)
    requires |s| >= 4
    ensures 4 + |b| <= |s|
  {
    var n := UnFixed32(s[..4]);
    s[4..if 4 + n < |s| then 4 + n else |s|]
  }

  lemma BodyOfFrame(body: seq<byte>, rest: seq<byte>)
    requires |body| < 0x1_0000_0000
    ensures var s := Frame(body) + rest;
            |s| >= 4 && Body(s) == body && s[4 + |body|..] == rest
  {
    var s := Frame(body) + rest;
    assert s[..4] == Fixed32(|body|);
    hide Fixed32, UnFixed32;
    Fixed32RoundTrip(|body|);
    assert s[4..4 + |body|] == body;
  }

  /** The four bytes at the head spell the length n, least significant first. */
  predicate SpellsLength(s: seq<byte>, n: nat) {
    && |s| >= 4 && n < 0x1_0000_0000
    && s[0] == n % 256 && s[1] == n / 256 % 256 && s[2] == n / 65536 % 256 && s[3] == n / 16777216
  }

  lemma FrameSpellsLength(body: seq<byte>)
    requires |body| < 0x1_0000_0000
    ensures SpellsLength(Frame(body), |body|) && Frame(body)[4..] == body
  {
    Fixed32Bytes(|body|);
  }

  /** The body is as long as the bytes at the head spell, or as the stream lasts. */
  ghost predicate LengthObeyed(s: seq<byte>, body: seq<byte>) {
    forall n: nat :: SpellsLength(s, n) ==> body == s[4..if 4 + n < |s| then 4 + n else |s|]
  }

  lemma BodyObeysLength(s: seq<byte>)
    requires |s| >= 4
    ensures LengthObeyed(s, Body(s))
  {
    hide Body, SpellsLength;
    forall n: nat | SpellsLength(s, n) ensures Body(s) == s[4..if 4 + n < |s| then 4 + n else |s|] {
      SpelledLengthIsRead(s, n);
      LongEnough(s, n);
    }
  }

  lemma LongEnough(s: seq<byte>, n: nat)
    requires SpellsLength(s, n)
    ensures |s| >= 4
  {
  }

  /** A body is as long as these bytes say, or as the stream lasts. */
  lemma SpelledLengthIsRead(s: seq<byte>, n: nat)
    requires SpellsLength(s, n)
    ensures UnFixed32(s[..4]) == n && Body(s) == s[4..if 4 + n < |s| then 4 + n else |s|]
  {
    UnFixed32Weights(s[..4]);
    var a, b, c := n / 256, n / 65536, n / 16777216;
    assert a / 256 == b && b / 256 == c;
    assert n == 256 * a + s[0] as int && a == 256 * b + s[1] as int && b == 256 * c + s[2] as int;
  }

  /** All the responses of a stream of complete frames. */
  function DecodeResponses(s: seq<byte>): Option<seq<ResponseData>>
    decreases |s|
  {
    if s == [] then Some([])
    else if |s| < 4 || |Body(s)| != UnFixed32(s[..4]) then None
    else
      match MergeResponse(NewResponse, Body(s))
      case None => None
      case Some(r) =>
        match DecodeResponses(s[4 + |Body(s)|..])
        case None => None
        case Some(rs) => Some([r] + rs)
  }

  lemma DecodeOneMore(r: ResponseData, rest: seq<byte>)
    requires FramableResponse(r)
    ensures DecodeResponses(ResponseFrame(r) + rest) ==
            match DecodeResponses(rest)
            case None => None
            case Some(rs) => Some([r] + rs)
  {
    hide EncodeResponse, MergeResponse, Fixed32, UnFixed32;
    var body := EncodeResponse(r);
    BodyOfFrame(body, rest);
    ResponseRoundTrip(NewResponse, r);
    var s := ResponseFrame(r) + rest;
    assert UnFixed32(s[..4]) == |body| by {
      assert s[..4] == Fixed32(|body|);
      Fixed32RoundTrip(|body|);
    }
  }

  /** Response frames decode to exactly the responses, in order. */
  lemma {:induction false} ResponseFramesDecode(rs: seq<ResponseData>, rest: seq<byte>)
    requires forall i :: 0 <= i < |rs| ==> FramableResponse(rs[i])
    ensures DecodeResponses(ResponseFrames(rs) + rest) ==
            match DecodeResponses(rest)
            case None => None
            case Some(more) => Some(rs + more)
    decreases |rs|
  {
    hide DecodeResponses, FramableResponse, ResponseFrame;
    if rs == [] {
      assert ResponseFrames(rs) + rest == rest;
      if DecodeResponses(rest).Some? {
        assert rs + DecodeResponses(rest).value == DecodeResponses(rest).value;
      }
    } else {
      var n := |rs| - 1;
      var r := rs[n];
      Associative(ResponseFrames(rs[..n]), ResponseFrame(r), rest);
      ResponseFramesDecode(rs[..n], ResponseFrame(r) + rest);
      DecodeOneMore(r, rest);
      if DecodeResponses(rest).Some? {
        var more := DecodeResponses(rest).value;
        assert rs[..n] + ([r] + more) == rs + more;
      }
    }
  }
}
