/** What a server run may do, as relations on values: exchanges of one frame for another, and whole
    runs over a byte stream. */
module ServerSpec {
  import opened Basics
  import opened Wire
  import opened Messages
  import opened Frames
  import opened Commands

  // ---------------------------------------------------------------- exchanges and runs

  /** Where the server is between two turns of its loop: the input it has still to read, and the bus. */
  datatype Point = Point(input: seq<byte>, bus: Bus)

  /** One turn of the loop: where it started, the request if it parsed, the response, whether the
      command succeeded, and where it ended. */
  datatype Exchange = Exchange(from: Point, request: Option<RequestData>, response: ResponseData, ok: bool, to: Point)

  /** A body that parses is executed and consumed. One that does not is answered with an input
      error, and the input resumes anywhere inside it. */
  predicate Serves(mock: bool, e: Exchange) {
    && |e.from.input| >= 4
    && FramableResponse(e.response)
    && e.request == MergeRequest(NewRequest, Body(e.from.input))
    && match e.request
       case Some(q) =>
         && Executes(mock, e.from.bus, q, NewResponse, e.response, e.ok, e.to.bus)
         && e.to.input == e.from.input[4 + |Body(e.from.input)|..]
       case None =>
         && !e.ok && e.to.bus == e.from.bus
         && e.response == NewResponse.(status := ERR_INPUT, error := e.response.error)
         && IsSuffix(e.to.input, e.from.input) && 4 <= |e.from.input| - |e.to.input| <= 4 + |Body(e.from.input)|
  }

  predicate IsStop(e: Exchange) {
    e.request.Some? && e.request.value.command == 100
  }

  /** Exchanges that follow one another. */
  predicate Chain(mock: bool, p0: Point, h: seq<Exchange>, p1: Point)
    decreases |h|
  {
    if h == [] then p1 == p0
    else
      var e := h[|h| - 1];
      Chain(mock, p0, h[..|h| - 1], e.from) && Serves(mock, e) && p1 == e.to
  }

  function Responses(h: seq<Exchange>): (rs: seq<ResponseData>)
    ensures |rs| == |h|
    ensures forall i :: 0 <= i < |h| ==> rs[i] == h[i].response
  {
    seq(|h|, i requires 0 <= i < |h| => h[i].response)
  }

  /** None of the first n exchanges is a STOP. */
  predicate NoStop(h: seq<Exchange>, n: nat)
    requires n <= |h|
  {
    forall i :: 0 <= i < n ==> !IsStop(h[i])
  }

  predicate AllFramable(h: seq<Exchange>) {
    forall i :: 0 <= i < |h| ==> FramableResponse(h[i].response)
  }

  /** Exchanges made so far, and their response frames on the output. */
  predicate SoFar(mock: bool, p0: Point, h: seq<Exchange>, p1: Point, output: seq<byte>) {
    Chain(mock, p0, h, p1) && AllFramable(h) && output == ResponseFrames(Responses(h))
  }

  lemma RunStarts(mock: bool, p0: Point)
    ensures SoFar(mock, p0, [], p0, [])
  {
  }

  lemma RunGoesOn(mock: bool, p0: Point, h: seq<Exchange>, e: Exchange, output: seq<byte>)
    requires SoFar(mock, p0, h, e.from, output)
    requires Serves(mock, e)
    ensures FramableResponse(e.response)
    ensures SoFar(mock, p0, h + [e], e.to, output + ResponseFrame(e.response))
  {
    hide Serves, ResponseFrame, FramableResponse, Chain, AllFramable, ResponseFrames, Responses;
    ServedFits(mock, e);
    ChainGoesOn(mock, p0, h, e);
    OutputGoesOn(h, e, output);
  }

  lemma ChainGoesOn(mock: bool, p0: Point, h: seq<Exchange>, e: Exchange)
    requires Chain(mock, p0, h, e.from) && Serves(mock, e)
    ensures Chain(mock, p0, h + [e], e.to)
  {
    hide Serves;
    assert (h + [e])[..|h|] == h;
  }

  lemma OutputGoesOn(h: seq<Exchange>, e: Exchange, output: seq<byte>)
    requires AllFramable(h) && output == ResponseFrames(Responses(h)) && FramableResponse(e.response)
    ensures AllFramable(h + [e]) && output + ResponseFrame(e.response) == ResponseFrames(Responses(h + [e]))
  {
    hide ResponseFrame, FramableResponse;
    assert Responses(h + [e])[..|h|] == Responses(h);
  }

  lemma ServedFits(mock: bool, e: Exchange)
    requires Serves(mock, e)
    ensures FramableResponse(e.response)
  {
  }

  /** The next request goes unanswered, for one of the reasons a command can. */
  ghost predicate BreaksOff(setup: Setup, p: Point, end: RunEnd, sites: seq<nat>) {
    && |p.input| >= 4
    && var q := MergeRequest(NewRequest, Body(p.input));
       q.Some? && Breaks(setup, p.bus, q.value, end, sites)
  }

  /** A whole run: exchanges up to the first STOP or to the end of the input, and their response
      frames on the output. It may be broken off only by a request that goes unanswered, whose
      transaction computed deadlines at the times `sites`. */
  ghost predicate RunOf(setup: Setup, p0: Point, h: seq<Exchange>, end: RunEnd, p1: Point, output: seq<byte>, sites: seq<nat>) {
    && SoFar(setup.mock, p0, h, p1, output)
    && (end == Stopped ==> h != [] && IsStop(h[|h| - 1]) && NoStop(h, |h| - 1))
    && (end != Stopped ==> NoStop(h, |h|))
    && (end == Eof ==> |p1.input| < 4)
    && (end in {Panicked, Unfinished} ==> BreaksOff(setup, p1, end, sites))
  }

  // ---------------------------------------------------------------- the frame stream theorem

  /** Index of the first STOP request, or the number of requests. */
  function FirstStop(qs: seq<RequestData>): (n: nat)
    ensures n <= |qs|
    ensures forall i :: 0 <= i < n ==> CommandOrDefault(qs[i].command) != STOP
    ensures n < |qs| ==> CommandOrDefault(qs[n].command) == STOP
  {
    if qs == [] || CommandOrDefault(qs[0].command) == STOP then 0 else 1 + FirstStop(qs[1..])
  }

  /** Exchange i carries request i. */
  predicate Carries(h: seq<Exchange>, qs: seq<RequestData>) {
    |h| <= |qs| && forall i :: 0 <= i < |h| ==> h[i].request == Some(qs[i])
  }

  lemma HeadRequest(mock: bool, e: Exchange, qs: seq<RequestData>, tail: seq<byte>)
    requires AllFramableRequests(qs) && qs != []
    requires Serves(mock, e) && e.from.input == RequestFrames(qs) + tail
    ensures e.request == Some(qs[0]) && e.to.input == RequestFrames(qs[1..]) + tail
  {
    hide Executes, FramableResponse, MergeRequest, EncodeRequest;
    var body := EncodeRequest(qs[0]);
    Associative(Frame(body), RequestFrames(qs[1..]), tail);
    BodyOfFrame(body, RequestFrames(qs[1..]) + tail);
    RequestRoundTrip(NewRequest, qs[0]);
  }

  /** The exchanges of a run over well-formed frames carry the requests, in order. */
  lemma {:induction false} ChainFollowsFrames(mock: bool, p0: Point, qs: seq<RequestData>, tail: seq<byte>, h: seq<Exchange>, p1: Point)
    requires AllFramableRequests(qs) && |h| <= |qs|
    requires p0.input == RequestFrames(qs) + tail && Chain(mock, p0, h, p1)
    ensures Carries(h, qs)
    ensures p1.input == RequestFrames(qs[|h|..]) + tail
    decreases |h|
  {
    hide Serves, Framable, RequestFrames;
    if h == [] {
      assert qs[0..] == qs;
    } else {
      var n := |h| - 1;
      var e := h[n];
      ChainFollowsFrames(mock, p0, qs, tail, h[..n], e.from);
      HeadRequest(mock, e, qs[n..], tail);
      assert qs[n..][1..] == qs[n + 1..];
      assert forall i :: 0 <= i < n ==> h[i] == h[..n][i];
    }
  }

  lemma {:induction false} ChainPrefix(mock: bool, p0: Point, h: seq<Exchange>, p1: Point, k: nat) returns (p: Point)
    requires k <= |h| && Chain(mock, p0, h, p1)
    ensures Chain(mock, p0, h[..k], p)
    decreases |h|
  {
    hide Serves;
    if k == |h| {
      assert h[..k] == h;
      return p1;
    }
    var n := |h| - 1;
    p := ChainPrefix(mock, p0, h[..n], h[n].from, k);
    assert h[..n][..k] == h[..k];
  }

  lemma PrefixCarries(mock: bool, p0: Point, qs: seq<RequestData>, tail: seq<byte>, h: seq<Exchange>, p1: Point)
    requires AllFramableRequests(qs)
    requires p0.input == RequestFrames(qs) + tail && Chain(mock, p0, h, p1)
    ensures forall i :: 0 <= i < |h| && i < |qs| ==> h[i].request == Some(qs[i])
  {
    hide Framable, RequestFrames, Chain;
    var k := if |h| <= |qs| then |h| else |qs|;
    var p := ChainPrefix(mock, p0, h, p1, k);
    ChainFollowsFrames(mock, p0, qs, tail, h[..k], p);
    assert forall i :: 0 <= i < k ==> h[i] == h[..k][i];
  }

  /** Frame-stream refinement. Over N complete frames with a STOP among them, and any bytes after
      them: exchange i serves request i, the output decodes to the responses in order, the run never
      hits the end of the input, and when it ends by itself it has served exactly the requests up to
      the first STOP and left every byte after that frame. It is broken off only by the next request
      going unanswered. */
  lemma FrameStreamStops(setup: Setup, p0: Point, qs: seq<RequestData>, tail: seq<byte>, h: seq<Exchange>,
                         end: RunEnd, p1: Point, output: seq<byte>, sites: seq<nat>)
    requires AllFramableRequests(qs) && FirstStop(qs) < |qs|
    requires p0.input == RequestFrames(qs) + tail && RunOf(setup, p0, h, end, p1, output, sites)
    ensures DecodeResponses(output) == Some(Responses(h))
    ensures var n := FirstStop(qs);
            && Carries(h, qs) && |h| <= n + 1 && end != Eof
            && (end == Stopped <==> |h| == n + 1)
            && (end == Stopped ==> p1.input == RequestFrames(qs[n + 1..]) + tail)
            && (end in {Panicked, Unfinished} ==> |h| <= n && Breaks(setup, p1.bus, qs[|h|], end, sites))
  {
    hide FramableResponse, ResponseFrame, Framable, RequestFrames, Chain, Breaks, MergeRequest;
    OutputDecodes(h, output);
    var n := FirstStop(qs);
    PrefixCarries(setup.mock, p0, qs, tail, h, p1);
    StopBoundsRun(h, end, n, qs);
    ChainFollowsFrames(setup.mock, p0, qs, tail, h, p1);
    if |h| <= n {
      FramesAreLong(qs[|h|..], tail);
      NextRequest(qs[|h|..], tail);
    }
  }

  /** Without a STOP among the frames, and nothing after them, the run serves all of them and then
      reports the end of the input: it never stops by itself. */
  lemma FrameStreamEnds(setup: Setup, p0: Point, qs: seq<RequestData>, h: seq<Exchange>,
                        end: RunEnd, p1: Point, output: seq<byte>, sites: seq<nat>)
    requires AllFramableRequests(qs) && FirstStop(qs) == |qs|
    requires p0.input == RequestFrames(qs) + [] && RunOf(setup, p0, h, end, p1, output, sites)
    ensures DecodeResponses(output) == Some(Responses(h))
    ensures Carries(h, qs) && end != Stopped
    ensures end == Eof <==> |h| == |qs|
    ensures end == Eof ==> p1.input == []
    ensures end in {Panicked, Unfinished} ==> |h| < |qs| && Breaks(setup, p1.bus, qs[|h|], end, sites)
  {
    hide FramableResponse, ResponseFrame, Serves, Framable, RequestFrames, Breaks, MergeRequest;
    OutputDecodes(h, output);
    NothingBeyondFrames(setup.mock, p0, qs, h, p1);
    ChainFollowsFrames(setup.mock, p0, qs, [], h, p1);
    if |h| < |qs| {
      FramesAreLong(qs[|h|..], []);
      NextRequest(qs[|h|..], []);
    } else {
      FramesOfNone(qs[|h|..]);
    }
  }

  /** A run in calm circumstances: the poll loops advance, no deadline was computed close to the wrap
      of the tick counter, and the device has less than 2^29 words to deliver. */
  ghost predicate CalmRun(setup: Setup, p0: Point, sites: seq<nat>) {
    setup.waitStep >= 1 && ClockSafe(setup, sites) && |p0.bus.words| < 0x2000_0000
  }

  /** The next request is a transmission over an open bus that does not fit a block. */
  predicate NextDoesNotFit(mock: bool, h: seq<Exchange>, qs: seq<RequestData>, p1: Point) {
    |h| < |qs| && Transmits(mock, p1.bus, qs[|h|]) && !FitsBlock(qs[|h|])
  }

  /** In calm circumstances a run over complete frames ends by itself, with one answer for each
      request up to the first STOP, or for all of them when there is none. The one exception is exact:
      it panics iff it comes to a transmission over an open bus that does not fit a block. So it always
      completes when all transmissions fit, or hardware transmissions are off. */
  lemma FrameStreamCompletes(setup: Setup, p0: Point, qs: seq<RequestData>, tail: seq<byte>, h: seq<Exchange>,
                             end: RunEnd, p1: Point, output: seq<byte>, sites: seq<nat>)
    requires AllFramableRequests(qs) && (FirstStop(qs) < |qs| || tail == [])
    requires p0.input == RequestFrames(qs) + tail && RunOf(setup, p0, h, end, p1, output, sites)
    requires CalmRun(setup, p0, sites)
    ensures var n := FirstStop(qs);
            && DecodeResponses(output) == Some(Responses(h)) && Carries(h, qs)
            && end != Unfinished
            && (end == Panicked <==> |h| <= n && NextDoesNotFit(setup.mock, h, qs, p1))
            && (end == Stopped <==> n < |qs| && end != Panicked)
            && (end == Eof <==> n == |qs| && end != Panicked)
            && (end == Stopped ==> |h| == n + 1)
            && (end == Eof ==> |h| == |qs|)
    ensures (forall i :: 0 <= i < |qs| && CommandOrDefault(qs[i].command) == MDB_TX ==> setup.mock || FitsBlock(qs[i])) ==>
              end == if FirstStop(qs) < |qs| then Stopped else Eof
  {
    hide Breaks, DecodeResponses, RequestFrames, Framable, ClockSafe, SoFar;
    var n := FirstStop(qs);
    if n < |qs| {
      FrameStreamStops(setup, p0, qs, tail, h, end, p1, output, sites);
    } else {
      FrameStreamEnds(setup, p0, qs, h, end, p1, output, sites);
    }
    WordsRunOut(setup.mock, p0, h, p1, output);
    if end in {Panicked, Unfinished} && FitsOrElsewhere(setup.mock, p1.bus, qs[|h|]) {
      CalmIsAnswered(setup, p1.bus, qs[|h|], end, sites);
    }
    if end == Unfinished {
      UnfinishedFits(setup, p1.bus, qs[|h|], sites);
    }
  }

  predicate FitsOrElsewhere(mock: bool, b: Bus, q: RequestData) {
    Transmits(mock, b, q) ==> FitsBlock(q)
  }

  lemma UnfinishedFits(setup: Setup, b: Bus, q: RequestData, sites: seq<nat>)
    requires Breaks(setup, b, q, Unfinished, sites)
    ensures FitsBlock(q)
  {
  }

  lemma WordsRunOut(mock: bool, p0: Point, h: seq<Exchange>, p1: Point, output: seq<byte>)
    requires SoFar(mock, p0, h, p1, output)
    ensures |p1.bus.words| <= |p0.bus.words|
  {
    hide Serves;
    ChainOverBus(mock, p0, h, p1);
    WordsAlongBus(mock, p0.bus, h, p1.bus);
  }

  lemma FramesAreLong(qs: seq<RequestData>, tail: seq<byte>)
    requires AllFramableRequests(qs) && qs != []
    ensures |RequestFrames(qs) + tail| >= 4
  {
  }

  lemma NextRequest(qs: seq<RequestData>, tail: seq<byte>)
    requires AllFramableRequests(qs) && qs != []
    ensures var s := RequestFrames(qs) + tail;
            |s| >= 4 && MergeRequest(NewRequest, Body(s)) == Some(qs[0])
  {
    hide MergeRequest, EncodeRequest;
    var body := EncodeRequest(qs[0]);
    Associative(Frame(body), RequestFrames(qs[1..]), tail);
    BodyOfFrame(body, RequestFrames(qs[1..]) + tail);
    RequestRoundTrip(NewRequest, qs[0]);
  }

  lemma FramesOfNone(qs: seq<RequestData>)
    requires qs == []
    ensures RequestFrames(qs) + [] == []
  {
  }

  lemma StopBoundsRun(h: seq<Exchange>, end: RunEnd, n: nat, qs: seq<RequestData>)
    requires n < |qs| && CommandOrDefault(qs[n].command) == STOP
    requires forall i :: 0 <= i < n ==> CommandOrDefault(qs[i].command) != STOP
    requires forall i :: 0 <= i < |h| && i < |qs| ==> h[i].request == Some(qs[i])
    requires end == Stopped ==> h != [] && IsStop(h[|h| - 1]) && NoStop(h, |h| - 1)
    requires end != Stopped ==> NoStop(h, |h|)
    ensures |h| <= n + 1 && (end == Stopped <==> |h| == n + 1)
  {
  }

  lemma {:induction false} NothingBeyondFrames(mock: bool, p0: Point, qs: seq<RequestData>, h: seq<Exchange>, p1: Point)
    requires AllFramableRequests(qs)
    requires p0.input == RequestFrames(qs) + [] && Chain(mock, p0, h, p1)
    ensures |h| <= |qs|
    decreases |h|
  {
    hide Framable, RequestFrames, Serves, Chain;
    if h != [] {
      var n, e := |h| - 1, h[|h| - 1];
      ChainLast(mock, p0, h, p1);
      NothingBeyondFrames(mock, p0, qs, h[..n], e.from);
      ChainFollowsFrames(mock, p0, qs, [], h[..n], e.from);
      ServesNeedsInput(mock, e);
      if n == |qs| {
        FramesOfNone(qs[n..]);
      }
    }
  }

  lemma ChainLast(mock: bool, p0: Point, h: seq<Exchange>, p1: Point)
    requires h != [] && Chain(mock, p0, h, p1)
    ensures var e := h[|h| - 1];
            Serves(mock, e) && Chain(mock, p0, h[..|h| - 1], e.from) && p1 == e.to
  {
  }

  lemma ServesNeedsInput(mock: bool, e: Exchange)
    requires Serves(mock, e)
    ensures |e.from.input| >= 4
  {
  }

  lemma OutputDecodes(h: seq<Exchange>, output: seq<byte>)
    requires AllFramable(h) && output == ResponseFrames(Responses(h))
    ensures DecodeResponses(output) == Some(Responses(h))
  {
    hide ResponseFrames, DecodeResponses;
    ResponseFramesDecode(Responses(h), []);
    assert output + [] == output;
    assert DecodeResponses([]) == Some([]) by { DecodeNothing(); }
    assert Responses(h) + [] == Responses(h);
  }

  lemma DecodeNothing()
    ensures DecodeResponses([]) == Some([])
  {
  }

  // ---------------------------------------------------------------- history invariant

  predicate IsOpen(e: Exchange) {
    e.request.Some? && e.request.value.command == 1
  }

  /** The latest MDB_OPEN of a history, if any. */
  function LastOpen(h: seq<Exchange>): (r: Option<Exchange>)
    ensures r.Some? ==> r.value in h && IsOpen(r.value)
    ensures r.None? ==> forall i :: 0 <= i < |h| ==> !IsOpen(h[i])
  {
    if h == [] then None
    else if IsOpen(h[|h| - 1]) then Some(h[|h| - 1])
    else LastOpen(h[..|h| - 1])
  }

  /** What can be told from one exchange. */
  predicate WellAnswered(mock: bool, e: Exchange) {
    && e.response.version == 0 && e.response.status in {1, 2, 6}
    && (e.response.error == [] || e.response.dataBytes == [])
    && (e.response.status == 1 <==> e.ok)
    && (!e.ok ==> e.response.status == if e.request.Some? && Reaches(e.from.bus.open, e.request.value) then 6 else 2)
    && (e.request.Some? && Transmits(mock, e.from.bus, e.request.value) ==> FitsBlock(e.request.value))
    && e.to.bus.open == (if IsOpen(e) then e.ok else e.from.bus.open)
    && e.to.bus.pins == (if IsOpen(e) then (if e.ok then e.request.value.argBytes else []) else e.from.bus.pins)
    && |e.to.bus.words| <= |e.from.bus.words|
  }

  lemma ExchangeAnswered(mock: bool, e: Exchange)
    requires Serves(mock, e)
    ensures WellAnswered(mock, e)
  {
    hide MergeRequest, FramableResponse, Executes, Transmits, FitsBlock;
    if e.request.Some? {
      StatusOfCommand(mock, e.from.bus, e.request.value, NewResponse, e.response, e.ok, e.to.bus);
    }
  }

  /** Exchanges over one bus, whatever the input of each. */
  predicate BusChain(mock: bool, b0: Bus, h: seq<Exchange>, b1: Bus)
    decreases |h|
  {
    if h == [] then b1 == b0
    else
      var e := h[|h| - 1];
      BusChain(mock, b0, h[..|h| - 1], e.from.bus) && Serves(mock, e) && b1 == e.to.bus
  }

  lemma {:induction false} ChainOverBus(mock: bool, p0: Point, h: seq<Exchange>, p1: Point)
    requires Chain(mock, p0, h, p1)
    ensures BusChain(mock, p0.bus, h, p1.bus)
    decreases |h|
  {
    hide Serves;
    if h != [] {
      ChainOverBus(mock, p0, h[..|h| - 1], h[|h| - 1].from);
    }
  }

  lemma {:induction false} OpenOverBus(mock: bool, b0: Bus, h: seq<Exchange>, b1: Bus)
    requires BusChain(mock, b0, h, b1) && !b0.open
    ensures b1.open <==> LastOpen(h).Some? && LastOpen(h).value.response.status == 1
    ensures b1.open ==> b1.pins == LastOpen(h).value.request.value.argBytes
    ensures forall i :: 0 <= i < |h| ==> WellAnswered(mock, h[i])
    decreases |h|
  {
    hide Serves, IsOpen;
    if h != [] {
      var n := |h| - 1;
      var e := h[n];
      OpenOverBus(mock, b0, h[..n], e.from.bus);
      ExchangeAnswered(mock, e);
      assert forall i :: 0 <= i < n ==> h[i] == h[..n][i];
    }
  }

  /** In every run from a closed bus, the bus is open exactly when the latest MDB_OPEN was answered OK,
      and every answer is OK, an input error or a hardware error: OK exactly for a successful command,
      an input error for whatever did not parse, and none for a transmission that does not fit. */
  lemma OpenIffLastOpenOk(mock: bool, p0: Point, h: seq<Exchange>, p1: Point)
    requires Chain(mock, p0, h, p1) && !p0.bus.open
    ensures p1.bus.open <==> LastOpen(h).Some? && LastOpen(h).value.response.status == 1
    ensures p1.bus.open ==> p1.bus.pins == LastOpen(h).value.request.value.argBytes
    ensures forall i :: 0 <= i < |h| ==> WellAnswered(mock, h[i])
  {
    hide *;
    ChainOverBus(mock, p0, h, p1);
    OpenOverBus(mock, p0.bus, h, p1.bus);
  }

  /** Exchange i of a bus chain starts where the one before it left the bus. */
  lemma {:induction false} BusChainAt(mock: bool, b0: Bus, h: seq<Exchange>, b1: Bus, i: nat)
    requires BusChain(mock, b0, h, b1) && i < |h|
    ensures BusChain(mock, b0, h[..i], h[i].from.bus) && Serves(mock, h[i])
    ensures i == 0 ==> h[0].from.bus == b0
    ensures i > 0 ==> h[i].from.bus == h[i - 1].to.bus
    decreases |h|
  {
    hide Serves;
    var n := |h| - 1;
    if i < n {
      BusChainAt(mock, b0, h[..n], h[n].from.bus, i);
      assert h[..n][..i] == h[..i];
    } else if n > 0 {
      assert h[..n][n - 1] == h[n - 1];
    }
  }

  /** The device's remaining words are a suffix of what it had at the start. */
  lemma {:induction false} WordsAlongBus(mock: bool, b0: Bus, h: seq<Exchange>, b1: Bus)
    requires BusChain(mock, b0, h, b1)
    ensures IsSuffix(b1.words, b0.words)
    decreases |h|
  {
    hide Serves, IsSuffix;
    if h == [] {
      SuffixOfSelf(b0.words);
    } else {
      var e := h[|h| - 1];
      WordsAlongBus(mock, b0, h[..|h| - 1], e.from.bus);
      ServedWords(mock, e);
      SuffixOfSuffix(e.to.bus.words, e.from.bus.words, b0.words);
    }
  }

  /** A later exchange finds a suffix of the words that an earlier one left. */
  lemma {:induction false} LaterWords(mock: bool, b0: Bus, h: seq<Exchange>, b1: Bus, j: nat, k: nat)
    requires BusChain(mock, b0, h, b1) && j < k < |h|
    ensures IsSuffix(h[k].from.bus.words, h[j].to.bus.words)
    decreases k
  {
    hide Serves, BusChain, IsSuffix;
    BusChainAt(mock, b0, h, b1, k);
    if j == k - 1 {
      SuffixOfSelf(h[j].to.bus.words);
    } else {
      LaterWords(mock, b0, h, b1, j, k - 1);
      BusChainAt(mock, b0, h, b1, k - 1);
      ServedWords(mock, h[k - 1]);
      SuffixOfSuffix(h[k].from.bus.words, h[k - 1].from.bus.words, h[j].to.bus.words);
    }
  }

  lemma ServedWords(mock: bool, e: Exchange)
    requires Serves(mock, e)
    ensures IsSuffix(e.to.bus.words, e.from.bus.words)
  {
    hide MergeRequest, FramableResponse, Executes, IsSuffix;
    SuffixOfSelf(e.from.bus.words);
    if e.request.Some? {
      StatusOfCommand(mock, e.from.bus, e.request.value, NewResponse, e.response, e.ok, e.to.bus);
    }
  }
}
