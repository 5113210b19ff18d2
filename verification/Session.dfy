/** Client, server and the two pipes between them as one system of steps. Bytes move in portions of
    any size; the client and the server take their steps in any order. */
module Session {
  import opened Basics
  import opened Wire
  import opened Messages
  import opened Codec
  import opened Frames
  import opened Commands
  import opened ServerSpec
  import opened Client
  import Block = MdbBlock

  /** The server's setup, and the width of the client's int. */
  datatype System = System(server: Setup, width: Width)

  datatype Phase = Idle | Sending(left: seq<byte>) | AwaitHeader | AwaitBody(length: u32)

  /** A call: the request, and what the caller's response message holds beforehand. */
  datatype Call = Call(request: RequestData, into: ResponseData)

  /** `readAhead` is what the server has fetched from its pipe but not yet served; `broken` says that
      it broke off at a request. */
  datatype State = State(
    phase: Phase, calls: seq<Call>, results: seq<DoResult>,
    toServer: seq<byte>, readAhead: seq<byte>, toClient: seq<byte>,
    served: seq<Exchange>, bus: Bus, running: bool, broken: bool)

  /** Nothing called, the bus closed, and a device with these words to deliver. */
  function Start(words: seq<Block.Word>): State {
    State(Idle, [], [], [], [], [], [], Closed(words), true, false)
  }

  datatype Action =
    | Do(call: Call)
    | Write(n: nat)
    | Fetch(n: nat)
    | Serve(e: Exchange)
    | BreakOff(end: RunEnd, sites: seq<nat>)
    | ReadHeader
    | ReadBody

  function StepDo(s: State, c: Call): Option<State> {
    if s.phase == Idle && Framable(c.request) then
      Some(s.(phase := Sending(RequestFrame(c.request)), calls := s.calls + [c]))
    else None
  }

  function StepWrite(s: State, n: nat): Option<State> {
    if s.phase.Sending? && 1 <= n <= |s.phase.left| then
      var left := s.phase.left[n..];
      Some(s.(phase := if left == [] then AwaitHeader else Sending(left), toServer := s.toServer + s.phase.left[..n]))
    else None
  }

  function StepFetch(s: State, n: nat): Option<State> {
    if 1 <= n <= |s.toServer| then
      Some(s.(toServer := s.toServer[n..], readAhead := s.readAhead + s.toServer[..n]))
    else None
  }

  /** The server serves once a whole frame is there; its answer is one flush. */
  function StepServe(mock: bool, s: State, e: Exchange): Option<State> {
    if s.running && HasFrame(s.readAhead) && Serves(mock, e) && e.from == Point(s.readAhead, s.bus) then
      Some(s.(readAhead := e.to.input, toClient := s.toClient + ResponseFrame(e.response),
              served := s.served + [e], bus := e.to.bus, running := !IsStop(e)))
    else None
  }

  /** Or it breaks off at the request, under the conditions of a run. */
  ghost function StepBreakOff(sys: System, s: State, end: RunEnd, sites: seq<nat>): Option<State> {
    if s.running && HasFrame(s.readAhead) && BreaksOff(sys.server, Point(s.readAhead, s.bus), end, sites) then
      Some(s.(running := false, broken := true))
    else None
  }

  /** A client read waits until something is there. */
  function StepReadHeader(width: Width, s: State): Option<State> {
    if s.phase == AwaitHeader && s.toClient != [] && s.calls != [] then
      var s' := s.(toClient := AfterHeader(s.toClient));
      match TakeHeader(width, s.toClient, s.calls[|s.calls| - 1].into)
      case Expect(n) => Some(s'.(phase := AwaitBody(n)))
      case Return(r) => Some(s'.(phase := Idle, results := s.results + [r]))
    else None
  }

  function StepReadBody(s: State): Option<State> {
    if s.phase.AwaitBody? && (s.phase.length == 0 || s.toClient != []) && s.calls != [] then
      Some(s.(phase := Idle, toClient := AfterBody(s.toClient, s.phase.length),
              results := s.results + [TakeBody(s.toClient, s.phase.length, s.calls[|s.calls| - 1].into)]))
    else None
  }

  /** One step, if the action is possible. */
  ghost function Step(sys: System, s: State, a: Action): Option<State> {
    match a
    case Do(c) => StepDo(s, c)
    case Write(n) => StepWrite(s, n)
    case Fetch(n) => StepFetch(s, n)
    case Serve(e) => StepServe(sys.server.mock, s, e)
    case BreakOff(end, sites) => StepBreakOff(sys, s, end, sites)
    case ReadHeader => StepReadHeader(sys.width, s)
    case ReadBody => StepReadBody(s)
  }

  /** A complete frame is at the head of the input. */
  predicate HasFrame(s: seq<byte>) {
    |s| >= 4 && |s| >= 4 + UnFixed32(s[..4])
  }

  ghost function Steps(sys: System, words: seq<Block.Word>, acts: seq<Action>): Option<State> {
    if acts == [] then Some(Start(words))
    else
      match Steps(sys, words, acts[..|acts| - 1])
      case None => None
      case Some(s) => Step(sys, s, acts[|acts| - 1])
  }

  // ---------------------------------------------------------------- the lockstep invariant

  predicate Fits(e: Exchange) {
    FramableResponse(e.response) && |EncodeResponse(e.response)| <= BUF_SIZE
  }

  /** The calls whose response length has been read. */
  function HeadersRead(s: State): nat {
    |s.results| + if s.phase.AwaitBody? then 1 else 0
  }

  /** Every response whose length has been read fits the client's buffer. */
  predicate AllReadFit(s: State) {
    forall i :: 0 <= i < HeadersRead(s) && i < |s.served| ==> Fits(s.served[i])
  }

  /** The exchanges serve the calls, in order. */
  predicate Serving(calls: seq<Call>, h: seq<Exchange>) {
    |h| <= |calls| && forall i :: 0 <= i < |h| ==> h[i].request == Some(calls[i].request)
  }

  /** Call k returned the response of exchange k, laid over the caller's message. */
  predicate Returned(calls: seq<Call>, h: seq<Exchange>, results: seq<DoResult>) {
    && |results| <= |h| && |results| <= |calls|
    && forall k :: 0 <= k < |results| ==> results[k] == Done(OverlayResponse(calls[k].into, h[k].response))
  }

  /** Where the bytes of the call in flight are. */
  predicate InFlight(s: State) {
    var n := |s.results|;
    match s.phase
    case Idle =>
      |s.calls| == n && |s.served| == n && s.readAhead == [] && s.toServer == [] && s.toClient == []
    case Sending(left) =>
      && |s.calls| == n + 1 && |s.served| == n && s.toClient == [] && left != []
      && Framable(s.calls[n].request) && s.readAhead + s.toServer + left == RequestFrame(s.calls[n].request)
    case AwaitHeader =>
      && |s.calls| == n + 1
      && (|| (&& |s.served| == n && s.toClient == []
              && Framable(s.calls[n].request) && s.readAhead + s.toServer == RequestFrame(s.calls[n].request))
          || (&& |s.served| == n + 1 && s.readAhead == [] && s.toServer == []
              && FramableResponse(s.served[n].response) && s.toClient == ResponseFrame(s.served[n].response)))
    case AwaitBody(length) =>
      && |s.calls| == n + 1 && |s.served| == n + 1 && s.readAhead == [] && s.toServer == []
      && FramableResponse(s.served[n].response)
      && s.toClient == EncodeResponse(s.served[n].response) && length == |s.toClient|
  }

  ghost predicate Lockstep(s: State) {
    InFlight(s) && Serving(s.calls, s.served) && Returned(s.calls, s.served, s.results)
  }

  lemma PartialFrame(body: seq<byte>, part: seq<byte>, rest: seq<byte>)
    requires |body| < 0x1_0000_0000
    requires part + rest == Frame(body) && HasFrame(part)
    ensures rest == [] && part == Frame(body)
  {
    hide Fixed32, UnFixed32;
    Fixed32RoundTrip(|body|);
    assert part[..4] == (part + rest)[..4] == Fixed32(|body|);
    assert |part| >= |part + rest|;
    assert part + rest == part;
  }

  lemma KeptByDo(s: State, c: Call)
    requires Lockstep(s) && StepDo(s, c).Some?
    ensures Lockstep(StepDo(s, c).value)
  {
    hide RequestFrame, EncodeRequest;
    assert [] + [] + RequestFrame(c.request) == RequestFrame(c.request);
    FrameNotEmpty(c.request);
  }

  lemma FrameNotEmpty(q: RequestData)
    requires Framable(q)
    ensures RequestFrame(q) != []
  {
  }

  lemma Shifted(a: seq<byte>, b: seq<byte>, left: seq<byte>, n: nat)
    requires n <= |left|
    ensures a + (b + left[..n]) + left[n..] == a + b + left
    ensures left[n..] == [] ==> a + (b + left[..n]) == a + b + left
  {
  }

  lemma KeptByWrite(s: State, n: nat)
    requires Lockstep(s) && StepWrite(s, n).Some?
    ensures Lockstep(StepWrite(s, n).value)
  {
    hide Serving, Returned, RequestFrame, Framable;
    Shifted(s.readAhead, s.toServer, s.phase.left, n);
  }

  lemma KeptByFetch(s: State, n: nat)
    requires Lockstep(s) && StepFetch(s, n).Some?
    ensures Lockstep(StepFetch(s, n).value)
  {
    hide Serving, Returned, RequestFrame, Framable, FramableResponse, ResponseFrame;
    assert s.readAhead + s.toServer[..n] + s.toServer[n..] == s.readAhead + s.toServer;
  }

  /** A whole frame before the server is the call in flight, after all of it has been sent. */
  lemma FrameIsTheCall(s: State)
    requires InFlight(s) && HasFrame(s.readAhead)
    ensures var n := |s.results|;
            && s.phase == AwaitHeader && |s.calls| == n + 1 && |s.served| == n && s.toServer == [] && s.toClient == []
            && Framable(s.calls[n].request) && s.readAhead == RequestFrame(s.calls[n].request)
            && MergeRequest(NewRequest, Body(s.readAhead)) == Some(s.calls[n].request)
            && s.readAhead[4 + |Body(s.readAhead)|..] == []
  {
    hide MergeRequest, FramableResponse, EncodeRequest, ResponseFrame;
    var n := |s.results|;
    var rest := if s.phase.Sending? then s.toServer + s.phase.left else s.toServer;
    assert s.phase.Sending? || s.phase.AwaitHeader?;
    var q := s.calls[n].request;
    Associative(s.readAhead, s.toServer, if s.phase.Sending? then s.phase.left else []);
    PartialFrame(EncodeRequest(q), s.readAhead, rest);
    assert s.readAhead == Frame(EncodeRequest(q)) + [];
    BodyOfFrame(EncodeRequest(q), []);
    RequestRoundTrip(NewRequest, q);
  }

  lemma KeptByServe(mock: bool, s: State, e: Exchange)
    requires Lockstep(s) && StepServe(mock, s, e).Some?
    ensures Lockstep(StepServe(mock, s, e).value)
  {
    hide Executes, FramableResponse, ResponseFrame, RequestFrame, HasFrame, MergeRequest, Framable;
    FrameIsTheCall(s);
    assert [] + ResponseFrame(e.response) == ResponseFrame(e.response);
  }


  /** The next step reads the length of a response that does not fit the client's buffer. */
  predicate ReadsLong(s: State, a: Action) {
    a.ReadHeader? && |s.results| < |s.served| && !Fits(s.served[|s.results|])
  }

  lemma HeaderRead(sys: System, s: State)
    requires Lockstep(s) && StepReadHeader(sys.width, s).Some?
    ensures var n := |s.results|;
            && |s.served| == n + 1 && FramableResponse(s.served[n].response)
            && var body := EncodeResponse(s.served[n].response);
               StepReadHeader(sys.width, s).value ==
               if |body| <= BUF_SIZE then s.(phase := AwaitBody(|body|), toClient := body)
               else s.(phase := Idle, toClient := body, results := s.results + [Refusal(sys.width, |body|)])
  {
    hide Returned, Serving, EncodeResponse, Fixed32, UnFixed32, RequestFrame, TakeHeader, AfterHeader;
    var n := |s.results|;
    HeaderOfFrame(sys.width, s.served[n].response, s.calls[n].into);
  }

  lemma KeptByReadHeader(sys: System, s: State)
    requires Lockstep(s) && StepReadHeader(sys.width, s).Some?
    ensures Lockstep(StepReadHeader(sys.width, s).value) <==> !ReadsLong(s, ReadHeader)
  {
    hide Returned, EncodeResponse, RequestFrame, StepReadHeader;
    HeaderRead(sys, s);
  }

  lemma WholeBody(r: ResponseData, m: ResponseData)
    requires FramableResponse(r)
    ensures TakeBody(EncodeResponse(r), |EncodeResponse(r)|, m) == Done(OverlayResponse(m, r))
    ensures AfterBody(EncodeResponse(r), |EncodeResponse(r)|) == []
  {
    hide EncodeResponse, MergeResponse, OverlayResponse;
    ResponseRoundTrip(m, r);
    assert EncodeResponse(r)[..|EncodeResponse(r)|] == EncodeResponse(r);
  }

  lemma KeptByReadBody(s: State)
    requires Lockstep(s) && StepReadBody(s).Some?
    ensures Lockstep(StepReadBody(s).value)
  {
    hide EncodeResponse, MergeResponse, OverlayResponse, RequestFrame, ResponseFrame, Framable, TakeBody, AfterBody;
    var n := |s.results|;
    assert s.calls[|s.calls| - 1] == s.calls[n];
    WholeBody(s.served[n].response, s.calls[n].into);
  }

  lemma KeptByBreakOff(sys: System, s: State, end: RunEnd, sites: seq<nat>)
    requires Lockstep(s) && StepBreakOff(sys, s, end, sites).Some?
    ensures Lockstep(StepBreakOff(sys, s, end, sites).value)
  {
    hide BreaksOff, RequestFrame, ResponseFrame;
  }

  /** A step leaves lockstep exactly when it reads the length of a response over 256 bytes. */
  lemma StepKeepsLockstep(sys: System, s: State, a: Action)
    requires Lockstep(s) && Step(sys, s, a).Some?
    ensures Lockstep(Step(sys, s, a).value) <==> !ReadsLong(s, a)
  {
    hide Lockstep, StepDo, StepWrite, StepFetch, StepServe, StepBreakOff, StepReadHeader, StepReadBody;
    match a
    case Do(c) => KeptByDo(s, c);
    case Write(n) => KeptByWrite(s, n);
    case Fetch(n) => KeptByFetch(s, n);
    case Serve(e) => KeptByServe(sys.server.mock, s, e);
    case BreakOff(end, sites) => KeptByBreakOff(sys, s, end, sites);
    case ReadHeader => KeptByReadHeader(sys, s);
    case ReadBody => KeptByReadBody(s);
  }

  // ---------------------------------------------------------------- out of lockstep

  /** What is added to, and never taken back. */
  predicate Grows(s: State, t: State) {
    s.calls <= t.calls && s.results <= t.results && s.served <= t.served
  }

  lemma StepGrows(sys: System, s: State, a: Action)
    requires Step(sys, s, a).Some?
    ensures Grows(s, Step(sys, s, a).value)
  {
    hide Framable, RequestFrame, ResponseFrame, HasFrame, Serves, BreaksOff, TakeHeader, TakeBody, AfterHeader, AfterBody;
  }

  /** Call k met the first response that does not fit. The calls before it returned their responses,
      it failed, and its response body is what the next call reads for a length, and fails on too. */
  predicate Derailed(sys: System, s: State, k: nat) {
    && k < |s.results| && k < |s.served| && k < |s.calls|
    && (forall i :: 0 <= i < k ==> Fits(s.served[i]))
    && (forall i :: 0 <= i <= k ==> s.served[i].request == Some(s.calls[i].request))
    && Returned(s.calls, s.served, s.results[..k])
    && !Fits(s.served[k]) && FramableResponse(s.served[k].response)
    && var body := EncodeResponse(s.served[k].response);
       && |body| > BUF_SIZE && s.results[k] == Refusal(sys.width, |body|)
       && (|s.results| == k + 1 ==> !s.phase.AwaitBody? && body <= s.toClient)
       && (|s.results| > k + 1 ==> UnFixed32(body[..4]) >= 0x8000_0000 && s.results[k + 1] == Refusal(sys.width, UnFixed32(body[..4])))
  }

  lemma DerailedMeans(sys: System, s: State, k: nat)
    requires Derailed(sys, s, k)
    ensures !Lockstep(s) && !AllReadFit(s)
  {
    hide EncodeResponse, OverlayResponse, InFlight, UnFixed32;
    assert !s.results[k].Done?;
  }

  lemma Derails(sys: System, s: State)
    requires Lockstep(s) && AllReadFit(s) && StepReadHeader(sys.width, s).Some? && ReadsLong(s, ReadHeader)
    ensures Derailed(sys, StepReadHeader(sys.width, s).value, |s.results|)
  {
    hide EncodeResponse, OverlayResponse, StepReadHeader, UnFixed32;
    HeaderRead(sys, s);
    assert StepReadHeader(sys.width, s).value.results[..|s.results|] == s.results;
  }

  /** While the next call has not read a length, the body stays at the head of the client's pipe. */
  lemma BodyStays(sys: System, s: State, a: Action, body: seq<byte>)
    requires !s.phase.AwaitBody? && body <= s.toClient && a != ReadHeader && Step(sys, s, a).Some?
    ensures var t := Step(sys, s, a).value;
            !t.phase.AwaitBody? && body <= t.toClient && t.results == s.results
  {
    hide Framable, RequestFrame, ResponseFrame, HasFrame, Serves, BreaksOff;
  }

  /** And then the call fails on it. */
  lemma BodyReadAsLength(sys: System, s: State, r: ResponseData)
    requires FramableResponse(r) && |EncodeResponse(r)| > BUF_SIZE
    requires r.version == 0 && r.status in {OK, ERR_INPUT, ERR_HARDWARE} && (r.error == [] || r.dataBytes == [])
    requires EncodeResponse(r) <= s.toClient && StepReadHeader(sys.width, s).Some?
    ensures var n := UnFixed32(EncodeResponse(r)[..4]);
            n >= 0x8000_0000 && StepReadHeader(sys.width, s).value.results == s.results + [Refusal(sys.width, n)]
  {
    hide EncodeResponse, TakeHeader, UnFixed32;
    var body := EncodeResponse(r);
    var rest := s.toClient[|body|..];
    assert s.toClient == body + rest;
    NextFailsToo(sys.width, r, s.calls[|s.calls| - 1].into, rest);
  }

  /** In whatever state a response over 256 bytes is read, its call fails and its whole body stays in
      the client's pipe between calls, out of lockstep. */
  lemma LongResponseBreaksLockstep(sys: System, s: State, r: ResponseData)
    requires FramableResponse(r) && |EncodeResponse(r)| > BUF_SIZE
    requires s.phase == AwaitHeader && s.calls != [] && s.toClient == ResponseFrame(r)
    ensures var t := s.(phase := Idle, toClient := EncodeResponse(r), results := s.results + [Refusal(sys.width, |EncodeResponse(r)|)]);
            Step(sys, s, ReadHeader) == Some(t) && !Lockstep(t)
  {
    hide Step, Returned, EncodeResponse, TakeHeader, AfterHeader, RequestFrame, Framable;
    StepsToHeader(sys, s);
    HeaderOfFrame(sys.width, r, s.calls[|s.calls| - 1].into);
  }

  lemma StaysDerailed(sys: System, s: State, a: Action, k: nat)
    requires Derailed(sys, s, k) && Step(sys, s, a).Some? && WellAnswered(sys.server.mock, s.served[k])
    ensures Derailed(sys, Step(sys, s, a).value, k)
  {
    hide EncodeResponse, OverlayResponse, Step, UnFixed32;
    StepGrows(sys, s, a);
    var t, r := Step(sys, s, a).value, s.served[k].response;
    assert t.results[..k] == s.results[..k];
    if |s.results| == k + 1 {
      if a == ReadHeader {
        assert Step(sys, s, a) == StepReadHeader(sys.width, s) by { StepsToHeader(sys, s); }
        BodyReadAsLength(sys, s, r);
      } else {
        BodyStays(sys, s, a, EncodeResponse(r));
      }
    }
  }

  lemma StepsToHeader(sys: System, s: State)
    ensures Step(sys, s, ReadHeader) == StepReadHeader(sys.width, s)
  {
    hide StepDo, StepWrite, StepFetch, StepServe, StepBreakOff, StepReadHeader, StepReadBody;
  }

  // ---------------------------------------------------------------- every reachable state

  /** The exchanges follow one another over the bus, which was closed at first. */
  ghost predicate OnBus(mock: bool, words: seq<Block.Word>, s: State) {
    BusChain(mock, Closed(words), s.served, s.bus)
  }

  lemma StepKeepsBus(sys: System, words: seq<Block.Word>, s: State, a: Action)
    requires OnBus(sys.server.mock, words, s) && Step(sys, s, a).Some?
    ensures OnBus(sys.server.mock, words, Step(sys, s, a).value)
  {
    hide Framable, RequestFrame, ResponseFrame, HasFrame, Serves, BreaksOff, TakeHeader, TakeBody, AfterHeader, AfterBody;
    if a.Serve? {
      assert (s.served + [a.e])[..|s.served|] == s.served;
    }
  }

  lemma ReadFitStays(sys: System, s: State, a: Action)
    requires Lockstep(s) && AllReadFit(s) && Step(sys, s, a).Some? && !ReadsLong(s, a)
    ensures AllReadFit(Step(sys, s, a).value)
  {
    hide Fits, StepReadHeader, Framable, RequestFrame, ResponseFrame, HasFrame, Serves, BreaksOff, TakeBody, AfterBody, Returned, Serving;
    if a == ReadHeader {
      HeaderRead(sys, s);
      FitsOfShort(s.served[|s.results|]);
    }
  }

  lemma FitsOfShort(e: Exchange)
    requires FramableResponse(e.response)
    ensures Fits(e) <==> |EncodeResponse(e.response)| <= BUF_SIZE
  {
  }

  /** In every reachable state, under every interleaving, the system is in lockstep exactly when every
      response whose length was read fits the client's buffer. Otherwise the first that does not has
      derailed it. */
  lemma {:induction false} LockstepExactly(sys: System, words: seq<Block.Word>, acts: seq<Action>)
    requires Steps(sys, words, acts).Some?
    ensures var s := Steps(sys, words, acts).value;
            && OnBus(sys.server.mock, words, s)
            && (Lockstep(s) <==> AllReadFit(s))
            && (AllReadFit(s) || exists k :: Derailed(sys, s, k))
  {
    hide Lockstep, Step, AllReadFit, OnBus, Derailed, ReadsLong;
    if acts == [] {
      StartsInLockstep(sys.server.mock, words);
    } else {
      var n := |acts| - 1;
      var s, a := Steps(sys, words, acts[..n]).value, acts[n];
      LockstepExactly(sys, words, acts[..n]);
      StepKeepsBus(sys, words, s, a);
      OneStep(sys, words, s, a);
    }
  }

  lemma OneStep(sys: System, words: seq<Block.Word>, s: State, a: Action)
    requires OnBus(sys.server.mock, words, s) && Step(sys, s, a).Some?
    requires (Lockstep(s) && AllReadFit(s)) || exists k :: Derailed(sys, s, k)
    ensures var t := Step(sys, s, a).value;
            && (Lockstep(t) <==> AllReadFit(t))
            && (AllReadFit(t) || exists k :: Derailed(sys, t, k))
  {
    hide Lockstep, Step, AllReadFit, OnBus, Derailed, WellAnswered;
    if k :| Derailed(sys, s, k) {
      ServedWell(sys, words, s, k);
      StaysDerailed(sys, s, a, k);
      DerailedMeans(sys, Step(sys, s, a).value, k);
    } else {
      StepKeepsLockstep(sys, s, a);
      if ReadsLong(s, a) {
        StepsToHeader(sys, s);
        Derails(sys, s);
        DerailedMeans(sys, StepReadHeader(sys.width, s).value, |s.results|);
      } else {
        ReadFitStays(sys, s, a);
      }
    }
  }

  lemma ServedWell(sys: System, words: seq<Block.Word>, s: State, k: nat)
    requires OnBus(sys.server.mock, words, s) && Derailed(sys, s, k)
    ensures k < |s.served| && WellAnswered(sys.server.mock, s.served[k])
  {
    hide WellAnswered, BusChain;
    OpenOverBus(sys.server.mock, Closed(words), s.served, s.bus);
  }

  lemma StartsInLockstep(mock: bool, words: seq<Block.Word>)
    ensures var s := Start(words);
            Lockstep(s) && AllReadFit(s) && OnBus(mock, words, s)
  {
  }

  // ---------------------------------------------------------------- what callers see

  /** Call k and all calls before it got responses that fit the client's buffer. */
  predicate FitsUpTo(s: State, k: nat) {
    k < |s.results| && k < |s.served| && forall i :: 0 <= i <= k ==> Fits(s.served[i])
  }

  /** Call k returned the response that exchange k gave to its request, on the bus as the exchange
      before left it. */
  predicate ReturnsAnswer(mock: bool, words: seq<Block.Word>, s: State, k: nat)
    requires k < |s.results| && k < |s.served|
  {
    var e := s.served[k];
    && k < |s.calls| && e.request == Some(s.calls[k].request)
    && e.from.bus == (if k == 0 then Closed(words) else s.served[k - 1].to.bus)
    && Executes(mock, e.from.bus, s.calls[k].request, NewResponse, e.response, e.ok, e.to.bus)
    && s.results[k] == Done(OverlayResponse(s.calls[k].into, e.response))
    && (s.calls[k].into == NewResponse ==> s.results[k] == Done(e.response))
  }

  /** Every call up to the first response that does not fit returns the response that the server
      executed for its request. As long as all fit, there is never more than one call in flight, and
      the pipes are empty between calls. */
  lemma SessionTheorem(sys: System, words: seq<Block.Word>, acts: seq<Action>)
    requires Steps(sys, words, acts).Some?
    ensures var s := Steps(sys, words, acts).value;
            && (forall k: nat :: FitsUpTo(s, k) ==> ReturnsAnswer(sys.server.mock, words, s, k))
            && (AllReadFit(s) ==>
                  && |s.results| <= |s.served| <= |s.calls| <= |s.results| + 1
                  && (forall k: nat :: k < |s.results| ==> FitsUpTo(s, k))
                  && (s.phase == Idle ==> s.toServer == [] && s.readAhead == [] && s.toClient == [] && |s.results| == |s.calls|))
  {
    hide Steps, ReturnsAnswer, Lockstep, AllReadFit, Derailed, OnBus;
    var s := Steps(sys, words, acts).value;
    LockstepExactly(sys, words, acts);
    forall k: nat | FitsUpTo(s, k) ensures ReturnsAnswer(sys.server.mock, words, s, k) {
      if AllReadFit(s) {
        LockstepReturns(s, k);
      } else {
        var first :| Derailed(sys, s, first);
        DerailedReturns(sys, s, first, k);
      }
      AnswerReturned(sys.server.mock, words, s, k);
    }
    if AllReadFit(s) {
      LockstepCounts(s);
    }
  }

  lemma AnswerReturned(mock: bool, words: seq<Block.Word>, s: State, k: nat)
    requires OnBus(mock, words, s) && FitsUpTo(s, k)
    requires k < |s.calls| && s.served[k].request == Some(s.calls[k].request)
    requires s.results[k] == Done(OverlayResponse(s.calls[k].into, s.served[k].response))
    ensures ReturnsAnswer(mock, words, s, k)
  {
    hide Fits, Executes, OnBus;
    ExecutedOnBus(mock, words, s, k);
  }

  lemma LockstepReturns(s: State, k: nat)
    requires Lockstep(s) && FitsUpTo(s, k)
    ensures k < |s.calls| && s.served[k].request == Some(s.calls[k].request)
    ensures s.results[k] == Done(OverlayResponse(s.calls[k].into, s.served[k].response))
  {
  }

  lemma DerailedReturns(sys: System, s: State, first: nat, k: nat)
    requires Derailed(sys, s, first) && FitsUpTo(s, k)
    ensures k < |s.calls| && s.served[k].request == Some(s.calls[k].request)
    ensures s.results[k] == Done(OverlayResponse(s.calls[k].into, s.served[k].response))
  {
    hide Fits, UnFixed32, EncodeResponse, OverlayResponse;
    assert k < first;
    assert s.results[..first][k] == s.results[k];
  }

  lemma ExecutedOnBus(mock: bool, words: seq<Block.Word>, s: State, k: nat)
    requires OnBus(mock, words, s) && FitsUpTo(s, k) && s.served[k].request.Some?
    ensures s.served[k].from.bus == if k == 0 then Closed(words) else s.served[k - 1].to.bus
    ensures Executes(mock, s.served[k].from.bus, s.served[k].request.value, NewResponse,
                     s.served[k].response, s.served[k].ok, s.served[k].to.bus)
  {
    hide Fits, Executes, MergeRequest, FramableResponse, IsSuffix, BusChain;
    BusChainAt(mock, Closed(words), s.served, s.bus, k);
  }

  lemma LockstepCounts(s: State)
    requires Lockstep(s) && AllReadFit(s)
    ensures |s.results| <= |s.served| <= |s.calls| <= |s.results| + 1
    ensures forall k: nat :: k < |s.results| ==> FitsUpTo(s, k)
    ensures s.phase == Idle ==> s.toServer == [] && s.readAhead == [] && s.toClient == [] && |s.results| == |s.calls|
  {
    hide Fits, OverlayResponse, RequestFrame, ResponseFrame;
  }

  /** Call k was a transmission into a fresh message and returned OK. */
  predicate OkTransmission(s: State, k: nat) {
    && FitsUpTo(s, k) && k < |s.calls| && s.calls[k].into == NewResponse
    && CommandOrDefault(s.calls[k].request.command) == MDB_TX
    && s.results[k].Done? && s.results[k].response.status == OK
  }

  /** From the caller to the device and back: a transmission that returns OK over real hardware fitted
      a block, came after an MDB_OPEN answered OK, and returns the reply that stood next in the
      device's words. If an intact block stood there, these are its bytes. A block with one word
      changed is never returned as OK. */
  lemma CallReturnsDeviceReply(sys: System, words: seq<Block.Word>, acts: seq<Action>, k: nat)
    requires Steps(sys, words, acts).Some? && !sys.server.mock && OkTransmission(Steps(sys, words, acts).value, k)
    ensures var s := Steps(sys, words, acts).value;
            var next, data := s.served[k].from.bus.words, s.results[k].response.dataBytes;
            && FitsBlock(s.calls[k].request)
            && LastOpen(s.served[..k]).Some? && LastOpen(s.served[..k]).value.response.status == 1
            && s.served[k].from.bus.pins == LastOpen(s.served[..k]).value.request.value.argBytes
            && IsSuffix(next, words) && Accepted(next) && data == Block.OnePass([], next).response
            && (forall d, rest :: d != [] && next == Block.Block(d) + rest ==> data == d)
            && (forall d, rest, i: nat, x :: d != [] && i <= |d| && x != Block.Block(d)[i].data ==> next != Corrupt(d, i, x) + rest)
  {
    hide Steps, Fits, ReturnsAnswer, LastOpen, IsSuffix, Accepted, Corrupt, Block.OnePass, Block.Block, Lockstep, AllReadFit,
         Derailed, OnBus, FitsBlock;
    var s := Steps(sys, words, acts).value;
    SessionTheorem(sys, words, acts);
    LockstepExactly(sys, words, acts);
    ServedOnBus(sys.server.mock, words, s, k);
    TransmitReturned(words, s, k);
    var next := s.served[k].from.bus.words;
    forall d, rest | d != [] && next == Block.Block(d) + rest ensures Block.OnePass([], next).response == d {
      Block.BlockIsReceived(d, rest);
    }
    forall d, rest, i: nat, x | d != [] && i <= |d| && x != Block.Block(d)[i].data ensures next != Corrupt(d, i, x) + rest {
      if next == Corrupt(d, i, x) + rest {
        CorruptIsNotAccepted(d, i, x, rest);
      }
    }
  }

  /** No reply is returned twice: the words of a later reply stand behind the whole of an earlier one,
      the word that ended it included. */
  lemma RepliesAreNotShared(sys: System, words: seq<Block.Word>, acts: seq<Action>, j: nat, k: nat)
    requires Steps(sys, words, acts).Some? && !sys.server.mock && j < k
    requires OkTransmission(Steps(sys, words, acts).value, j) && OkTransmission(Steps(sys, words, acts).value, k)
    ensures var s := Steps(sys, words, acts).value;
            var first, length := s.served[j].from.bus.words, |s.results[j].response.dataBytes|;
            && length + 1 <= |first|
            && IsSuffix(s.served[k].from.bus.words, first[length + 1..])
  {
    hide Steps, Fits, ReturnsAnswer, IsSuffix, Accepted, Block.OnePass, Lockstep, AllReadFit, Derailed, BusChain, UsesReply, FitsBlock;
    var s := Steps(sys, words, acts).value;
    SessionTheorem(sys, words, acts);
    LockstepExactly(sys, words, acts);
    TransmitReturned(words, s, j);
    var first, left, length := s.served[j].from.bus.words, s.served[j].to.bus.words, |s.results[j].response.dataBytes|;
    ReplyIsGone(first, left);
    LaterWords(sys.server.mock, Closed(words), s.served, s.bus, j, k);
    SuffixOfSuffix(s.served[k].from.bus.words, left, first[length + 1..]);
  }

  lemma ReplyIsGone(words: seq<Block.Word>, left: seq<Block.Word>)
    requires UsesReply(words, left)
    ensures var n := |Block.OnePass([], words).response|;
            n + 1 <= |words| && IsSuffix(left, words[n + 1..])
  {
    hide Block.OnePass;
  }

  /** A block with one value replaced. */
  function Corrupt(d: seq<byte>, i: nat, x: byte): seq<Block.Word>
    requires i <= |d|
  {
    Block.Block(d)[i := Block.Block(d)[i].(data := x)]
  }

  lemma CorruptIsNotAccepted(d: seq<byte>, i: nat, x: byte, rest: seq<Block.Word>)
    requires d != [] && i <= |d| && x != Block.Block(d)[i].data
    ensures !Accepted(Corrupt(d, i, x) + rest)
  {
    hide Block.Block, Block.OnePass;
    var words := Corrupt(d, i, x) + rest;
    assert Block.Concat([words]) == words + Block.Concat([]) == words;
    Block.CorruptReplyRefused(d, i, x, rest, [words]);
    Block.ChunkIndependence([], [words]);
  }

  lemma TransmitReturned(words: seq<Block.Word>, s: State, k: nat)
    requires OkTransmission(s, k) && ReturnsAnswer(false, words, s, k)
    ensures var b := s.served[k].from.bus;
            && b.open && UsesReply(b.words, s.served[k].to.bus.words) && FitsBlock(s.calls[k].request) && Accepted(b.words)
            && s.results[k].response.dataBytes == Block.OnePass([], b.words).response
  {
    hide Fits, Accepted, OverlayResponse, Block.OnePass, MustOpen, FitsBlock, IsSuffix, UsesReply;
  }

  lemma ServedOnBus(mock: bool, words: seq<Block.Word>, s: State, k: nat)
    requires OnBus(mock, words, s) && FitsUpTo(s, k)
    ensures IsSuffix(s.served[k].from.bus.words, words)
    ensures s.served[k].from.bus.open <==> LastOpen(s.served[..k]).Some? && LastOpen(s.served[..k]).value.response.status == 1
    ensures s.served[k].from.bus.open ==> s.served[k].from.bus.pins == LastOpen(s.served[..k]).value.request.value.argBytes
  {
    hide Fits, LastOpen, BusChain, Serves, IsSuffix;
    BusChainAt(mock, Closed(words), s.served, s.bus, k);
    OpenOverBus(mock, Closed(words), s.served[..k], s.served[k].from.bus);
    WordsAlongBus(mock, Closed(words), s.served[..k], s.served[k].from.bus);
  }

  // ---------------------------------------------------------------- progress

  /** Some answer of the server, if it answers at all. None needs working hardware. */
  function AnyAnswer(mock: bool, b: Bus, q: RequestData): (ResponseData, bool, Bus) {
    var refuse := NewResponse.(status := ERR_INPUT);
    var failed := NewResponse.(status := ERR_HARDWARE);
    match CommandOrDefault(q.command)
    case INVALID => (refuse.(error := InvalidCommand()), false, b)
    case STOP => (NewResponse.(status := OK), true, b)
    case MDB_OPEN => (if |q.argBytes| != 2 then refuse.(error := InvalidArgBytes()) else failed, false, Closed(b.words))
    case MDB_RESET => (if !b.open then refuse.(error := MustOpen()) else failed, false, b)
    case MDB_TX =>
      if !b.open then (refuse.(error := MustOpen()), false, b)
      else if mock then (NewResponse.(status := OK, dataBytes := q.argBytes), true, b)
      else (failed, false, b)
  }

  /** A request can be answered exactly when it is no transmission over an open bus that does not fit a
      block, whatever the device has to deliver. */
  lemma AnswerableIffFits(mock: bool, b: Bus, q: RequestData)
    requires Framable(q)
    ensures FitsOrElsewhere(mock, b, q) <==>
            exists r: ResponseData, ok, b1 :: Executes(mock, b, q, NewResponse, r, ok, b1) && FramableResponse(r)
  {
    hide FramableResponse, Framable;
    if FitsOrElsewhere(mock, b, q) {
      AnyAnswerExecutes(mock, b, q);
    } else {
      BadLengthIsNeverAnswered(Setup(mock, 0, 0), b, q);
    }
  }

  lemma AnyAnswerExecutes(mock: bool, b: Bus, q: RequestData)
    requires Framable(q) && FitsOrElsewhere(mock, b, q)
    ensures var (r, ok, b1) := AnyAnswer(mock, b, q);
            FramableResponse(r) && Executes(mock, b, q, NewResponse, r, ok, b1)
  {
    hide FramableResponse, Framable;
    var (r, ok, b1) := AnyAnswer(mock, b, q);
    SuffixOfSelf(b.words);
    assert NewResponse.dataBytes + q.argBytes == q.argBytes;
    if CommandOrDefault(q.command) == MDB_TX && b.open && mock {
      EchoFits(q);
    } else {
      ShortResponseFits(r);
    }
  }

  /** The exchange of a request that stands before the server for an answer. */
  function ExchangeOf(b: Bus, q: RequestData, r: ResponseData, ok: bool, b1: Bus): Exchange
    requires Framable(q)
  {
    Exchange(Point(RequestFrame(q), b), Some(q), r, ok, Point([], b1))
  }

  lemma ExchangeServes(mock: bool, b: Bus, q: RequestData, r: ResponseData, ok: bool, b1: Bus)
    requires Framable(q) && FramableResponse(r) && Executes(mock, b, q, NewResponse, r, ok, b1)
    ensures Serves(mock, ExchangeOf(b, q, r, ok, b1)) && HasFrame(RequestFrame(q))
  {
    hide EncodeRequest, MergeRequest, Executes, FramableResponse;
    var body := EncodeRequest(q);
    assert Frame(body) + [] == RequestFrame(q);
    BodyOfFrame(body, []);
    RequestRoundTrip(NewRequest, q);
    WholeFrame(body);
  }

  lemma WholeFrame(body: seq<byte>)
    requires |body| < 0x1_0000_0000
    ensures HasFrame(Frame(body))
  {
    hide Fixed32, UnFixed32;
    Fixed32RoundTrip(|body|);
    assert Frame(body)[..4] == Fixed32(|body|);
  }

  /** The call in flight is wholly before the server, and not served yet. */
  predicate BeforeServer(s: State) {
    s.phase == AwaitHeader && |s.results| == |s.served| < |s.calls| && s.toServer == []
  }

  /** The server breaks off at the request before it exactly under the conditions of `Breaks`; never in
      calm circumstances. */
  lemma BreaksOffExactly(sys: System, s: State, end: RunEnd, sites: seq<nat>)
    requires Lockstep(s)
    ensures Step(sys, s, BreakOff(end, sites)).Some? <==>
            s.running && BeforeServer(s) && Breaks(sys.server, s.bus, s.calls[|s.results|].request, end, sites)
    ensures BeforeServer(s) && Calm(sys.server, s.bus, s.calls[|s.results|].request, sites) ==>
              Step(sys, s, BreakOff(end, sites)).None?
  {
    hide Breaks, Calm, EncodeRequest, MergeRequest, Returned, ResponseFrame;
    if HasFrame(s.readAhead) {
      FrameIsTheCall(s);
    }
    if BeforeServer(s) {
      assert s.readAhead + s.toServer == s.readAhead;
      WholeFrame(EncodeRequest(s.calls[|s.results|].request));
      FrameIsTheCall(s);
      if Calm(sys.server, s.bus, s.calls[|s.results|].request, sites) {
        CalmIsAnswered(sys.server, s.bus, s.calls[|s.results|].request, end, sites);
      }
    }
  }

  /** No deadlock: while a call is in flight and the server runs, or has already answered it, some step
      is possible. It is only breaking off exactly when the request before the server is a
      transmission over an open bus that does not fit a block. */
  lemma NeverStuck(sys: System, s: State)
    requires Lockstep(s) && s.phase != Idle
    requires s.running || |s.served| == |s.calls|
    ensures exists a :: Step(sys, s, a).Some?
    ensures (exists a: Action :: !a.BreakOff? && Step(sys, s, a).Some?) <==>
            !(BeforeServer(s) && !FitsOrElsewhere(sys.server.mock, s.bus, s.calls[|s.results|].request))
  {
    hide Lockstep, Step;
    if BeforeServer(s) {
      ServerMoves(sys, s);
    } else {
      var a := OtherMoves(sys, s);
      assert !a.BreakOff? && Step(sys, s, a).Some?;
    }
  }

  lemma OtherMoves(sys: System, s: State) returns (a: Action)
    requires Lockstep(s) && s.phase != Idle && !BeforeServer(s)
    ensures !a.BreakOff? && Step(sys, s, a).Some?
  {
    hide Returned, EncodeResponse, EncodeRequest, MergeRequest, TakeBody, TakeHeader, AfterHeader, AfterBody, Serves, BreaksOff;
    match s.phase
    case Sending(left) => a := Write(1);
    case AwaitHeader => a := if |s.served| == |s.calls| then ReadHeader else Fetch(1);
    case AwaitBody(length) => a := ReadBody;
  }

  lemma ServerMoves(sys: System, s: State)
    requires Lockstep(s) && BeforeServer(s) && s.running
    ensures exists a :: Step(sys, s, a).Some?
    ensures (exists a: Action :: !a.BreakOff? && Step(sys, s, a).Some?) <==>
            FitsOrElsewhere(sys.server.mock, s.bus, s.calls[|s.results|].request)
  {
    hide Lockstep, Step, FitsOrElsewhere, Breaks, Executes;
    var q := s.calls[|s.results|].request;
    BeforeServerFrame(s);
    if FitsOrElsewhere(sys.server.mock, s.bus, q) {
      AnyAnswerExecutes(sys.server.mock, s.bus, q);
      var (r, ok, b1) := AnyAnswer(sys.server.mock, s.bus, q);
      ExchangeServes(sys.server.mock, s.bus, q, r, ok, b1);
      ServeStep(sys, s, ExchangeOf(s.bus, q, r, ok, b1));
      assert Step(sys, s, Serve(ExchangeOf(s.bus, q, r, ok, b1))).Some?;
    } else {
      DoesNotFit(sys.server.mock, s.bus, q);
      BadLengthIsNeverAnswered(sys.server, s.bus, q);
      BreaksOffExactly(sys, s, Panicked, []);
      assert Step(sys, s, BreakOff(Panicked, [])).Some?;
      forall a: Action | !a.BreakOff? ensures Step(sys, s, a).None? {
        OnlyServing(sys, s, a);
      }
    }
  }

  lemma DoesNotFit(mock: bool, b: Bus, q: RequestData)
    requires !FitsOrElsewhere(mock, b, q)
    ensures Transmits(mock, b, q) && !FitsBlock(q)
  {
  }

  lemma BeforeServerFrame(s: State)
    requires Lockstep(s) && BeforeServer(s)
    ensures var q := s.calls[|s.results|].request;
            Framable(q) && s.readAhead == RequestFrame(q) && HasFrame(s.readAhead)
  {
    hide EncodeRequest, EncodeResponse, Returned, Serving;
    assert s.readAhead + s.toServer == s.readAhead;
    WholeFrame(EncodeRequest(s.calls[|s.results|].request));
  }

  lemma ServeStep(sys: System, s: State, e: Exchange)
    requires s.running && HasFrame(s.readAhead) && Serves(sys.server.mock, e) && e.from == Point(s.readAhead, s.bus)
    ensures FramableResponse(e.response)
    ensures Step(sys, s, Serve(e)) == Some(s.(readAhead := e.to.input, toClient := s.toClient + ResponseFrame(e.response),
                                                served := s.served + [e], bus := e.to.bus, running := !IsStop(e)))
  {
  }

  lemma OnlyServing(sys: System, s: State, a: Action)
    requires Lockstep(s) && BeforeServer(s) && !a.BreakOff?
    requires var q := s.calls[|s.results|].request;
             forall r: ResponseData, ok, b1 :: !Executes(sys.server.mock, s.bus, q, NewResponse, r, ok, b1)
    ensures Step(sys, s, a).None?
  {
    hide EncodeRequest, EncodeResponse, Returned, Serving, TakeHeader, AfterHeader, TakeBody, AfterBody, MergeRequest, Executes;
    if a.Serve? && StepServe(sys.server.mock, s, a.e).Some? {
      FrameIsTheCall(s);
    }
  }

  /** What is left to do: bytes weigh more the further they have to go. */
  function Work(s: State): nat {
    (match s.phase
     case Idle => 0
     case Sending(left) => 3 + 3 * |left|
     case AwaitHeader => 2
     case AwaitBody(_) => 1)
    + 2 * |s.toServer| + |s.readAhead| + if s.running then 1 else 0
  }

  function Cost(c: Call): nat {
    if Framable(c.request) then 4 + 3 * |RequestFrame(c.request)| else 0
  }

  function Costs(calls: seq<Call>): nat {
    if calls == [] then 0 else Costs(calls[..|calls| - 1]) + Cost(calls[|calls| - 1])
  }

  lemma StepDoesWork(sys: System, s: State, a: Action)
    requires Step(sys, s, a).Some?
    ensures var t := Step(sys, s, a).value;
            if a.Do? then t.calls == s.calls + [a.call] && Work(t) < Work(s) + Cost(a.call)
            else t.calls == s.calls && Work(t) < Work(s)
  {
    hide RequestFrame, ResponseFrame, HasFrame, Executes, MergeRequest, FramableResponse, BreaksOff, TakeHeader, AfterHeader,
         TakeBody, AfterBody, Framable, Serves, Body;
    if a.Serve? {
      ServingConsumes(sys.server.mock, a.e);
    }
  }

  lemma ServingConsumes(mock: bool, e: Exchange)
    requires Serves(mock, e)
    ensures |e.to.input| < |e.from.input|
  {
  }

  /** The server of a session runs until it has served a STOP or has broken off. */
  lemma {:induction false} RunsUntil(sys: System, words: seq<Block.Word>, acts: seq<Action>)
    requires Steps(sys, words, acts).Some?
    ensures var s := Steps(sys, words, acts).value;
            && (s.running <==> !s.broken && (s.served == [] || !IsStop(s.served[|s.served| - 1])))
            && (s.broken <==> exists i :: 0 <= i < |acts| && acts[i].BreakOff?)
  {
    hide Step;
    if acts != [] {
      var n := |acts| - 1;
      var s := Steps(sys, words, acts[..n]).value;
      RunsUntil(sys, words, acts[..n]);
      StepRuns(sys, s, acts[n]);
      assert forall i :: 0 <= i < n ==> acts[i] == acts[..n][i];
    }
  }

  lemma StepRuns(sys: System, s: State, a: Action)
    requires s.running <==> !s.broken && (s.served == [] || !IsStop(s.served[|s.served| - 1]))
    requires Step(sys, s, a).Some?
    ensures var t := Step(sys, s, a).value;
            && (t.running <==> !t.broken && (t.served == [] || !IsStop(t.served[|t.served| - 1])))
            && (t.broken <==> s.broken || a.BreakOff?)
  {
    hide Framable, RequestFrame, ResponseFrame, HasFrame, Serves, BreaksOff, TakeHeader, TakeBody, AfterHeader, AfterBody, IsStop;
  }

  /** No livelock: however the steps interleave, in lockstep or out of it, a session has no more of them
      than its calls allow for. */
  lemma {:induction false} StepsAreBounded(sys: System, words: seq<Block.Word>, acts: seq<Action>)
    requires Steps(sys, words, acts).Some?
    ensures var s := Steps(sys, words, acts).value;
            |acts| + Work(s) <= 1 + Costs(s.calls)
  {
    hide Step, Cost, Work;
    if acts == [] {
      StartWork(words);
    } else {
      var n := |acts| - 1;
      var s := Steps(sys, words, acts[..n]).value;
      StepsAreBounded(sys, words, acts[..n]);
      StepDoesWork(sys, s, acts[n]);
      if acts[n].Do? {
        assert (s.calls + [acts[n].call])[..|s.calls|] == s.calls;
      }
    }
  }

  lemma StartWork(words: seq<Block.Word>)
    ensures Work(Start(words)) == 1
  {
  }

  /** So every call returns, unless the server stopped or broke off before serving it: where no step is
      left but to start a call, none is in flight. */
  lemma EveryCallReturns(sys: System, words: seq<Block.Word>, acts: seq<Action>)
    requires Steps(sys, words, acts).Some? && AllReadFit(Steps(sys, words, acts).value)
    requires var s := Steps(sys, words, acts).value;
             forall a: Action :: !a.Do? ==> Step(sys, s, a).None?
    ensures var s := Steps(sys, words, acts).value;
            || (s.phase == Idle && |s.results| == |s.calls|)
            || (!s.running && |s.served| == |s.results| && |s.calls| == |s.results| + 1)
  {
    hide Steps, Step, Lockstep, AllReadFit, FitsUpTo;
    var s := Steps(sys, words, acts).value;
    LockstepExactly(sys, words, acts);
    SessionTheorem(sys, words, acts);
    if s.phase != Idle && (s.running || |s.served| == |s.calls|) {
      NeverStuck(sys, s);
      var a :| Step(sys, s, a).Some?;
      NotIdleNoDo(sys, s, a);
    } else if s.phase != Idle {
      LockstepInFlight(s);
    }
  }

  lemma NotIdleNoDo(sys: System, s: State, a: Action)
    requires s.phase != Idle && Step(sys, s, a).Some?
    ensures !a.Do?
  {
  }

  lemma LockstepInFlight(s: State)
    requires Lockstep(s) && s.phase != Idle
    ensures |s.calls| == |s.results| + 1 && |s.served| >= |s.results|
  {
    hide RequestFrame, ResponseFrame, Returned, Serving;
  }

  // ---------------------------------------------------------------- a long response is reachable

  lemma OneMoreStep(sys: System, words: seq<Block.Word>, acts: seq<Action>, a: Action)
    requires Steps(sys, words, acts).Some?
    ensures Steps(sys, words, acts + [a]) == Step(sys, Steps(sys, words, acts).value, a)
  {
    hide Step;
    assert (acts + [a])[..|acts|] == acts;
  }

  /** A call between calls, up to its answer standing in the client's pipe. */
  function Answered(s: State, c: Call, e: Exchange): State
    requires FramableResponse(e.response)
  {
    s.(phase := AwaitHeader, calls := s.calls + [c], toClient := ResponseFrame(e.response),
       served := s.served + [e], bus := e.to.bus, running := !IsStop(e))
  }

  lemma CallGetsAnswer(sys: System, words: seq<Block.Word>, acts: seq<Action>, c: Call, e: Exchange) returns (more: seq<Action>)
    requires Steps(sys, words, acts).Some?
    requires var s := Steps(sys, words, acts).value;
             && s.phase == Idle && s.toServer == [] && s.readAhead == [] && s.toClient == [] && s.running
             && Framable(c.request) && Serves(sys.server.mock, e) && HasFrame(RequestFrame(c.request))
             && e.from == Point(RequestFrame(c.request), s.bus) && e.to.input == []
    ensures FramableResponse(e.response)
    ensures Steps(sys, words, more) == Some(Answered(Steps(sys, words, acts).value, c, e))
  {
    hide Steps, Step, RequestFrame, ResponseFrame, HasFrame, Serves, FramableResponse, Framable;
    var s := Steps(sys, words, acts).value;
    var f := RequestFrame(c.request);
    var n := |f|;
    ServingConsumes(sys.server.mock, e);
    ServeStep(sys, Fetched(s, c, f), e);
    FirstSteps(sys, s, c, f);
    OneMoreStep(sys, words, acts, Do(c));
    more := acts + [Do(c)];
    OneMoreStep(sys, words, more, Write(n));
    more := more + [Write(n)];
    OneMoreStep(sys, words, more, Fetch(n));
    more := more + [Fetch(n)];
    OneMoreStep(sys, words, more, Serve(e));
    more := more + [Serve(e)];
    assert [] + ResponseFrame(e.response) == ResponseFrame(e.response);
  }

  function Fetched(s: State, c: Call, f: seq<byte>): State {
    s.(phase := AwaitHeader, calls := s.calls + [c], readAhead := f)
  }

  lemma FirstSteps(sys: System, s: State, c: Call, f: seq<byte>)
    requires s.phase == Idle && s.toServer == [] && s.readAhead == [] && Framable(c.request) && f == RequestFrame(c.request) && f != []
    ensures var s1 := s.(phase := Sending(f), calls := s.calls + [c]);
            var s2 := s.(phase := AwaitHeader, calls := s.calls + [c], toServer := f);
            && Step(sys, s, Do(c)) == Some(s1)
            && Step(sys, s1, Write(|f|)) == Some(s2)
            && Step(sys, s2, Fetch(|f|)) == Some(Fetched(s, c, f))
  {
    hide RequestFrame, Framable;
    assert f[..|f|] == f && f[|f|..] == [] && [] + f == f;
  }

  lemma AnswerIsRead(sys: System, words: seq<Block.Word>, acts: seq<Action>) returns (more: seq<Action>)
    requires Steps(sys, words, acts).Some?
    requires var s := Steps(sys, words, acts).value;
             s.phase == AwaitHeader && AllReadFit(s) && |s.served| == |s.calls| == |s.results| + 1 && Fits(s.served[|s.results|])
    ensures var s := Steps(sys, words, acts).value;
            var n := |s.results|;
            Steps(sys, words, more) == Some(s.(phase := Idle, toClient := [],
                                                 results := s.results + [Done(OverlayResponse(s.calls[n].into, s.served[n].response))]))
  {
    hide Steps, Step, AllReadFit, EncodeResponse, OverlayResponse, StepReadHeader, TakeBody, AfterBody;
    var s := Steps(sys, words, acts).value;
    var n := |s.results|;
    var r := s.served[n].response;
    LockstepExactly(sys, words, acts);
    ResponseStands(sys, s);
    HeaderRead(sys, s);
    StepsToHeader(sys, s);
    OneMoreStep(sys, words, acts, ReadHeader);
    more := acts + [ReadHeader];
    OneMoreStep(sys, words, more, ReadBody);
    WholeBody(r, s.calls[n].into);
    StepsToBody(sys, StepReadHeader(sys.width, s).value);
    more := more + [ReadBody];
  }

  lemma StepsToBody(sys: System, s: State)
    ensures Step(sys, s, ReadBody) == StepReadBody(s)
  {
    hide StepDo, StepWrite, StepFetch, StepServe, StepBreakOff, StepReadHeader, StepReadBody;
  }

  lemma ResponseStands(sys: System, s: State)
    requires Lockstep(s) && s.phase == AwaitHeader && |s.served| == |s.results| + 1
    ensures StepReadHeader(sys.width, s).Some?
  {
    hide RequestFrame, EncodeResponse, TakeHeader, AfterHeader, Returned, Serving;
  }

  /** Opens the bus on two pins. */
  function Opening(rx: byte, tx: byte): RequestData {
    NewRequest.(command := 1, argBytes := [rx, tx])
  }

  lemma OpeningFits(rx: byte, tx: byte)
    ensures Framable(Opening(rx, tx))
  {
    hide EncodeRecord, EncodeRecords, EncodeRequest;
    var q := Opening(rx, tx);
    EncodeNone();
    RequestFields(q);
    VarintField(2, SignExtend(q.command));
    BytesField(5, q.argBytes);
  }

  /** Without data or text, a response is two bytes; with data alone, it is too long from 252 bytes of
      it on. */
  lemma DataFits(data: seq<byte>)
    requires |data| < 0x1_0000_0000
    ensures var r := NewResponse.(status := OK, dataBytes := data);
            && |EncodeResponse(r)| <= 8 + |data|
            && (|EncodeResponse(r)| <= BUF_SIZE <==> |data| <= 251)
  {
    hide EncodeRecord, EncodeRecords, EncodeResponse;
    EncodeNone();
    ResponseFields(NewResponse.(status := OK, dataBytes := data));
    VarintField(2, SignExtend(OK));
    if data != [] {
      BytesField(4, data);
    }
  }

  /** A long response is reachable: once the bus is open, any answer over 256 bytes that the server may
      give to a request derails the session. */
  lemma LongAnswerReachable(sys: System, words: seq<Block.Word>, q: RequestData, r: ResponseData, ok: bool, b1: Bus)
    returns (acts: seq<Action>)
    requires Framable(q) && FramableResponse(r) && Executes(sys.server.mock, Bus(true, words, [0, 0]), q, NewResponse, r, ok, b1)
    requires |EncodeResponse(r)| > BUF_SIZE
    ensures Steps(sys, words, acts).Some?
    ensures var s := Steps(sys, words, acts).value;
            s.phase == Idle && s.toClient == EncodeResponse(r) && Derailed(sys, s, 1) && !Lockstep(s)
  {
    hide Steps, Step, EncodeResponse, EncodeRequest, Executes, AllReadFit, Lockstep, Serves, Derailed, OverlayResponse, Fits, Body,
         Opening, HasFrame, StepReadHeader, Framable, RequestFrame, ResponseFrame;
    var o, e0 := OpenedFirst(sys, words);
    assert Steps(sys, words, []) == Some(Start(words)) by { NothingDone(sys, words); }
    acts := CallGetsAnswer(sys, words, [], Call(o, NewResponse), e0);
    ReadFitSoFar(Steps(sys, words, acts).value);
    acts := AnswerIsRead(sys, words, acts);
    ExchangeServes(sys.server.mock, Bus(true, words, [0, 0]), q, r, ok, b1);
    var e := ExchangeOf(Bus(true, words, [0, 0]), q, r, ok, b1);
    acts := CallGetsAnswer(sys, words, acts, Call(q, NewResponse), e);
    var s := Steps(sys, words, acts).value;
    ReadFitSoFar(s);
    LockstepExactly(sys, words, acts);
    ResponseStands(sys, s);
    FitsOfShort(e);
    HeaderRead(sys, s);
    Derails(sys, s);
    DerailedMeans(sys, StepReadHeader(sys.width, s).value, 1);
    StepsToHeader(sys, s);
    OneMoreStep(sys, words, acts, ReadHeader);
    acts := acts + [ReadHeader];
  }

  lemma NothingDone(sys: System, words: seq<Block.Word>)
    ensures Steps(sys, words, []) == Some(Start(words))
  {
  }

  lemma ReadFitSoFar(s: State)
    requires s.phase == AwaitHeader && forall i :: 0 <= i < |s.results| && i < |s.served| ==> Fits(s.served[i])
    ensures AllReadFit(s)
  {
  }

  lemma OpenedFirst(sys: System, words: seq<Block.Word>) returns (q: RequestData, e: Exchange)
    ensures Framable(q) && HasFrame(RequestFrame(q)) && Serves(sys.server.mock, e) && Fits(e) && !IsStop(e)
    ensures e.from == Point(RequestFrame(q), Closed(words)) && e.to == Point([], Bus(true, words, [0, 0]))
  {
    hide EncodeRequest, EncodeResponse, Executes, Serves, Body, HasFrame;
    q := Opening(0, 0);
    var r := NewResponse.(status := OK);
    OpeningFits(0, 0);
    OpeningAnswered(sys.server.mock, words);
    ShortResponseFits(r);
    ExchangeServes(sys.server.mock, Closed(words), q, r, true, Bus(true, words, [0, 0]));
    e := ExchangeOf(Closed(words), q, r, true, Bus(true, words, [0, 0]));
    DataFits([]);
  }

  lemma OpeningAnswered(mock: bool, words: seq<Block.Word>)
    ensures Executes(mock, Closed(words), Opening(0, 0), NewResponse, NewResponse.(status := OK), true, Bus(true, words, [0, 0]))
  {
  }

  /** Such as an echo of 252 bytes, or a reply of that length from the device. */
  lemma LongDataReachable(sys: System, words: seq<Block.Word>, q: RequestData) returns (acts: seq<Action>)
    requires Framable(q) && CommandOrDefault(q.command) == MDB_TX
    requires if sys.server.mock then |q.argBytes| >= 252
             else FitsBlock(q) && Accepted(words) && 252 <= |Block.OnePass([], words).response| < 0x8000_0000
    ensures Steps(sys, words, acts).Some? && Derailed(sys, Steps(sys, words, acts).value, 1) && !Lockstep(Steps(sys, words, acts).value)
  {
    hide EncodeResponse, EncodeRequest, Framable, Accepted, Block.OnePass, Derailed, Lockstep, Steps, RequestFrame, FramableResponse;
    var data := if sys.server.mock then q.argBytes else Block.OnePass([], words).response;
    var r := NewResponse.(status := OK, dataBytes := data);
    assert NewResponse.dataBytes + data == data;
    if sys.server.mock {
      EchoFits(q);
      ArgBytesBound(q);
    } else {
      ShortResponseFits(r);
      ReplyCanBeUsed(words);
    }
    DataFits(data);
    var left := if sys.server.mock then words else words[|data| + 1..];
    acts := LongAnswerReachable(sys, words, q, r, true, Bus(true, left, [0, 0]));
  }

  lemma ReplyCanBeUsed(words: seq<Block.Word>)
    requires Accepted(words)
    ensures var n := |Block.OnePass([], words).response|;
            n + 1 <= |words| && UsesReply(words, words[n + 1..])
  {
  }

  lemma ArgBytesBound(q: RequestData)
    requires Framable(q)
    ensures |q.argBytes| < 0x1_0000_0000
  {
  }
}
