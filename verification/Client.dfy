/** The client side: framing of one call over two pipes, and the reference count that decides when
    the server is told to stop. */
module Client {
  import opened Basics
  import opened Wire
  import opened Messages
  import opened Codec
  import opened Frames

  const BUF_SIZE := 256

  /** The width of the platform's int. */
  datatype Width = Bits32 | Bits64

  /** A length as an int of the platform, which on 32 bits turns negative from 2^31 on. */
  function ToInt(width: Width, n: u32): int {
    if width.Bits32? && n >= 0x8000_0000 then n - 0x1_0000_0000 else n
  }

  datatype DoError = EndOfFile | BufferOverflow(length: nat) | ShortBody | BadMessage

  /** How a call ends: without an error, the caller's message as it then is; with one; or in a panic,
      from which the caller may recover. */
  datatype DoResult = Done(response: ResponseData) | Failed(error: DoError) | Crashed

  /** What reading the length prefix leads to: the body is next, or the call is over. */
  datatype Header = Expect(length: u32) | Return(result: DoResult)

  function Min(a: nat, b: nat): nat {
    if a < b then a else b
  }

  /** A read delivers what is there, up to what was asked. A short length read carries no error, so
      the call returns none either and leaves the caller's message as it was. A negative length passes
      the check against the buffer, and slicing the buffer with it panics. */
  function TakeHeader(width: Width, pipe: seq<byte>, m: ResponseData): Header {
    if pipe == [] then Return(Failed(EndOfFile))
    else if |pipe| < 4 then Return(Done(m))
    else
      var length := ToInt(width, UnFixed32(pipe[..4]));
      if length > BUF_SIZE then Return(Failed(BufferOverflow(length)))
      else if length < 0 then Return(Crashed)
      else Expect(length)
  }

  /** How a call ends on a length over the buffer. */
  function Refusal(width: Width, n: u32): (r: DoResult)
    requires n > BUF_SIZE
    ensures !r.Done?
    ensures forall pipe, m :: |pipe| >= 4 && UnFixed32(pipe[..4]) == n ==> TakeHeader(width, pipe, m) == Return(r)
  {
    if width.Bits32? && n >= 0x8000_0000 then Crashed else Failed(BufferOverflow(n))
  }

  function AfterHeader(pipe: seq<byte>): seq<byte> {
    pipe[Min(4, |pipe|)..]
  }

  /** The body is merged into the caller's message. */
  function TakeBody(pipe: seq<byte>, length: u32, m: ResponseData): DoResult {
    if length > 0 && pipe == [] then Failed(EndOfFile)
    else if |pipe| < length then Failed(ShortBody)
    else
      match MergeResponse(m, pipe[..length])
      case None => Failed(BadMessage)
      case Some(r) => Done(r)
  }

  function AfterBody(pipe: seq<byte>, length: u32): seq<byte> {
    pipe[Min(length, |pipe|)..]
  }

  /** The reading half of a call. */
  function Receive(width: Width, pipe: seq<byte>, m: ResponseData): DoResult {
    match TakeHeader(width, pipe, m)
    case Return(result) => result
    case Expect(n) => TakeBody(AfterHeader(pipe), n, m)
  }

  function AfterReceive(width: Width, pipe: seq<byte>, m: ResponseData): seq<byte> {
    match TakeHeader(width, pipe, m)
    case Return(_) => AfterHeader(pipe)
    case Expect(n) => AfterBody(AfterHeader(pipe), n)
  }

  /** Over a pipe holding one response frame, a call takes the whole frame exactly when the body
      fits the client's buffer. It then yields the response laid over the caller's message, which is
      the response itself when that message is fresh. Otherwise it fails and leaves the body behind. */
  lemma ReceiveFrame(width: Width, r: ResponseData, m: ResponseData)
    requires FramableResponse(r)
    ensures AfterReceive(width, ResponseFrame(r), m) == [] <==> |EncodeResponse(r)| <= BUF_SIZE
    ensures |EncodeResponse(r)| <= BUF_SIZE ==> Receive(width, ResponseFrame(r), m) == Done(OverlayResponse(m, r))
    ensures |EncodeResponse(r)| <= BUF_SIZE && m == NewResponse ==> Receive(width, ResponseFrame(r), m) == Done(r)
    ensures |EncodeResponse(r)| > BUF_SIZE ==>
              && Receive(width, ResponseFrame(r), m) == Refusal(width, |EncodeResponse(r)|)
              && AfterReceive(width, ResponseFrame(r), m) == EncodeResponse(r)
  {
    hide EncodeResponse, MergeResponse, Fixed32, UnFixed32;
    HeaderOfFrame(width, r, m);
    var body := EncodeResponse(r);
    if |body| <= BUF_SIZE {
      assert body[..|body|] == body;
      ResponseRoundTrip(m, r);
      ResponseRoundTrip(NewResponse, r);
    }
  }

  /** After a response that does not fit, the next call takes the first four bytes of its body for a
      length: it ends on that, leaving the body but for these four bytes, or reads its message out of
      the middle of the body. What the server has written meanwhile only stands behind. */
  lemma NextTakesBodyForLength(width: Width, r: ResponseData, m: ResponseData, m2: ResponseData, rest: seq<byte>)
    requires FramableResponse(r) && |EncodeResponse(r)| > BUF_SIZE
    ensures var body := EncodeResponse(r);
            && Receive(width, ResponseFrame(r) + rest, m) == Refusal(width, |body|)
            && AfterReceive(width, ResponseFrame(r) + rest, m) == body + rest
            && var n := UnFixed32(body[..4]);
               && (n > BUF_SIZE ==>
                     Receive(width, body + rest, m2) == Refusal(width, n) && AfterReceive(width, body + rest, m2) == body[4..] + rest)
               && (n <= BUF_SIZE ==> Receive(width, body + rest, m2) == TakeBody(body[4..] + rest, n, m2))
  {
    hide EncodeResponse, MergeResponse, Fixed32, UnFixed32;
    var body := EncodeResponse(r);
    assert (ResponseFrame(r) + rest)[..4] == Fixed32(|body|);
    assert (ResponseFrame(r) + rest)[4..] == body + rest;
    Fixed32RoundTrip(|body|);
    assert (body + rest)[..4] == body[..4];
    assert (body + rest)[4..] == body[4..] + rest;
  }

  /** The responses of the server start with the status and a long byte field, whose tag and length make
      a length of 2^31 and more: after a long one the next call does not end well either. On 64 bits it
      fails, on 32 bits it panics. */
  lemma NextFailsToo(width: Width, r: ResponseData, m2: ResponseData, rest: seq<byte>)
    requires FramableResponse(r) && |EncodeResponse(r)| > BUF_SIZE
    requires r.version == 0 && r.status in {OK, ERR_INPUT, ERR_HARDWARE} && (r.error == [] || r.dataBytes == [])
    ensures var body := EncodeResponse(r);
            && UnFixed32(body[..4]) >= 0x8000_0000
            && TakeHeader(width, body + rest, m2) == Return(Refusal(width, UnFixed32(body[..4])))
            && Receive(width, body + rest, m2) == Refusal(width, UnFixed32(body[..4]))
            && AfterReceive(width, body + rest, m2) == body[4..] + rest
            && Receive(width, body + rest, m2) == (if width.Bits32? then Crashed else Failed(BufferOverflow(UnFixed32(body[..4]))))
  {
    hide EncodeResponse, MergeResponse, EncodeRecords, Fixed32;
    var body := EncodeResponse(r);
    ResponseFields(r);
    EncodeNone();
    StatusRecord(r.status);
    if r.error != [] {
      BytesRecordStarts(3, r.error);
    }
    if r.dataBytes != [] {
      BytesRecordStarts(4, r.dataBytes);
    }
    assert body[1] == r.status && body[3] >= 0x80;
    assert (body + rest)[..4] == body[..4];
    NextTakesBodyForLength(width, r, NewResponse, m2, rest);
  }

  lemma StatusRecord(status: i32)
    requires status in {OK, ERR_INPUT, ERR_HARDWARE}
    ensures EncodeRecords(EnumRecord(2, status)) == [16, status]
  {
    VarintField(2, SignExtend(status));
  }

  /** The length of a field that takes over 254 bytes starts with a byte that has its top bit set. */
  lemma BytesRecordStarts(field: nat, s: seq<byte>)
    requires field in {3, 4} && 1 <= |s| < 0x1_0000_0000
    ensures var f := EncodeRecords(BytesRecord(field, s));
            |f| > BUF_SIZE - 2 ==> f[1] >= 0x80
  {
    hide EncodeRecords;
    BytesField(field, s);
    if |s| >= 0x80 {
      assert EncodeVarint(8 * field + 2) == [8 * field + 2];
      assert EncodeVarint(|s|)[0] >= 0x80;
    }
  }

  /** A call returns without an error exactly when a whole message was there and parsed, or when the
      read of the length came up short; then the caller's message is simply left as it was. */
  lemma NoErrorIff(width: Width, pipe: seq<byte>, m: ResponseData)
    ensures Receive(width, pipe, m).Done? <==>
            || 0 < |pipe| < 4
            || (&& |pipe| >= 4 && UnFixed32(pipe[..4]) <= BUF_SIZE && |Body(pipe)| == UnFixed32(pipe[..4])
                && MergeResponse(m, Body(pipe)).Some?)
    ensures 0 < |pipe| < 4 ==> Receive(width, pipe, m) == Done(m) && AfterReceive(width, pipe, m) == []
  {
    hide MergeResponse, UnFixed32;
    if |pipe| >= 4 && UnFixed32(pipe[..4]) <= |pipe| - 4 {
      assert pipe[4..][..UnFixed32(pipe[..4])] == Body(pipe);
    }
  }

  lemma HeaderOfFrame(width: Width, r: ResponseData, m: ResponseData)
    requires FramableResponse(r)
    ensures TakeHeader(width, ResponseFrame(r), m) ==
            if |EncodeResponse(r)| > BUF_SIZE then Return(Refusal(width, |EncodeResponse(r)|))
            else Expect(|EncodeResponse(r)|)
    ensures AfterHeader(ResponseFrame(r)) == EncodeResponse(r)
  {
    hide EncodeResponse, Fixed32, UnFixed32;
    var body := EncodeResponse(r);
    var f := ResponseFrame(r);
    assert f[..4] == Fixed32(|body|);
    Fixed32RoundTrip(|body|);
  }

  /** What a call makes of a length and of what follows it, by the number n that the four bytes spell. A
      length over 256 is refused, or panics where it is negative as an int; a body that is not there,
      or not all of it, is an error, and so is one that does not parse. */
  lemma ReceiveByLength(width: Width, pipe: seq<byte>, m: ResponseData, n: nat)
    requires SpellsLength(pipe, n)
    ensures Receive(width, pipe, m) ==
            if n >= 0x8000_0000 && width == Bits32 then Crashed
            else if n > 256 then Failed(BufferOverflow(n))
            else if |pipe| == 4 && n > 0 then Failed(EndOfFile)
            else if |pipe| < 4 + n then Failed(ShortBody)
            else if MergeResponse(m, pipe[4..4 + n]).None? then Failed(BadMessage)
            else Done(MergeResponse(m, pipe[4..4 + n]).value)
    ensures AfterReceive(width, pipe, m) == pipe[if n > 256 then 4 else Min(4 + n, |pipe|)..]
    ensures Receive(width, [], m) == Failed(EndOfFile)
  {
    hide MergeResponse, UnFixed32;
    SpelledLengthIsRead(pipe, n);
    if |pipe| >= 4 + n {
      assert pipe[4..][..n] == pipe[4..4 + n];
    }
  }

  /** One direction of the connection. */
  class Pipe {
    var bytes: seq<byte>

    constructor ()
      ensures bytes == []
    {
      bytes := [];
    }

    method Write(s: seq<byte>)
      modifies this
      ensures bytes == old(bytes) + s
    {
      bytes := bytes + s;
    }

    /** Delivers what is there, up to `want` bytes, to the front of the buffer. */
    method Read(buf: array<byte>, want: nat) returns (n: nat, eof: bool)
      requires want <= buf.Length
      modifies this, buf
      ensures n == Min(want, |old(bytes)|) && eof == (want > 0 && old(bytes) == [])
      ensures buf[..n] == old(bytes)[..n] && bytes == old(bytes)[n..]
    {
      n, eof := Min(want, |bytes|), want > 0 && bytes == [];
      forall i | 0 <= i < n {
        buf[i] := bytes[i];
      }
      bytes := bytes[n..];
    }
  }

  /** How a call comes back to its caller, who holds the response message. */
  datatype DoEnd = Returns | Errs(error: DoError) | Crashes

  function ResultOf(end: DoEnd, response: ResponseData): DoResult {
    match end
    case Returns => Done(response)
    case Errs(e) => Failed(e)
    case Crashes => Crashed
  }

  datatype RefEvent = Held | MustClose | BelowZero

  /** `holders` are the references out: those taken and not given back. */
  class Client {
    const rf: Pipe
    const wf: Pipe
    const width: Width
    var refcount: i32
    ghost var holders: nat

    /** The counter counts the references out. */
    ghost predicate Counts()
      reads this`refcount, this`holders
    {
      refcount == holders
    }

    constructor (rf: Pipe, wf: Pipe, width: Width)
      ensures this.rf == rf && this.wf == wf && this.width == width
      ensures Counts() && holders == 0
    {
      this.rf, this.wf, this.width, refcount, holders := rf, wf, width, 0, 0;
    }

    /** Do, up to the write: the request behind its length. */
    method SendRequest(request: Request)
      requires Framable(request.View())
      modifies wf, request`cachedSize
      ensures wf.bytes == old(wf.bytes) + RequestFrame(request.View())
      ensures var frame, body := wf.bytes[|old(wf.bytes)|..], EncodeRequest(request.View());
              SpellsLength(frame, |body|) && frame[4..] == body
    {
      hide EncodeRequest, Fixed32, SpellsLength;
      var size := request.ComputeSize();
      var os := new OutputStream();
      os.WriteFixed32NoTag(size);
      request.WriteTo(os);
      assert os.out == Fixed32(size) + EncodeRequest(request.View()) by {
        assert [] + Fixed32(size) == Fixed32(size);
      }
      wf.Write(os.out);
      FrameSpellsLength(EncodeRequest(request.View()));
    }

    /** Do, from the first read: one buffer is used for the length and again for the body, and the
        response is filled in place. */
    method ReceiveReply(response: Response) returns (end: DoEnd)
      modifies rf, response
      ensures rf.bytes == AfterReceive(width, old(rf.bytes), old(response.View()))
      ensures Receive(width, old(rf.bytes), old(response.View())) == ResultOf(end, response.View())
    {
      hide MergeResponse, UnFixed32;
      var buf := new byte[BUF_SIZE];
      ghost var pipe, m := rf.bytes, response.View();
      var n, eof := rf.Read(buf, 4);
      if eof {
        return Errs(EndOfFile);
      }
      if n < 4 {
        return Returns;
      }
      assert buf[..4] == pipe[..4];
      var responseLen := ToInt(width, UnFixed32(buf[..4]));
      if responseLen > BUF_SIZE {
        return Errs(BufferOverflow(responseLen));
      }
      if responseLen < 0 {
        return Crashes;
      }
      n, eof := rf.Read(buf, responseLen);
      if eof {
        return Errs(EndOfFile);
      }
      if n < responseLen {
        return Errs(ShortBody);
      }
      var input := new InputStream(buf[..n]);
      assert input.Window() == AfterHeader(pipe)[..responseLen];
      var ok := response.MergeFrom(input);
      return if ok then Returns else Errs(BadMessage);
    }

    /** Takes a reference. The 2^31st one wraps the counter. */
    method IncRef()
      modifies `refcount, `holders
      ensures refcount == AddInt32(old(refcount), 1) && holders == old(holders) + 1
      ensures old(Counts()) ==> (Counts() <==> holders <= 0x7fff_ffff)
    {
      refcount, holders := AddInt32(refcount, 1), holders + 1;
    }

    /** Gives a reference back. While the counter counts, the caller must close exactly when its
        reference was the last, and only a call without a reference goes below zero. */
    method DecRef() returns (event: RefEvent)
      modifies `refcount, `holders
      ensures refcount == AddInt32(old(refcount), -1) && holders == (if old(holders) > 0 then old(holders) - 1 else 0)
      ensures event == EventOf(refcount)
      ensures old(Counts()) ==> (Counts() <==> old(holders) > 0)
      ensures old(Counts()) ==> (event == MustClose <==> old(holders) == 1)
      ensures old(Counts()) ==> (event == BelowZero <==> old(holders) == 0)
    {
      refcount, holders := AddInt32(refcount, -1), if holders > 0 then holders - 1 else 0;
      return if refcount > 0 then Held else if refcount == 0 then MustClose else BelowZero;
    }
  }

  // ---------------------------------------------------------------- reference counting

  function EventOf(count: i32): RefEvent {
    if count > 0 then Held else if count == 0 then MustClose else BelowZero
  }

  /** Wrapping 32-bit addition. */
  function AddInt32(a: i32, d: int): (r: i32)
    requires -1 <= d <= 1
    ensures (r - (a + d)) % 0x1_0000_0000 == 0
  {
    if a + d >= 0x8000_0000 then -0x8000_0000
    else if a + d < -0x8000_0000 then 0x7fff_ffff
    else a + d
  }

  /** What callers do, interleaved: take a reference, give one back, or, having seen the count reach
      zero, go on to close. */
  datatype RefAction<Holder> = Inc(h: Holder) | Dec(h: Holder) | CloseNow

  /** The shared counter, the references out, and the closes due and done. */
  datatype RefState<Holder> = RefState(count: i32, held: multiset<Holder>, due: nat, closed: nat, panicked: bool)

  /** A decrement gives back a reference that its holder took; there are fewer than 2^31 of them. */
  ghost predicate Allowed<Holder>(s: RefState<Holder>, a: RefAction<Holder>) {
    match a
    case Inc(_) => |s.held| < 0x7fff_ffff
    case Dec(h) => h in s.held
    case CloseNow => s.due > 0
  }

  ghost function RefStep<Holder>(s: RefState<Holder>, a: RefAction<Holder>): RefState<Holder>
    requires a.CloseNow? ==> s.due > 0
  {
    match a
    case Inc(h) => s.(count := AddInt32(s.count, 1), held := s.held + multiset{h})
    case Dec(h) =>
      var c := AddInt32(s.count, -1);
      s.(count := c, held := s.held - multiset{h},
         due := if EventOf(c) == MustClose then s.due + 1 else s.due,
         panicked := s.panicked || EventOf(c) == BelowZero)
    case CloseNow => s.(due := s.due - 1, closed := s.closed + 1)
  }

  /** The state after some interleaving of allowed actions. */
  ghost function RefAfter<Holder>(acts: seq<RefAction<Holder>>): Option<RefState<Holder>> {
    if acts == [] then Some(RefState(0, multiset{}, 0, 0, false))
    else
      match RefAfter(acts[..|acts| - 1])
      case None => None
      case Some(s) => if Allowed(s, acts[|acts| - 1]) then Some(RefStep(s, acts[|acts| - 1])) else None
  }

  /** The references out after some actions, told from the actions alone. */
  ghost function Holders<Holder>(acts: seq<RefAction<Holder>>): multiset<Holder> {
    if acts == [] then multiset{}
    else
      var before := Holders(acts[..|acts| - 1]);
      match acts[|acts| - 1]
      case Inc(h) => before + multiset{h}
      case Dec(h) => before - multiset{h}
      case CloseNow => before
  }

  /** How often the last reference was given back. */
  ghost function ReturnsToZero<Holder>(acts: seq<RefAction<Holder>>): nat {
    if acts == [] then 0
    else ReturnsToZero(acts[..|acts| - 1]) + if acts[|acts| - 1].Dec? && |Holders(acts)| == 0 then 1 else 0
  }

  function Closes<Holder>(acts: seq<RefAction<Holder>>): nat {
    if acts == [] then 0 else Closes(acts[..|acts| - 1]) + if acts[|acts| - 1].CloseNow? then 1 else 0
  }

  lemma RefStepExact<Holder>(s: RefState<Holder>, a: RefAction<Holder>)
    requires s.count == |s.held| && !s.panicked && Allowed(s, a)
    ensures var t := RefStep(s, a);
            && t.count == |t.held| && !t.panicked
            && t.closed == s.closed + (if a.CloseNow? then 1 else 0)
            && t.due + t.closed == s.due + s.closed + (if a.Dec? && |t.held| == 0 then 1 else 0)
  {
    match a
    case Inc(h) => assert |s.held + multiset{h}| == |s.held| + 1;
    case Dec(h) => assert |s.held - multiset{h}| == |s.held| - 1;
    case CloseNow =>
  }

  /** Under every interleaving with matched decrements the counter is the number of holders, it
      never panics, and each return to zero gives rise to exactly one close. */
  lemma {:induction false} RefCountExact<Holder>(acts: seq<RefAction<Holder>>)
    requires RefAfter(acts).Some?
    ensures var s := RefAfter(acts).value;
            && s.held == Holders(acts) && s.count == |s.held| && !s.panicked
            && s.closed == Closes(acts) && s.due + s.closed == ReturnsToZero(acts)
            && (Allowed(s, CloseNow) <==> Closes(acts) < ReturnsToZero(acts))
  {
    if acts != [] {
      hide Allowed;
      var n := |acts| - 1;
      RefCountExact(acts[..n]);
      RefStepExact(RefAfter(acts[..n]).value, acts[n]);
    }
  }

  /** An unmatched decrement panics: with nothing held, the counter goes below zero. */
  lemma UnmatchedDecrementPanics<Holder>(acts: seq<RefAction<Holder>>)
    requires RefAfter(acts).Some? && |Holders(acts)| == 0
    ensures EventOf(AddInt32(RefAfter(acts).value.count, -1)) == BelowZero
    ensures forall h :: RefStep(RefAfter(acts).value, Dec(h)).panicked
  {
    RefCountExact(acts);
  }
}
