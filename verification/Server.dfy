/** The request server: a framed loop around a command state machine that owns the bus driver. */
module Server {
  import opened Basics
  import opened Durations
  import opened Wire
  import opened Messages
  import opened Codec
  import opened Frames
  import opened Commands
  import opened ServerSpec
  import Block = MdbBlock
  import Pigpio
  import Mdb

  /** 300 ms. */
  const MDB_TIMEOUT := Duration(0, 300_000_000)

  predicate EndsWith<T(==)>(s: seq<T>, end: seq<T>) {
    IsSuffix(end, s)
  }

  class Server {
    const hw: Pigpio.Hardware
    const mock: bool
    const waitStep: u32
    /** The text of an error, and of a parse error. */
    const display: MdbError -> Text
    const parseError: Text
    var mdb: Mdb.GpioMdb?
    var running: bool

    /** Wave conservation: between commands the live waves are the two answers of an open driver,
        and none when it is closed. */
    ghost predicate Valid()
      reads this`mdb, hw`live, if mdb == null then {} else {mdb, mdb.hw, mdb.buf}
    {
      && Terse(display) && |parseError| <= MAX_TEXT
      && if mdb == null then hw.live.Keys == {}
         else mdb.hw == hw && mdb.waitStep == waitStep && mdb.Valid() && hw.live.Keys == {mdb.waveAck, mdb.waveNak}
    }

    /** The bus as the next command finds it. */
    ghost function TheBus(): Bus
      reads this`mdb, hw`stream
    {
      Bus(mdb != null, hw.stream, if mdb == null then [] else [mdb.rxPin, mdb.txPin])
    }

    function TheSetup(): Setup {
      Setup(mock, waitStep, hw.latency)
    }

    ghost function Driver(): set<object>
      reads this
    {
      if mdb == null then {} else {mdb, mdb.buf}
    }

    constructor (hw: Pigpio.Hardware, mock: bool, waitStep: u32, display: MdbError -> Text, parseError: Text)
      requires hw.live.Keys == {}
      requires Terse(display) && |parseError| <= MAX_TEXT
      ensures Valid() && mdb == null && !running
      ensures this.hw == hw && this.mock == mock && this.waitStep == waitStep
    {
      this.hw, this.mock, this.waitStep := hw, mock, waitStep;
      this.display, this.parseError := display, parseError;
      mdb, running := null, false;
    }

    method Fail(response: Response, status: i32, text: Text)
      modifies response
      ensures response.View() == old(response.View()).(status := status, error := text)
    {
      response.status := status;
      response.error := text;
    }

    /** Drops the driver, if there is one. */
    method DropDriver()
      requires Valid()
      modifies this`mdb, hw`now, hw`trace, hw`faults, hw`live, hw`stream
      ensures Valid() && mdb == null
      ensures IsSuffix(hw.stream, old(hw.stream)) && old(hw.now) <= hw.now
      ensures if old(mdb) == null then unchanged(hw) else Mdb.Drops(old(hw.trace), hw.trace, old(mdb.rxPin), old(mdb.waveAck), old(mdb.waveNak))
    {
      hide Block.Remembers, IsSuffix, Mdb.Drops;
      SuffixOfSelf(hw.stream);
      if mdb != null {
        mdb.Drop();
        mdb := null;
      }
    }

    /** MDB_OPEN: whatever the outcome the old driver is gone, so the live waves are those of the new
        one, or none. */
    method ExecOpen(argBytes: seq<byte>, response: Response) returns (ok: bool, ghost why: Option<MdbError>)
      requires Valid()
      modifies this`mdb, hw, Driver(), response
      ensures Valid() && fresh(Driver() - old(Driver()))
      ensures mdb != null ==> fresh(mdb)
      ensures ok == (mdb != null) && IsSuffix(hw.stream, old(hw.stream)) && hw.sent == old(hw.sent) && old(hw.now) <= hw.now
      ensures |argBytes| != 2 ==>
                mdb == null && response.View() == old(response.View()).(status := ERR_INPUT, error := InvalidArgBytes())
      ensures |argBytes| == 2 ==>
                if mdb != null then response.View() == old(response.View()).(status := OK)
                else HardwareError(old(response.View()), response.View(), MAX_TEXT) && Explained(why, response.error) && why.value.GpioError?
      // The first byte is the receive pin and the second the transmit pin, and the driver is opened on them.
      ensures mdb != null ==>
                && |argBytes| == 2 && mdb.rxPin == argBytes[0] && mdb.txPin == argBytes[1]
                && EndsWith(hw.trace, Mdb.OpenCalls(argBytes[0], argBytes[1], mdb.waveAck, mdb.waveNak))
      ensures old(mdb) != null ==>
                Mdb.Drops(old(hw.trace), hw.trace, old(mdb.rxPin), old(mdb.waveAck), old(mdb.waveNak))
      ensures |argBytes| != 2 && old(mdb) == null ==> unchanged(hw)
    {
      hide Block.Remembers, Mdb.GpioMdb.Valid, InvalidArgBytes, IsSuffix, EndsWith, Mdb.OpenCalls, Mdb.Drops;
      why := None;
      ghost var words, trace, closed := hw.stream, hw.trace, mdb == null;
      ghost var rxPin, waveAck, waveNak := if closed then 0 else mdb.rxPin, if closed then 0 else mdb.waveAck, if closed then 0 else mdb.waveNak;
      DropDriver();
      ghost var left, trace1 := hw.stream, hw.trace;
      if |argBytes| != 2 {
        Fail(response, ERR_INPUT, InvalidArgBytes());
        return false, why;
      }
      var m := Mdb.GpioMdb.Open(hw, argBytes[0], argBytes[1], waitStep);
      SuffixOfSuffix(hw.stream, left, words);
      if !closed {
        StillDropped(trace, trace1, hw.trace, rxPin, waveAck, waveNak);
      }
      if m.Err? {
        Fail(response, ERR_HARDWARE, display(m.error));
        return false, Some(m.error);
      }
      mdb := m.value;
      Ends(trace1, Mdb.OpenCalls(argBytes[0], argBytes[1], mdb.waveAck, mdb.waveNak));
      response.status := OK;
      return true, why;
    }

    static lemma Ends<T>(s: seq<T>, end: seq<T>)
      ensures EndsWith(s + end, end)
    {
    }

    static lemma StillDropped(trace0: seq<Pigpio.Event>, trace1: seq<Pigpio.Event>, trace2: seq<Pigpio.Event>,
                              rxPin: int, waveAck: nat, waveNak: nat)
      requires Mdb.Drops(trace0, trace1, rxPin, waveAck, waveNak) && trace1 <= trace2
      ensures Mdb.Drops(trace0, trace2, rxPin, waveAck, waveNak)
    {
    }

    /** The text answered is that of this error. */
    ghost predicate Explained(why: Option<MdbError>, text: Text) {
      why.Some? && text == display(why.value)
    }

    /** MDB_RESET: the line is pulsed for as many milliseconds, unless that is too long or the hardware
        fails. */
    method ExecReset(argUint: u32, response: Response) returns (ok: bool, ghost why: Option<MdbError>)
      requires Valid()
      modifies hw`now, hw`trace, hw`faults, hw`line, response
      ensures Valid() && old(hw.now) <= hw.now
      ensures mdb == null ==>
                !ok && unchanged(hw) && response.View() == old(response.View()).(status := ERR_INPUT, error := MustOpen())
      ensures mdb != null && ok ==>
                && argUint <= 4_294_967 && response.View() == old(response.View()).(status := OK)
                && Mdb.GpioMdb.Pulsed(hw.latency, old(hw.line), hw.line, 1000 * argUint)
                && hw.trace == old(hw.trace) + PulseCalls(mdb.txPin, 1000 * argUint)
      ensures mdb != null && !ok ==>
                && HardwareError(old(response.View()), response.View(), MAX_TEXT) && Explained(why, response.error)
                && (if argUint <= 4_294_967 then why.value.GpioError? && hw.faults == old(hw.faults) + 1
                    else why == Some(Overflow) && unchanged(hw))
    {
      hide Block.Remembers, MustOpen, AsMicros32, Mdb.GpioMdb.Pulsed;
      why := None;
      if mdb == null {
        Fail(response, ERR_INPUT, MustOpen());
        return false, why;
      }
      MillisAccepted(argUint);
      var r := mdb.BusReset(FromMillis(argUint));
      if r.Err? {
        Fail(response, ERR_HARDWARE, display(r.error));
        return false, Some(r.error);
      }
      response.status := OK;
      return true, why;
    }

    static function PulseCalls(txPin: int, us: nat): seq<Pigpio.Event> {
      [Pigpio.Level(txPin, true), Pigpio.Pause(us), Pigpio.Level(txPin, false)]
    }

    /** A transmission over the open driver, and the waves it sends. */
    method Transmit(argBytes: seq<byte>) returns (r: Outcome<()>, received: seq<byte>, ghost sites: seq<nat>)
      requires Valid() && mdb != null
      modifies hw, Driver()
      ensures Valid()
      ensures r.Ok? ==> Accepted(old(hw.stream)) && UsesReply(old(hw.stream), hw.stream)
      ensures r.Ok? ==> received == Block.OnePass([], old(hw.stream)).response
      ensures if 1 <= |argBytes| < 40 then RequestSent(old(mdb.history), argBytes, old(hw.sent)) else hw.sent == old(hw.sent)
      ensures !r.Panic? ==> 1 <= |argBytes| < 40 && IsSuffix(hw.stream, old(hw.stream))
      ensures r.Err? ==> Mdb.Detail(r.error) <= |old(hw.stream)| - |hw.stream| && Explains(r.error, old(hw.stream))
      ensures Fitting(old(hw.trace), 1 <= |argBytes| < 40)
      ensures Mdb.Times(old(hw.now), sites, hw.now)
      ensures r.Panic? <==> !(1 <= |argBytes| < 40) || Mdb.Overflows(0, Mdb.DeadlineAmounts(|argBytes|, 300_000), sites)
      ensures r.Unending? ==> Mdb.CanHang(hw.latency, waitStep, Mdb.DeadlineAmounts(|argBytes|, 300_000), sites)
    {
      hide Block.Remembers, Block.OnePass, Block.Judge, Block.Frame, Mdb.Overflows, Mdb.DeadlineAmounts, Mdb.Times, Mdb.CanHang,
           Mdb.Timely, Mdb.Transaction, Mdb.FrameTold, Mdb.TxCalls, Mdb.AllFitting, Mdb.Ready, JudgedAs;
      ghost var trace := hw.trace;
      ghost var frame, words, sent := if 1 <= |argBytes| < 40 then Block.Frame(argBytes, mdb.buf[..]) else [], hw.stream, hw.sent;
      ghost var log, start := Mdb.LogAt(0), hw.now;
      if 1 <= |argBytes| < 40 {
        mdb.NextFrame(argBytes);
      }
      r, received, log := mdb.Tx(argBytes, [], MDB_TIMEOUT);
      sites := log.sites;
      if 1 <= |argBytes| < 40 {
        Told(frame, words, log.taken, hw.sent[|sent|..], r, received);
        Mdb.TxCallsFit(trace, hw.trace, mdb.rxPin, mdb.txPin, waitStep, frame, r);
        TimesLater(start, sites, log.end, hw.now);
        if !r.Panic? {
          assert words[|words| - |hw.stream|..] == hw.stream;
        }
      } else {
        NoTimes(hw.now, hw.now);
      }
      assert r.Ok? ==> r.value == ();
    }

    static lemma Told(frame: seq<byte>, words: seq<Block.Word>, taken: seq<Block.Word>, sent: seq<seq<byte>>,
                      r: Outcome<()>, response: seq<byte>)
      requires Mdb.Transaction(frame, [], words, taken, sent, r, response)
      ensures r.Ok? ==> Accepted(words) && response == Block.OnePass([], words).response
      ensures r.Ok? ==> |response| + 1 <= |taken| <= |response| + Block.BLOCK_MAX_LENGTH
      ensures r.Err? ==> Mdb.Detail(r.error) <= |taken|
      ensures r.Err? && Block.IsVerdict(r) ==> JudgedAs(words, Err(r.error))
      ensures sent in {[], [frame], [frame, [Block.RESPONSE_ACK, 0]], [frame, [Block.RESPONSE_NAK, 0]]}
    {
      hide Block.OnePass, Block.Judge, Mdb.Transaction;
      Mdb.VerdictOfStream(frame, [], words, taken, sent, r, response);
      Mdb.DetailWasDelivered(frame, words, taken, sent, r, response);
      Mdb.BusTraceSafety(frame, words, taken, sent, r, response);
      if r.Ok? {
        assert r.value == ();
        Mdb.ReplyIsUsedUp(frame, words, taken, sent, r, response);
      }
    }

    /** What a failed transmission tells of the device's words: a verdict is the one they deserve, and a
        device that had its reply ready was not missed. */
    ghost predicate Explains(e: MdbError, words: seq<Block.Word>) {
      && (Block.IsVerdict<()>(Err(e)) ==> JudgedAs(words, Err(e)))
      && (e == RecvTimeout ==> !Mdb.Ready(hw, [], words))
    }

    /** The calls made since are those of a transmission over the driver's pins, if there was one. */
    ghost predicate Fitting(trace: seq<Pigpio.Event>, transmitted: bool)
      requires mdb != null
      reads this`mdb, mdb, hw`trace
    {
      if transmitted then trace <= hw.trace && Mdb.AllFitting(hw.trace[|trace|..], mdb.rxPin, mdb.txPin, waitStep)
      else hw.trace == trace
    }

    /** The waves after `sent` are those of one transaction of the driver, whose reads up to it were
        `history`. */
    ghost predicate RequestSent(history: seq<seq<Block.Word>>, argBytes: seq<byte>, sent: seq<seq<byte>>)
      requires mdb != null && 1 <= |argBytes| < 40
      reads this`mdb, mdb, hw`sent
    {
      && |mdb.initial| == Mdb.BUF_SIZE && sent <= hw.sent
      && Mdb.RequestSent(mdb.initial, history, hw.burst, argBytes, hw.sent[|sent|..])
    }

    static lemma NoTimes(from: nat, to: nat)
      requires from <= to
      ensures Mdb.Times(from, [], to)
    {
    }

    static lemma TimesInOrder(from: nat, sites: seq<nat>, to: nat)
      requires Mdb.Times(from, sites, to)
      ensures from <= to
    {
    }

    static lemma TimesLater(from: nat, sites: seq<nat>, to: nat, later: nat)
      requires Mdb.Times(from, sites, to) && to <= later
      ensures Mdb.Times(from, sites, later)
    {
    }

    /** MDB_TX. */
    method ExecTx(argBytes: seq<byte>, response: Response)
      returns (r: Outcome<bool>, ghost sites: seq<nat>, ghost why: Option<MdbError>)
      requires Valid()
      modifies hw, Driver(), response
      ensures Valid()
      ensures mdb == null ==>
                && r == Ok(false) && unchanged(hw)
                && response.View() == old(response.View()).(status := ERR_INPUT, error := MustOpen())
      ensures mdb != null && mock ==>
                && r == Ok(true) && unchanged(hw)
                && response.View() == old(response.View()).(status := OK, dataBytes := old(response.dataBytes) + argBytes)
      ensures mdb != null && !mock && r.Ok? ==>
                && 1 <= |argBytes| < 40 && IsSuffix(hw.stream, old(hw.stream))
                && (if r.value then
                      && Accepted(old(hw.stream)) && UsesReply(old(hw.stream), hw.stream)
                      && response.View() == old(response.View())
                         .(status := OK, dataBytes := old(response.dataBytes) + Block.OnePass([], old(hw.stream)).response)
                    else
                      && HardwareError(old(response.View()), response.View(), MAX_TEXT + 4 * (|old(hw.stream)| - |hw.stream|))
                      && Explained(why, response.error) && Explains(why.value, old(hw.stream)))
      ensures mdb != null && !mock ==> Fitting(old(hw.trace), 1 <= |argBytes| < 40)
      ensures mdb != null && !mock ==>
                if 1 <= |argBytes| < 40 then RequestSent(old(mdb.history), argBytes, old(hw.sent)) else hw.sent == old(hw.sent)
      ensures !r.Err?
      ensures r.Panic? || r.Unending? ==> mdb != null && !mock
      ensures r.Unending? ==> 1 <= |argBytes| < 40
      ensures Mdb.Times(old(hw.now), sites, hw.now)
      ensures mdb != null && !mock ==>
                && (r.Panic? <==> !(1 <= |argBytes| < 40) || Mdb.Overflows(0, Mdb.DeadlineAmounts(|argBytes|, 300_000), sites))
                && (r.Unending? ==> Mdb.CanHang(hw.latency, waitStep, Mdb.DeadlineAmounts(|argBytes|, 300_000), sites))
    {
      hide Block.Remembers, Block.OnePass, Accepted, Mdb.Overflows, Mdb.DeadlineAmounts, Mdb.Times, Mdb.CanHang, MustOpen, IsSuffix, UsesReply,
           Mdb.RequestSent, Mdb.AllFitting, Explains;
      sites, why := [], None;
      NoTimes(hw.now, hw.now);
      if mdb == null {
        Fail(response, ERR_INPUT, MustOpen());
        return Ok(false), sites, why;
      }
      var received := argBytes;
      if !mock {
        var t;
        t, received, sites := Transmit(argBytes);
        if t.Err? {
          Fail(response, ERR_HARDWARE, display(t.error));
          return Ok(false), sites, Some(t.error);
        }
        if t.IsFailure() {
          return t.PropagateFailure<bool>(), sites, why;
        }
      }
      response.status := OK;
      response.dataBytes := response.dataBytes + received;
      return Ok(true), sites, why;
    }

    /** exec: one command, told in the numbers of the wire. No value when the driver panicked or is still
        polling, which takes a transmission over an open driver; a transmit length that does not fit a
        block always does. `why` is the error behind a hardware error. */
    method Exec(request: Request, response: Response)
      returns (r: Outcome<bool>, ghost sites: seq<nat>, ghost why: Option<MdbError>)
      requires Valid()
      modifies this`mdb, this`running, hw, Driver(), response
      ensures Valid() && fresh(Driver() - old(Driver()))
      ensures !r.Err?
      ensures r.Ok? ==>
                Executes(mock, old(TheBus()), request.View(), old(response.View()), response.View(), r.value, TheBus())
      // The status is 1 on success, and on failure 6 for the hardware or 2 for the input.
      ensures r.Ok? ==> response.status == if r.value then 1 else if Reaches(old(mdb) != null, request.View()) then 6 else 2
      ensures r.Ok? && response.status == 6 ==> Explained(why, response.error)
      // 1 opens a new driver on the pins given, or leaves none; no other number changes the driver.
      ensures request.command != 1 ==> mdb == old(mdb)
      ensures request.command == 1 && mdb != null ==>
                && fresh(mdb) && |request.argBytes| == 2 && mdb.rxPin == request.argBytes[0] && mdb.txPin == request.argBytes[1]
                && EndsWith(hw.trace, Mdb.OpenCalls(request.argBytes[0], request.argBytes[1], mdb.waveAck, mdb.waveNak))
      ensures request.command == 1 && old(mdb) != null ==>
                Mdb.Drops(old(hw.trace), hw.trace, old(mdb.rxPin), old(mdb.waveAck), old(mdb.waveNak))
      // 2 pulses the transmit line, 3 transmits; neither does anything without a driver.
      ensures request.command in {2, 3} && old(mdb) == null ==> unchanged(hw)
      ensures request.command == 2 && old(mdb) != null ==>
                if r == Ok(true) then
                  && Mdb.GpioMdb.Pulsed(hw.latency, old(hw.line), hw.line, 1000 * request.argUint)
                  && hw.trace == old(hw.trace) + PulseCalls(mdb.txPin, 1000 * request.argUint)
                else if request.argUint <= 4_294_967 then hw.faults == old(hw.faults) + 1 && why.Some? && why.value.GpioError?
                else unchanged(hw) && why == Some(Overflow)
      ensures request.command == 3 && old(mdb) != null && mock ==> unchanged(hw)
      ensures request.command == 3 && old(mdb) != null && !mock ==>
                && Fitting(old(hw.trace), 1 <= |request.argBytes| < 40)
                && (1 <= |request.argBytes| < 40 ==> RequestSent(old(mdb.history), request.argBytes, old(hw.sent)))
                && (r == Ok(false) ==> why.Some? && Explains(why.value, old(hw.stream)))
      ensures !(request.command == 3 && old(mdb) != null && !mock && 1 <= |request.argBytes| < 40) ==> hw.sent == old(hw.sent)
      // 100 stops the server; that and any other number leave the hardware alone.
      ensures running == (old(running) && request.command != 100)
      ensures request.command !in {1, 2, 3} ==> unchanged(hw) && r == Ok(request.command == 100)
      ensures !Transmits(mock, old(TheBus()), request.View()) ==> r.Ok?
      ensures Mdb.Times(old(hw.now), sites, hw.now)
      ensures Transmits(mock, old(TheBus()), request.View()) ==>
                && (r.Panic? <==> !FitsBlock(request.View()) || Mdb.Overflows(0, Amounts(request.View()), sites))
                && (r.Unending? ==> FitsBlock(request.View()) && Mdb.CanHang(hw.latency, waitStep, Amounts(request.View()), sites))
    {
      hide Valid, Mdb.Overflows, Mdb.DeadlineAmounts, Mdb.Times, Mdb.CanHang, InvalidCommand, Mdb.GpioMdb.Pulsed, Mdb.OpenCalls, Mdb.Drops,
           EndsWith, Explains, Executes, Fitting, RequestSent, Explained, PulseCalls, Terse, Reaches, Transmits, FitsBlock, Amounts;
      ghost var b0, q, r0 := TheBus(), request.View(), response.View();
      sites, why := [], None;
      match CommandOrDefault(request.command)
      case INVALID =>
        Fail(response, ERR_INPUT, InvalidCommand());
        r := Ok(false);
        NoTimes(hw.now, hw.now);
        ExecutesOther(mock, b0, q, r0, response.View());
      case STOP =>
        running := false;
        response.status := OK;
        r := Ok(true);
        NoTimes(hw.now, hw.now);
        ExecutesOther(mock, b0, q, r0, response.View());
      case _ =>
        r, sites, why := ExecBus(request, response);
    }

    /** The commands that are for the bus. */
    method ExecBus(request: Request, response: Response)
      returns (r: Outcome<bool>, ghost sites: seq<nat>, ghost why: Option<MdbError>)
      requires Valid() && request.command in {1, 2, 3}
      modifies this`mdb, hw, Driver(), response
      ensures Valid() && fresh(Driver() - old(Driver()))
      ensures !r.Err?
      ensures r.Ok? ==>
                Executes(mock, old(TheBus()), request.View(), old(response.View()), response.View(), r.value, TheBus())
      // The status is 1 on success, and on failure 6 for the hardware or 2 for the input.
      ensures r.Ok? ==> response.status == if r.value then 1 else if Reaches(old(mdb) != null, request.View()) then 6 else 2
      ensures r.Ok? && response.status == 6 ==> Explained(why, response.error)
      // 1 opens a new driver on the pins given, or leaves none; no other number changes the driver.
      ensures request.command != 1 ==> mdb == old(mdb)
      ensures request.command == 1 && mdb != null ==>
                && fresh(mdb) && |request.argBytes| == 2 && mdb.rxPin == request.argBytes[0] && mdb.txPin == request.argBytes[1]
                && EndsWith(hw.trace, Mdb.OpenCalls(request.argBytes[0], request.argBytes[1], mdb.waveAck, mdb.waveNak))
      ensures request.command == 1 && old(mdb) != null ==>
                Mdb.Drops(old(hw.trace), hw.trace, old(mdb.rxPin), old(mdb.waveAck), old(mdb.waveNak))
      // 2 pulses the transmit line, 3 transmits; neither does anything without a driver.
      ensures request.command in {2, 3} && old(mdb) == null ==> unchanged(hw)
      ensures request.command == 2 && old(mdb) != null ==>
                if r == Ok(true) then
                  && Mdb.GpioMdb.Pulsed(hw.latency, old(hw.line), hw.line, 1000 * request.argUint)
                  && hw.trace == old(hw.trace) + PulseCalls(mdb.txPin, 1000 * request.argUint)
                else if request.argUint <= 4_294_967 then hw.faults == old(hw.faults) + 1 && why.Some? && why.value.GpioError?
                else unchanged(hw) && why == Some(Overflow)
      ensures request.command == 3 && old(mdb) != null && mock ==> unchanged(hw)
      ensures request.command == 3 && old(mdb) != null && !mock ==>
                && Fitting(old(hw.trace), 1 <= |request.argBytes| < 40)
                && (1 <= |request.argBytes| < 40 ==> RequestSent(old(mdb.history), request.argBytes, old(hw.sent)))
                && (r == Ok(false) ==> why.Some? && Explains(why.value, old(hw.stream)))
      ensures !(request.command == 3 && old(mdb) != null && !mock && 1 <= |request.argBytes| < 40) ==> hw.sent == old(hw.sent)
      ensures !Transmits(mock, old(TheBus()), request.View()) ==> r.Ok?
      ensures Mdb.Times(old(hw.now), sites, hw.now)
      ensures Transmits(mock, old(TheBus()), request.View()) ==>
                && (r.Panic? <==> !FitsBlock(request.View()) || Mdb.Overflows(0, Amounts(request.View()), sites))
                && (r.Unending? ==> FitsBlock(request.View()) && Mdb.CanHang(hw.latency, waitStep, Amounts(request.View()), sites))
    {
      hide Valid, Accepted, Mdb.Overflows, Mdb.DeadlineAmounts, Mdb.Times, Mdb.CanHang, MustOpen, InvalidArgBytes, Block.OnePass, IsSuffix,
           UsesReply, Mdb.RequestSent, Mdb.GpioMdb.Pulsed, Mdb.AllFitting, Mdb.OpenCalls, Mdb.Drops, EndsWith, Explains, Block.IsVerdict,
           Executes, HardwareError, Fitting, RequestSent, PulseCalls;
      ghost var now0, b0, q, r0 := hw.now, TheBus(), request.View(), response.View();
      sites, why := [], None;
      var ok;
      match CommandOrDefault(request.command)
      case MDB_OPEN =>
        ok, why := ExecOpen(request.argBytes, response);
        r := Ok(ok);
        ExecutesOpen(mock, b0, q, r0, response.View(), ok, TheBus());
        NoTimes(now0, hw.now);
      case MDB_RESET =>
        ok, why := ExecReset(request.argUint, response);
        r := Ok(ok);
        ExecutesReset(mock, b0, q, r0, response.View(), ok);
        NoTimes(now0, hw.now);
      case MDB_TX =>
        r, sites, why := ExecTx(request.argBytes, response);
        if r.Ok? {
          ExecutesTx(mock, b0, q, r0, response.View(), r.value, TheBus());
        }
    }

    /** Reads a length and the message it delimits. Nothing is read when the length is not there. */
    method ReadRequest(input: InputStream, request: Request) returns (eof: bool, parsed: bool)
      requires input.Valid() && input.limit == None && request.View() == NewRequest
      modifies input, request
      ensures input.Valid() && input.limit == None
      ensures eof <==> |old(input.Window())| < 4
      ensures !eof ==>
                var input0, body := old(input.Window()), Body(old(input.Window()));
                && input.pos > old(input.pos)
                && MergeRequest(NewRequest, body) == (if parsed then Some(request.View()) else None)
                && (parsed ==> input.Window() == input0[4 + |body|..])
                && LengthObeyed(input0, body)
                && IsSuffix(input.Window(), input0) && 4 <= |input0| - |input.Window()| <= 4 + |body|
    {
      hide MergeRequest, UnFixed32, LengthObeyed;
      ghost var input0 := input.Window();
      parsed := false;
      var msglen := input.ReadFixed();
      if msglen.None? {
        return true, false;
      }
      var outer := input.PushLimit(msglen.value);
      assert input0 == input.data[old(input.pos)..];
      BodyWithin(input.data, old(input.pos), msglen.value);
      BodyObeysLength(input0);
      parsed := request.MergeFrom(input);
      input.PopLimit(outer);
      return false, parsed;
    }

    static lemma BodyWithin(data: seq<byte>, pos: nat, n: nat)
      requires pos + 4 <= |data| && n == UnFixed32(data[pos..][..4])
      ensures Body(data[pos..]) == data[pos + 4..if pos + 4 + n < |data| then pos + 4 + n else |data|]
    {
      hide UnFixed32;
    }

    /** Writes the frame of a response; panics when its size does not fit the length prefix. */
    method WriteResponse(response: Response, os: OutputStream) returns (ok: bool)
      modifies response`cachedSize, os
      ensures ok <==> FramableResponse(response.View())
      ensures os.out == if ok then old(os.out) + ResponseFrame(response.View()) else old(os.out)
      ensures ok ==>
                var frame, body := os.out[|old(os.out)|..], EncodeResponse(response.View());
                SpellsLength(frame, |body|) && frame[4..] == body
    {
      hide EncodeResponse, Fixed32, SpellsLength;
      if !EncodableResponse(response.View()) {
        return false;
      }
      var size := response.ComputeSize();
      if size >= 0x1_0000_0000 {
        return false;
      }
      Associative(os.out, Fixed32(size), EncodeResponse(response.View()));
      os.WriteFixed32NoTag(size);
      response.WriteTo(os);
      FrameSpellsLength(EncodeResponse(response.View()));
      return true;
    }

    /** Executes a parsed request, or refuses one that did not parse. */
    method Perform(request: Request, parsed: bool, response: Response)
      returns (end: Option<RunEnd>, ghost ok: bool, ghost sites: seq<nat>)
      requires Valid() && response.View() == NewResponse
      modifies this`mdb, this`running, hw, Driver(), response
      ensures Valid() && fresh(Driver() - old(Driver()))
      ensures end.None? && parsed ==> Executes(mock, old(TheBus()), request.View(), NewResponse, response.View(), ok, TheBus())
      ensures end.None? && !parsed ==>
                && !ok && old(TheBus()) == TheBus() && FramableResponse(response.View())
                && response.View() == NewResponse.(status := ERR_INPUT, error := parseError)
      ensures end.None? ==> running == (old(running) && !(parsed && CommandOrDefault(request.command) == STOP))
      ensures end.Some? ==>
                parsed && end.value in {Panicked, Unfinished} && Breaks(TheSetup(), old(TheBus()), request.View(), end.value, sites)
      ensures Mdb.Times(old(hw.now), sites, hw.now)
    {
      hide Executes, FramableResponse, Mdb.Overflows, Mdb.Times, Mdb.CanHang, Mdb.GpioMdb.Pulsed, Mdb.GpioMdb.Valid, Breaks,
           FitsBlock, Amounts;
      end, ok, sites := None, false, [];
      if !parsed {
        Fail(response, ERR_INPUT, parseError);
        NoTimes(hw.now, hw.now);
        ShortResponseFits(response.View());
        return;
      }
      ghost var before := TheBus();
      var r;
      ghost var why;
      r, sites, why := Exec(request, response);
      if r.Ok? {
        ok := r.value;
      } else {
        GivenUp(TheSetup(), before, request.View(), r, sites);
        end := Some(if r.Panic? then Panicked else Unfinished);
      }
    }

    /** Performs a request and writes the answer. */
    method Answer(request: Request, response: Response, parsed: bool, os: OutputStream)
      returns (end: Option<RunEnd>, ghost ok: bool, ghost sites: seq<nat>)
      requires Valid() && response.View() == NewResponse
      modifies this`mdb, this`running, hw, Driver(), response, os
      ensures Valid() && fresh(Driver() - old(Driver()))
      ensures end.None? ==>
                && FramableResponse(response.View()) && os.out == old(os.out) + ResponseFrame(response.View())
                && (parsed ==> Executes(mock, old(TheBus()), request.View(), NewResponse, response.View(), ok, TheBus()))
                && (!parsed ==>
                      && !ok && old(TheBus()) == TheBus()
                      && response.View() == NewResponse.(status := ERR_INPUT, error := parseError))
                && running == (old(running) && !(parsed && CommandOrDefault(request.command) == STOP))
      ensures end.Some? ==>
                && os.out == old(os.out) && parsed && end.value in {Panicked, Unfinished}
                && Breaks(TheSetup(), old(TheBus()), request.View(), end.value, sites)
      ensures Mdb.Times(old(hw.now), sites, hw.now)
    {
      hide Executes, FramableResponse, ResponseFrame, Mdb.Times, Mdb.GpioMdb.Valid, Breaks, Terse, CommandOrDefault;
      ghost var before := TheBus();
      end, ok, sites := Perform(request, parsed, response);
      if end.Some? {
        return;
      }
      var written := WriteResponse(response, os);
      if !written {
        TooLong(TheSetup(), before, request.View(), response.View(), ok, TheBus(), sites);
        end := Some(Panicked);
      }
    }

    static lemma GivenUp(setup: Setup, b: Bus, q: RequestData, r: Outcome<bool>, sites: seq<nat>)
      requires r.Panic? || r.Unending?
      requires Transmits(setup.mock, b, q)
      requires r.Panic? <==> !FitsBlock(q) || Mdb.Overflows(0, Amounts(q), sites)
      requires r.Unending? ==> FitsBlock(q) && Mdb.CanHang(setup.latency, setup.waitStep, Amounts(q), sites)
      ensures Breaks(setup, b, q, if r.Panic? then Panicked else Unfinished, sites)
    {
    }

    static lemma TooLong(setup: Setup, b: Bus, q: RequestData, r: ResponseData, ok: bool, b1: Bus, sites: seq<nat>)
      requires Executes(setup.mock, b, q, NewResponse, r, ok, b1) && !FramableResponse(r)
      ensures Breaks(setup, b, q, Panicked, sites)
    {
    }

    /** One turn of the loop. `end` is given when the loop does not go on; nothing is answered then. */
    method ServeOne(input: InputStream, os: OutputStream) returns (end: Option<RunEnd>, ghost e: Exchange, ghost sites: seq<nat>)
      requires Valid() && input.Valid() && input.limit == None
      modifies this`mdb, this`running, hw, Driver(), input, os
      ensures Valid() && fresh(Driver() - old(Driver())) && input.Valid() && input.limit == None
      ensures end.None? ==>
                && Serves(mock, e)
                && e.from == Point(old(input.Window()), old(TheBus())) && e.to == Point(input.Window(), TheBus())
                && input.pos > old(input.pos)
                && FramableResponse(e.response) && os.out == old(os.out) + ResponseFrame(e.response)
                && running == (old(running) && !IsStop(e))
                && (e.request.None? ==> e.response.error == parseError)
      ensures end.Some? ==> os.out == old(os.out) && end.value in {Eof, Panicked, Unfinished}
      ensures end == Some(Eof) <==> |old(input.Window())| < 4
      ensures end.Some? && end != Some(Eof) ==>
                BreaksOff(TheSetup(), Point(old(input.Window()), old(TheBus())), end.value, sites)
      ensures Mdb.Times(old(hw.now), sites, hw.now)
    {
      hide Valid, Executes, MergeRequest, FramableResponse, ResponseFrame, IsSuffix, Breaks, BreaksOff, Serves, Mdb.Times,
           CommandOrDefault, Body, LengthObeyed, Transmits, FitsBlock, TheBus, TheSetup;
      var request := new Request();
      var response := new Response();
      ghost var from := Point(input.Window(), TheBus());
      e, sites := Exchange(from, None, NewResponse, false, from), [];
      var eof, parsed := ReadRequest(input, request);
      if eof {
        NoTimes(hw.now, hw.now);
        return Some(Eof), e, sites;
      }
      ghost var q, input1 := request.View(), input.Window();
      ghost var ok;
      end, ok, sites := Answer(request, response, parsed, os);
      e := Exchange(from, if parsed then Some(q) else None, response.View(), ok, Point(input1, TheBus()));
      if end.None? {
        Served(mock, e, parsed, parseError);
      } else {
        Broke(TheSetup(), from, q, end.value, sites);
      }
    }

    static lemma Served(mock: bool, e: Exchange, parsed: bool, parseError: Text)
      requires |e.from.input| >= 4 && FramableResponse(e.response) && parsed == e.request.Some?
      requires e.request == MergeRequest(NewRequest, Body(e.from.input))
      requires parsed ==>
                 && e.to.input == e.from.input[4 + |Body(e.from.input)|..]
                 && Executes(mock, e.from.bus, e.request.value, NewResponse, e.response, e.ok, e.to.bus)
      requires !parsed ==> !e.ok && e.to.bus == e.from.bus && e.response == NewResponse.(status := ERR_INPUT, error := parseError)
      requires IsSuffix(e.to.input, e.from.input) && 4 <= |e.from.input| - |e.to.input| <= 4 + |Body(e.from.input)|
      ensures Serves(mock, e)
    {
      hide Executes, MergeRequest, FramableResponse;
    }

    static lemma Broke(setup: Setup, p: Point, q: RequestData, end: RunEnd, sites: seq<nat>)
      requires |p.input| >= 4 && MergeRequest(NewRequest, Body(p.input)) == Some(q) && Breaks(setup, p.bus, q, end, sites)
      ensures BreaksOff(setup, p, end, sites)
    {
    }

    /** run: serves frames until a STOP, the end of the input, or a command that does not end. `p1` is
        where the last exchange left the server. */
    method Run(input: InputStream, os: OutputStream)
      returns (end: RunEnd, ghost history: seq<Exchange>, ghost p1: Point, ghost output: seq<byte>, ghost sites: seq<nat>)
      requires Valid() && input.Valid() && input.limit == None
      modifies this`mdb, this`running, hw, Driver(), input, os
      ensures Valid() && input.Valid()
      ensures os.out == old(os.out) + output
      ensures RunOf(TheSetup(), Point(old(input.Window()), old(TheBus())), history, end, p1, output, sites)
      ensures end == Stopped ==> !running && p1 == Point(input.Window(), TheBus())
      ensures exists t :: old(hw.now) <= t && Mdb.Times(t, sites, hw.now)
      ensures forall i :: 0 <= i < |history| && history[i].request.None? ==> history[i].response.error == parseError
    {
      hide Serves, FramableResponse, ResponseFrame, SoFar, IsStop, Valid, BreaksOff, Mdb.Times;
      ghost var p0 := Point(input.Window(), TheBus());
      history, p1, output, sites := [], p0, [], [];
      NoTimes(hw.now, hw.now);
      ghost var t := hw.now;
      RunStarts(mock, p0);
      running := true;
      while running
        invariant Valid() && fresh(Driver() - old(Driver())) && input.Valid() && input.limit == None
        invariant p1 == Point(input.Window(), TheBus())
        invariant SoFar(mock, p0, history, p1, output)
        invariant os.out == old(os.out) + output
        invariant running ==> NoStop(history, |history|)
        invariant !running ==> history != [] && IsStop(history[|history| - 1]) && NoStop(history, |history| - 1)
        invariant old(hw.now) <= t && Mdb.Times(t, sites, hw.now)
        invariant forall i :: 0 <= i < |history| && history[i].request.None? ==> history[i].response.error == parseError
        decreases |input.data| - input.pos, running
      {
        var stop;
        ghost var e;
        TimesInOrder(t, sites, hw.now);
        t := hw.now;
        stop, e, sites := ServeOne(input, os);
        if stop.Some? {
          return stop.value, history, p1, output, sites;
        }
        RunGoesOn(mock, p0, history, e, output);
        Associative(old(os.out), output, ResponseFrame(e.response));
        history, output := history + [e], output + ResponseFrame(e.response);
        p1 := Point(input.Window(), TheBus());
      }
      return Stopped, history, p1, output, sites;
    }
  }
}
