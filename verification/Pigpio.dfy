/** The GPIO library as its callers see it: an environment whose calls may fail, take time and
    deliver serial words in any portions, and the helpers the driver builds on it. */
module Pigpio {
  import opened Basics
  import opened MdbBlock

  function Check(rc: i32): Outcome<u32> {
    if rc < 0 then Err(GpioError(rc)) else Ok(rc)
  }

  predicate IsFault<T>(r: Outcome<T>) {
    r.Err? && r.error.GpioError?
  }

  predicate AllBusy(polls: seq<bool>) {
    forall i :: 0 <= i < |polls| ==> polls[i]
  }

  lemma NotBusy()
    ensures AllBusy([])
  {
  }

  lemma StillBusy(polls: seq<bool>)
    requires AllBusy(polls)
    ensures AllBusy(polls + [true])
  {
  }

  /** Longest time from one deadline check of a poll loop to the next. */
  function PollSpan(latency: nat, waitStep: u32): nat {
    waitStep + 4 * latency
  }

  /** A poll loop is bounded in time when it advances and cannot come near the end of the tick epoch. */
  predicate Bounded(latency: nat, waitStep: u32, deadline: u32) {
    waitStep >= 1 && deadline + PollSpan(latency, waitStep) < 0x1_0000_0000
  }

  function ElapsedTicks(now: nat, start: u32): u32 {
    Wrap32((Wrap32(now) as int) - start)
  }

  /** Across a wrap of the counter the difference of ticks is still the true elapsed time,
      exactly when that time fits in 32 bits. */
  lemma TickSinceIsElapsed(t0: nat, t1: nat)
    requires t0 <= t1
    ensures ElapsedTicks(t1, Wrap32(t0)) == t1 - t0 <==> t1 - t0 < 0x1_0000_0000
    ensures ElapsedTicks(t1, 0) == Wrap32(t1)
  {
  }

  lemma TickSinceWraps(t0: nat, t1: nat)
    requires t0 <= t1
    ensures ElapsedTicks(t1, Wrap32(t0)) == Wrap32(t1 - t0)
  {
    var a, b := t0 / 0x1_0000_0000, t1 / 0x1_0000_0000;
    assert Wrap32(t1) - Wrap32(t0) as int == (t1 - t0) - 0x1_0000_0000 * (b - a);
  }

  lemma TickSinceAtMost(t0: nat, t1: nat)
    requires t0 <= t1
    ensures ElapsedTicks(t1, Wrap32(t0)) <= t1 - t0
  {
    TickSinceIsElapsed(t0, t1);
  }

  /** The calls of the library, as they are recorded once they have been made. A call that reports an
      error is a `Failure`, whichever it was. */
  datatype Event =
    | Failure
    | SetMode(pin: int, output: bool)
    | OpenReader(pin: int, baud: nat, dataBits: nat)
    | CloseReader(pin: int)
    | StopTx
    | AddNew
    | AddSerial(pin: int, baud: nat, dataBits: nat, stopBits: nat, offset: nat, bytes: seq<byte>)
    | Create(id: nat)
    | Delete(id: nat)
    | Send(id: nat, mode: nat)
    | Busy(busy: bool)
    | Level(pin: int, high: bool)
    | Read(pin: int, words: nat)
    | Look
    | Pause(us: nat)

  /** The calls made are some of the given ones, from the first on, and then one that failed. */
  ghost predicate Gave(trace0: seq<Event>, trace1: seq<Event>, calls: seq<Event>) {
    exists k :: 0 <= k <= |calls| && trace1 == trace0 + calls[..k] + [Failure]
  }

  lemma GivesUp(trace: seq<Event>, a: Event, b: Event)
    ensures Gave(trace, trace + [Failure], [a, b])
    ensures Gave(trace, trace + [a] + [Failure], [a, b])
    ensures Gave(trace, trace + [a] + [b] + [Failure], [a, b])
  {
    assert trace + [Failure] == trace + [a, b][..0] + [Failure];
    assert trace + [a] + [Failure] == trace + [a, b][..1] + [Failure];
    assert trace + [a] + [b] + [Failure] == trace + [a, b][..2] + [Failure];
  }

  function Recorded(rc: i32, e: Event): Event {
    if rc < 0 then Failure else e
  }

  /** The same calls, turn after turn. */
  function Turns(turn: seq<Event>, n: nat): seq<Event> {
    if n == 0 then [] else Turns(turn, n - 1) + turn
  }

  lemma NoTurns(trace: seq<Event>, turn: seq<Event>)
    ensures trace + Turns(turn, 0) == trace
  {
  }

  lemma OneMoreTurn(trace: seq<Event>, turn: seq<Event>, n: nat)
    ensures trace + Turns(turn, n) + turn == trace + Turns(turn, n + 1)
  {
  }

  /** Calls made one by one are calls made in a row. */
  lemma InARow(trace: seq<Event>, a: Event, b: Event, c: Event)
    ensures trace + [a] + [b] == trace + [a, b]
    ensures trace + [a] + [b] + [c] == trace + [a, b, c]
  {
  }

  /** Hardware state. `now` is the true time in microseconds; a tick is its residue. `stream` is
      what the device has still to deliver; an eager device has it ready, so that a read brings at least
      one word of it. The ghost fields record what was done. */
  class Hardware {
    const latency: nat
    const burst: nat
    const eager: bool
    var now: nat
    var stream: seq<Word>
    var live: map<nat, seq<byte>>
    var pending: seq<byte>
    ghost var sent: seq<seq<byte>>
    ghost var polls: seq<bool>
    ghost var line: seq<(bool, nat)>
    ghost var faults: nat
    ghost var trace: seq<Event>

    /** Any call: it takes up to `latency`, and may fail. */
    method Call(ghost e: Event) returns (rc: i32)
      modifies `now, `trace, `faults
      ensures old(now) <= now <= old(now) + latency
      ensures faults == old(faults) + if rc < 0 then 1 else 0
      ensures trace == old(trace) + [Recorded(rc, e)]
    {
      rc :| -0x8000_0000 <= rc < 0x8000_0000;
      var dt :| 0 <= dt <= latency;
      now := now + dt;
      faults := faults + if rc < 0 then 1 else 0;
      trace := trace + [Recorded(rc, e)];
    }

    method Tick() returns (t: u32)
      modifies `now, `trace
      ensures old(now) <= now <= old(now) + latency
      ensures t == Wrap32(now) && trace == old(trace) + [Look]
    {
      trace := trace + [Look];
      var dt :| 0 <= dt <= latency;
      now := now + dt;
      t := Wrap32(now);
    }

    /** tick_since: the tick counter relative to `start`, modulo 2^32. */
    method TickSince(start: u32) returns (t: u32)
      modifies `now, `trace
      ensures old(now) <= now <= old(now) + latency
      ensures t == ElapsedTicks(now, start) && trace == old(trace) + [Look]
    {
      var end: int := Tick();
      t := Wrap32(end - start);
    }

    method Delay(us: u32) returns (actual: u32)
      modifies `now, `trace
      ensures old(now) + us <= now <= old(now) + us + latency
      ensures actual == Wrap32(now - old(now)) && trace == old(trace) + [Pause(us)]
    {
      trace := trace + [Pause(us)];
      var dt :| 0 <= dt <= latency;
      var spent := us + dt;
      now := now + spent;
      actual := Wrap32(spent);
    }

    method Write(pin: int, high: bool) returns (rc: i32)
      modifies `now, `trace, `faults, `line
      ensures old(now) <= now <= old(now) + latency
      ensures faults == old(faults) + if rc < 0 then 1 else 0
      ensures line == if rc < 0 then old(line) else old(line) + [(high, now)]
      ensures trace == old(trace) + [Recorded(rc, Level(pin, high))]
    {
      rc := Call(Level(pin, high));
      if rc >= 0 {
        line := line + [(high, now)];
      }
    }

    /** Opens or closes the serial reader, as `e` says. Words that were not read before, or come while it
        is closed, may be lost. */
    method SwitchReader(ghost e: Event) returns (rc: i32)
      modifies `now, `trace, `faults, `stream
      ensures old(now) <= now <= old(now) + latency
      ensures faults == old(faults) + if rc < 0 then 1 else 0
      ensures IsSuffix(stream, old(stream))
      ensures trace == old(trace) + [Recorded(rc, e)]
    {
      rc := Call(e);
      var k :| 0 <= k <= |stream|;
      stream := stream[k..];
    }

    /** Moves some of the waiting words, possibly none, into the buffer, two bytes a word. */
    method SerialRead(pin: int, buf: array<byte>) returns (rc: i32, ghost chunk: seq<Word>)
      requires 2 <= buf.Length < 0x8000_0000
      modifies buf, `stream, `now, `trace, `faults
      ensures old(now) <= now <= old(now) + latency
      ensures faults == old(faults) + if rc < 0 then 1 else 0
      ensures old(stream) == chunk + stream
      ensures |chunk| == (if rc < 0 then 0 else rc / 2) && rc % 2 == (if rc < 0 then rc % 2 else 0)
      ensures 2 * |chunk| <= buf.Length && |chunk| <= burst
      ensures buf[..] == Overwrite(old(buf[..]), chunk)
      ensures trace == old(trace) + [Recorded(rc, Read(pin, |chunk|))]
      ensures eager && burst >= 1 && old(stream) != [] && rc >= 0 ==> chunk != []
    {
      ghost var before := trace;
      rc := Call(Look);
      var k :| 0 <= k <= |stream|;
      if 2 * k > buf.Length || k > burst {
        k := 0;
      }
      if k == 0 && eager && burst >= 1 && stream != [] {
        k := 1;
      }
      if rc < 0 {
        k := 0;
      }
      trace := before + [Recorded(rc, Read(pin, k))];
      chunk := stream[..k];
      var words := stream[..k];
      stream := stream[k..];
      if rc >= 0 {
        rc := 2 * k;
      }
      forall j | 0 <= j < 2 * k {
        buf[j] := if j % 2 == 0 then words[j / 2].data else Flag(words[j / 2]);
      }
    }

    method WaveAddNew() returns (rc: i32)
      modifies `now, `trace, `faults, `pending
      ensures old(now) <= now <= old(now) + latency
      ensures faults == old(faults) + if rc < 0 then 1 else 0
      ensures rc >= 0 ==> pending == []
      ensures trace == old(trace) + [Recorded(rc, AddNew)]
    {
      rc := Call(AddNew);
      if rc >= 0 {
        pending := [];
      }
    }

    method WaveAddSerial(pin: int, baud: nat, dataBits: nat, stopBits: nat, offset: nat, s: seq<byte>) returns (rc: i32)
      modifies `now, `trace, `faults, `pending
      ensures old(now) <= now <= old(now) + latency
      ensures faults == old(faults) + if rc < 0 then 1 else 0
      ensures rc >= 0 ==> pending == old(pending) + s
      ensures trace == old(trace) + [Recorded(rc, AddSerial(pin, baud, dataBits, stopBits, offset, s))]
    {
      rc := Call(AddSerial(pin, baud, dataBits, stopBits, offset, s));
      if rc >= 0 {
        pending := pending + s;
      }
    }

    /** Turns the pending data into a live wave under an unused identifier. */
    method WaveCreate() returns (rc: i32)
      modifies `now, `trace, `faults, `pending, `live
      ensures old(now) <= now <= old(now) + latency
      ensures faults == old(faults) + if rc < 0 then 1 else 0
      ensures rc < 0 ==> live == old(live)
      ensures rc >= 0 ==> rc !in old(live) && live == old(live)[rc := old(pending)]
      ensures trace == old(trace) + [if rc < 0 then Failure else Create(rc)]
    {
      ghost var before := trace;
      rc := Call(Look);
      if rc in live {
        rc := -1;
        faults := faults + 1;
      } else if rc >= 0 {
        live := live[rc := pending];
        pending := [];
      }
      trace := before + [if rc < 0 then Failure else Create(rc)];
    }

    /** Deleting a live wave is assumed to succeed; it is the only call that is. */
    method WaveDelete(w: nat)
      requires w in live
      modifies `now, `trace, `live
      ensures old(now) <= now <= old(now) + latency
      ensures live == old(live) - {w} && trace == old(trace) + [Delete(w)]
    {
      var dt :| 0 <= dt <= latency;
      now := now + dt;
      trace := trace + [Delete(w)];
      live := live - {w};
    }

    method WaveTxSend(w: nat, mode: nat) returns (rc: i32)
      requires w in live
      modifies `now, `trace, `faults, `sent
      ensures old(now) <= now <= old(now) + latency
      ensures faults == old(faults) + if rc < 0 then 1 else 0
      ensures sent == old(sent) + [live[w]] && trace == old(trace) + [Recorded(rc, Send(w, mode))]
    {
      rc := Call(Send(w, mode));
      sent := sent + [live[w]];
    }

    /** gpioWaveTxBusy: 1 while a wave is going out, 0 when none is. */
    method AskBusy() returns (rc: i32)
      modifies `now, `trace, `faults
      ensures old(now) <= now <= old(now) + latency
      ensures faults == old(faults) + if rc < 0 then 1 else 0
      ensures trace == old(trace) + [Recorded(rc, Busy(rc == 1))]
    {
      ghost var before := trace;
      rc := Call(Look);
      trace := before + [Recorded(rc, Busy(rc == 1))];
    }

    /** wave_tx_busy. */
    method WaveTxBusy() returns (r: Outcome<bool>)
      modifies `now, `trace, `faults, `polls
      ensures old(now) <= now <= old(now) + latency
      ensures r.Ok? || IsFault(r)
      ensures faults == old(faults) + if r.Ok? then 0 else 1
      ensures polls == if r.Ok? then old(polls) + [r.value] else old(polls)
      ensures trace == old(trace) + [if r.Ok? then Busy(r.value) else Failure]
    {
      var rc := AskBusy();
      var n :- Check(rc);
      polls := polls + [n == 1];
      return Ok(n == 1);
    }

    /** Wave::new_serial: a wave holding exactly `s`, for the pin and in the format given, or no change to
        the live waves. */
    method NewSerial(pin: int, baud: nat, dataBits: nat, stopBits: nat, offset: nat, s: seq<byte>) returns (r: Outcome<nat>)
      modifies `now, `trace, `faults, `pending, `live
      ensures old(now) <= now <= old(now) + 3 * latency
      ensures r.Ok? || IsFault(r)
      ensures faults == old(faults) + if r.Ok? then 0 else 1
      ensures r.Ok? ==> r.value !in old(live) && live == old(live)[r.value := s]
      ensures !r.Ok? ==> live == old(live)
      ensures r.Ok? ==> trace == old(trace) + [AddNew, AddSerial(pin, baud, dataBits, stopBits, offset, s), Create(r.value)]
      ensures !r.Ok? ==> Gave(old(trace), trace, [AddNew, AddSerial(pin, baud, dataBits, stopBits, offset, s)])
    {
      ghost var trace0, add := trace, AddSerial(pin, baud, dataBits, stopBits, offset, s);
      GivesUp(trace0, AddNew, add);
      var rc := WaveAddNew();
      var _ :- Check(rc);
      rc := WaveAddSerial(pin, baud, dataBits, stopBits, offset, s);
      var _ :- Check(rc);
      assert pending == s;
      rc := WaveCreate();
      var id :- Check(rc);
      return Ok(id);
    }

    /** wave_busy_wait: polls until idle, adding up the delays as they are reported. */
    method WaveBusyWait(delayStep: u32, timeout: u32) returns (r: Outcome<u32>, ghost delays: seq<u32>, ghost busy: seq<bool>)
      modifies `now, `trace, `faults, `polls
      // Success needs an idle poll, a timeout only busy ones and a total over the argument.
      ensures AllBusy(busy)
      ensures r.Ok? ==> polls == old(polls) + busy + [false] && r.value == Total(delays)
      ensures r == Err(SendTimeout(RequestWave)) ==> polls == old(polls) + busy && Total(delays) > timeout
      ensures r.Err? ==> r.error == SendTimeout(RequestWave) || IsFault(r)
      ensures faults == old(faults) + if IsFault(r) then 1 else 0
      // Only the last delay can take the total over the argument, which bounds the iterations.
      ensures Within(delayStep, latency, timeout, delays)
      // Every delay is spent, and followed by a poll.
      ensures r.Ok? || IsFault(r) ==> |delays| == |busy| + 1
      ensures r == Err(SendTimeout(RequestWave)) || r.Unending? ==> |delays| == |busy|
      ensures BusyTraced(old(trace), trace, delayStep, |busy|, BusyEnd(delayStep, r))
      ensures now >= old(now) + Total(delays)
      ensures r.Unending? ==> !DelayIsExact(delayStep, latency)
      ensures r.Panic? ==> Total(delays) >= 0x1_0000_0000
    {
      hide Total, Kept, Within, DelayIsExact, AllBusy, BusyTraced;
      NotBusy();
      ghost var trace0 := trace;
      StartsBusy(trace0, delayStep);
      NothingKept(delayStep, latency, timeout);
      var total: u32 := 0;
      var exact := DelayIsExact(delayStep, latency);
      var patience :| 0 <= patience;
      delays, busy := [], [];
      while true
        invariant polls == old(polls) + busy && AllBusy(busy)
        invariant total == Total(delays) && total <= timeout
        invariant Kept(delayStep, latency, timeout, delays)
        invariant faults == old(faults) && |delays| == |busy|
        invariant BusyTraced(trace0, trace, delayStep, |busy|, []) && now >= old(now) + Total(delays)
        invariant 0 <= patience
        decreases if exact then timeout - total else 0, patience
      {
        KeptMeans(delayStep, latency, timeout, delays);
        if !exact {
          if patience == 0 {
            return Unending, delays, busy;
          }
          patience := patience - 1;
        }
        BusyTurn(trace0, trace, delayStep, |busy|);
        ghost var before := now;
        var d := Delay(delayStep);
        OneMoreDelay(delayStep, latency, timeout, delays, now - before);
        delays := delays + [d];
        KeptMeans(delayStep, latency, timeout, delays);
        var sum := CheckedAdd32(total, d);
        if sum.None? {
          return Panic, delays, busy;
        }
        total := sum.value;
        var poll := WaveTxBusy();
        if poll.IsFailure() {
          return poll.PropagateFailure<u32>(), delays, busy;
        }
        if !poll.value {
          break;
        }
        StillBusy(busy);
        busy := busy + [true];
        if total > timeout {
          return Err(SendTimeout(RequestWave)), delays, busy;
        }
      }
      return Ok(total), delays, busy;
    }
  }

  /** How a busy wait ends: with an idle poll, a failed one, an overflow before it, or after a busy one. */
  function BusyEnd(delayStep: u32, r: Outcome<u32>): seq<Event> {
    match r
    case Ok(_) => [Pause(delayStep), Busy(false)]
    case Panic => [Pause(delayStep)]
    case Err(GpioError(_)) => [Pause(delayStep), Failure]
    case _ => []
  }

  /** The calls of a busy wait: n turns of a delay and a busy poll, and an end. */
  predicate BusyTraced(trace0: seq<Event>, trace1: seq<Event>, delayStep: u32, n: nat, end: seq<Event>) {
    trace1 == trace0 + Turns([Pause(delayStep), Busy(true)], n) + end
  }

  lemma StartsBusy(trace: seq<Event>, delayStep: u32)
    ensures BusyTraced(trace, trace, delayStep, 0, [])
  {
  }

  lemma BusyTurn(trace0: seq<Event>, trace1: seq<Event>, delayStep: u32, n: nat)
    requires BusyTraced(trace0, trace1, delayStep, n, [])
    ensures BusyTraced(trace0, trace1 + [Pause(delayStep)], delayStep, n, [Pause(delayStep)])
    ensures BusyTraced(trace0, trace1 + [Pause(delayStep)] + [Busy(false)], delayStep, n, [Pause(delayStep), Busy(false)])
    ensures BusyTraced(trace0, trace1 + [Pause(delayStep)] + [Failure], delayStep, n, [Pause(delayStep), Failure])
    ensures BusyTraced(trace0, trace1 + [Pause(delayStep)] + [Busy(true)], delayStep, n + 1, [])
  {
    var turn, turns := [Pause(delayStep), Busy(true)], trace0 + Turns([Pause(delayStep), Busy(true)], n);
    OneMoreTurn(trace0, turn, n);
    hide Turns;
    assert trace1 == turns;
    InARow(turns, Pause(delayStep), Busy(true), Failure);
    InARow(turns, Pause(delayStep), Busy(false), Failure);
    InARow(turns, Pause(delayStep), Failure, Failure);
  }

  /** The delays of a busy wait: only the last may take the total over the timeout, and when delays are
      exact each is about the step. */
  predicate Kept(delayStep: u32, latency: nat, timeout: u32, delays: seq<u32>) {
    && (delays != [] ==> Total(delays[..|delays| - 1]) <= timeout)
    && (DelayIsExact(delayStep, latency) ==>
          && (forall i :: 0 <= i < |delays| ==> delayStep <= delays[i] <= delayStep + latency)
          && |delays| * delayStep <= Total(delays)
          && (delays != [] ==> |delays| * delayStep <= Total(delays[..|delays| - 1]) + delayStep))
  }

  /** Only the last delay took the total over the timeout, if any did, and when delays are exact their
      number and their total are bounded. */
  predicate Within(delayStep: u32, latency: nat, timeout: u32, delays: seq<u32>) {
    && (delays != [] ==> Total(delays[..|delays| - 1]) <= timeout)
    && (DelayIsExact(delayStep, latency) ==>
          && (forall i :: 0 <= i < |delays| ==> delayStep <= delays[i] <= delayStep + latency)
          && Total(delays) <= timeout + delayStep + latency
          && |delays| * delayStep <= timeout + delayStep)
  }

  lemma NothingKept(delayStep: u32, latency: nat, timeout: u32)
    ensures Total([]) == 0 && Kept(delayStep, latency, timeout, [])
  {
  }

  lemma OneMoreDelay(delayStep: u32, latency: nat, timeout: u32, delays: seq<u32>, spent: nat)
    requires Kept(delayStep, latency, timeout, delays) && Total(delays) <= timeout
    requires delayStep <= spent <= delayStep + latency
    ensures Total(delays + [Wrap32(spent)]) == Total(delays) + Wrap32(spent)
    ensures Kept(delayStep, latency, timeout, delays + [Wrap32(spent)])
    ensures DelayIsExact(delayStep, latency) ==> Wrap32(spent) >= 1
  {
    hide Total;
    TotalOneMore(delays, Wrap32(spent));
    OneMore(|delays|, delayStep);
  }

  lemma KeptMeans(delayStep: u32, latency: nat, timeout: u32, delays: seq<u32>)
    requires Kept(delayStep, latency, timeout, delays)
    ensures Within(delayStep, latency, timeout, delays)
  {
  }

  lemma TotalOneMore(delays: seq<u32>, d: u32)
    ensures Total(delays + [d]) == Total(delays) + d
    ensures (delays + [d])[..|delays|] == delays
  {
  }

  function Total(delays: seq<u32>): nat {
    if delays == [] then 0 else Total(delays[..|delays| - 1]) + delays[|delays| - 1]
  }

  /** Delays advance and are reported without wrapping. */
  predicate DelayIsExact(delayStep: u32, latency: nat) {
    1 <= delayStep && delayStep + latency < 0x1_0000_0000
  }

  lemma OneMore(n: nat, d: nat)
    ensures (n + 1) * d == n * d + d
  {
  }
}
