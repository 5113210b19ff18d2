/** The bus master: sends request frames, reassembles replies in place and answers them. */
module Mdb {
  import opened Basics
  import opened Durations
  import opened MdbBlock
  import opened Pigpio
  import opened Polling

  const BUF_SIZE := 80
  const BAUD := 9600
  const DATA_BITS := 9
  const STOP_BITS := 2
  /** A wave is sent once, after the one before it. */
  const ONE_SHOT_SYNC := 2
  const TIMEOUT_SMALL_US: u32 := 10_000
  /** Eleven bits at 9600 baud plus twice the inter-byte timeout. */
  const TIMEOUT_CHAR_US: u32 := 1_000_000 * 11 / 9600 + 2000
  const TIMEOUT_RECEIVE_US: u32 := 40 * TIMEOUT_CHAR_US

  /** Time allowed for sending n characters. */
  function CharsUs(n: nat): (r: nat)
    ensures r == 3145 * n
  {
    TIMEOUT_CHAR_US * n
  }

  /** The amounts that `tx` adds to a tick, in program order. The first stands for two additions
      to the same tick. */
  function DeadlineAmounts(requestLength: nat, timeoutUs: u32): (a: seq<nat>)
    ensures |a| == 3 && a[0] in {3145 * requestLength, timeoutUs as int} && a[0] >= 3145 * requestLength && a[0] >= timeoutUs
    ensures a[1] == 125_800 && a[2] in {10_000, timeoutUs as int} && a[2] <= 10_000 && a[2] <= timeoutUs
  {
    [if timeoutUs < CharsUs(requestLength) then CharsUs(requestLength) else timeoutUs,
     TIMEOUT_RECEIVE_US,
     SmallTimeout(timeoutUs)]
  }

  function SmallTimeout(timeoutUs: u32): u32 {
    if timeoutUs < TIMEOUT_SMALL_US then timeoutUs else TIMEOUT_SMALL_US
  }

  /** Of the deadlines computed so far, at the true times `sites`, the last one is at most `margin`
      below the wrap of the tick counter, or past it. With no margin this is an overflow. */
  ghost predicate Overflows(margin: nat, amounts: seq<nat>, sites: seq<nat>) {
    && 1 <= |sites| <= |amounts|
    && Wrap32(sites[|sites| - 1]) + amounts[|sites| - 1] + margin >= 0x1_0000_0000
  }

  /** The last deadline can be missed: the loop does not advance, or may step over the wrap. Only then is
      there a loop that does not end; `WaitMissedIff` and `SendMissedIff` say when that is enough. */
  ghost predicate CanHang(latency: nat, waitStep: u32, amounts: seq<nat>, sites: seq<nat>) {
    waitStep == 0 || Overflows(LookSpan(latency, waitStep), amounts, sites)
  }

  /** The first deadlines come before the others. */
  lemma FirstDeadlines(latency: nat, waitStep: u32, requestLength: nat, timeoutUs: u32, site: nat, more: seq<nat>)
    requires var amounts := DeadlineAmounts(requestLength, timeoutUs);
             Wrap32(site) + amounts[0] < 0x1_0000_0000
    ensures var amounts, later := DeadlineAmounts(requestLength, timeoutUs), [TIMEOUT_RECEIVE_US, SmallTimeout(timeoutUs)];
            && (Overflows(0, amounts, [site] + more) <==> Overflows(0, later, more))
            && (CanHang(latency, waitStep, later, more) ==> CanHang(latency, waitStep, amounts, [site] + more))
            && (more == [] ==>
                  || CanHang(latency, waitStep, amounts, [site] + more)
                  || (&& !Missable(latency, waitStep, Wrap32(site) + CharsUs(requestLength))
                      && !Missable(latency, waitStep, Wrap32(site) + timeoutUs)))
  {
  }

  /** With the server's 300 ms timeout no deadline of a request that fits a block comes within
      `margin` of the wrap, as long as no tick read is in the last 300 ms plus `margin` before it. */
  lemma DeadlinesFit(margin: nat, requestLength: nat, sites: seq<nat>)
    requires requestLength < BLOCK_MAX_LENGTH
    requires forall i :: 0 <= i < |sites| ==> Wrap32(sites[i]) + 300_000 + margin <= 0xffff_ffff
    ensures !Overflows(margin, DeadlineAmounts(requestLength, 300_000), sites)
  {
  }

  // ---------------------------------------------------------------- deadlines that are missed

  /** A wait for words, whose deadline was computed at `site` and which starts at `from`, can go on for
      ever exactly when `CanHang` says so of its deadline. This takes calls with some latency, and
      waitStep * (waitStep + 1) microseconds left, which for the usual step of 101 is 10.3 ms. */
  lemma WaitMissedIff(latency: nat, waitStep: u32, site: nat, amount: nat, from: nat)
    requires latency >= 1 && Wrap32(site) + amount < 0x1_0000_0000
    requires site <= from && from - site + waitStep * (waitStep + 1) <= amount
    ensures MayLookForEver(latency, waitStep, Wrap32(site) + amount, from, from + 2 * latency) <==>
            CanHang(latency, waitStep, [amount], [site])
  {
    LapOf(site, from);
    MissedIff(latency, waitStep, Wrap32(site) + amount, from, from + 2 * latency);
    hide MayLookForEver, Wrap32;
  }

  /** The same of a send, whose looks count from its own start. */
  lemma SendMissedIff(latency: nat, waitStep: u32, site: nat, allowed: nat)
    requires latency >= 1 && Wrap32(site) + allowed < 0x1_0000_0000
    requires waitStep + waitStep * (waitStep + 1) <= Wrap32(site) + allowed
    ensures MayLookForEver(latency, waitStep, Wrap32(site) + allowed, waitStep, waitStep + 4 * latency) <==>
            CanHang(latency, waitStep, [allowed], [site])
  {
    MissedIff(latency, waitStep, Wrap32(site) + allowed, waitStep, waitStep + 4 * latency);
    hide MayLookForEver, Wrap32;
  }

  /** A failing input of the server: when the tick is 300 ms and 1 us before the wrap, no deadline
      overflows, but no tick is ever over the one for the first word. */
  lemma WaitThatNeverEnds(latency: nat, waitStep: u32, requestLength: nat, site: nat, from: nat)
    requires 1 <= requestLength < BLOCK_MAX_LENGTH && Wrap32(site) == 0xffff_ffff - 300_000
    ensures !Overflows(0, DeadlineAmounts(requestLength, 300_000), [site])
    ensures MayLookForEver(latency, waitStep, Wrap32(site) + 300_000, from, from + 2 * latency)
  {
    LastTickForEver(latency, waitStep, from, from + 2 * latency);
  }

  // ---------------------------------------------------------------- timing

  /** The true time after which a transmission that is stuck is reported. `site` is when its deadline
      was computed, as the tick then plus `allowed`; `start` is when the send loop read its own start
      tick. The loop compares the time since `start` with that absolute tick. */
  function Enforced(site: nat, start: nat, allowed: nat): nat {
    start + Wrap32(site) + allowed
  }

  /** The deadline meant is `allowed` after `site`. The one enforced is later by the whole tick value
      plus the gap between the two clock reads, so the two agree exactly when the tick was zero and
      the reads coincided. */
  lemma SendDeadlineIsAbsolute(site: nat, start: nat, allowed: nat)
    requires site <= start
    ensures Enforced(site, start, allowed) - (site + allowed) == Wrap32(site) + (start - site)
    ensures Enforced(site, start, allowed) == site + allowed <==> Wrap32(site) == 0 && start == site
  {
  }

  /** When a send timed out: its loop started right after the deadline was computed, and it gave up
      after the enforced moment, within a poll of it. */
  ghost predicate SendTimely(latency: nat, waitStep: u32, site: nat, start: nat, allowed: nat, end: nat) {
    && site <= start <= site + latency
    && end > Enforced(site, start, allowed)
    && (waitStep >= 1 && Wrap32(site) + allowed + PollSpan(latency, waitStep) < 0x1_0000_0000 ==>
          end <= Enforced(site, start, allowed) + PollSpan(latency, waitStep))
  }

  /** What is told of one transaction: the words taken from the device, the times of its deadline
      computations, those at which its send loops started, and the times at which sending the request,
      receiving and the whole of it ended. */
  datatype TxLog = TxLog(taken: seq<Word>, sites: seq<nat>, starts: seq<nat>, sentAt: nat, heardAt: nat, end: nat)

  function LogAt(now: nat): TxLog {
    TxLog([], [], [], now, now, now)
  }

  /** When a transaction may time out: receiving, only after the true deadline computed last; sending
      the request or an answer, only after the enforced deadline of that send. */
  ghost predicate Timely(latency: nat, waitStep: u32, requestLength: nat, timeoutUs: u32, r: Outcome<()>, log: TxLog) {
    && (r == Err(RecvTimeout) ==>
          || (|log.sites| == 1 && log.end > log.sites[0] + timeoutUs)
          || (|log.sites| == 2 && log.end > log.sites[1] + TIMEOUT_RECEIVE_US))
    && (r == Err(SendTimeout(RequestWave)) ==>
          && |log.sites| == 1 && |log.starts| == 1
          && SendTimely(latency, waitStep, log.sites[0], log.starts[0], CharsUs(requestLength), log.end))
    && (r == Err(SendTimeout(AckWave)) || r == Err(SendTimeout(NakWave)) ==>
          && |log.sites| == 3 && |log.starts| == 2
          && SendTimely(latency, waitStep, log.sites[2], log.starts[1], SmallTimeout(timeoutUs), log.end))
  }

  // ---------------------------------------------------------------- upper bounds on time

  /** When a send is over at the latest, as long as its deadline is clear of the wrap. */
  ghost predicate SentInTime(latency: nat, waitStep: u32, site: nat, start: nat, allowed: nat, end: nat) {
    && site <= start <= site + latency && start <= end
    && (waitStep >= 1 && Wrap32(site) + allowed + PollSpan(latency, waitStep) < 0x1_0000_0000 ==>
          end <= Enforced(site, start, allowed) + PollSpan(latency, waitStep) + latency)
  }

  /** When a wait that starts at `from` is over at the latest: a poll after the deadline, or at once when
      it has passed. */
  function WaitEnd(latency: nat, waitStep: u32, deadline: u32, from: nat): nat {
    if Wrap32(from) <= deadline then from - Wrap32(from) + deadline + PollSpan(latency, waitStep) else from + 2 * latency
  }

  predicate WaitClear(latency: nat, waitStep: u32, deadline: u32, from: nat) {
    Bounded(latency, waitStep, deadline) && (Wrap32(from) > deadline ==> Wrap32(from) + 2 * latency < 0x1_0000_0000)
  }

  /** A send loop in progress, `elapsed` since its start: no look yet, or right after one. */
  predicate Polled(latency: nat, waitStep: u32, deadline: u32, looks: seq<nat>, elapsed: nat) {
    if looks == [] then elapsed <= latency
    else elapsed == looks[|looks| - 1] && Wrap32(elapsed) <= deadline && (Bounded(latency, waitStep, deadline) ==> elapsed <= deadline)
  }

  lemma NotPolled(latency: nat, waitStep: u32, deadline: u32, elapsed: nat)
    requires elapsed <= latency
    ensures Polled(latency, waitStep, deadline, [], elapsed)
  {
  }

  lemma SendTimes(latency: nat, waitStep: u32, deadline: u32, looks: seq<nat>, before: nat, now: nat)
    requires Polled(latency, waitStep, deadline, looks, before) && before <= now <= before + waitStep + 3 * latency
    ensures Bounded(latency, waitStep, deadline) ==> now <= deadline + PollSpan(latency, waitStep)
  {
    hide Wrap32, Bounded;
  }

  /** The next look of a send loop. */
  lemma SendLook(latency: nat, waitStep: u32, deadline: u32, looks: seq<nat>, before: nat, now: nat)
    requires Polled(latency, waitStep, deadline, looks, before) && before + waitStep <= now <= before + waitStep + 3 * latency
    ensures if looks == [] then waitStep <= now <= waitStep + 4 * latency
            else looks[|looks| - 1] + waitStep <= now <= looks[|looks| - 1] + LookSpan(latency, waitStep)
    ensures looks != [] ==> Wrap32(looks[|looks| - 1]) <= deadline
    ensures Bounded(latency, waitStep, deadline) ==> now <= deadline + PollSpan(latency, waitStep)
    ensures Wrap32(now) > deadline ==> now > deadline
    ensures Wrap32(now) <= deadline ==> Polled(latency, waitStep, deadline, looks + [now], now)
  {
    if Bounded(latency, waitStep, deadline) {
      assert now < 0x1_0000_0000;
    }
  }

  lemma SendMissed(latency: nat, waitStep: u32, site: nat, allowed: nat)
    requires Wrap32(site) + allowed < 0x1_0000_0000
    ensures Missable(latency, waitStep, Wrap32(site) + allowed) ==>
              waitStep == 0 || Wrap32(site) + allowed + LookSpan(latency, waitStep) >= 0x1_0000_0000
  {
  }

  lemma SendEnds(latency: nat, waitStep: u32, site: nat, start: nat, allowed: nat, end: nat)
    requires site <= start <= site + latency && start <= end && Wrap32(site) + allowed < 0x1_0000_0000
    requires var deadline := Wrap32(site) + allowed;
             Bounded(latency, waitStep, deadline) ==> end <= start + deadline + PollSpan(latency, waitStep) + latency
    ensures SentInTime(latency, waitStep, site, start, allowed, end)
    ensures var deadline := Wrap32(site) + allowed;
            && end > start + deadline
            && (Bounded(latency, waitStep, deadline) ==> end <= start + deadline + PollSpan(latency, waitStep)) ==>
              SendTimely(latency, waitStep, site, start, allowed, end)
  {
  }

  /** What a wait from `from` that ended at `now` keeps to: no timeout at or before the true deadline, and
      back within one poll after it. */
  predicate BackInTime(latency: nat, waitStep: u32, deadline: u32, from: nat, now: nat, timedOut: bool) {
    && (Bounded(latency, waitStep, deadline) && Wrap32(from) <= deadline ==>
          var trueDeadline := from - Wrap32(from) + deadline;
          now <= trueDeadline + PollSpan(latency, waitStep) && (timedOut ==> now > trueDeadline))
    && (WaitClear(latency, waitStep, deadline, from) ==> now <= WaitEnd(latency, waitStep, deadline, from))
  }

  /** A wait in progress, before its next read: at its start, or a delay after its last look. */
  predicate Waiting(latency: nat, waitStep: u32, deadline: u32, from: nat, looks: seq<nat>, now: nat) {
    if looks == [] then now == from
    else
      var last := looks[|looks| - 1];
      && from <= last && last + waitStep <= now <= last + waitStep + latency && Wrap32(last) <= deadline
      && (Bounded(latency, waitStep, deadline) && Wrap32(from) <= deadline ==> last - Wrap32(last) == from - Wrap32(from))
      && !(WaitClear(latency, waitStep, deadline, from) && Wrap32(from) > deadline)
  }

  lemma NotWaited(latency: nat, waitStep: u32, deadline: u32, from: nat)
    ensures Waiting(latency, waitStep, deadline, from, [], from)
  {
  }

  /** The times of the next read. */
  lemma WaitTimes(latency: nat, waitStep: u32, deadline: u32, from: nat, looks: seq<nat>, before: nat, now: nat)
    requires Waiting(latency, waitStep, deadline, from, looks, before) && before <= now <= before + 2 * latency
    ensures BackInTime(latency, waitStep, deadline, from, now, Wrap32(now) > deadline)
    ensures BackInTime(latency, waitStep, deadline, from, now, false)
    ensures if looks == [] then from <= now <= from + 2 * latency
            else looks[|looks| - 1] + waitStep <= now <= looks[|looks| - 1] + LookSpan(latency, waitStep)
    ensures Wrap32(now) <= deadline ==> LooksOn(latency, waitStep, deadline, from, now)
    ensures looks != [] ==> Wrap32(looks[|looks| - 1]) <= deadline
  {
    var checked := if looks == [] then from else looks[|looks| - 1];
    Reached(checked, now, deadline, latency, waitStep);
    hide Wrap32;
  }

  /** A look that did not find the deadline passed. */
  predicate LooksOn(latency: nat, waitStep: u32, deadline: u32, from: nat, look: nat) {
    && from <= look && Wrap32(look) <= deadline
    && (Bounded(latency, waitStep, deadline) && Wrap32(from) <= deadline ==> look - Wrap32(look) == from - Wrap32(from))
    && !(WaitClear(latency, waitStep, deadline, from) && Wrap32(from) > deadline)
  }

  lemma StillWaiting(latency: nat, waitStep: u32, deadline: u32, from: nat, looks: seq<nat>, look: nat, now: nat)
    requires LooksOn(latency, waitStep, deadline, from, look) && looks != [] && looks[|looks| - 1] == look
    requires look + waitStep <= now <= look + waitStep + latency
    ensures Waiting(latency, waitStep, deadline, from, looks, now)
  {
  }

  /** Within a poll that stays in its lap the tick advances with the true time. */
  lemma Reached(checked: nat, now: nat, deadline: u32, latency: nat, waitStep: u32)
    requires checked <= now
    ensures now <= checked + PollSpan(latency, waitStep) && Bounded(latency, waitStep, deadline) && Wrap32(checked) <= deadline ==>
              Wrap32(now) == Wrap32(checked) + (now - checked) && now - Wrap32(now) == checked - Wrap32(checked)
    ensures Wrap32(checked) + (now - checked) < 0x1_0000_0000 ==> Wrap32(now) == Wrap32(checked) + (now - checked)
  {
  }

  /** When a reply of n words, the first of which came before `site`, is over at the latest: every read
      after the deadline either ends it or takes a word. */
  function ReplyEnd(latency: nat, waitStep: u32, site: nat, n: nat): nat {
    site + TIMEOUT_RECEIVE_US + PollSpan(latency, waitStep) + 2 * latency * n
  }

  predicate ReplyClear(latency: nat, waitStep: u32, site: nat, n: nat) {
    waitStep >= 1 && Wrap32(site) + TIMEOUT_RECEIVE_US + PollSpan(latency, waitStep) + 2 * latency * n < 0x1_0000_0000
  }

  /** The times of a reception from `from` to `end`, which took n words. */
  ghost predicate HeardInTime(latency: nat, waitStep: u32, deadline: u32, from: nat, sites: seq<nat>, n: nat, end: nat) {
    && |sites| <= 1 && from <= end
    && (WaitClear(latency, waitStep, deadline, from) ==>
          (if sites == [] then end else sites[0]) <= WaitEnd(latency, waitStep, deadline, from) + latency)
    && (sites != [] && ReplyClear(latency, waitStep, sites[0], n) ==> end <= ReplyEnd(latency, waitStep, sites[0], n))
  }

  /** The times of a verdict from `from` to `end`, with the answer if there is one. */
  ghost predicate AnsweredInTime(latency: nat, waitStep: u32, allowed: nat, from: nat, sites: seq<nat>, starts: seq<nat>, end: nat) {
    && |starts| <= |sites| <= 1 && from <= end
    && (sites == [] ==> end == from)
    && (sites != [] ==> from <= sites[0] <= from + latency)
    && (sites != [] && starts == [] ==> end == sites[0])
    && (starts != [] ==> SentInTime(latency, waitStep, sites[0], starts[0], allowed, end))
  }

  /** The times of a transaction whose request was sent. */
  ghost predicate InTime(latency: nat, waitStep: u32, requestLength: nat, timeoutUs: u32, log: TxLog) {
    && log.sites != [] && log.starts != []
    && SentInTime(latency, waitStep, log.sites[0], log.starts[0], CharsUs(requestLength), log.sentAt)
    && (Wrap32(log.sites[0]) + timeoutUs < 0x1_0000_0000 ==>
          HeardInTime(latency, waitStep, Wrap32(log.sites[0]) + timeoutUs, log.sentAt,
                      if |log.sites| >= 2 then [log.sites[1]] else [], |log.taken|, log.heardAt))
    && AnsweredInTime(latency, waitStep, SmallTimeout(timeoutUs), log.heardAt,
                      if |log.sites| >= 2 then log.sites[2..] else [], log.starts[1..], log.end)
  }

  lemma NotHeard(latency: nat, waitStep: u32, deadline: u32, now: nat)
    ensures HeardInTime(latency, waitStep, deadline, now, [], 0, now)
  {
  }

  /** No verdict, and no time spent on one. */
  lemma SilentInTime(latency: nat, waitStep: u32, allowed: nat, now: nat)
    ensures AnsweredInTime(latency, waitStep, allowed, now, [], [], now)
  {
  }

  lemma OverflowInTime(latency: nat, waitStep: u32, allowed: nat, from: nat, now: nat)
    requires from <= now <= from + latency
    ensures AnsweredInTime(latency, waitStep, allowed, from, [now], [], now)
  {
  }

  lemma AnswerInTime(latency: nat, waitStep: u32, allowed: nat, from: nat, site: nat, start: nat, end: nat)
    requires from <= site <= from + latency && site <= end && SentInTime(latency, waitStep, site, start, allowed, end)
    ensures AnsweredInTime(latency, waitStep, allowed, from, [site], [start], end)
  {
  }

  lemma PhasesInTime(latency: nat, waitStep: u32, requestLength: nat, timeoutUs: u32, log: TxLog,
                     heard: seq<nat>, answered: seq<nat>, starts: seq<nat>)
    requires |heard| <= 1 && (heard == [] ==> answered == []) && log.sites != [] && log.starts != []
    requires log.sites[1..] == heard + answered && log.starts[1..] == starts
    requires Wrap32(log.sites[0]) + timeoutUs < 0x1_0000_0000
    requires SentInTime(latency, waitStep, log.sites[0], log.starts[0], CharsUs(requestLength), log.sentAt)
    requires HeardInTime(latency, waitStep, Wrap32(log.sites[0]) + timeoutUs, log.sentAt, heard, |log.taken|, log.heardAt)
    requires AnsweredInTime(latency, waitStep, SmallTimeout(timeoutUs), log.heardAt, answered, starts, log.end)
    ensures InTime(latency, waitStep, requestLength, timeoutUs, log)
  {
    hide SentInTime, HeardInTime, AnsweredInTime;
    if heard == [] {
      assert log.sites[1..] == [];
    } else {
      assert log.sites[1] == log.sites[1..][0] == heard[0];
      assert log.sites[2..] == log.sites[1..][1..] == answered;
      assert [log.sites[1]] == heard;
    }
  }

  /** All deadlines of a transaction are clear of the wrap, and the first by enough for a late send. */
  predicate AllClear(latency: nat, waitStep: u32, requestLength: nat, timeoutUs: u32, log: TxLog) {
    && waitStep >= 1 && log.sites != []
    && 2 * Wrap32(log.sites[0]) + CharsUs(requestLength) + timeoutUs + 2 * PollSpan(latency, waitStep) + latency < 0x1_0000_0000
    && (|log.sites| >= 2 ==> ReplyClear(latency, waitStep, log.sites[1], |log.taken|))
    && (|log.sites| >= 3 ==> Wrap32(log.sites[2]) + SmallTimeout(timeoutUs) + PollSpan(latency, waitStep) < 0x1_0000_0000)
  }

  /** A bound on a whole transaction: the allowed times, the ticks by which the send loops are late, and
      the latency of the calls, two for every word taken. */
  lemma TransactionEnds(latency: nat, waitStep: u32, requestLength: nat, timeoutUs: u32, log: TxLog)
    requires InTime(latency, waitStep, requestLength, timeoutUs, log)
    requires AllClear(latency, waitStep, requestLength, timeoutUs, log)
    ensures log.end <= log.sites[0] + Wrap32(log.sites[0]) + CharsUs(requestLength) + timeoutUs + TIMEOUT_RECEIVE_US
                       + 3 * PollSpan(latency, waitStep) + latency + 2 * latency * |log.taken|
                       + if |log.sites| >= 3 then Wrap32(log.sites[2]) + SmallTimeout(timeoutUs) + PollSpan(latency, waitStep) + 3 * latency else 0
  {
    hide Wrap32, HeardInTime;
    FirstWordEnds(latency, waitStep, requestLength, timeoutUs, log);
    if |log.sites| >= 2 {
      ReplyHeard(latency, waitStep, requestLength, timeoutUs, log);
    }
  }

  lemma ReplyHeard(latency: nat, waitStep: u32, requestLength: nat, timeoutUs: u32, log: TxLog)
    requires InTime(latency, waitStep, requestLength, timeoutUs, log) && |log.sites| >= 2
    requires AllClear(latency, waitStep, requestLength, timeoutUs, log)
    ensures log.heardAt <= ReplyEnd(latency, waitStep, log.sites[1], |log.taken|)
  {
    hide Wrap32, ReplyEnd, ReplyClear, AnsweredInTime, SentInTime, WaitClear, WaitEnd;
  }

  /** The first word, or the end of waiting for it. */
  lemma FirstWordEnds(latency: nat, waitStep: u32, requestLength: nat, timeoutUs: u32, log: TxLog)
    requires InTime(latency, waitStep, requestLength, timeoutUs, log)
    requires AllClear(latency, waitStep, requestLength, timeoutUs, log)
    ensures (if |log.sites| >= 2 then log.sites[1] else log.heardAt) <=
            log.sites[0] + Wrap32(log.sites[0]) + CharsUs(requestLength) + timeoutUs + 2 * PollSpan(latency, waitStep) + latency
  {
    hide ReplyClear, AnsweredInTime, Wrap32;
    var site, from, deadline := log.sites[0], log.sentAt, Wrap32(log.sites[0]) + timeoutUs;
    LapOf(site, from);
    assert WaitClear(latency, waitStep, deadline, from);
    assert WaitEnd(latency, waitStep, deadline, from) + latency <=
           site + Wrap32(site) + CharsUs(requestLength) + timeoutUs + 2 * PollSpan(latency, waitStep) + latency;
  }

  lemma LapOf(site: nat, now: nat)
    requires site <= now && Wrap32(site) + (now - site) < 0x1_0000_0000
    ensures now - Wrap32(now) == site - Wrap32(site)
  {
  }

  lemma OnTime(latency: nat, waitStep: u32, site: nat, n: nat)
    ensures site <= ReplyEnd(latency, waitStep, site, n)
  {
  }

  lemma StaysOnTime(latency: nat, waitStep: u32, site: nat, m: nat, n: nat, now: nat)
    requires m <= n
    requires ReplyClear(latency, waitStep, site, m) ==> now <= ReplyEnd(latency, waitStep, site, m)
    ensures ReplyClear(latency, waitStep, site, n) ==> now <= ReplyEnd(latency, waitStep, site, n)
  {
    Multiples(m, n, 2 * latency);
  }

  /** A wait in the course of a reply takes no longer than the word before it allows for. */
  lemma NextOnTime(latency: nat, waitStep: u32, site: nat, deadline: u32, m: nat, n: nat, from: nat, end: nat)
    requires m < n && site <= from && deadline == Wrap32(site) + TIMEOUT_RECEIVE_US
    requires ReplyClear(latency, waitStep, site, m) ==> from <= ReplyEnd(latency, waitStep, site, m)
    requires WaitClear(latency, waitStep, deadline, from) ==> end <= WaitEnd(latency, waitStep, deadline, from)
    ensures ReplyClear(latency, waitStep, site, n) ==> end <= ReplyEnd(latency, waitStep, site, n)
  {
    if ReplyClear(latency, waitStep, site, n) {
      MoreSlack(latency, m, n);
      var slack := 2 * latency * m;
      assert ReplyClear(latency, waitStep, site, m);
      LapOf(site, from);
      LateWaitEnds(latency, waitStep, site, deadline, slack, from, end);
    }
  }

  lemma MoreSlack(latency: nat, m: nat, n: nat)
    requires m < n
    ensures 0 <= 2 * latency * m && 2 * latency * m + 2 * latency <= 2 * latency * n
  {
    Multiples(m, m + 1, 2 * latency);
    Multiples(m + 1, n, 2 * latency);
  }

  lemma LateWaitEnds(latency: nat, waitStep: u32, site: nat, deadline: u32, slack: nat, from: nat, end: nat)
    requires site <= from <= site + TIMEOUT_RECEIVE_US + PollSpan(latency, waitStep) + slack
    requires from - Wrap32(from) == site - Wrap32(site) && deadline == Wrap32(site) + TIMEOUT_RECEIVE_US && waitStep >= 1
    requires Wrap32(site) + TIMEOUT_RECEIVE_US + PollSpan(latency, waitStep) + slack + 2 * latency < 0x1_0000_0000
    requires WaitClear(latency, waitStep, deadline, from) ==> end <= WaitEnd(latency, waitStep, deadline, from)
    ensures end <= site + TIMEOUT_RECEIVE_US + PollSpan(latency, waitStep) + slack + 2 * latency
  {
    hide Wrap32;
  }

  /** A tick over a deadline that did not overflow means that the true deadline has passed. */
  lemma TrueDeadline(site: nat, amount: nat, now: nat)
    requires site <= now && Wrap32(site) + amount < 0x1_0000_0000
    requires Wrap32(now) > Wrap32(site) + amount
    ensures now > site + amount
  {
    if now - site + Wrap32(site) < 0x1_0000_0000 {
      assert Wrap32(now) == Wrap32(site) + (now - site);
    }
  }

  /** The deadline meant for the send that timed out: when it was computed, and the time allowed. */
  function Meant(requestLength: nat, timeoutUs: u32, wave: WaveRole, log: TxLog): (nat, nat)
    requires |log.sites| == if wave == RequestWave then 1 else 3
  {
    if wave == RequestWave then (log.sites[0], CharsUs(requestLength)) else (log.sites[2], SmallTimeout(timeoutUs))
  }

  /** A transaction that reports a stuck send has let it be so for longer than was meant, by more than
      the tick value when the deadline was computed, and by no more than another poll as long as that
      does not come near the wrap. */
  lemma SendTimeoutIsLate(latency: nat, waitStep: u32, requestLength: nat, timeoutUs: u32, wave: WaveRole, log: TxLog)
    requires Timely(latency, waitStep, requestLength, timeoutUs, Err(SendTimeout(wave)), log)
    ensures |log.sites| == if wave == RequestWave then 1 else 3
    ensures var (site, allowed) := Meant(requestLength, timeoutUs, wave, log);
            var start := log.starts[|log.starts| - 1];
            && site <= start <= site + latency
            && log.end > site + allowed + Wrap32(site) + (start - site)
            && (waitStep >= 1 && Wrap32(site) + allowed + PollSpan(latency, waitStep) < 0x1_0000_0000 ==>
                  log.end <= site + allowed + Wrap32(site) + (start - site) + PollSpan(latency, waitStep))
  {
  }

  /** At most three moments, in order, between two others. */
  ghost predicate Times(from: nat, sites: seq<nat>, to: nat) {
    && from <= to && |sites| <= 3
    && (|sites| >= 1 ==> from <= sites[0] <= to)
    && (|sites| >= 2 ==> sites[0] <= sites[1] <= to)
    && (|sites| == 3 ==> sites[1] <= sites[2] <= to)
  }

  /** What one transaction may do: `words` is what the device would still deliver, `taken` the
      words it delivered, `sent` the waves attempted, `frame` the request frame. */
  ghost predicate Transaction(frame: seq<byte>, response0: seq<byte>, words: seq<Word>, taken: seq<Word>,
                              sent: seq<seq<byte>>, r: Outcome<()>, response: seq<byte>)
  {
    && taken <= words
    && match OnePass(response0, taken)
       case Collecting(got) =>
         && response == got
         && (sent == [] || sent == [frame])
         && (taken != [] || r == Err(RecvTimeout) ==> sent == [frame])
         && (r.Panic? || r.Unending? || IsFault(r) || r == Err(Overflow) || r == Err(RecvTimeout) || r == Err(SendTimeout(RequestWave)))
       case Received(got, end) =>
         && response == got
         && |response0| + |taken| - |got| <= BLOCK_MAX_LENGTH
         && (|| (r == Judge(got, end) && sent == [frame] + Answer(got, end))
             || (got != [] && r.Panic? && sent == [frame])
             || (got != [] && (r.Unending? || IsFault(r) || r == Err(SendTimeout(AnswerRole(got, end))))
                 && sent == [frame] + Answer(got, end)))
  }

  function AnswerRole(response: seq<byte>, end: byte): WaveRole {
    if end == Checksum(response) then AckWave else NakWave
  }

  /** Bus-trace safety. */
  lemma BusTraceSafety(frame: seq<byte>, words: seq<Word>, taken: seq<Word>, sent: seq<seq<byte>>,
                       r: Outcome<()>, response: seq<byte>)
    requires Transaction(frame, [], words, taken, sent, r, response)
    ensures sent in {[], [frame], [frame, [0x00, 0]], [frame, [0xff, 0]]}
    ensures r.Ok? && response != [] ==> sent == [frame, [0x00, 0]]
    ensures r.Ok? && response == [] ==> sent == [frame] && OnePass([], words) == Received([], 0x00)
    ensures r.Err? && r.error.MdbChecksum? ==> sent == [frame, [0xff, 0]]
    ensures r.Err? && (r.error.MdbNak? || r.error.MdbInvalidResponse?) ==> sent == [frame] && response == []
    ensures r == Err(SendTimeout(AckWave)) ==> sent == [frame, [0x00, 0]]
    ensures r == Err(SendTimeout(NakWave)) ==> sent == [frame, [0xff, 0]]
    ensures r == Err(SendTimeout(RequestWave)) || r == Err(RecvTimeout) ==> sent == [frame] || sent == []
    ensures |response| <= |taken|
  {
    hide OnePass, Checksum, IsVerdict;
    ResponseWasTaken(frame, words, taken, sent, r, response);
    assert [frame] + [] == [frame];
    assert [frame] + [[RESPONSE_ACK, 0]] == [frame, [RESPONSE_ACK, 0]];
    assert [frame] + [[RESPONSE_NAK, 0]] == [frame, [RESPONSE_NAK, 0]];
    if r.Ok? && response == [] {
      VerdictOfStream(frame, [], words, taken, sent, r, response);
      assert IsVerdict(r) by { OkIsVerdict(r); }
    }
  }

  lemma OkIsVerdict(r: Outcome<()>)
    requires r.Ok?
    ensures IsVerdict(r)
  {
  }

  lemma ResponseWasTaken(frame: seq<byte>, words: seq<Word>, taken: seq<Word>, sent: seq<seq<byte>>,
                         r: Outcome<()>, response: seq<byte>)
    requires Transaction(frame, [], words, taken, sent, r, response)
    ensures |response| <= |taken|
  {
    hide Judge, Answer, Checksum;
  }

  /** The result of a transaction that is decided by the device depends on the word stream alone,
      whatever the portions it was read in: it is the verdict on one pass over the stream. */
  lemma VerdictOfStream(frame: seq<byte>, response0: seq<byte>, words: seq<Word>, taken: seq<Word>,
                        sent: seq<seq<byte>>, r: Outcome<()>, response: seq<byte>)
    requires Transaction(frame, response0, words, taken, sent, r, response)
    ensures IsVerdict(r) ==>
              && OnePass(response0, words).Received?
              && response == OnePass(response0, words).response
              && r == Judge(response, OnePass(response0, words).end)
              && sent == [frame] + Answer(response, OnePass(response0, words).end)
  {
  }

  /** An intact block is either delivered and acknowledged, or the machinery failed. */
  lemma IntactReplyDelivered(frame: seq<byte>, d: seq<byte>, rest: seq<Word>, taken: seq<Word>,
                             sent: seq<seq<byte>>, r: Outcome<()>, response: seq<byte>)
    requires d != []
    requires Transaction(frame, [], Block(d) + rest, taken, sent, r, response)
    ensures IsVerdict(r) ==> r == Ok(()) && response == d && sent == [frame, [0x00, 0]]
  {
    hide Transaction, Checksum;
    VerdictOfStream(frame, [], Block(d) + rest, taken, sent, r, response);
    IntactReplyAnswer(d);
    assert [frame] + [[RESPONSE_ACK, 0]] == [frame, [RESPONSE_ACK, 0]];
    BlockIsReceived(d, rest);
  }

  /** A block with exactly one word changed is never delivered: either it is refused with a NAK, or
      the machinery failed. */
  lemma CorruptReplyReported(frame: seq<byte>, d: seq<byte>, i: nat, x: byte, rest: seq<Word>, taken: seq<Word>,
                             sent: seq<seq<byte>>, r: Outcome<()>, response: seq<byte>)
    requires d != [] && i <= |d| && x != Block(d)[i].data
    requires Transaction(frame, [], Block(d)[i := Block(d)[i].(data := x)] + rest, taken, sent, r, response)
    ensures IsVerdict(r) ==> r.Err? && r.error.MdbChecksum? && sent == [frame, [0xff, 0]]
  {
    hide Transaction, Checksum, OnePass;
    var words := Block(d)[i := Block(d)[i].(data := x)] + rest;
    VerdictOfStream(frame, [], words, taken, sent, r, response);
    assert Concat([words]) == words + Concat([]) == words;
    CorruptReplyRefused(d, i, x, rest, [words]);
    ChunkIndependence([], [words]);
    assert [frame] + [[RESPONSE_NAK, 0]] == [frame, [RESPONSE_NAK, 0]];
  }

  /** A bare control word: 0x00 is success, 0xff a refusal, anything else an invalid response. There is
      no data, and nothing is sent back. */
  lemma BareWordVerdict(frame: seq<byte>, b: byte, rest: seq<Word>, taken: seq<Word>,
                        sent: seq<seq<byte>>, r: Outcome<()>, response: seq<byte>)
    requires Transaction(frame, [], [Word(b, true)] + rest, taken, sent, r, response) && IsVerdict(r)
    ensures r == Ok(()) <==> b == 0x00
    ensures r == Err(MdbNak) <==> b == 0xff
    ensures r == Err(MdbInvalidResponse(b)) <==> b != 0x00 && b != 0xff
    ensures response == [] && sent == [frame]
  {
    hide Transaction, OnePass;
    VerdictOfStream(frame, [], [Word(b, true)] + rest, taken, sent, r, response);
    BareWordReceived(b, rest);
    assert [frame] + [] == [frame];
  }

  lemma BareWordReceived(b: byte, rest: seq<Word>)
    ensures OnePass([], [Word(b, true)] + rest) == Received([], b)
  {
    assert FirstMark([Word(b, true)] + rest) == 0;
  }

  predicate MachineryFailed(r: Outcome<()>) {
    r.Panic? || r.Unending? || IsFault(r) || r == Err(Overflow) || (r.Err? && r.error.SendTimeout?)
  }

  /** A device that is heard is judged, unless the machinery failed. */
  lemma HeardIsJudged(frame: seq<byte>, words: seq<Word>, taken: seq<Word>, sent: seq<seq<byte>>,
                      r: Outcome<()>, response: seq<byte>)
    requires Transaction(frame, [], words, taken, sent, r, response) && r != Err(RecvTimeout)
    ensures IsVerdict(r) || MachineryFailed(r)
  {
  }

  /** How many received bytes an error spells out. */
  function Detail(e: MdbError): nat {
    if e.MdbChecksum? then |e.response| else 0
  }

  lemma DetailWasDelivered(frame: seq<byte>, words: seq<Word>, taken: seq<Word>, sent: seq<seq<byte>>,
                           r: Outcome<()>, response: seq<byte>)
    requires Transaction(frame, [], words, taken, sent, r, response)
    ensures r.Err? ==> Detail(r.error) <= |taken|
  {
  }

  /** A successful transaction uses up its reply, with the word that ends it, and no more than the rest
      of a read beyond. */
  lemma ReplyIsUsedUp(frame: seq<byte>, words: seq<Word>, taken: seq<Word>, sent: seq<seq<byte>>,
                      r: Outcome<()>, response: seq<byte>)
    requires Transaction(frame, [], words, taken, sent, r, response) && r.Ok?
    ensures |response| + 1 <= |taken| <= |response| + BLOCK_MAX_LENGTH
  {
    hide Judge, Answer;
  }

  lemma IntactReplyAnswer(d: seq<byte>)
    requires d != []
    ensures Judge(d, Checksum(d)) == Ok(()) && Answer(d, Checksum(d)) == [[RESPONSE_ACK, 0]]
  {
  }

  /** The waves of one transaction: none, or the request with its checksum and at most one answer. The
      frame is marked on its first word, and there only iff the reads before left the later words clean,
      which reads of at most one word into even odd cells do. */
  ghost predicate RequestSent(initial: seq<byte>, history: seq<seq<Word>>, burst: nat, request: seq<byte>, sent: seq<seq<byte>>)
    requires |initial| == BUF_SIZE && |request| < BLOCK_MAX_LENGTH
  {
    && |sent| <= 2 && (|sent| == 2 ==> sent[1] == [0x00, 0] || sent[1] == [0xff, 0])
    && (sent != [] ==> FrameTold(initial, history, burst, request, sent[0]))
  }

  ghost predicate FrameTold(initial: seq<byte>, history: seq<seq<Word>>, burst: nat, request: seq<byte>, frame: seq<byte>)
    requires |initial| == BUF_SIZE && |request| < BLOCK_MAX_LENGTH
  {
    var ws := Words(frame);
    && |ws| == |request| + 1 && Data(ws) == request + [Checksum(request)] && ws[0].mark
    && (Unmarked(ws, 1, |ws|) <==> forall k :: 1 <= k <= |request| ==> LeftClean(initial, history, k))
    && (burst <= 1 && CleanStart(initial) ==> Unmarked(ws, 1, |ws|))
  }

  ghost predicate CleanStart(initial: seq<byte>) {
    forall k :: 1 <= k && 2 * k + 1 < |initial| ==> FlagByte(initial, k) % 2 == 0
  }

  // ---------------------------------------------------------------- calls of the library

  /** Creating a wave: 9600 baud, nine data bits, two stop bits. */
  function WaveCalls(pin: int, bytes: seq<byte>, id: nat): seq<Event> {
    [AddNew, AddSerial(pin, 9600, 9, 2, 0, bytes), Create(id)]
  }

  function OpenCalls(rxPin: int, txPin: int, waveAck: nat, waveNak: nat): seq<Event> {
    SetupCalls(rxPin, txPin) + WaveCalls(txPin, [0x00, 0], waveAck) + WaveCalls(txPin, [0xff, 0], waveNak)
  }

  function SetupCalls(rxPin: int, txPin: int): seq<Event> {
    [SetMode(rxPin, false), SetMode(txPin, true), OpenReader(rxPin, 9600, 9), StopTx]
  }

  /** Dropping a driver comes next: closing it, as far as that works, and deleting its waves. */
  predicate Drops(trace0: seq<Event>, trace1: seq<Event>, rxPin: int, waveAck: nat, waveNak: nat) {
    || trace0 + [StopTx, CloseReader(rxPin), Delete(waveAck), Delete(waveNak)] <= trace1
    || trace0 + [StopTx, Failure, Delete(waveAck), Delete(waveNak)] <= trace1
    || trace0 + [Failure, Delete(waveAck), Delete(waveNak)] <= trace1
  }

  /** One turn of a send loop that finds the wave still going out. */
  function SendTurn(waitStep: u32): seq<Event> {
    [Pause(waitStep), Busy(true), Look]
  }

  /** The calls of a send: the start tick, the wave, busy turns, and an end: idle and stopped, or some
      call that failed, or nothing more when it timed out. */
  function SendCalls(w: nat, waitStep: u32, turns: nat, end: seq<Event>): seq<Event> {
    [Look, Send(w, 2)] + Turns(SendTurn(waitStep), turns) + end
  }

  predicate Sends(trace0: seq<Event>, trace1: seq<Event>, w: nat, waitStep: u32, turns: nat, r: Outcome<()>) {
    match r
    case Ok(_) => trace1 == trace0 + SendCalls(w, waitStep, turns, [Pause(waitStep), Busy(false), StopTx])
    case Err(GpioError(_)) =>
      || (turns == 0 && trace1 == trace0 + [Look, Failure])
      || trace1 == trace0 + SendCalls(w, waitStep, turns, [Pause(waitStep), Failure])
      || trace1 == trace0 + SendCalls(w, waitStep, turns, [Pause(waitStep), Busy(false), Failure])
    case _ => trace1 == trace0 + SendCalls(w, waitStep, turns, [])
  }

  /** A send loop has made n busy turns. */
  predicate Sending(trace0: seq<Event>, trace1: seq<Event>, w: nat, waitStep: u32, turns: nat) {
    trace1 == trace0 + SendCalls(w, waitStep, turns, [])
  }

  lemma StartsSending(trace0: seq<Event>, trace1: seq<Event>, w: nat, waitStep: u32, rc: i32)
    requires trace1 == trace0 + [Look] + [Recorded(rc, Send(w, 2))]
    ensures if rc < 0 then Sends(trace0, trace1, w, waitStep, 0, Err(GpioError(rc))) else Sending(trace0, trace1, w, waitStep, 0)
  {
    InARow(trace0, Look, Recorded(rc, Send(w, 2)), Failure);
    assert [Look, Send(w, 2)] + [] + [] == [Look, Send(w, 2)];
  }

  lemma KeepsSending(trace0: seq<Event>, trace1: seq<Event>, w: nat, waitStep: u32, turns: nat)
    requires Sending(trace0, trace1, w, waitStep, turns)
    ensures Sending(trace0, trace1 + SendTurn(waitStep), w, waitStep, turns + 1)
  {
    hide SendTurn, Turns;
    OneMoreTurn([Look, Send(w, 2)], SendTurn(waitStep), turns);
    var calls, more := SendCalls(w, waitStep, turns, []), SendCalls(w, waitStep, turns + 1, []);
    assert calls + SendTurn(waitStep) == more;
    Associative(trace0, calls, SendTurn(waitStep));
  }

  lemma SendingMeans(trace0: seq<Event>, trace1: seq<Event>, trace2: seq<Event>, w: nat, waitStep: u32, turns: nat, r: Outcome<()>)
    requires Sending(trace0, trace1, w, waitStep, turns)
    requires match r
             case Ok(_) => trace2 == trace1 + [Pause(waitStep), Busy(false), StopTx]
             case Err(GpioError(_)) => trace2 == trace1 + [Pause(waitStep), Failure] || trace2 == trace1 + [Pause(waitStep), Busy(false), Failure]
             case _ => trace2 == trace1
    ensures Sends(trace0, trace2, w, waitStep, turns, r)
  {
    hide Turns;
    if trace2 != trace1 {
      var end := trace2[|trace1|..];
      assert SendCalls(w, waitStep, turns, []) + end == SendCalls(w, waitStep, turns, end);
      Associative(trace0, SendCalls(w, waitStep, turns, []), end);
    }
  }

  /** A busy turn, or a failed poll. */
  lemma TurnMade(trace0: seq<Event>, trace1: seq<Event>, trace2: seq<Event>, w: nat, waitStep: u32, turns: nat, idle: Outcome<bool>)
    requires Sending(trace0, trace1, w, waitStep, turns) && !(idle.Ok? && idle.value) && (idle.Ok? || idle.Err?)
    requires trace2 == trace1 + if IsFault(idle) then [Pause(waitStep), Failure] else SendTurn(waitStep)
    ensures if IsFault(idle) then Sends(trace0, trace2, w, waitStep, turns, Err(idle.error)) else Sending(trace0, trace2, w, waitStep, turns + 1)
    ensures idle.Err? && !IsFault(idle) ==> Sends(trace0, trace2, w, waitStep, turns + 1, Err(idle.error))
  {
    hide Sending, Sends, SendTurn;
    if IsFault(idle) {
      SendingMeans(trace0, trace1, trace2, w, waitStep, turns, Err(idle.error));
    } else {
      KeepsSending(trace0, trace1, w, waitStep, turns);
      if idle.Err? {
        SendingMeans(trace0, trace2, trace2, w, waitStep, turns + 1, Err(idle.error));
      }
    }
  }

  /** An idle poll, and the stop. */
  lemma StopsSending(trace0: seq<Event>, trace1: seq<Event>, w: nat, waitStep: u32, turns: nat, rc: i32)
    requires Sending(trace0, trace1, w, waitStep, turns)
    ensures Sends(trace0, trace1 + [Pause(waitStep), Busy(false)] + [Recorded(rc, StopTx)], w, waitStep, turns,
                  if rc < 0 then Err(GpioError(rc)) else Ok(()))
  {
    hide Sending, Sends;
    var end := [Pause(waitStep), Busy(false), Recorded(rc, StopTx)];
    assert trace1 + [Pause(waitStep), Busy(false)] + [Recorded(rc, StopTx)] == trace1 + end;
    SendingMeans(trace0, trace1, trace1 + end, w, waitStep, turns, if rc < 0 then Err(GpioError(rc)) else Ok(()));
  }

  ghost predicate SendsFor(trace0: seq<Event>, trace1: seq<Event>, w: nat, waitStep: u32, r: Outcome<()>) {
    exists turns :: Sends(trace0, trace1, w, waitStep, turns, r)
  }

  /** One turn of a wait: a read that brings nothing, a look at the clock, a delay. */
  function WaitTurn(rxPin: int, waitStep: u32): seq<Event> {
    [Read(rxPin, 0), Look, Pause(waitStep)]
  }

  /** The calls of a wait that looked at the clock n times: one empty read before every look. It ends
      with a read of some words, or the last look found the deadline passed. */
  predicate Waits(trace0: seq<Event>, trace1: seq<Event>, rxPin: int, waitStep: u32, n: nat, r: Outcome<nat>, words: nat) {
    match r
    case Ok(_) => words >= 1 && trace1 == trace0 + Turns(WaitTurn(rxPin, waitStep), n) + [Read(rxPin, words)]
    case Err(RecvTimeout) => n >= 1 && trace1 == trace0 + Turns(WaitTurn(rxPin, waitStep), n - 1) + [Read(rxPin, 0), Look]
    case Err(_) => trace1 == trace0 + Turns(WaitTurn(rxPin, waitStep), n) + [Failure]
    case _ => n >= 1 && trace1 == trace0 + Turns(WaitTurn(rxPin, waitStep), n)
  }

  /** A call that a transaction may make: it reads from the one pin, sends over the other, and delays by
      the wait step. */
  predicate Fitting(e: Event, rxPin: int, txPin: int, waitStep: u32) {
    match e
    case Read(pin, _) => pin == rxPin
    case AddSerial(pin, baud, dataBits, stopBits, offset, _) => pin == txPin && baud == 9600 && dataBits == 9 && stopBits == 2 && offset == 0
    case Pause(us) => us == waitStep
    case SetMode(_, _) => false
    case OpenReader(_, _, _) => false
    case CloseReader(_) => false
    case Level(_, _) => false
    case _ => true
  }

  predicate AllFitting(calls: seq<Event>, rxPin: int, txPin: int, waitStep: u32) {
    forall i :: 0 <= i < |calls| ==> Fitting(calls[i], rxPin, txPin, waitStep)
  }

  /** The calls since are fitting, and a timeout comes right after an empty read and a look at the clock. */
  ghost predicate Heard(trace0: seq<Event>, trace1: seq<Event>, rxPin: int, txPin: int, waitStep: u32, timedOut: bool) {
    && trace0 <= trace1 && AllFitting(trace1[|trace0|..], rxPin, txPin, waitStep)
    && (timedOut ==> Silent(trace0, trace1, rxPin))
  }

  predicate Silent(trace0: seq<Event>, trace1: seq<Event>, rxPin: int) {
    |trace1| >= |trace0| + 2 && trace1[|trace1| - 2..] == [Read(rxPin, 0), Look]
  }

  lemma NothingMade(trace: seq<Event>, rxPin: int, txPin: int, waitStep: u32)
    ensures Heard(trace, trace, rxPin, txPin, waitStep, false)
  {
  }

  lemma OneMade(trace: seq<Event>, e: Event, rxPin: int, txPin: int, waitStep: u32)
    requires Fitting(e, rxPin, txPin, waitStep)
    ensures Heard(trace, trace + [e], rxPin, txPin, waitStep, false)
  {
  }

  lemma MadeInTurn(trace0: seq<Event>, trace1: seq<Event>, trace2: seq<Event>, rxPin: int, txPin: int, waitStep: u32, timedOut: bool)
    requires Heard(trace0, trace1, rxPin, txPin, waitStep, false) && Heard(trace1, trace2, rxPin, txPin, waitStep, timedOut)
    ensures Heard(trace0, trace2, rxPin, txPin, waitStep, timedOut) && Heard(trace0, trace2, rxPin, txPin, waitStep, false)
  {
    hide Fitting;
    assert trace2[|trace0|..] == trace1[|trace0|..] + trace2[|trace1|..];
  }

  lemma {:induction false} TurnsFit(turn: seq<Event>, n: nat, rxPin: int, txPin: int, waitStep: u32)
    requires AllFitting(turn, rxPin, txPin, waitStep)
    ensures AllFitting(Turns(turn, n), rxPin, txPin, waitStep)
  {
    hide Fitting;
    if n > 0 {
      TurnsFit(turn, n - 1, rxPin, txPin, waitStep);
    }
  }

  lemma SendsFit(trace0: seq<Event>, trace1: seq<Event>, w: nat, rxPin: int, txPin: int, waitStep: u32, turns: nat, r: Outcome<()>)
    requires Sends(trace0, trace1, w, waitStep, turns, r)
    ensures Heard(trace0, trace1, rxPin, txPin, waitStep, false)
  {
    hide Turns;
    TurnsFit(SendTurn(waitStep), turns, rxPin, txPin, waitStep);
  }

  lemma WaitsFit(trace0: seq<Event>, trace1: seq<Event>, rxPin: int, txPin: int, waitStep: u32, n: nat, r: Outcome<nat>, words: nat)
    requires Waits(trace0, trace1, rxPin, waitStep, n, r, words)
    ensures Heard(trace0, trace1, rxPin, txPin, waitStep, r == Err(RecvTimeout))
    ensures Heard(trace0, trace1, rxPin, txPin, waitStep, false)
  {
    hide Turns;
    TurnsFit(WaitTurn(rxPin, waitStep), n, rxPin, txPin, waitStep);
    if n >= 1 {
      TurnsFit(WaitTurn(rxPin, waitStep), n - 1, rxPin, txPin, waitStep);
    }
  }

  /** The calls of a transaction: it fails to create the wave of the request, or creates it, converses
      and deletes it. */
  ghost predicate TxCalls(trace0: seq<Event>, trace1: seq<Event>, rxPin: int, txPin: int, waitStep: u32, frame: seq<byte>, r: Outcome<()>) {
    || (IsFault(r) && Gave(trace0, trace1, [AddNew, AddSerial(txPin, 9600, 9, 2, 0, frame)]))
    || Transacts(trace0, trace1, rxPin, txPin, waitStep, frame, r == Err(RecvTimeout))
  }

  ghost predicate Transacts(trace0: seq<Event>, trace1: seq<Event>, rxPin: int, txPin: int, waitStep: u32, frame: seq<byte>, timedOut: bool) {
    exists id :: TransactCalls(trace0, trace1, rxPin, txPin, waitStep, frame, id, timedOut)
  }

  ghost predicate TransactCalls(trace0: seq<Event>, trace1: seq<Event>, rxPin: int, txPin: int, waitStep: u32, frame: seq<byte>, id: nat,
                                timedOut: bool)
  {
    && trace1 != [] && trace1[|trace1| - 1] == Delete(id)
    && Heard(trace0 + WaveCalls(txPin, frame, id), trace1[..|trace1| - 1], rxPin, txPin, waitStep, timedOut)
  }

  lemma TxCallsFit(trace0: seq<Event>, trace1: seq<Event>, rxPin: int, txPin: int, waitStep: u32, frame: seq<byte>, r: Outcome<()>)
    requires TxCalls(trace0, trace1, rxPin, txPin, waitStep, frame, r)
    ensures trace0 <= trace1 && AllFitting(trace1[|trace0|..], rxPin, txPin, waitStep)
  {
    hide Heard, AllFitting, Gave;
    if Transacts(trace0, trace1, rxPin, txPin, waitStep, frame, r == Err(RecvTimeout)) {
      var id :| TransactCalls(trace0, trace1, rxPin, txPin, waitStep, frame, id, r == Err(RecvTimeout));
      ConversationFits(trace0, trace1, rxPin, txPin, waitStep, frame, id, r == Err(RecvTimeout));
    } else {
      FailureFits(trace0, trace1, rxPin, txPin, waitStep, frame);
    }
  }

  lemma FailureFits(trace0: seq<Event>, trace1: seq<Event>, rxPin: int, txPin: int, waitStep: u32, frame: seq<byte>)
    requires Gave(trace0, trace1, [AddNew, AddSerial(txPin, 9600, 9, 2, 0, frame)])
    ensures trace0 <= trace1 && AllFitting(trace1[|trace0|..], rxPin, txPin, waitStep)
  {
    var calls := [AddNew, AddSerial(txPin, 9600, 9, 2, 0, frame)];
    assert AllFitting(calls, rxPin, txPin, waitStep);
    hide Fitting;
    var k :| 0 <= k <= |calls| && trace1 == trace0 + calls[..k] + [Failure];
    assert trace1[|trace0|..] == calls[..k] + [Failure];
    assert Fitting(Failure, rxPin, txPin, waitStep) by { FailureIsFitting(rxPin, txPin, waitStep); }
  }

  lemma FailureIsFitting(rxPin: int, txPin: int, waitStep: u32)
    ensures Fitting(Failure, rxPin, txPin, waitStep) && forall id :: Fitting(Delete(id), rxPin, txPin, waitStep)
  {
  }

  lemma ConversationFits(trace0: seq<Event>, trace1: seq<Event>, rxPin: int, txPin: int, waitStep: u32, frame: seq<byte>, id: nat, timedOut: bool)
    requires TransactCalls(trace0, trace1, rxPin, txPin, waitStep, frame, id, timedOut)
    ensures trace0 <= trace1 && AllFitting(trace1[|trace0|..], rxPin, txPin, waitStep)
  {
    var wave, n := WaveCalls(txPin, frame, id), |trace1| - 1;
    assert AllFitting(wave, rxPin, txPin, waitStep);
    FailureIsFitting(rxPin, txPin, waitStep);
    hide Fitting, WaveCalls;
    var more := trace1[..n][|trace0 + wave|..];
    assert trace1[..n] == trace0 + wave + more;
    assert trace1 == trace1[..n] + [Delete(id)];
    assert trace1[|trace0|..] == wave + more + [Delete(id)];
  }

  /** A device that has its whole reply ready, and no word of it is kept back by a read. */
  ghost predicate Ready(hw: Hardware, response0: seq<byte>, words: seq<Word>) {
    hw.eager && hw.burst >= 1 && OnePass(response0, words).Received?
  }

  /** As long as the reply has not ended, words of a ready device are still to come. */
  lemma StillComing(hw: Hardware, response0: seq<byte>, words: seq<Word>, taken: seq<Word>, rest: seq<Word>)
    requires words == taken + rest && OnePass(response0, taken).Collecting?
    ensures Ready(hw, response0, words) ==> hw.eager && hw.burst >= 1 && rest != []
  {
    assert taken + [] == taken;
  }

  lemma OnceBack(latency: nat, waitStep: u32, deadline: u32, from: nat, now: nat, timedOut: bool)
    requires BackInTime(latency, waitStep, deadline, from, now, timedOut)
    ensures WaitClear(latency, waitStep, deadline, from) ==> now <= WaitEnd(latency, waitStep, deadline, from)
  {
  }

  class GpioMdb {
    const hw: Hardware
    const rxPin: byte
    const txPin: byte
    const waveAck: nat
    const waveNak: nat
    const waitStep: u32
    const buf: array<byte>
    /** Contents of the buffer at creation, and the non-empty reads since. */
    ghost const initial: seq<byte>
    ghost var history: seq<seq<Word>>

    ghost predicate Valid()
      reads this`history, hw`live, buf
    {
      && buf.Length == BUF_SIZE
      && waveAck != waveNak
      && waveAck in hw.live && hw.live[waveAck] == [0x00, 0]
      && waveNak in hw.live && hw.live[waveNak] == [0xff, 0]
      && Remembers(initial, history, buf[..])
      && (forall c :: c in history ==> 1 <= |c| <= hw.burst)
    }

    constructor (hw: Hardware, rxPin: byte, txPin: byte, waveAck: nat, waveNak: nat, waitStep: u32)
      requires waveAck != waveNak
      requires waveAck in hw.live && hw.live[waveAck] == [0x00, 0]
      requires waveNak in hw.live && hw.live[waveNak] == [0xff, 0]
      ensures Valid() && fresh(buf) && history == []
      ensures this.hw == hw && this.waveAck == waveAck && this.waveNak == waveNak
      ensures this.rxPin == rxPin && this.txPin == txPin && this.waitStep == waitStep
    {
      this.hw, this.rxPin, this.txPin := hw, rxPin, txPin;
      this.waveAck, this.waveNak, this.waitStep := waveAck, waveNak, waitStep;
      var cells := new byte[BUF_SIZE];
      buf, initial, history := cells, cells[..], [];
    }

    /** The next request frame, told from the reads since creation: its mode bit is on the first word
        only iff the later words it covers were left clean, which is certain when every read delivers
        at most one word into a buffer whose odd cells started even. */
    lemma NextFrame(request: seq<byte>)
      requires Valid() && 1 <= |request| < BLOCK_MAX_LENGTH
      ensures |initial| == BUF_SIZE && FrameTold(initial, history, hw.burst, request, Frame(request, buf[..]))
    {
      hide Checksum, LeftClean, Frame, Words;
      FrameMeaning(request, buf[..]);
      FrameMarkedOnceIff(request, initial, history, buf[..]);
      if hw.burst <= 1 && CleanStart(initial) {
        OneWordReadsKeepFramesClean(request, initial, history, buf[..]);
      }
    }

    /** GpioMdb::new. A failure leaves no wave behind; success leaves exactly the two answers. */
    static method Open(hw: Hardware, rxPin: byte, txPin: byte, waitStep: u32) returns (r: Outcome<GpioMdb>)
      modifies hw
      ensures r.Ok? || IsFault(r)
      ensures hw.faults == old(hw.faults) + if r.Ok? then 0 else 1
      ensures r.Ok? ==> fresh(r.value) && r.value.Valid() && fresh(r.value.buf) && r.value.hw == hw
      ensures r.Ok? ==> hw.live.Keys == old(hw.live).Keys + {r.value.waveAck, r.value.waveNak}
      ensures r.Ok? ==> r.value.waveAck !in old(hw.live) && r.value.waveNak !in old(hw.live)
      ensures r.Ok? ==> r.value.rxPin == rxPin && r.value.txPin == txPin && r.value.waitStep == waitStep && r.value.history == []
      ensures !r.Ok? ==> hw.live.Keys == old(hw.live).Keys
      ensures hw.sent == old(hw.sent) && IsSuffix(hw.stream, old(hw.stream)) && old(hw.now) <= hw.now
      ensures r.Ok? ==> hw.trace == old(hw.trace) + OpenCalls(rxPin, txPin, r.value.waveAck, r.value.waveNak)
      ensures !r.Ok? ==> old(hw.trace) <= hw.trace
    {
      hide Remembers;
      ghost var trace := hw.trace;
      var _ :- SetUp(hw, rxPin, txPin);
      var ack :- hw.NewSerial(txPin, BAUD, DATA_BITS, STOP_BITS, 0, [RESPONSE_ACK, 0]);
      var nak := hw.NewSerial(txPin, BAUD, DATA_BITS, STOP_BITS, 0, [RESPONSE_NAK, 0]);
      if nak.IsFailure() {
        hw.WaveDelete(ack);
        return nak.PropagateFailure<GpioMdb>();
      }
      OpenedInARow(trace, rxPin, txPin, ack, nak.value);
      var m := new GpioMdb(hw, rxPin, txPin, ack, nak.value, waitStep);
      return Ok(m);
    }

    static lemma OpenedInARow(trace: seq<Event>, rxPin: byte, txPin: byte, ack: nat, nak: nat)
      ensures trace + SetupCalls(rxPin, txPin) + WaveCalls(txPin, [0x00, 0], ack) + WaveCalls(txPin, [0xff, 0], nak) ==
              trace + OpenCalls(rxPin, txPin, ack, nak)
    {
    }

    /** The pins and the serial reader. */
    static method SetUp(hw: Hardware, rxPin: byte, txPin: byte) returns (r: Outcome<()>)
      modifies hw`now, hw`trace, hw`faults, hw`stream
      ensures r.Ok? || IsFault(r)
      ensures hw.faults == old(hw.faults) + (if r.Ok? then 0 else 1) && old(hw.now) <= hw.now
      ensures IsSuffix(hw.stream, old(hw.stream))
      ensures r.Ok? ==> hw.trace == old(hw.trace) + SetupCalls(rxPin, txPin)
      ensures !r.Ok? ==> old(hw.trace) <= hw.trace
    {
      SuffixOfSelf(hw.stream);
      var rc := hw.Call(SetMode(rxPin, false));
      var _ :- Check(rc);
      rc := hw.Call(SetMode(txPin, true));
      var _ :- Check(rc);
      rc := hw.SwitchReader(OpenReader(rxPin, BAUD, DATA_BITS));
      var _ :- Check(rc);
      rc := hw.Call(StopTx);
      var _ :- Check(rc);
      return Ok(());
    }

    /** close: stops transmission, then closes the serial reader unless that failed. */
    method Close() returns (r: Outcome<()>)
      modifies hw`now, hw`trace, hw`faults, hw`stream
      ensures r.Ok? || IsFault(r)
      ensures hw.faults == old(hw.faults) + (if r.Ok? then 0 else 1) && old(hw.now) <= hw.now
      ensures IsSuffix(hw.stream, old(hw.stream))
      ensures r.Ok? ==> hw.trace == old(hw.trace) + [StopTx, CloseReader(rxPin)]
      ensures !r.Ok? ==> hw.trace == old(hw.trace) + [Failure] || hw.trace == old(hw.trace) + [StopTx, Failure]
    {
      SuffixOfSelf(hw.stream);
      var rc := hw.Call(StopTx);
      var _ :- Check(rc);
      rc := hw.SwitchReader(CloseReader(rxPin));
      var _ :- Check(rc);
      return Ok(());
    }

    /** Dropping the driver closes it, ignoring errors, and deletes both of its waves. */
    method Drop()
      requires Valid()
      modifies hw`now, hw`trace, hw`faults, hw`live, hw`stream
      ensures hw.live == old(hw.live) - {waveAck, waveNak} && old(hw.now) <= hw.now
      ensures IsSuffix(hw.stream, old(hw.stream))
      ensures Drops(old(hw.trace), hw.trace, rxPin, waveAck, waveNak)
    {
      var _ := Close();
      hw.WaveDelete(waveAck);
      hw.WaveDelete(waveNak);
    }

    /** The line was high for at least `us`, and for no more than the latency of two calls longer, and is
        low again. */
    static ghost predicate Pulsed(latency: nat, line0: seq<(bool, nat)>, line1: seq<(bool, nat)>, us: nat) {
      var n := |line0|;
      && |line1| == n + 2 && line0 < line1 && line1[n].0 && !line1[n + 1].0
      && us <= line1[n + 1].1 - line1[n].1 <= us + 2 * latency
    }

    /** bus_reset: the line goes high, stays so at least the requested time, and goes low. It is
        left high exactly when the second write fails. */
    method BusReset(duration: Duration) returns (r: Outcome<()>)
      modifies hw`now, hw`trace, hw`faults, hw`line
      ensures r.Ok? ==> AsMicros32(duration).Ok? && Pulsed(hw.latency, old(hw.line), hw.line, AsMicros32(duration).value)
      ensures AsMicros32(duration).Err? ==> r == Err(Overflow) && unchanged(hw)
      ensures AsMicros32(duration).Ok? ==> r.Ok? || IsFault(r)
      ensures !r.Ok? ==> hw.line == old(hw.line) ||
                         (|hw.line| == |old(hw.line)| + 1 && old(hw.line) < hw.line && hw.line[|old(hw.line)|].0)
      ensures hw.faults == old(hw.faults) + (if IsFault(r) then 1 else 0) && old(hw.now) <= hw.now
      ensures r.Ok? ==> hw.trace == old(hw.trace) + [Level(txPin, true), Pause(AsMicros32(duration).value), Level(txPin, false)]
      ensures IsFault(r) ==>
                || hw.trace == old(hw.trace) + [Failure]
                || hw.trace == old(hw.trace) + [Level(txPin, true), Pause(AsMicros32(duration).value), Failure]
    {
      var durationUs :- AsMicros32(duration);
      var rc := hw.Write(txPin, true);
      var _ :- Check(rc);
      var _ := hw.Delay(durationUs);
      rc := hw.Write(txPin, false);
      var _ :- Check(rc);
      return Ok(());
    }

    /** mdb_wave_send_wait: sends a wave and polls until it is out. The loop compares the time
        since the call with `deadline`; `looks` are these times. */
    method SendWait(w: nat, deadline: u32, role: WaveRole)
      returns (r: Outcome<()>, ghost busy: seq<bool>, ghost start: nat, ghost looks: seq<nat>)
      requires w in hw.live
      modifies hw`now, hw`trace, hw`faults, hw`sent, hw`polls
      ensures hw.sent == old(hw.sent) + [hw.live[w]]
      ensures old(hw.now) <= start <= hw.now && start <= old(hw.now) + hw.latency
      // Success needs an idle poll, a timeout only busy ones.
      ensures AllBusy(busy)
      ensures r.Ok? ==> hw.polls == old(hw.polls) + busy + [false]
      ensures r == Err(SendTimeout(role)) ==> hw.polls == old(hw.polls) + busy
      ensures !r.Panic?
      ensures r.Err? ==> r.error == SendTimeout(role) || IsFault(r)
      ensures hw.faults == old(hw.faults) + if IsFault(r) then 1 else 0
      ensures Looked(hw.latency, waitStep, deadline, waitStep, waitStep + 4 * hw.latency, looks, r == Err(SendTimeout(role)))
      ensures r.Unending? ==> Missable(hw.latency, waitStep, deadline)
      // A timeout comes only when the true time since the start is over the argument, and within a poll.
      ensures r == Err(SendTimeout(role)) ==> hw.now > start + deadline
      ensures Bounded(hw.latency, waitStep, deadline) ==>
                && hw.now <= start + deadline + PollSpan(hw.latency, waitStep) + hw.latency
                && (r == Err(SendTimeout(role)) ==> hw.now <= start + deadline + PollSpan(hw.latency, waitStep))
      // The calls made, in order.
      ensures |looks| == |busy| && Sends(old(hw.trace), hw.trace, w, waitStep, |busy|, r)
    {
      hide Wrap32, ElapsedTicks, Looked, Missable, Bounded, PollSpan, LookSpan, Polled, AllBusy, Sends, Sending, SendTurn, SendCalls, Turns;
      ghost var trace := hw.trace;
      var missable := Missable(hw.latency, waitStep, deadline);
      var patience :| 0 <= patience;
      var startTick := hw.TickSince(0);
      start := hw.now;
      TickSinceIsElapsed(start, start);
      busy, looks := [], [];
      NotBusy();
      NoLooks(hw.latency, waitStep, deadline, waitStep, waitStep + 4 * hw.latency);
      ghost var left := deadline + 1;
      var rc := hw.WaveTxSend(w, ONE_SHOT_SYNC);
      NotPolled(hw.latency, waitStep, deadline, hw.now - start);
      SendTimes(hw.latency, waitStep, deadline, [], hw.now - start, hw.now - start);
      StartsSending(trace, hw.trace, w, waitStep, rc);
      if rc < 0 {
        return Err(GpioError(rc)), busy, start, looks;
      }
      ghost var sent := hw.sent;
      while true
        invariant start <= hw.now && Polled(hw.latency, waitStep, deadline, looks, hw.now - start)
        invariant hw.faults == old(hw.faults) && hw.sent == sent
        invariant AllBusy(busy) && hw.polls == old(hw.polls) + busy
        invariant 0 <= patience
        invariant |looks| == |busy| && Sending(trace, hw.trace, w, waitStep, |busy|)
        invariant Looked(hw.latency, waitStep, deadline, waitStep, waitStep + 4 * hw.latency, looks, false)
        invariant 0 <= left && if looks == [] then left == deadline + 1 else Wrap32(looks[|looks| - 1]) + left == deadline
        decreases if missable then 0 else left, patience
      {
        if missable {
          if patience == 0 {
            SendTimes(hw.latency, waitStep, deadline, looks, hw.now - start, hw.now - start);
            SendingMeans(trace, hw.trace, hw.trace, w, waitStep, |busy|, Unending);
            return Unending, busy, start, looks;
          }
          patience := patience - 1;
        }
        var idle;
        ghost var before := hw.trace;
        idle, looks := PollSend(startTick, deadline, role, start, looks);
        if idle.Ok? && idle.value {
          rc := hw.Call(StopTx);
          StopsSending(trace, before, w, waitStep, |busy|, rc);
          return if rc < 0 then Err(GpioError(rc)) else Ok(()), busy, start, looks;
        }
        TurnMade(trace, before, hw.trace, w, waitStep, |busy|, idle);
        if !IsFault(idle) {
          StillBusy(busy);
          busy := busy + [true];
        }
        if idle.IsFailure() {
          return idle.PropagateFailure<()>(), busy, start, looks;
        }
        left := deadline - Wrap32(looks[|looks| - 1]);
      }
    }

    /** One turn of the send loop: a delay, a look at the wave, and one at the clock when it is still
        going out. */
    method PollSend(startTick: u32, deadline: u32, role: WaveRole, ghost start: nat, ghost looks0: seq<nat>)
      returns (idle: Outcome<bool>, ghost looks: seq<nat>)
      requires startTick == Wrap32(start) && start <= hw.now
      requires Polled(hw.latency, waitStep, deadline, looks0, hw.now - start)
      requires Looked(hw.latency, waitStep, deadline, waitStep, waitStep + 4 * hw.latency, looks0, false)
      modifies hw`now, hw`trace, hw`faults, hw`polls
      ensures old(hw.now) <= hw.now
      ensures idle.Ok? || IsFault(idle) || idle == Err(SendTimeout(role))
      ensures hw.faults == old(hw.faults) + if IsFault(idle) then 1 else 0
      ensures hw.polls == old(hw.polls) + if IsFault(idle) then [] else [!(idle.Ok? && idle.value)]
      ensures Looked(hw.latency, waitStep, deadline, waitStep, waitStep + 4 * hw.latency, looks, idle == Err(SendTimeout(role)))
      ensures Bounded(hw.latency, waitStep, deadline) ==> hw.now <= start + deadline + PollSpan(hw.latency, waitStep)
      ensures hw.trace == old(hw.trace) +
                          (if IsFault(idle) then [Pause(waitStep), Failure]
                           else if idle.Ok? && idle.value then [Pause(waitStep), Busy(false)]
                           else SendTurn(waitStep))
      ensures idle.Ok? || IsFault(idle) ==> |looks| == |looks0| + if idle.Ok? && !idle.value then 1 else 0
      ensures idle == Err(SendTimeout(role)) ==> hw.now > start + deadline && |looks| == |looks0| + 1
      ensures idle.Ok? && !idle.value ==>
                && Polled(hw.latency, waitStep, deadline, looks, hw.now - start)
                && looks != [] && Wrap32(looks[|looks| - 1]) <= deadline
                && (looks0 != [] && !Missable(hw.latency, waitStep, deadline) ==>
                      Wrap32(looks[|looks| - 1]) > Wrap32(looks0[|looks0| - 1]))
    {
      hide Wrap32, ElapsedTicks, Looked, Missable, Bounded, PollSpan, LookSpan, Polled;
      ghost var before := hw.now - start;
      looks := looks0;
      var _ := hw.Delay(waitStep);
      var poll := hw.WaveTxBusy();
      SendTimes(hw.latency, waitStep, deadline, looks, before, hw.now - start);
      if poll.IsFailure() {
        return poll, looks;
      }
      if !poll.value {
        return Ok(true), looks;
      }
      var total := hw.TickSince(startTick);
      ghost var look := hw.now - start;
      TickSinceWraps(start, hw.now);
      SendLook(hw.latency, waitStep, deadline, looks, before, look);
      OneMoreLook(hw.latency, waitStep, deadline, waitStep, waitStep + 4 * hw.latency, looks, look);
      if !Missable(hw.latency, waitStep, deadline) && looks != [] {
        TickAdvances(hw.latency, waitStep, deadline, looks[|looks| - 1], look);
      }
      looks := looks + [look];
      return if total > deadline then Err(SendTimeout(role)) else Ok(false), looks;
    }

    /** One turn of the polling loop: a read, and a look at the clock when it brought nothing. */
    method Poll(deadline: u32) returns (r: Outcome<nat>, ghost chunk: seq<Word>)
      requires Valid()
      modifies hw`now, hw`trace, hw`faults, hw`stream, buf, `history
      ensures Valid()
      ensures old(hw.stream) == chunk + hw.stream && Shows(buf[..], chunk) && |chunk| <= BLOCK_MAX_LENGTH
      ensures r.Ok? ==> r.value == 2 * |chunk| && history == (if chunk == [] then old(history) else old(history) + [chunk])
      ensures !r.Ok? ==> chunk == [] && history == old(history) && (r == Err(RecvTimeout) || IsFault(r))
      ensures chunk == [] ==> hw.stream == old(hw.stream) && buf[..] == old(buf[..])
      ensures hw.faults == old(hw.faults) + if IsFault(r) then 1 else 0
      ensures old(hw.now) <= hw.now <= old(hw.now) + 2 * hw.latency
      ensures r == Err(RecvTimeout) ==> Wrap32(hw.now) > deadline
      ensures r.Ok? && r.value == 0 ==> Wrap32(hw.now) <= deadline
      ensures hw.trace == old(hw.trace) +
                          (if IsFault(r) then [Failure] else if chunk == [] then [Read(rxPin, 0), Look] else [Read(rxPin, |chunk|)])
      ensures hw.eager && hw.burst >= 1 && old(hw.stream) != [] ==> chunk != [] || IsFault(r)
    {
      ghost var cells := buf[..];
      var rc;
      rc, chunk := hw.SerialRead(rxPin, buf);
      OverwriteShows(cells, chunk);
      OverwriteNothing(cells);
      if rc < 0 {
        return Err(GpioError(rc)), chunk;
      }
      if rc > 0 {
        RememberRead(initial, history, cells, chunk);
        history := history + [chunk];
        return Ok(rc), chunk;
      }
      var t := hw.TickSince(0);
      return if t > deadline then Err(RecvTimeout) else Ok(0), chunk;
    }

    static lemma NothingShown(cells: seq<byte>)
      ensures Shows(cells, [])
    {
    }

    /** wait_receive: polls the serial reader until a read delivers something. `looks` are the times at
        which it compared the tick with the deadline. */
    method WaitReceive(deadline: u32) returns (r: Outcome<nat>, ghost chunk: seq<Word>, ghost looks: seq<nat>)
      requires Valid()
      modifies hw`now, hw`trace, hw`faults, hw`stream, buf, `history
      ensures Valid()
      ensures old(hw.stream) == chunk + hw.stream && Shows(buf[..], chunk) && |chunk| <= BLOCK_MAX_LENGTH
      ensures r.Ok? ==> chunk != [] && r.value == 2 * |chunk| && history == old(history) + [chunk]
      ensures old(history) <= history
      ensures !r.Ok? ==> chunk == [] && history == old(history) && (r == Err(RecvTimeout) || IsFault(r) || r.Unending?)
      ensures hw.faults == old(hw.faults) + if IsFault(r) then 1 else 0
      ensures old(hw.now) <= hw.now
      // Never times out at or before the deadline, and is back within one poll after it.
      ensures r == Err(RecvTimeout) ==> Wrap32(hw.now) > deadline
      ensures BackInTime(hw.latency, waitStep, deadline, old(hw.now), hw.now, r == Err(RecvTimeout))
      ensures Looked(hw.latency, waitStep, deadline, old(hw.now), old(hw.now) + 2 * hw.latency, looks, r == Err(RecvTimeout))
      ensures r.Unending? ==> Missable(hw.latency, waitStep, deadline)
      // One empty read for every look, and a last one that brought the words. An eager device is heard.
      ensures Waits(old(hw.trace), hw.trace, rxPin, waitStep, |looks|, r, |chunk|)
      ensures hw.eager && hw.burst >= 1 && old(hw.stream) != [] ==> r.Ok? || IsFault(r)
    {
      hide Valid, Looked, Missable, Wrap32, Waiting, BackInTime, Shows, Waits, WaitTurns;
      ghost var trace := hw.trace;
      NoWaitTurns(trace, rxPin, waitStep);
      var missable := Missable(hw.latency, waitStep, deadline);
      ghost var now0 := hw.now;
      ghost var left := deadline + 1;
      var patience :| 0 <= patience;
      looks := [];
      NoLooks(hw.latency, waitStep, deadline, now0, now0 + 2 * hw.latency);
      NotWaited(hw.latency, waitStep, deadline, now0);
      while true
        invariant Valid()
        invariant hw.stream == old(hw.stream) && history == old(history) && hw.faults == old(hw.faults)
        invariant now0 <= hw.now && Waiting(hw.latency, waitStep, deadline, now0, looks, hw.now)
        invariant Looked(hw.latency, waitStep, deadline, now0, now0 + 2 * hw.latency, looks, false)
        invariant 0 <= left && if looks == [] then left == deadline + 1 else Wrap32(looks[|looks| - 1]) + left == deadline
        invariant 0 <= patience
        invariant WaitTurns(trace, hw.trace, rxPin, waitStep, |looks|)
        invariant hw.eager && hw.burst >= 1 && old(hw.stream) != [] ==> looks == []
        decreases if missable then 0 else left, patience
      {
        ghost var before, trace1, n := hw.now, hw.trace, |looks|;
        r, chunk := Poll(deadline);
        WaitTimes(hw.latency, waitStep, deadline, now0, looks, before, hw.now);
        if (r.Ok? && r.value == 0) || r == Err(RecvTimeout) {
          OneMoreLook(hw.latency, waitStep, deadline, now0, now0 + 2 * hw.latency, looks, hw.now);
          if looks != [] && !missable {
            TickAdvances(hw.latency, waitStep, deadline, looks[|looks| - 1], hw.now);
          }
          looks := looks + [hw.now];
        }
        if r.IsFailure() || r.value > 0 {
          WaitsEnd(trace, trace1, hw.trace, rxPin, waitStep, n, r, |chunk|);
          return;
        }
        left := deadline - Wrap32(hw.now);
        ghost var look := hw.now;
        var _ := hw.Delay(waitStep);
        OneMoreWaitTurn(trace, trace1, rxPin, waitStep, n);
        StillWaiting(hw.latency, waitStep, deadline, now0, looks, look, hw.now);
        if missable {
          if patience == 0 {
            WaitTimes(hw.latency, waitStep, deadline, now0, looks, hw.now, hw.now);
            WaitsOn(trace, hw.trace, rxPin, waitStep, n + 1);
            NothingShown(buf[..]);
            return Unending, chunk, looks;
          }
          patience := patience - 1;
        }
      }
    }

    /** A wait has made n turns. */
    static predicate WaitTurns(trace0: seq<Event>, trace1: seq<Event>, rxPin: byte, waitStep: u32, n: nat) {
      trace1 == trace0 + Turns(WaitTurn(rxPin, waitStep), n)
    }

    static lemma NoWaitTurns(trace: seq<Event>, rxPin: byte, waitStep: u32)
      ensures WaitTurns(trace, trace, rxPin, waitStep, 0)
    {
    }

    static lemma OneMoreWaitTurn(trace0: seq<Event>, trace1: seq<Event>, rxPin: byte, waitStep: u32, n: nat)
      requires WaitTurns(trace0, trace1, rxPin, waitStep, n)
      ensures WaitTurns(trace0, trace1 + [Read(rxPin, 0), Look] + [Pause(waitStep)], rxPin, waitStep, n + 1)
    {
      OneMoreTurn(trace0, WaitTurn(rxPin, waitStep), n);
      hide Turns;
      assert trace1 + [Read(rxPin, 0), Look] + [Pause(waitStep)] == trace1 + WaitTurn(rxPin, waitStep);
    }

    static lemma WaitsEnd(trace0: seq<Event>, trace1: seq<Event>, trace2: seq<Event>, rxPin: byte, waitStep: u32, n: nat, r: Outcome<nat>,
                          words: nat)
      requires WaitTurns(trace0, trace1, rxPin, waitStep, n)
      requires trace2 == trace1 + if IsFault(r) then [Failure] else if words == 0 then [Read(rxPin, 0), Look] else [Read(rxPin, words)]
      requires (r.Ok? && words >= 1) || IsFault(r) || (r == Err(RecvTimeout) && words == 0)
      ensures Waits(trace0, trace2, rxPin, waitStep, if r == Err(RecvTimeout) then n + 1 else n, r, words)
    {
      hide Turns;
    }

    static lemma WaitsOn(trace0: seq<Event>, trace1: seq<Event>, rxPin: byte, waitStep: u32, n: nat)
      requires n >= 1 && WaitTurns(trace0, trace1, rxPin, waitStep, n)
      ensures Waits(trace0, trace1, rxPin, waitStep, n, Unending, 0)
    {
      hide Turns;
    }

    /** The scan of one read: data words are pushed until a marked one ends the reply. `taken` are
        the words scanned before, on top of a response that held `start`. */
    method ScanBuffer(received: nat, response0: seq<byte>, ghost chunk: seq<Word>, ghost start: seq<byte>, ghost taken: seq<Word>)
      returns (end: Option<byte>, response: seq<byte>)
      requires received == 2 * |chunk| && Shows(buf[..], chunk)
      requires OnePass(start, taken) == Collecting(response0)
      ensures OnePass(start, taken + chunk) == if end.Some? then Received(response, end.value) else Collecting(response)
      ensures |response0| <= |response| && (end.None? ==> |response| == |response0| + |chunk|)
    {
      hide OnePass, FirstMark;
      var i := 0;
      response := response0;
      ScanChunkIsOnePass(response0, chunk);
      OnePassAppend(start, taken, chunk);
      while i < received
        invariant i % 2 == 0 && 0 <= i <= received && |response| == |response0| + i / 2
        invariant ScanChunk(response0, chunk) == ScanChunk(response, chunk[i / 2..])
      {
        var value, flag := buf[i], buf[i + 1];
        assert value == DataByte(buf[..], i / 2) && flag == FlagByte(buf[..], i / 2);
        if flag == 1 {
          return Some(value), response;
        }
        response := response + [value];
        assert chunk[i / 2..][1..] == chunk[i / 2 + 1..];
        i := i + 2;
      }
      return None, response;
    }

    /** The receive loop: scan a read, wait for the next, until the reply ends. `taken` are the
        words delivered by the reads that were scanned. */
    method ReceiveRest(deadline: u32, received0: nat, response0: seq<byte>, ghost chunk0: seq<Word>, ghost site: nat)
      returns (r: Outcome<byte>, response: seq<byte>, ghost taken: seq<Word>)
      requires Valid()
      requires received0 == 2 * |chunk0| && 1 <= |chunk0| <= BLOCK_MAX_LENGTH && Shows(buf[..], chunk0)
      requires site == hw.now && deadline == Wrap32(site) + TIMEOUT_RECEIVE_US
      modifies hw`now, hw`trace, hw`faults, hw`stream, buf, `history
      ensures Valid() && old(history) <= history
      ensures taken + hw.stream == chunk0 + old(hw.stream) && taken != []
      ensures OnePass(response0, taken) == if r.Ok? then Received(response, r.value) else Collecting(response)
      ensures r.Ok? ==> |response0| + |taken| - |response| <= BLOCK_MAX_LENGTH
      ensures !r.Ok? ==> r == Err(RecvTimeout) || IsFault(r) || (r.Unending? && Missable(hw.latency, waitStep, deadline))
      ensures hw.faults == old(hw.faults) + if IsFault(r) then 1 else 0
      ensures old(hw.now) <= hw.now
      ensures r == Err(RecvTimeout) ==> Wrap32(hw.now) > deadline
      ensures ReplyClear(hw.latency, waitStep, site, |taken|) ==> hw.now <= ReplyEnd(hw.latency, waitStep, site, |taken|)
      ensures Heard(old(hw.trace), hw.trace, rxPin, txPin, waitStep, r == Err(RecvTimeout))
      ensures Ready(hw, response0, chunk0 + old(hw.stream)) ==> r.Ok? || IsFault(r)
    {
      hide OnePass, Valid, Bounded, Missable, ReplyClear, ReplyEnd, WaitClear, WaitEnd, BackInTime, Looked, Waits, Heard, Ready;
      ghost var trace, words := hw.trace, chunk0 + hw.stream;
      NothingMade(trace, rxPin, txPin, waitStep);
      OnTime(hw.latency, waitStep, site, 0);
      response, taken := response0, [];
      var received, chunk := received0, chunk0;
      NothingTaken(response0);
      while true
        invariant Valid() && old(history) <= history
        invariant received == 2 * |chunk| && 1 <= |chunk| <= BLOCK_MAX_LENGTH && Shows(buf[..], chunk)
        invariant taken + (chunk + hw.stream) == chunk0 + old(hw.stream)
        invariant OnePass(response0, taken) == Collecting(response) && |response| == |response0| + |taken|
        invariant hw.faults == old(hw.faults) && old(hw.now) <= hw.now
        invariant ReplyClear(hw.latency, waitStep, site, |taken|) ==> hw.now <= ReplyEnd(hw.latency, waitStep, site, |taken|)
        invariant Heard(trace, hw.trace, rxPin, txPin, waitStep, false)
        decreases |hw.stream|
      {
        var end;
        end, response := ScanBuffer(received, response, chunk, response0, taken);
        Associative(taken, chunk, hw.stream);
        ghost var m, from := |taken|, hw.now;
        taken := taken + chunk;
        StaysOnTime(hw.latency, waitStep, site, m, |taken|, from);
        if end.Some? {
          return Ok(end.value), response, taken;
        }
        var next;
        ghost var looks;
        ghost var trace1 := hw.trace;
        StillComing(hw, response0, words, taken, hw.stream);
        next, chunk, looks := WaitReceive(deadline);
        WaitsFit(trace1, hw.trace, rxPin, txPin, waitStep, |looks|, next, |chunk|);
        MadeInTurn(trace, trace1, hw.trace, rxPin, txPin, waitStep, next == Err(RecvTimeout));
        OnceBack(hw.latency, waitStep, deadline, from, hw.now, next == Err(RecvTimeout));
        NextOnTime(hw.latency, waitStep, site, deadline, m, |taken|, from, hw.now);
        if next.IsFailure() {
          return next.PropagateFailure<byte>(), response, taken;
        }
        received := next.value;
      }
    }

    /** The whole reception: the first read, the second deadline, the loop. */
    method Receive(deadline: u32, response0: seq<byte>)
      returns (r: Outcome<byte>, response: seq<byte>, ghost taken: seq<Word>, ghost sites: seq<nat>)
      requires Valid()
      modifies hw`now, hw`trace, hw`faults, hw`stream, buf, `history
      ensures Valid() && old(history) <= history
      ensures if r.Panic? then taken == [] else old(hw.stream) == taken + hw.stream
      ensures OnePass(response0, taken) == if r.Ok? then Received(response, r.value) else Collecting(response)
      ensures r.Ok? ==> |response0| + |taken| - |response| <= BLOCK_MAX_LENGTH
      ensures !r.Ok? ==> r == Err(RecvTimeout) || IsFault(r) || r.Unending? || r.Panic?
      ensures hw.faults == old(hw.faults) + if IsFault(r) then 1 else 0
      ensures Times(old(hw.now), sites, hw.now) && |sites| <= 1 && (r.Ok? ==> |sites| == 1)
      ensures r == Err(RecvTimeout) ==>
                if sites == [] then Wrap32(hw.now) > deadline else hw.now > sites[0] + TIMEOUT_RECEIVE_US
      ensures r.Panic? <==> sites != [] && Wrap32(sites[0]) + TIMEOUT_RECEIVE_US >= 0x1_0000_0000
      ensures r.Unending? ==>
                if sites == [] then Missable(hw.latency, waitStep, deadline)
                else waitStep == 0 || Wrap32(sites[0]) + TIMEOUT_RECEIVE_US + LookSpan(hw.latency, waitStep) >= 0x1_0000_0000
      ensures HeardInTime(hw.latency, waitStep, deadline, old(hw.now), sites, |taken|, hw.now)
      ensures Heard(old(hw.trace), hw.trace, rxPin, txPin, waitStep, r == Err(RecvTimeout))
      ensures Ready(hw, response0, old(hw.stream)) ==> r.Ok? || IsFault(r) || r.Panic?
    {
      hide OnePass, Valid, Shows, Looked, BackInTime, WaitClear, WaitEnd, ReplyClear, ReplyEnd, Waits, Heard, Ready;
      response, taken, sites := response0, [], [];
      ghost var trace, from, words := hw.trace, hw.now, hw.stream;
      NothingTaken(response0);
      StillComing(hw, response0, words, [], words);
      var received, chunk, looks := WaitReceive(deadline);
      WaitsFit(trace, hw.trace, rxPin, txPin, waitStep, |looks|, received, |chunk|);
      OnceBack(hw.latency, waitStep, deadline, from, hw.now, received == Err(RecvTimeout));
      ghost var trace1 := hw.trace;
      if received.IsFailure() {
        NothingTaken(response0);
        return received.PropagateFailure<byte>(), response, taken, sites;
      }
      var now := hw.TickSince(0);
      OneMade(trace1, Look, rxPin, txPin, waitStep);
      MadeInTurn(trace, trace1, hw.trace, rxPin, txPin, waitStep, false);
      trace1 := hw.trace;
      sites := [hw.now];
      var sum := CheckedAdd32(now, TIMEOUT_RECEIVE_US);
      if sum.None? {
        NothingTaken(response0);
        OnTime(hw.latency, waitStep, sites[0], 0);
        return Panic, response, taken, sites;
      }
      r, response, taken := ReceiveRest(sum.value, received.value, response0, chunk, sites[0]);
      MadeInTurn(trace, trace1, hw.trace, rxPin, txPin, waitStep, r == Err(RecvTimeout));
      if r == Err(RecvTimeout) {
        TrueDeadline(sites[0], TIMEOUT_RECEIVE_US, hw.now);
      }
    }

    /** Writes the request into the buffer, in place. */
    method FillRequest(request: seq<byte>)
      requires Valid() && 1 <= |request| < BLOCK_MAX_LENGTH
      modifies buf
      ensures Valid()
      ensures buf[..] == WithRequest(request, old(buf[..]))
    {
      ghost var cells := buf[..];
      buf[1] := 1;
      for i := 0 to |request|
        invariant forall j :: 0 <= j < BUF_SIZE ==>
                    buf[j] == if j == 1 then 1 else if j % 2 == 0 && j / 2 < i then request[j / 2] else cells[j]
      {
        buf[2 * i] := request[i];
      }
      buf[2 * |request|] := Checksum(request);
      assert buf[..] == WithRequest(request, cells);
      RequestKeepsFlags(initial, history, cells, request);
    }

    /** The end of a transaction: judge the reply, and answer it when it carried data. */
    method Conclude(response: seq<byte>, end: byte, timeoutSmallUs: u32)
      returns (r: Outcome<()>, ghost sites: seq<nat>, ghost starts: seq<nat>)
      requires Valid()
      modifies hw`now, hw`trace, hw`faults, hw`sent, hw`polls
      ensures Valid() && Times(old(hw.now), sites, hw.now)
      ensures hw.faults == old(hw.faults) + if IsFault(r) then 1 else 0
      ensures response == [] ==> sites == [] && r == Judge(response, end) && !r.Panic?
      ensures |starts| <= 1
      ensures r.Err? && r.error.SendTimeout? ==>
                && |sites| == 1 && |starts| == 1
                && SendTimely(hw.latency, waitStep, sites[0], starts[0], timeoutSmallUs, hw.now)
      ensures hw.sent == old(hw.sent) + if r.Panic? then [] else Answer(response, end)
      ensures response != [] ==>
                && |sites| == 1
                && (r.Panic? <==> Wrap32(sites[0]) + timeoutSmallUs >= 0x1_0000_0000)
                && (r.Panic? || r.Unending? || IsFault(r) || r == Judge(response, end)
                    || r == Err(SendTimeout(AnswerRole(response, end))))
                && (r.Unending? ==>
                      waitStep == 0 || Wrap32(sites[0]) + timeoutSmallUs + LookSpan(hw.latency, waitStep) >= 0x1_0000_0000)
      ensures AnsweredInTime(hw.latency, waitStep, timeoutSmallUs, old(hw.now), sites, starts, hw.now)
      ensures Heard(old(hw.trace), hw.trace, rxPin, txPin, waitStep, false)
      ensures response == [] ==> hw.trace == old(hw.trace)
    {
      hide Valid, Looked, SentInTime, SendTimely, AnsweredInTime, Bounded, Missable, PollSpan, Heard;
      ghost var trace := hw.trace;
      NothingMade(trace, rxPin, txPin, waitStep);
      ghost var from := hw.now;
      sites, starts := [], [];
      SilentInTime(hw.latency, waitStep, timeoutSmallUs, from);
      if response == [] {
        if end == RESPONSE_ACK {
          return Ok(()), sites, starts;
        } else if end == RESPONSE_NAK {
          return Err(MdbNak), sites, starts;
        }
        return Err(MdbInvalidResponse(end)), sites, starts;
      }
      var now := hw.TickSince(0);
      ghost var site, trace1 := hw.now, hw.trace;
      OneMade(trace, Look, rxPin, txPin, waitStep);
      sites := [site];
      var deadline := CheckedAdd32(now, timeoutSmallUs);
      if deadline.None? {
        OverflowInTime(hw.latency, waitStep, timeoutSmallUs, from, site);
        return Panic, sites, starts;
      }
      ghost var start;
      var computed := Checksum(response);
      if end != computed {
        r, start := SendAnswer(false, deadline.value, site, timeoutSmallUs);
        if r.Ok? {
          r := Err(MdbChecksum(computed, end, response));
        }
      } else {
        r, start := SendAnswer(true, deadline.value, site, timeoutSmallUs);
        assert r.Ok? ==> r.value == ();
      }
      starts := [start];
      MadeInTurn(trace, trace1, hw.trace, rxPin, txPin, waitStep, false);
      AnswerInTime(hw.latency, waitStep, timeoutSmallUs, from, site, start, hw.now);
    }

    /** Sends an ACK or a NAK, under a deadline computed at `site`. */
    method SendAnswer(ack: bool, deadline: u32, ghost site: nat, ghost allowed: nat) returns (r: Outcome<()>, ghost start: nat)
      requires Valid() && site == hw.now && deadline == Wrap32(site) + allowed
      modifies hw`now, hw`trace, hw`faults, hw`sent, hw`polls
      ensures Valid() && old(hw.now) <= hw.now
      ensures hw.sent == old(hw.sent) + [[if ack then 0x00 else 0xff, 0]]
      ensures r.Ok? || r.Unending? || IsFault(r) || r == Err(SendTimeout(if ack then AckWave else NakWave))
      ensures hw.faults == old(hw.faults) + if IsFault(r) then 1 else 0
      ensures r.Err? && r.error.SendTimeout? ==> SendTimely(hw.latency, waitStep, site, start, allowed, hw.now)
      ensures r.Unending? ==> waitStep == 0 || Wrap32(site) + allowed + LookSpan(hw.latency, waitStep) >= 0x1_0000_0000
      ensures SentInTime(hw.latency, waitStep, site, start, allowed, hw.now)
      ensures SendsFor(old(hw.trace), hw.trace, if ack then waveAck else waveNak, waitStep, r)
      ensures Heard(old(hw.trace), hw.trace, rxPin, txPin, waitStep, false)
    {
      hide Remembers, Looked, SentInTime, SendTimely, Bounded, Missable, PollSpan, AllBusy, Sends, Heard;
      ghost var busy, looks;
      ghost var trace := hw.trace;
      r, busy, start, looks :=
        SendWait(if ack then waveAck else waveNak, deadline, if ack then AckWave else NakWave);
      SendsFit(trace, hw.trace, if ack then waveAck else waveNak, rxPin, txPin, waitStep, |busy|, r);
      SendEnds(hw.latency, waitStep, site, start, allowed, hw.now);
      SendMissed(hw.latency, waitStep, site, allowed);
    }

    /** Reception and verdict, after the request `frame` was sent. The first deadlines were computed at
        `site`, and the request's send started at `start`. */
    method AwaitReply(receiveDeadline: u32, smallUs: u32, response0: seq<byte>, ghost frame: seq<byte>,
                      ghost site: nat, ghost start: nat, ghost requestLength: nat, ghost timeoutUs: u32)
      returns (r: Outcome<()>, response: seq<byte>, ghost log: TxLog)
      requires Valid() && site <= hw.now
      requires SentInTime(hw.latency, waitStep, site, start, CharsUs(requestLength), hw.now)
      requires receiveDeadline == Wrap32(site) + timeoutUs && smallUs == SmallTimeout(timeoutUs)
      modifies hw`now, hw`trace, hw`faults, hw`sent, hw`polls, hw`stream, buf, `history
      ensures Valid() && old(history) <= history
      ensures old(hw.sent) <= hw.sent
      ensures Transaction(frame, response0, old(hw.stream), log.taken, [frame] + hw.sent[|old(hw.sent)|..], r, response)
      ensures r.Panic? || old(hw.stream) == log.taken + hw.stream
      ensures hw.faults == old(hw.faults) + if IsFault(r) then 1 else 0
      ensures log.sites != [] && log.sites[0] == site && Times(site, log.sites, hw.now) && log.end == hw.now
      ensures r.Panic? <==> Overflows(0, [TIMEOUT_RECEIVE_US, smallUs], log.sites[1..])
      ensures r.Unending? ==>
                || CanHang(hw.latency, waitStep, [TIMEOUT_RECEIVE_US, smallUs], log.sites[1..])
                || (|log.sites| == 1 && Missable(hw.latency, waitStep, receiveDeadline))
      ensures r != Err(Overflow)
      ensures Timely(hw.latency, waitStep, requestLength, timeoutUs, r, log)
      ensures InTime(hw.latency, waitStep, requestLength, timeoutUs, log)
      ensures Heard(old(hw.trace), hw.trace, rxPin, txPin, waitStep, r == Err(RecvTimeout))
      ensures Ready(hw, response0, old(hw.stream)) ==> r != Err(RecvTimeout)
    {
      hide OnePass, Valid, Judge, Answer, Checksum, SendTimely, SentInTime, HeardInTime, AnsweredInTime, InTime, Heard, Ready, Transaction;
      ghost var trace, words, sent0 := hw.trace, hw.stream, hw.sent;
      ghost var sentAt := hw.now;
      ghost var taken, sites, starts;
      var end;
      end, response, taken, sites := Receive(receiveDeadline, response0);
      ghost var heardAt := hw.now;
      log := TxLog(taken, [site] + sites, [start], sentAt, heardAt, heardAt);
      if end.IsFailure() {
        SilentInTime(hw.latency, waitStep, smallUs, heardAt);
        assert log.sites[1..] == sites + [] && log.starts[1..] == [];
        NotConcluded(frame, response0, words, taken, end, response);
        assert [frame] + hw.sent[|sent0|..] == [frame];
        PhasesInTime(hw.latency, waitStep, requestLength, timeoutUs, log, sites, [], []);
        if end == Err(RecvTimeout) && sites == [] {
          TrueDeadline(site, timeoutUs, hw.now);
        }
        return end.PropagateFailure<()>(), response, log;
      }
      ghost var more;
      ghost var trace1 := hw.trace;
      r, more, starts := Conclude(response, end.value, smallUs);
      MadeInTurn(trace, trace1, hw.trace, rxPin, txPin, waitStep, false);
      Concluded(frame, response0, words, taken, end.value, response, hw.sent[|sent0|..], r);
      log := TxLog(taken, [site] + sites + more, [start] + starts, sentAt, heardAt, hw.now);
      assert log.sites[1..] == sites + more && log.starts[1..] == starts;
      PhasesInTime(hw.latency, waitStep, requestLength, timeoutUs, log, sites, more, starts);
    }

    static lemma NotConcluded(frame: seq<byte>, response0: seq<byte>, words: seq<Word>, taken: seq<Word>, end: Outcome<byte>, response: seq<byte>)
      requires taken <= words && OnePass(response0, taken) == Collecting(response)
      requires end.Panic? || end.Unending? || IsFault(end) || end == Err(RecvTimeout)
      ensures Transaction(frame, response0, words, taken, [frame], end.PropagateFailure<()>(), response)
    {
      hide OnePass;
    }

    static lemma Concluded(frame: seq<byte>, response0: seq<byte>, words: seq<Word>, taken: seq<Word>, end: byte, response: seq<byte>,
                           sent: seq<seq<byte>>, r: Outcome<()>)
      requires taken <= words && OnePass(response0, taken) == Received(response, end)
      requires |response0| + |taken| - |response| <= BLOCK_MAX_LENGTH
      requires sent == if r.Panic? then [] else Answer(response, end)
      requires response == [] ==> r == Judge(response, end) && !r.Panic?
      requires response != [] ==>
                 || r.Panic? || r.Unending? || IsFault(r) || r == Judge(response, end)
                 || r == Err(SendTimeout(AnswerRole(response, end)))
      ensures Transaction(frame, response0, words, taken, [frame] + sent, r, response)
    {
      hide OnePass, Judge, Answer, Checksum;
    }

    /** Sending, reception and verdict, once the first deadlines are set, at the time `site`. */
    method Converse(wave: nat, sendDeadline: u32, receiveDeadline: u32, smallUs: u32, response0: seq<byte>,
                    ghost site: nat, ghost requestLength: nat, ghost timeoutUs: u32)
      returns (r: Outcome<()>, response: seq<byte>, ghost log: TxLog)
      requires Valid() && wave in hw.live
      requires site == hw.now && sendDeadline == Wrap32(site) + CharsUs(requestLength)
      requires receiveDeadline == Wrap32(site) + timeoutUs && smallUs == SmallTimeout(timeoutUs)
      modifies hw`now, hw`trace, hw`faults, hw`sent, hw`polls, hw`stream, buf, `history
      ensures Valid() && old(history) <= history
      ensures old(hw.sent) <= hw.sent
      ensures Transaction(hw.live[wave], response0, old(hw.stream), log.taken, hw.sent[|old(hw.sent)|..], r, response)
      ensures r.Panic? || old(hw.stream) == log.taken + hw.stream
      ensures hw.faults == old(hw.faults) + if IsFault(r) then 1 else 0
      ensures log.sites != [] && log.sites[0] == site && Times(site, log.sites, hw.now) && log.end == hw.now
      ensures r.Panic? <==> Overflows(0, [TIMEOUT_RECEIVE_US, smallUs], log.sites[1..])
      ensures r.Unending? ==>
                || CanHang(hw.latency, waitStep, [TIMEOUT_RECEIVE_US, smallUs], log.sites[1..])
                || (|log.sites| == 1 && (Missable(hw.latency, waitStep, sendDeadline) || Missable(hw.latency, waitStep, receiveDeadline)))
      ensures r != Err(Overflow)
      ensures Timely(hw.latency, waitStep, requestLength, timeoutUs, r, log)
      ensures InTime(hw.latency, waitStep, requestLength, timeoutUs, log)
      ensures Heard(old(hw.trace), hw.trace, rxPin, txPin, waitStep, r == Err(RecvTimeout))
      ensures Ready(hw, response0, old(hw.stream)) ==> r != Err(RecvTimeout)
    {
      hide OnePass, Valid, Judge, Answer, Checksum, CanHang, Looked, HeardInTime, AnsweredInTime, InTime, Sends, Heard, Ready;
      ghost var trace := hw.trace;
      response := response0;
      NothingTaken(response0);
      ghost var frame, sent0 := hw.live[wave], hw.sent;
      var request, busy, start, _ := SendWait(wave, sendDeadline, RequestWave);
      SendsFit(trace, hw.trace, wave, rxPin, txPin, waitStep, |busy|, request);
      ghost var trace1 := hw.trace;
      log := LogAt(hw.now).(sites := [site], starts := [start]);
      assert hw.sent[|sent0|..] == [frame];
      if request.IsFailure() {
        NotHeard(hw.latency, waitStep, receiveDeadline, hw.now);
        SilentInTime(hw.latency, waitStep, smallUs, hw.now);
        PhasesInTime(hw.latency, waitStep, requestLength, timeoutUs, log, [], [], []);
        return request.PropagateFailure<()>(), response, log;
      }
      ghost var sent1 := hw.sent;
      r, response, log := AwaitReply(receiveDeadline, smallUs, response0, frame, site, start, requestLength, timeoutUs);
      assert hw.sent[|sent0|..] == [frame] + hw.sent[|sent1|..];
      MadeInTurn(trace, trace1, hw.trace, rxPin, txPin, waitStep, r == Err(RecvTimeout));
    }

    /** The timed part of a transaction: the first deadlines, then the conversation. */
    method Transact(wave: nat, requestLength: nat, response0: seq<byte>, timeout: Duration)
      returns (r: Outcome<()>, response: seq<byte>, ghost log: TxLog)
      requires Valid() && wave in hw.live
      requires 1 <= requestLength < BLOCK_MAX_LENGTH
      modifies hw`now, hw`trace, hw`faults, hw`sent, hw`polls, hw`stream, buf, `history
      ensures Valid() && old(history) <= history
      ensures old(hw.sent) <= hw.sent
      ensures Transaction(hw.live[wave], response0, old(hw.stream), log.taken, hw.sent[|old(hw.sent)|..], r, response)
      ensures r.Panic? || old(hw.stream) == log.taken + hw.stream
      ensures hw.faults == old(hw.faults) + if IsFault(r) then 1 else 0
      ensures Times(old(hw.now), log.sites, hw.now) && log.end == hw.now
      ensures r == Err(Overflow) <==> AsMicros32(timeout).Err?
      ensures AsMicros32(timeout).Ok? ==>
                var us := AsMicros32(timeout).value;
                && (r.Panic? <==> Overflows(0, DeadlineAmounts(requestLength, us), log.sites))
                && (r.Unending? ==> CanHang(hw.latency, waitStep, DeadlineAmounts(requestLength, us), log.sites))
                && Timely(hw.latency, waitStep, requestLength, us, r, log)
                && (log.starts != [] ==> InTime(hw.latency, waitStep, requestLength, us, log))
      ensures Heard(old(hw.trace), hw.trace, rxPin, txPin, waitStep, r == Err(RecvTimeout))
      ensures Ready(hw, response0, old(hw.stream)) ==> r != Err(RecvTimeout)
    {
      hide OnePass, Valid, Judge, Answer, Checksum, Bounded, CanHang, Transaction, SendTimely, InTime, Heard, Ready;
      ghost var trace := hw.trace;
      NothingMade(trace, rxPin, txPin, waitStep);
      response, log := response0, LogAt(hw.now);
      NothingDone(hw.live[wave], response0, hw.stream);
      assert hw.sent[|old(hw.sent)|..] == [];
      var timeoutUs :- AsMicros32(timeout);
      var ioStart := hw.TickSince(0);
      ghost var site, trace1 := hw.now, hw.trace;
      OneMade(trace, Look, rxPin, txPin, waitStep);
      log := LogAt(site).(sites := [site]);
      var receiveDeadline := CheckedAdd32(ioStart, timeoutUs);
      var sendDeadline := CheckedAdd32(ioStart, CharsUs(requestLength));
      if receiveDeadline.None? || sendDeadline.None? {
        return Panic, response, log;
      }
      r, response, log :=
        Converse(wave, sendDeadline.value, receiveDeadline.value, SmallTimeout(timeoutUs), response0, site, requestLength, timeoutUs);
      MadeInTurn(trace, trace1, hw.trace, rxPin, txPin, waitStep, r == Err(RecvTimeout));
      FirstDeadlines(hw.latency, waitStep, requestLength, timeoutUs, site, log.sites[1..]);
      assert log.sites == [site] + log.sites[1..];
    }

    /** tx: sends one request block and receives the reply to it. */
    method Tx(request: seq<byte>, response0: seq<byte>, timeout: Duration)
      returns (r: Outcome<()>, response: seq<byte>, ghost log: TxLog)
      requires Valid()
      modifies hw, buf, `history
      ensures Valid() && old(history) <= history
      ensures hw.live == old(hw.live) && old(hw.sent) <= hw.sent
      // Bad lengths panic before anything is touched.
      ensures !(1 <= |request| < BLOCK_MAX_LENGTH) ==>
                r.Panic? && unchanged(hw) && unchanged(buf) && response == response0 && log.taken == [] && log.sites == []
      ensures 1 <= |request| < BLOCK_MAX_LENGTH ==>
                && Transaction(Frame(request, old(buf[..])), response0, old(hw.stream), log.taken, hw.sent[|old(hw.sent)|..], r, response)
                && (r.Panic? || old(hw.stream) == log.taken + hw.stream)
                && hw.faults == old(hw.faults) + (if IsFault(r) then 1 else 0)
                && Times(old(hw.now), log.sites, log.end) && log.end <= hw.now <= log.end + hw.latency
      ensures 1 <= |request| < BLOCK_MAX_LENGTH && AsMicros32(timeout).Ok? ==>
                var us := AsMicros32(timeout).value;
                && (r.Panic? <==> Overflows(0, DeadlineAmounts(|request|, us), log.sites))
                && (r.Unending? ==> CanHang(hw.latency, waitStep, DeadlineAmounts(|request|, us), log.sites))
                && Timely(hw.latency, waitStep, |request|, us, r, log)
                && (log.starts != [] ==> InTime(hw.latency, waitStep, |request|, us, log))
      ensures 1 <= |request| < BLOCK_MAX_LENGTH && AsMicros32(timeout).Err? ==> r == Err(Overflow) || IsFault(r)
      // The calls made: a wave for the transmit pin, the conversation, and the wave deleted again.
      ensures 1 <= |request| < BLOCK_MAX_LENGTH ==>
                TxCalls(old(hw.trace), hw.trace, rxPin, txPin, waitStep, Frame(request, old(buf[..])), r)
      ensures Ready(hw, response0, old(hw.stream)) ==> r != Err(RecvTimeout)
    {
      hide OnePass, Remembers, Judge, Answer, Checksum, CanHang, DeadlineAmounts, WithRequest, InTime, Ready, TxCalls, Timely,
           Transaction, Overflows, Times;
      if |request| == 0 || |request| >= BLOCK_MAX_LENGTH {
        return Panic, response0, LogAt(hw.now);
      }
      ghost var cells := buf[..];
      FillRequest(request);
      var frame := buf[..2 * |request| + 2];
      assert frame == Frame(request, cells);
      r, response, log := SendFrame(frame, |request|, response0, timeout);
    }

    /** The rest of it, for a frame of n words and one more. Every exit, a panic included, deletes the
        request wave. */
    method SendFrame(frame: seq<byte>, n: nat, response0: seq<byte>, timeout: Duration)
      returns (r: Outcome<()>, response: seq<byte>, ghost log: TxLog)
      requires Valid() && 1 <= n < BLOCK_MAX_LENGTH
      modifies hw, buf, `history
      ensures Valid() && old(history) <= history
      ensures hw.live == old(hw.live) && old(hw.sent) <= hw.sent
      ensures Transaction(frame, response0, old(hw.stream), log.taken, hw.sent[|old(hw.sent)|..], r, response)
      ensures r.Panic? || old(hw.stream) == log.taken + hw.stream
      ensures hw.faults == old(hw.faults) + if IsFault(r) then 1 else 0
      ensures Times(old(hw.now), log.sites, log.end) && log.end <= hw.now <= log.end + hw.latency
      ensures AsMicros32(timeout).Ok? ==>
                var us := AsMicros32(timeout).value;
                && (r.Panic? <==> Overflows(0, DeadlineAmounts(n, us), log.sites))
                && (r.Unending? ==> CanHang(hw.latency, waitStep, DeadlineAmounts(n, us), log.sites))
                && Timely(hw.latency, waitStep, n, us, r, log)
                && (log.starts != [] ==> InTime(hw.latency, waitStep, n, us, log))
      ensures AsMicros32(timeout).Err? ==> r == Err(Overflow) || IsFault(r)
      ensures TxCalls(old(hw.trace), hw.trace, rxPin, txPin, waitStep, frame, r)
      ensures Ready(hw, response0, old(hw.stream)) ==> r != Err(RecvTimeout)
    {
      hide OnePass, Remembers, Judge, Answer, Checksum, Bounded, CanHang, DeadlineAmounts, SendTimely, InTime, Heard, Ready, TxCalls, Gave,
           Timely, Transaction, Overflows;
      ghost var trace, live0 := hw.trace, hw.live;
      response, log := response0, LogAt(hw.now);
      NothingTaken(response0);
      var created := hw.NewSerial(txPin, BAUD, DATA_BITS, STOP_BITS, 0, frame);
      log := LogAt(hw.now);
      if created.IsFailure() {
        assert hw.sent[|hw.sent|..] == [];
        NotCreated(trace, hw.trace, rxPin, txPin, waitStep, frame, created.error);
        NothingSent(hw.latency, waitStep, frame, n, timeout, response0, hw.stream, created.error, log);
        return created.PropagateFailure<()>(), response, log;
      }
      ghost var trace1 := hw.trace;
      r, response, log := Transact(created.value, n, response0, timeout);
      CreatedAndDeleted(trace, trace1, hw.trace, rxPin, txPin, waitStep, frame, created.value, r);
      hw.WaveDelete(created.value);
      assert hw.live == live0;
    }

    static lemma NothingSent(latency: nat, waitStep: u32, frame: seq<byte>, requestLength: nat, timeout: Duration, response0: seq<byte>,
                             words: seq<Word>, error: MdbError, log: TxLog)
      requires error.GpioError? && log.sites == []
      ensures Transaction(frame, response0, words, [], [], Err(error), response0)
      ensures AsMicros32(timeout).Ok? ==>
                var us := AsMicros32(timeout).value;
                && !Overflows(0, DeadlineAmounts(requestLength, us), log.sites)
                && Timely(latency, waitStep, requestLength, us, Err(error), log)
    {
      hide DeadlineAmounts;
    }

    static lemma NotCreated(trace0: seq<Event>, trace1: seq<Event>, rxPin: byte, txPin: byte, waitStep: u32, frame: seq<byte>, error: MdbError)
      requires Gave(trace0, trace1, [AddNew, AddSerial(txPin, 9600, 9, 2, 0, frame)]) && error.GpioError?
      ensures TxCalls(trace0, trace1, rxPin, txPin, waitStep, frame, Err(error))
    {
    }

    static lemma CreatedAndDeleted(trace0: seq<Event>, trace1: seq<Event>, trace2: seq<Event>, rxPin: byte, txPin: byte, waitStep: u32,
                                   frame: seq<byte>, id: nat, r: Outcome<()>)
      requires trace1 == trace0 + WaveCalls(txPin, frame, id)
      requires Heard(trace1, trace2, rxPin, txPin, waitStep, r == Err(RecvTimeout))
      ensures TxCalls(trace0, trace2 + [Delete(id)], rxPin, txPin, waitStep, frame, r)
    {
      hide Heard;
      var trace := trace2 + [Delete(id)];
      assert trace[..|trace| - 1] == trace2;
      assert TransactCalls(trace0, trace, rxPin, txPin, waitStep, frame, id, r == Err(RecvTimeout));
    }

    static lemma NothingDone(frame: seq<byte>, response0: seq<byte>, words: seq<Word>)
      ensures Transaction(frame, response0, words, [], [], Panic, response0)
      ensures Transaction(frame, response0, words, [], [], Err(Overflow), response0)
    {
    }

    static lemma NothingTaken(response0: seq<byte>)
      ensures OnePass(response0, []) == Collecting(response0)
    {
    }
  }
}
