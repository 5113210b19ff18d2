/** What one command may do to the response and to the bus, and when it is not answered at all. */
module Commands {
  import opened Basics
  import opened Wire
  import opened Messages
  import opened Codec
  import opened Frames
  import Block = MdbBlock
  import Polling
  import Mdb

  // ---------------------------------------------------------------- texts

  lemma {:induction false} SevenBitsAreUtf8(s: seq<byte>)
    requires forall i :: 0 <= i < |s| ==> s[i] < 0x80
    ensures ValidUtf8(s)
  {
    if s != [] {
      SevenBitsAreUtf8(s[1..]);
    }
  }

  /** ASCII text as UTF-8 bytes. */
  function Ascii(s: string): (t: Text)
    requires forall i :: 0 <= i < |s| ==> s[i] < 128 as char
    ensures |t| == |s| && forall i :: 0 <= i < |s| ==> t[i] == s[i] as int
  {
    var t := seq(|s|, i requires 0 <= i < |s| => s[i] as byte);
    SevenBitsAreUtf8(t);
    t
  }

  function InvalidCommand(): (t: Text)
    ensures Spells(t, "invalid command")
  {
    Ascii("invalid command")
  }

  function InvalidArgBytes(): (t: Text)
    ensures Spells(t, "invalid arg_bytes")
  {
    Ascii("invalid arg_bytes")
  }

  function MustOpen(): (t: Text)
    ensures Spells(t, "must mdb_open")
  {
    Ascii("must mdb_open")
  }

  predicate Spells(t: seq<byte>, s: string) {
    |t| == |s| && forall i :: 0 <= i < |s| ==> t[i] == s[i] as int
  }

  /** Bound on the text of an error, not counting received bytes spelled out in it. */
  const MAX_TEXT := 1000

  /** Error texts are short, except that a checksum error spells out the response, four characters
      a byte. */
  ghost predicate Terse(display: MdbError -> Text) {
    forall e :: |display(e)| <= MAX_TEXT + 4 * Mdb.Detail(e)
  }

  // ---------------------------------------------------------------- one command

  /** How the server runs: without hardware transmissions, its poll step, and the latency of calls. */
  datatype Setup = Setup(mock: bool, waitStep: u32, latency: nat)

  /** The bus between commands: whether a driver is open, what the device has still to deliver, and the
      receive and the transmit pin of the driver. */
  datatype Bus = Bus(open: bool, words: seq<Block.Word>, pins: seq<byte>)

  function Closed(words: seq<Block.Word>): Bus {
    Bus(false, words, [])
  }

  /** The words of the device make a reply that is accepted. */
  predicate Accepted(words: seq<Block.Word>) {
    && Block.OnePass([], words).Received?
    && Block.Judge(Block.OnePass([], words).response, Block.OnePass([], words).end) == Ok(())
  }

  /** What the words of the device amount to. */
  predicate JudgedAs(words: seq<Block.Word>, r: Outcome<()>) {
    && Block.OnePass([], words).Received?
    && Block.Judge(Block.OnePass([], words).response, Block.OnePass([], words).end) == r
  }

  /** A bare control word is judged by its number; nothing but 0x00 is accepted, and it carries no data. */
  lemma BareWordJudged(b: byte, rest: seq<Block.Word>)
    ensures var words := [Block.Word(b, true)] + rest;
            && JudgedAs(words, if b == 0x00 then Ok(()) else if b == 0xff then Err(MdbNak) else Err(MdbInvalidResponse(b)))
            && (Accepted(words) <==> b == 0x00) && Block.OnePass([], words).response == []
  {
    Mdb.BareWordReceived(b, rest);
  }

  /** From `words` to `left` the device's next reply is used up, with the word that ends it, and no
      more than the rest of a read beyond. */
  predicate UsesReply(words: seq<Block.Word>, left: seq<Block.Word>) {
    var n := |Block.OnePass([], words).response|;
    IsSuffix(left, words) && n + 1 <= |words| - |left| <= n + Block.BLOCK_MAX_LENGTH
  }

  predicate HardwareError(r0: ResponseData, r: ResponseData, limit: nat) {
    r == r0.(status := ERR_HARDWARE, error := r.error) && |r.error| <= limit
  }

  predicate FitsBlock(q: RequestData) {
    1 <= |q.argBytes| < Block.BLOCK_MAX_LENGTH
  }

  /** A transmission that reaches the driver. */
  predicate Transmits(mock: bool, b: Bus, q: RequestData) {
    CommandOrDefault(q.command) == MDB_TX && b.open && !mock
  }

  /** The effect of an answered command. Only whether the hardware works is open, and how many words are
      lost while the reader is closed or a transmission fails. A transmission that succeeds answers with
      the reply of the device and uses it up; one that does not fit a block is never answered. */
  predicate Executes(mock: bool, b0: Bus, q: RequestData, r0: ResponseData, r: ResponseData, ok: bool, b1: Bus) {
    match CommandOrDefault(q.command)
    case INVALID =>
      !ok && b1 == b0 && r == r0.(status := ERR_INPUT, error := InvalidCommand())
    case STOP =>
      ok && b1 == b0 && r == r0.(status := OK)
    case MDB_OPEN =>
      && b1.open == ok && IsSuffix(b1.words, b0.words) && b1.pins == (if ok then q.argBytes else [])
      && (|q.argBytes| != 2 ==> !ok && r == r0.(status := ERR_INPUT, error := InvalidArgBytes()))
      && (|q.argBytes| == 2 ==> if ok then r == r0.(status := OK) else HardwareError(r0, r, MAX_TEXT))
    case MDB_RESET =>
      && b1 == b0
      && (!b0.open ==> !ok && r == r0.(status := ERR_INPUT, error := MustOpen()))
      && (b0.open && ok ==> q.argUint <= 4_294_967 && r == r0.(status := OK))
      && (b0.open && !ok ==> HardwareError(r0, r, MAX_TEXT))
    case MDB_TX =>
      if !b0.open then !ok && b1 == b0 && r == r0.(status := ERR_INPUT, error := MustOpen())
      else if mock then ok && b1 == b0 && r == r0.(status := OK, dataBytes := r0.dataBytes + q.argBytes)
      else
        && FitsBlock(q)
        && b1.open && IsSuffix(b1.words, b0.words) && b1.pins == b0.pins
        && (ok ==> Accepted(b0.words) && UsesReply(b0.words, b1.words))
        && (ok ==> r == r0.(status := OK, dataBytes := r0.dataBytes + Block.OnePass([], b0.words).response))
        && (!ok ==> HardwareError(r0, r, MAX_TEXT + 4 * (|b0.words| - |b1.words|)))
  }

  lemma ExecutesOther(mock: bool, b: Bus, q: RequestData, r0: ResponseData, r: ResponseData)
    requires q.command !in {1, 2, 3}
    requires r == if q.command == 100 then r0.(status := OK) else r0.(status := ERR_INPUT, error := InvalidCommand())
    ensures Executes(mock, b, q, r0, r, q.command == 100, b) && r.status == if q.command == 100 then 1 else 2
    ensures !Reaches(b.open, q) && !Transmits(mock, b, q)
  {
  }

  lemma ExecutesOpen(mock: bool, b0: Bus, q: RequestData, r0: ResponseData, r: ResponseData, ok: bool, b1: Bus)
    requires q.command == 1 && b1.open == ok && IsSuffix(b1.words, b0.words) && b1.pins == if ok then q.argBytes else []
    requires |q.argBytes| != 2 ==> !ok && r == r0.(status := ERR_INPUT, error := InvalidArgBytes())
    requires |q.argBytes| == 2 ==> if ok then r == r0.(status := OK) else HardwareError(r0, r, MAX_TEXT)
    ensures Executes(mock, b0, q, r0, r, ok, b1) && r.status == if ok then 1 else if |q.argBytes| == 2 then 6 else 2
  {
    hide IsSuffix, InvalidArgBytes;
  }

  lemma ExecutesReset(mock: bool, b: Bus, q: RequestData, r0: ResponseData, r: ResponseData, ok: bool)
    requires q.command == 2
    requires !b.open ==> !ok && r == r0.(status := ERR_INPUT, error := MustOpen())
    requires b.open && ok ==> q.argUint <= 4_294_967 && r == r0.(status := OK)
    requires b.open && !ok ==> HardwareError(r0, r, MAX_TEXT)
    ensures Executes(mock, b, q, r0, r, ok, b) && r.status == if ok then 1 else if b.open then 6 else 2
  {
    hide MustOpen;
  }

  lemma ExecutesTx(mock: bool, b0: Bus, q: RequestData, r0: ResponseData, r: ResponseData, ok: bool, b1: Bus)
    requires q.command == 3
    requires !b0.open ==> !ok && b1 == b0 && r == r0.(status := ERR_INPUT, error := MustOpen())
    requires b0.open && mock ==> ok && b1 == b0 && r == r0.(status := OK, dataBytes := r0.dataBytes + q.argBytes)
    requires b0.open && !mock ==>
               && FitsBlock(q) && b1.open && b1.pins == b0.pins && IsSuffix(b1.words, b0.words)
               && (ok ==> Accepted(b0.words) && UsesReply(b0.words, b1.words))
               && (ok ==> r == r0.(status := OK, dataBytes := r0.dataBytes + Block.OnePass([], b0.words).response))
               && (!ok ==> HardwareError(r0, r, MAX_TEXT + 4 * (|b0.words| - |b1.words|)))
    ensures Executes(mock, b0, q, r0, r, ok, b1) && r.status == if ok then 1 else if b0.open then 6 else 2
  {
    hide MustOpen, Accepted, UsesReply, Block.OnePass, IsSuffix;
  }

  /** The numbers of the commands that get as far as the hardware: opening with two pins, and resetting
      or transmitting over an open bus. */
  predicate Reaches(open: bool, q: RequestData) {
    (q.command == 1 && |q.argBytes| == 2) || (open && q.command in {2, 3})
  }

  /** A command is answered OK exactly when it succeeded, else as an input or hardware error. */
  lemma StatusOfCommand(mock: bool, b0: Bus, q: RequestData, r0: ResponseData, r: ResponseData, ok: bool, b1: Bus)
    requires Executes(mock, b0, q, r0, r, ok, b1)
    ensures r.version == r0.version && r.status in {1, 2, 6}
    ensures r0.error == [] && r0.dataBytes == [] ==> r.error == [] || r.dataBytes == []
    ensures ok <==> r.status == 1
    ensures !ok ==> r.status == if Reaches(b0.open, q) then 6 else 2
    ensures b1.open == if q.command == 1 then ok else b0.open
    ensures b1.pins == if q.command == 1 then (if ok then q.argBytes else []) else b0.pins
    ensures IsSuffix(b1.words, b0.words) && (Transmits(mock, b0, q) ==> FitsBlock(q))
  {
    hide InvalidCommand, InvalidArgBytes, MustOpen, Accepted;
    assert b0.words[0..] == b0.words;
  }

  /** What is answered besides the status: the text of each refusal, and the data of an echo. */
  lemma TextOfRefusal(mock: bool, b0: Bus, q: RequestData, r0: ResponseData, r: ResponseData, ok: bool, b1: Bus)
    requires Executes(mock, b0, q, r0, r, ok, b1)
    ensures !ok && q.command !in {1, 2, 3} ==> Spells(r.error, "invalid command")
    ensures !ok && q.command == 1 && |q.argBytes| != 2 ==> Spells(r.error, "invalid arg_bytes")
    ensures !ok && q.command in {2, 3} && !b0.open ==> Spells(r.error, "must mdb_open")
    ensures ok ==> r.error == r0.error
    ensures ok && q.command == 3 && mock ==> r.dataBytes == r0.dataBytes + q.argBytes
    ensures q.command != 3 || !ok ==> r.dataBytes == r0.dataBytes
    ensures ok <==> q.command == 100 || (Reaches(b0.open, q) && r.status == 1)
  {
    hide InvalidCommand, InvalidArgBytes, MustOpen, Accepted, UsesReply;
  }

  // ---------------------------------------------------------------- answers fit their frames

  /** A response without a version, short of 2^32 bytes by enough for its field headers. */
  lemma ShortResponseFits(r: ResponseData)
    requires r.version == 0 && |r.error| + |r.dataBytes| < 0xffff_ff00
    ensures FramableResponse(r)
  {
    hide EncodeRecord, EncodeRecords, EncodeResponse;
    EncodeNone();
    ResponseFields(r);
    if r.status != 0 {
      VarintField(2, SignExtend(r.status));
    }
    if r.error != [] {
      BytesField(3, r.error);
    }
    if r.dataBytes != [] {
      BytesField(4, r.dataBytes);
    }
  }

  /** An echoed transmission is no longer than the request that carried it. */
  lemma EchoFits(q: RequestData)
    requires Framable(q) && CommandOrDefault(q.command) == MDB_TX
    ensures FramableResponse(NewResponse.(status := OK, dataBytes := q.argBytes))
  {
    hide EncodeRecord, EncodeRecords, EncodeResponse, EncodeRequest;
    var r := NewResponse.(status := OK, dataBytes := q.argBytes);
    EncodeNone();
    RequestFields(q);
    ResponseFields(r);
    VarintField(2, SignExtend(q.command));
    VarintField(2, SignExtend(OK));
    if q.argBytes != [] {
      BytesField(5, q.argBytes);
      BytesField(4, q.argBytes);
    }
  }

  /** Every answer fits its length prefix, unless the device still has 2^29 words to deliver. */
  lemma AnswerFits(mock: bool, b0: Bus, q: RequestData, r: ResponseData, ok: bool, b1: Bus)
    requires Executes(mock, b0, q, NewResponse, r, ok, b1)
    requires |b0.words| < 0x2000_0000 && (mock ==> Framable(q))
    ensures FramableResponse(r)
  {
    hide FramableResponse, Framable, Block.FirstMark, Block.Judge;
    if CommandOrDefault(q.command) == MDB_TX && b0.open && mock {
      EchoFits(q);
      assert NewResponse.dataBytes + q.argBytes == q.argBytes;
    } else {
      ShortResponseFits(r);
    }
  }

  // ---------------------------------------------------------------- commands that are not answered

  datatype RunEnd = Stopped | Eof | Panicked | Unfinished

  function Amounts(q: RequestData): (a: seq<nat>)
    ensures |a| == 3
  {
    Mdb.DeadlineAmounts(|q.argBytes|, 300_000)
  }

  ghost predicate AnswerTooLong(mock: bool, b: Bus, q: RequestData) {
    exists r: ResponseData, ok, b1 :: Executes(mock, b, q, NewResponse, r, ok, b1) && !FramableResponse(r)
  }

  /** How a command can go unanswered. `sites` are the times at which its transaction computed
      deadlines. It panics exactly under the conditions given; it fails to end only if its last deadline
      can be missed. */
  ghost predicate Breaks(setup: Setup, b: Bus, q: RequestData, end: RunEnd, sites: seq<nat>) {
    match end
    case Panicked =>
      || (Transmits(setup.mock, b, q) && (!FitsBlock(q) || Mdb.Overflows(0, Amounts(q), sites)))
      || AnswerTooLong(setup.mock, b, q)
    case Unfinished =>
      Transmits(setup.mock, b, q) && FitsBlock(q) && Mdb.CanHang(setup.latency, setup.waitStep, Amounts(q), sites)
    case _ => false
  }

  /** No deadline computed at these times, with the 300 ms timeout, comes within a poll of the wrap. */
  ghost predicate ClockSafe(setup: Setup, sites: seq<nat>) {
    forall i :: 0 <= i < |sites| ==> Wrap32(sites[i]) + 300_000 + Polling.LookSpan(setup.latency, setup.waitStep) <= 0xffff_ffff
  }

  /** A command that is sure to be answered. */
  ghost predicate Calm(setup: Setup, b: Bus, q: RequestData, sites: seq<nat>) {
    && (Transmits(setup.mock, b, q) ==> FitsBlock(q) && setup.waitStep >= 1 && ClockSafe(setup, sites))
    && |b.words| < 0x2000_0000 && (setup.mock ==> Framable(q))
  }

  lemma CalmIsAnswered(setup: Setup, b: Bus, q: RequestData, end: RunEnd, sites: seq<nat>)
    requires Calm(setup, b, q, sites)
    ensures !Breaks(setup, b, q, end, sites)
  {
    hide Executes, FramableResponse, Framable, Amounts;
    if AnswerTooLong(setup.mock, b, q) {
      var r: ResponseData, ok, b1 :| Executes(setup.mock, b, q, NewResponse, r, ok, b1) && !FramableResponse(r);
      AnswerFits(setup.mock, b, q, r, ok, b1);
    }
    if Transmits(setup.mock, b, q) {
      AmountsFit(0, q, sites);
      AmountsFit(Polling.LookSpan(setup.latency, setup.waitStep), q, sites);
    }
  }

  lemma AmountsFit(margin: nat, q: RequestData, sites: seq<nat>)
    requires FitsBlock(q)
    requires forall i :: 0 <= i < |sites| ==> Wrap32(sites[i]) + 300_000 + margin <= 0xffff_ffff
    ensures !Mdb.Overflows(margin, Amounts(q), sites)
  {
    Mdb.DeadlinesFit(margin, |q.argBytes|, sites);
  }

  /** A transmission over an open bus that does not fit a block is never answered, whatever the
      hardware does: it panics, before any deadline is computed. */
  lemma BadLengthIsNeverAnswered(setup: Setup, b: Bus, q: RequestData)
    requires Transmits(setup.mock, b, q) && !FitsBlock(q)
    ensures forall r: ResponseData, ok, b1 :: !Executes(setup.mock, b, q, NewResponse, r, ok, b1)
    ensures Breaks(setup, b, q, Panicked, [])
    ensures forall sites :: !Breaks(setup, b, q, Unfinished, sites)
  {
  }
}
