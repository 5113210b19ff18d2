/** The block format of the bus, independently of how it is read and written: checksums,
    replies as a stream of nine-bit words, request frames and the cells they are built from. */
module MdbBlock {
  import opened Basics

  const BLOCK_MAX_LENGTH := 40
  const RESPONSE_ACK: byte := 0x00
  const RESPONSE_NAK: byte := 0xff

  /** A nine-bit word: eight data bits and the mode bit. */
  datatype Word = Word(data: byte, mark: bool)

  // ---------------------------------------------------------------- checksum

  /** The wrapping left fold of the source. */
  function Checksum(b: seq<byte>): byte {
    if b == [] then 0 else (Checksum(b[..|b| - 1]) + b[|b| - 1]) % 0x100
  }

  /** The unbounded sum the checksum is a residue of. */
  function Sum(b: seq<byte>): nat {
    if b == [] then 0 else Sum(b[..|b| - 1]) + b[|b| - 1]
  }

  lemma {:induction false} ChecksumIsSum(b: seq<byte>)
    ensures Checksum(b) == Sum(b) % 0x100
  {
    if b != [] {
      ChecksumIsSum(b[..|b| - 1]);
      WrapsOnce(Sum(b[..|b| - 1]), b[|b| - 1]);
    }
  }

  lemma WrapsOnce(sum: nat, x: byte)
    ensures (sum % 0x100 + x) % 0x100 == (sum + x) % 0x100
  {
  }

  lemma {:induction false} SumUpdate(b: seq<byte>, i: nat, x: byte)
    requires i < |b|
    ensures Sum(b[i := x]) == Sum(b) - b[i] + x
  {
    var n := |b| - 1;
    if i == n {
      assert b[i := x][..n] == b[..n];
    } else {
      assert b[i := x][..n] == b[..n][i := x];
      SumUpdate(b[..n], i, x);
    }
  }

  /** The checksum sees every change of a single byte. */
  lemma ChecksumSeesOneByte(b: seq<byte>, i: nat, x: byte)
    requires i < |b|
    ensures Checksum(b[i := x]) == Checksum(b) <==> x == b[i]
  {
    hide Checksum, Sum;
    ChecksumIsSum(b);
    ChecksumIsSum(b[i := x]);
    SumUpdate(b, i, x);
    ResidueMoves(Sum(b), x - b[i]);
  }

  lemma ResidueMoves(s: nat, d: int)
    requires -0x100 < d < 0x100
    ensures (s + d) % 0x100 == s % 0x100 <==> d == 0
  {
  }

  // ---------------------------------------------------------------- replies

  function Data(ws: seq<Word>): (b: seq<byte>)
    ensures |b| == |ws|
    ensures forall i :: 0 <= i < |ws| ==> b[i] == ws[i].data
  {
    seq(|ws|, i requires 0 <= i < |ws| => ws[i].data)
  }

  /** No word in [lo, hi) has the mode bit. */
  predicate Unmarked(ws: seq<Word>, lo: nat, hi: nat)
    requires hi <= |ws|
  {
    forall i :: lo <= i < hi ==> !ws[i].mark
  }

  /** Index of the first word with the mode bit, or the length when there is none. */
  function FirstMark(ws: seq<Word>): (m: nat)
    ensures m <= |ws|
    ensures Unmarked(ws, 0, m)
    ensures m < |ws| ==> ws[m].mark
  {
    if ws == [] || ws[0].mark then 0 else 1 + FirstMark(ws[1..])
  }

  predicate Complete(ws: seq<Word>) {
    FirstMark(ws) < |ws|
  }

  lemma FirstMarkAppend(a: seq<Word>, b: seq<Word>)
    ensures FirstMark(a + b) == if Complete(a) then FirstMark(a) else |a| + FirstMark(b)
  {
    var f, m := FirstMark(a + b), if Complete(a) then FirstMark(a) else |a| + FirstMark(b);
    assert Unmarked(a + b, 0, m);
    assert m < |a + b| ==> (a + b)[m].mark;
  }

  /** Progress of a receiver: still collecting, or done with an end byte. */
  datatype Rx = Collecting(response: seq<byte>) | Received(response: seq<byte>, end: byte)

  /** One pass over the whole stream. */
  function OnePass(response: seq<byte>, ws: seq<Word>): Rx {
    var m := FirstMark(ws);
    if m < |ws| then Received(response + Data(ws[..m]), ws[m].data)
    else Collecting(response + Data(ws))
  }

  /** The word-by-word scan of one read, stopping at a marked word. */
  function ScanChunk(response: seq<byte>, chunk: seq<Word>): Rx
    decreases |chunk|
  {
    if chunk == [] then Collecting(response)
    else if chunk[0].mark then Received(response, chunk[0].data)
    else ScanChunk(response + [chunk[0].data], chunk[1..])
  }

  /** The receive loop: scan read after read until one of them ends the reply. */
  function ScanChunks(response: seq<byte>, chunks: seq<seq<Word>>): Rx
    decreases |chunks|
  {
    if chunks == [] then Collecting(response)
    else
      match ScanChunk(response, chunks[0])
      case Received(r, e) => Received(r, e)
      case Collecting(r) => ScanChunks(r, chunks[1..])
  }

  function Concat(chunks: seq<seq<Word>>): seq<Word> {
    if chunks == [] then [] else chunks[0] + Concat(chunks[1..])
  }

  lemma {:induction false} ScanChunkIsOnePass(response: seq<byte>, chunk: seq<Word>)
    ensures ScanChunk(response, chunk) == OnePass(response, chunk)
    decreases |chunk|
  {
    if chunk == [] {
      assert response + Data([]) == response;
    } else if chunk[0].mark {
      assert response + Data(chunk[..0]) == response;
    } else {
      ScanChunkIsOnePass(response + [chunk[0].data], chunk[1..]);
      var m := FirstMark(chunk[1..]);
      assert response + [chunk[0].data] + Data(chunk[1..]) == response + Data(chunk);
      assert response + [chunk[0].data] + Data(chunk[1..][..m]) == response + Data(chunk[..m + 1]);
    }
  }

  lemma {:induction false} OnePassAppend(response: seq<byte>, a: seq<Word>, b: seq<Word>)
    ensures OnePass(response, a + b) ==
            match OnePass(response, a)
            case Received(r, e) => Received(r, e)
            case Collecting(r) => OnePass(r, b)
  {
    FirstMarkAppend(a, b);
    var m := FirstMark(a);
    if m < |a| {
      assert (a + b)[..m] == a[..m];
    } else {
      var k := FirstMark(b);
      assert (a + b)[..|a| + k] == a + b[..k];
      DataAppend(response, a, b[..k]);
      DataAppend(response, a, b);
    }
  }

  lemma DataAppend(response: seq<byte>, a: seq<Word>, b: seq<Word>)
    ensures response + Data(a) + Data(b) == response + Data(a + b)
  {
  }

  /** Chunk independence: however the stream is cut into reads, the loop computes one pass. */
  lemma {:induction false} ChunkIndependence(response: seq<byte>, chunks: seq<seq<Word>>)
    ensures ScanChunks(response, chunks) == OnePass(response, Concat(chunks))
    decreases |chunks|
  {
    if chunks == [] {
      assert response + Data([]) == response;
    } else {
      ScanChunkIsOnePass(response, chunks[0]);
      OnePassAppend(response, chunks[0], Concat(chunks[1..]));
      match ScanChunk(response, chunks[0])
      case Received(_, _) =>
      case Collecting(r) => ChunkIndependence(r, chunks[1..]);
    }
  }

  /** No word delivered is lost or invented: each is in the response, is the end byte, or is in
      the unread tail of the read that ended the reply. */
  lemma {:induction false} DeliveredWordsAccounted(chunks: seq<seq<Word>>)
    requires ScanChunks([], chunks).Received?
    ensures exists k: nat | k < |chunks| && ScanChunks([], chunks[..k]).Collecting? ::
              var m := FirstMark(chunks[k]);
              && m < |chunks[k]|
              && Data(Concat(chunks[..k + 1]))
                 == ScanChunks([], chunks).response + [ScanChunks([], chunks).end] + Data(chunks[k][m + 1..])
  {
    hide OnePass, ScanChunk;
    var k := EndingRead([], chunks);
    assert chunks[..k + 1] == chunks[..k] + [chunks[k]];
    ConcatAppend(chunks[..k], [chunks[k]]);
    assert Concat([chunks[k]]) == chunks[k] + Concat([]) == chunks[k];
    ChunkIndependence([], chunks[..k]);
    ChunkIndependence([], chunks[..k + 1]);
    TailOfRead(Concat(chunks[..k]), chunks[k]);
  }

  lemma TailOfRead(before: seq<Word>, last: seq<Word>)
    requires OnePass([], before).Collecting? && OnePass([], before + last).Received?
    ensures var rx := OnePass([], before + last);
            Complete(last) && Data(before + last) == rx.response + [rx.end] + Data(last[FirstMark(last) + 1..])
  {
    OnePassAppend([], before, last);
    var m := FirstMark(last);
    hide FirstMark;
    assert [] + Data(before) == Data(before);
    DataCut(before, last, m);
  }

  lemma DataCut(before: seq<Word>, last: seq<Word>, m: nat)
    requires m < |last|
    ensures Data(before + last) == Data(before) + Data(last[..m]) + [last[m].data] + Data(last[m + 1..])
  {
  }

  lemma {:induction false} ConcatAppend(a: seq<seq<Word>>, b: seq<seq<Word>>)
    ensures Concat(a + b) == Concat(a) + Concat(b)
    decreases |a|
  {
    if a == [] {
      assert a + b == b;
    } else {
      ConcatAppend(a[1..], b);
      assert (a + b)[1..] == a[1..] + b;
    }
  }

  /** The read whose scan ends the reply. */
  lemma {:induction false} EndingRead(response: seq<byte>, chunks: seq<seq<Word>>) returns (k: nat)
    requires ScanChunks(response, chunks).Received?
    ensures k < |chunks|
    ensures ScanChunks(response, chunks[..k]).Collecting?
    ensures ScanChunks(response, chunks[..k + 1]) == ScanChunks(response, chunks)
    decreases |chunks|
  {
    match ScanChunk(response, chunks[0])
    case Received(_, _) =>
      k := 0;
    case Collecting(r) =>
      k := EndingRead(r, chunks[1..]);
      assert chunks[..k + 1][1..] == chunks[1..][..k];
      assert chunks[..k + 2][1..] == chunks[1..][..k + 1];
      k := k + 1;
  }

  // ---------------------------------------------------------------- verdicts

  /** The verdicts of the protocol, as opposed to failures of the machinery. */
  predicate IsVerdict<T>(r: Outcome<T>) {
    r.Ok? || (r.Err? && (r.error.MdbNak? || r.error.MdbInvalidResponse? || r.error.MdbChecksum?))
  }

  /** What a complete reply means to the master. */
  function Judge(response: seq<byte>, end: byte): (r: Outcome<()>)
    ensures IsVerdict(r)
  {
    if response == [] then
      if end == RESPONSE_ACK then Ok(())
      else if end == RESPONSE_NAK then Err(MdbNak)
      else Err(MdbInvalidResponse(end))
    else if end != Checksum(response) then Err(MdbChecksum(Checksum(response), end, response))
    else Ok(())
  }

  /** The single-word wave sent back: nothing after a bare control word. */
  function Answer(response: seq<byte>, end: byte): seq<seq<byte>> {
    if response == [] then []
    else if end != Checksum(response) then [[RESPONSE_NAK, 0]]
    else [[RESPONSE_ACK, 0]]
  }

  /** A block as a peripheral sends it: data words, then the checksum with the mode bit. */
  function Block(d: seq<byte>): (ws: seq<Word>)
    ensures |ws| == |d| + 1
  {
    seq(|d|, i requires 0 <= i < |d| => Word(d[i], false)) + [Word(Checksum(d), true)]
  }

  lemma BlockIsReceived(d: seq<byte>, rest: seq<Word>)
    ensures OnePass([], Block(d) + rest) == Received(d, Checksum(d))
  {
    var ws := Block(d) + rest;
    assert Unmarked(ws, 0, |d|) && ws[|d|].mark;
    assert FirstMark(ws) == |d|;
    assert [] + Data(ws[..|d|]) == d;
  }

  /** End-to-end integrity, the good case: an intact block is accepted and acknowledged,
      in any chunking and whatever follows it. */
  lemma IntactReplyAccepted(d: seq<byte>, rest: seq<Word>, chunks: seq<seq<Word>>)
    requires d != []
    requires Concat(chunks) == Block(d) + rest
    ensures ScanChunks([], chunks) == Received(d, Checksum(d))
    ensures Judge(d, Checksum(d)) == Ok(())
    ensures Answer(d, Checksum(d)) == [[RESPONSE_ACK, 0]]
  {
    ChunkIndependence([], chunks);
    BlockIsReceived(d, rest);
  }

  /** End-to-end integrity, the bad case: changing the value of exactly one word, data or
      checksum, is always detected and refused. */
  lemma CorruptReplyRefused(d: seq<byte>, i: nat, x: byte, rest: seq<Word>, chunks: seq<seq<Word>>)
    requires d != [] && i <= |d|
    requires x != Block(d)[i].data
    requires Concat(chunks) == Block(d)[i := Block(d)[i].(data := x)] + rest
    ensures var r := ScanChunks([], chunks);
            && r.Received?
            && Judge(r.response, r.end) == Err(MdbChecksum(Checksum(r.response), r.end, r.response))
            && Answer(r.response, r.end) == [[RESPONSE_NAK, 0]]
  {
    ChunkIndependence([], chunks);
    var ws := Concat(chunks);
    assert Unmarked(ws, 0, |d|) && ws[|d|].mark;
    assert FirstMark(ws) == |d|;
    if i < |d| {
      assert [] + Data(ws[..|d|]) == d[i := x];
      ChecksumSeesOneByte(d, i, x);
    } else {
      assert [] + Data(ws[..|d|]) == d;
    }
  }

  // ---------------------------------------------------------------- request frames

  /** The cell holding the mode bit of word k. */
  function FlagByte(cells: seq<byte>, k: nat): byte
    requires 2 * k + 1 < |cells|
  {
    cells[2 * k + 1]
  }

  /** The cells that a request leaves in a buffer holding `cells`: even cells and cell 1 are
      written, the other odd cells are not. */
  function WithRequest(request: seq<byte>, cells: seq<byte>): (r: seq<byte>)
    requires 2 * |request| + 2 <= |cells|
    ensures |r| == |cells|
  {
    seq(|cells|, j requires 0 <= j < |cells| =>
      if j % 2 == 1 then (if j == 1 then 1 else cells[j])
      else if j / 2 < |request| then request[j / 2]
      else if j / 2 == |request| then Checksum(request)
      else cells[j])
  }

  /** The bytes handed to the wave generator. */
  function Frame(request: seq<byte>, cells: seq<byte>): (r: seq<byte>)
    requires 2 * |request| + 2 <= |cells|
    ensures |r| == 2 * |request| + 2
  {
    WithRequest(request, cells)[..2 * |request| + 2]
  }

  /** Two bytes a word, as the wave generator reads them with nine data bits. */
  function Words(frame: seq<byte>): (ws: seq<Word>)
    ensures |ws| == |frame| / 2
  {
    seq(|frame| / 2, i requires 0 <= i < |frame| / 2 => Word(frame[2 * i], frame[2 * i + 1] % 2 == 1))
  }

  lemma Doubles(k: nat)
    ensures (2 * k) / 2 == k == (2 * k + 1) / 2 && (2 * k) % 2 == 0 && (2 * k + 1) % 2 == 1
  {
  }

  /** A frame always carries the request and its checksum; its mode bit is on the first word
      only exactly when the stale odd cells under it are even. */
  lemma FrameMeaning(request: seq<byte>, cells: seq<byte>)
    requires 1 <= |request| && 2 * |request| + 2 <= |cells|
    ensures var ws := Words(Frame(request, cells));
            && Data(ws) == request + [Checksum(request)]
            && ws[0].mark
            && (Unmarked(ws, 1, |ws|) <==> forall k :: 1 <= k <= |request| ==> FlagByte(cells, k) % 2 == 0)
  {
    var f := Frame(request, cells);
    var ws := Words(f);
    forall k | 0 <= k <= |request|
      ensures ws[k].data == if k < |request| then request[k] else Checksum(request)
      ensures ws[k].mark <==> k == 0 || FlagByte(cells, k) % 2 == 1
    {
      FrameCells(request, cells, k);
    }
    assert Data(ws) == request + [Checksum(request)];
  }

  lemma FrameCells(request: seq<byte>, cells: seq<byte>, k: nat)
    requires k <= |request| && 2 * |request| + 2 <= |cells|
    ensures var f := Frame(request, cells);
            && f[2 * k] == (if k < |request| then request[k] else Checksum(request))
            && f[2 * k + 1] == (if k == 0 then 1 else FlagByte(cells, k))
  {
    hide Checksum;
    Doubles(k);
    var w := WithRequest(request, cells);
    assert w[2 * k] == if k < |request| then request[k] else Checksum(request);
    assert w[2 * k + 1] == if k == 0 then 1 else cells[2 * k + 1];
  }

  // ---------------------------------------------------------------- buffer cells

  function Flag(w: Word): byte {
    if w.mark then 1 else 0
  }

  /** The buffer after a read that delivered `chunk`. */
  function Overwrite(cells: seq<byte>, chunk: seq<Word>): (r: seq<byte>)
    requires 2 * |chunk| <= |cells|
    ensures |r| == |cells|
  {
    seq(|cells|, j requires 0 <= j < |cells| =>
      if j >= 2 * |chunk| then cells[j]
      else if j % 2 == 0 then chunk[j / 2].data
      else Flag(chunk[j / 2]))
  }

  /** The buffer starts with the words of `chunk`. */
  ghost predicate Shows(cells: seq<byte>, chunk: seq<Word>) {
    && 2 * |chunk| <= |cells|
    && forall k :: 0 <= k < |chunk| ==> DataByte(cells, k) == chunk[k].data && FlagByte(cells, k) == Flag(chunk[k])
  }

  function DataByte(cells: seq<byte>, k: nat): byte
    requires 2 * k < |cells|
  {
    cells[2 * k]
  }

  lemma OverwriteShows(cells: seq<byte>, chunk: seq<Word>)
    requires 2 * |chunk| <= |cells|
    ensures Shows(Overwrite(cells, chunk), chunk)
  {
    forall k | 0 <= k < |chunk|
      ensures DataByte(Overwrite(cells, chunk), k) == chunk[k].data
      ensures FlagByte(Overwrite(cells, chunk), k) == Flag(chunk[k])
    {
      Doubles(k);
    }
  }

  lemma OverwriteNothing(cells: seq<byte>)
    ensures Overwrite(cells, []) == cells
  {
  }

  /** The flag cell of word k after a history of reads: each read overwrites the words it covers. */
  function FlagCell(initial: seq<byte>, history: seq<seq<Word>>, k: nat): byte
    requires 2 * k + 1 < |initial|
  {
    if history == [] then FlagByte(initial, k)
    else
      var last := history[|history| - 1];
      if k < |last| then Flag(last[k]) else FlagCell(initial, history[..|history| - 1], k)
  }

  predicate Covers(history: seq<seq<Word>>, k: nat, r: int) {
    && 0 <= r < |history| && k < |history[r]|
    && forall q :: r < q < |history| ==> |history[q]| <= k
  }

  /** The flag cell holds what the last read that covered it left there. */
  lemma {:induction false} FlagCellIsLastCover(initial: seq<byte>, history: seq<seq<Word>>, k: nat, r: int)
    requires 2 * k + 1 < |initial|
    requires Covers(history, k, r)
    ensures FlagCell(initial, history, k) == Flag(history[r][k])
    decreases |history|
  {
    var n := |history| - 1;
    if r < n {
      FlagCellIsLastCover(initial, history[..n], k, r);
    }
  }

  lemma {:induction false} FlagCellUncovered(initial: seq<byte>, history: seq<seq<Word>>, k: nat)
    requires 2 * k + 1 < |initial|
    requires forall q :: 0 <= q < |history| ==> |history[q]| <= k
    ensures FlagCell(initial, history, k) == FlagByte(initial, k)
    decreases |history|
  {
    if history != [] {
      FlagCellUncovered(initial, history[..|history| - 1], k);
    }
  }

  /** The read that covered word k last, if any did. */
  function LastCover(history: seq<seq<Word>>, k: nat): (r: Option<nat>)
    ensures r.Some? ==> Covers(history, k, r.value)
    ensures r.None? ==> forall q :: 0 <= q < |history| ==> |history[q]| <= k
  {
    if history == [] then None
    else if k < |history[|history| - 1]| then Some(|history| - 1)
    else LastCover(history[..|history| - 1], k)
  }

  /** Buffer cells agree with a history of reads, cell 1 apart. */
  ghost predicate Remembers(initial: seq<byte>, history: seq<seq<Word>>, cells: seq<byte>) {
    && |cells| == |initial|
    && forall k :: 1 <= k && 2 * k + 1 < |initial| ==> FlagByte(cells, k) == FlagCell(initial, history, k)
  }

  lemma RememberRead(initial: seq<byte>, history: seq<seq<Word>>, cells: seq<byte>, chunk: seq<Word>)
    requires Remembers(initial, history, cells)
    requires 2 * |chunk| <= |cells|
    ensures Remembers(initial, history + [chunk], Overwrite(cells, chunk))
  {
  }

  /** Writing a request leaves the flag cells of all words but the first as they were. */
  lemma RequestKeepsFlags(initial: seq<byte>, history: seq<seq<Word>>, cells: seq<byte>, request: seq<byte>)
    requires Remembers(initial, history, cells)
    requires 2 * |request| + 2 <= |cells|
    ensures Remembers(initial, history, WithRequest(request, cells))
  {
  }

  /** The last read that covered word k left no mark there, or no read did and it started even. */
  predicate LeftClean(initial: seq<byte>, history: seq<seq<Word>>, k: nat)
    requires 2 * k + 1 < |initial|
  {
    match LastCover(history, k)
    case Some(r) => !history[r][k].mark
    case None => FlagByte(initial, k) % 2 == 0
  }

  lemma LeftCleanIsEven(initial: seq<byte>, history: seq<seq<Word>>, k: nat)
    requires 2 * k + 1 < |initial|
    ensures LeftClean(initial, history, k) <==> FlagCell(initial, history, k) % 2 == 0
  {
  }

  /** Frame-flag theorem over whole runs: after any history of reads the next request frame has
      the mode bit on its first word only iff every later word of the frame was left clean. */
  lemma FrameMarkedOnceIff(request: seq<byte>, initial: seq<byte>, history: seq<seq<Word>>, cells: seq<byte>)
    requires 1 <= |request| && 2 * |request| + 2 <= |cells|
    requires Remembers(initial, history, cells)
    ensures Unmarked(Words(Frame(request, cells)), 1, |request| + 1) <==>
            forall k :: 1 <= k <= |request| ==> LeftClean(initial, history, k)
  {
    FrameMeaning(request, cells);
    forall k | 1 <= k <= |request|
      ensures FlagByte(cells, k) % 2 == 0 <==> LeftClean(initial, history, k)
    {
      LeftCleanIsEven(initial, history, k);
      assert FlagByte(cells, k) == FlagCell(initial, history, k);
    }
  }

  /** The driver is safe when each read returns at most one word and the odd cells start even. */
  lemma OneWordReadsKeepFramesClean(request: seq<byte>, initial: seq<byte>, history: seq<seq<Word>>, cells: seq<byte>)
    requires 1 <= |request| && 2 * |request| + 2 <= |cells|
    requires Remembers(initial, history, cells)
    requires forall q :: 0 <= q < |history| ==> |history[q]| <= 1
    requires forall k :: 1 <= k && 2 * k + 1 < |initial| ==> FlagByte(initial, k) % 2 == 0
    ensures var ws := Words(Frame(request, cells));
            ws[0].mark && Unmarked(ws, 1, |ws|) && Data(ws) == request + [Checksum(request)]
  {
    FrameMeaning(request, cells);
    FrameMarkedOnceIff(request, initial, history, cells);
    forall k | 1 <= k <= |request| ensures LeftClean(initial, history, k) {
      assert forall r :: 0 <= r < |history| ==> !Covers(history, k, r);
    }
  }

  /** And it is not safe in general: one reply of a data word and its checksum, delivered by a
      single read into a zeroed buffer, puts the mode bit on the second word of every longer
      request that follows. */
  lemma StaleFlagReachesTheBus(request: seq<byte>, initial: seq<byte>, cells: seq<byte>, d: byte)
    requires 1 <= |request| && 2 * |request| + 2 <= |cells|
    requires Remembers(initial, [Block([d])], cells)
    ensures Words(Frame(request, cells))[1].mark
  {
    var history := [Block([d])];
    assert Covers(history, 1, 0);
    FlagCellIsLastCover(initial, history, 1, 0);
    assert cells[3] == FlagCell(initial, history, 1);
    FrameCells(request, cells, 1);
  }
}
