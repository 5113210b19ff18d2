/** The two messages of the protocol as values, and what their wire form means. */
module Messages {
  import opened Basics
  import opened Wire

  // ---------------------------------------------------------------- enums

  datatype Command = INVALID | MDB_OPEN | MDB_RESET | MDB_TX | STOP

  function CommandFromI32(v: i32): Option<Command> {
    if v == 0 then Some(INVALID)
    else if v == 1 then Some(MDB_OPEN)
    else if v == 2 then Some(MDB_RESET)
    else if v == 3 then Some(MDB_TX)
    else if v == 100 then Some(STOP)
    else None
  }

  /** Unknown numbers read as the default, INVALID. */
  function CommandOrDefault(v: i32): (c: Command)
    ensures c == MDB_OPEN <==> v == 1
    ensures c == MDB_RESET <==> v == 2
    ensures c == MDB_TX <==> v == 3
    ensures c == STOP <==> v == 100
  {
    match CommandFromI32(v)
    case Some(c) => c
    case None => INVALID
  }

  const STATUS_INVALID: i32 := 0
  const OK: i32 := 1
  const ERR_INPUT: i32 := 2
  const ERR_HARDWARE: i32 := 6

  // ---------------------------------------------------------------- text

  /** Well-formed UTF-8 (section 4 of RFC 3629). */
  predicate ValidUtf8(s: seq<byte>) {
    if s == [] then true
    else if s[0] < 0x80 then ValidUtf8(s[1..])
    else if 0xc2 <= s[0] <= 0xdf then |s| >= 2 && Tail(s[1]) && ValidUtf8(s[2..])
    else if 0xe0 <= s[0] <= 0xef then
      |s| >= 3 && Tail(s[1]) && Tail(s[2])
      && (s[0] == 0xe0 ==> s[1] >= 0xa0) && (s[0] == 0xed ==> s[1] <= 0x9f) && ValidUtf8(s[3..])
    else if 0xf0 <= s[0] <= 0xf4 then
      |s| >= 4 && Tail(s[1]) && Tail(s[2]) && Tail(s[3])
      && (s[0] == 0xf0 ==> s[1] >= 0x90) && (s[0] == 0xf4 ==> s[1] <= 0x8f) && ValidUtf8(s[4..])
    else false
  }

  predicate Tail(b: byte) {
    0x80 <= b <= 0xbf
  }

  /** A Unicode scalar value: a code point that is no surrogate. */
  predicate Scalar(c: int) {
    0 <= c < 0xd800 || 0xe000 <= c <= 0x10ffff
  }

  function EncodeScalar(c: int): seq<byte>
    requires Scalar(c)
  {
    if c < 0x80 then [c]
    else if c < 0x800 then [0xc0 + c / 64, 0x80 + c % 64]
    else if c < 0x1_0000 then [0xe0 + c / 4096, 0x80 + c / 64 % 64, 0x80 + c % 64]
    else [0xf0 + c / 262144, 0x80 + c / 4096 % 64, 0x80 + c / 64 % 64, 0x80 + c % 64]
  }

  function EncodeScalars(cs: seq<int>): seq<byte>
    requires forall i :: 0 <= i < |cs| ==> Scalar(cs[i])
  {
    if cs == [] then [] else EncodeScalar(cs[0]) + EncodeScalars(cs[1..])
  }

  ghost predicate SpellsScalars(s: seq<byte>) {
    exists cs: seq<int> :: (forall i :: 0 <= i < |cs| ==> Scalar(cs[i])) && s == EncodeScalars(cs)
  }

  /** The bytes that pass for text are exactly the encodings of scalar values. */
  lemma ValidUtf8Iff(s: seq<byte>)
    ensures ValidUtf8(s) <==> SpellsScalars(s)
  {
    if ValidUtf8(s) {
      var cs := ScalarsOf(s);
    }
    if SpellsScalars(s) {
      var cs: seq<int> :| (forall i :: 0 <= i < |cs| ==> Scalar(cs[i])) && s == EncodeScalars(cs);
      EncodedIsValid(cs);
    }
  }

  lemma {:induction false} ScalarsOf(s: seq<byte>) returns (cs: seq<int>)
    requires ValidUtf8(s)
    ensures (forall i :: 0 <= i < |cs| ==> Scalar(cs[i])) && s == EncodeScalars(cs)
  {
    if s == [] {
      return [];
    }
    var a, c := FirstScalar(s);
    cs := ScalarsOf(s[a..]);
    assert s == s[..a] + s[a..];
    assert ([c] + cs)[1..] == cs;
    cs := [c] + cs;
  }

  lemma FirstScalar(s: seq<byte>) returns (a: nat, c: int)
    requires s != [] && ValidUtf8(s)
    ensures 1 <= a <= |s| && Scalar(c) && s[..a] == EncodeScalar(c) && ValidUtf8(s[a..])
  {
    hide EncodeScalar, Scalar;
    if s[0] < 0x80 {
      a, c := 1, s[0];
      OneByte(s[0]);
    } else if s[0] <= 0xdf {
      a := 2;
      c := TwoBytes(s[0], s[1]);
    } else if s[0] <= 0xef {
      a := 3;
      c := ThreeBytes(s[0], s[1], s[2]);
    } else {
      a := 4;
      c := FourBytes(s[0], s[1], s[2], s[3]);
    }
  }

  lemma OneByte(x: byte)
    requires x < 0x80
    ensures Scalar(x) && EncodeScalar(x) == [x]
  {
  }

  lemma TwoBytes(x: byte, y: byte) returns (c: int)
    requires 0xc2 <= x <= 0xdf && Tail(y)
    ensures Scalar(c) && EncodeScalar(c) == [x, y]
  {
    var a: int := x - 0xc0;
    c := a * 64 + Low6(y);
  }

  lemma ThreeBytes(x: byte, y: byte, z: byte) returns (c: int)
    requires 0xe0 <= x <= 0xef && Tail(y) && Tail(z)
    requires (x == 0xe0 ==> y >= 0xa0) && (x == 0xed ==> y <= 0x9f)
    ensures Scalar(c) && EncodeScalar(c) == [x, y, z]
  {
    var a: int := x - 0xe0;
    c := a * 4096 + Low6(y) * 64 + Low6(z);
    Digits64(a, Low6(y), Low6(z));
  }

  lemma FourBytes(x: byte, y: byte, z: byte, w: byte) returns (c: int)
    requires 0xf0 <= x <= 0xf4 && Tail(y) && Tail(z) && Tail(w)
    requires (x == 0xf0 ==> y >= 0x90) && (x == 0xf4 ==> y <= 0x8f)
    ensures Scalar(c) && EncodeScalar(c) == [x, y, z, w]
  {
    var a: int := x - 0xf0;
    var b := a * 64 + Low6(y);
    c := b * 4096 + Low6(z) * 64 + Low6(w);
    Digits64(b, Low6(z), Low6(w));
    assert c / 262144 == c / 4096 / 64;
  }

  lemma Digits64(a: nat, b: nat, c: nat)
    requires b < 64 && c < 64
    ensures var n := a * 4096 + b * 64 + c;
            n / 4096 == a && n / 64 % 64 == b && n % 64 == c
  {
    var n := a * 4096 + b * 64 + c;
    assert n / 64 == a * 64 + b;
  }

  function Low6(b: byte): int {
    b % 64
  }

  lemma {:induction false} EncodedIsValid(cs: seq<int>)
    requires forall i :: 0 <= i < |cs| ==> Scalar(cs[i])
    ensures ValidUtf8(EncodeScalars(cs))
  {
    if cs != [] {
      EncodedIsValid(cs[1..]);
      OneMoreScalar(cs[0], EncodeScalars(cs[1..]));
    }
  }

  lemma OneMoreScalar(c: int, rest: seq<byte>)
    requires Scalar(c) && ValidUtf8(rest)
    ensures ValidUtf8(EncodeScalar(c) + rest)
  {
    var e := EncodeScalar(c);
    WellFormed(c);
    hide EncodeScalar, Scalar;
    var s := e + rest;
    assert s[|e|..] == rest;
  }

  /** The lead byte tells the length and, with the second byte, keeps to the shortest form. */
  lemma WellFormed(c: int)
    requires Scalar(c)
    ensures var e := EncodeScalar(c);
            || (|e| == 1 && e[0] < 0x80)
            || (|e| == 2 && 0xc2 <= e[0] <= 0xdf && Tail(e[1]))
            || (&& |e| == 3 && 0xe0 <= e[0] <= 0xef && Tail(e[1]) && Tail(e[2])
                && (e[0] == 0xe0 ==> e[1] >= 0xa0) && (e[0] == 0xed ==> e[1] <= 0x9f))
            || (&& |e| == 4 && 0xf0 <= e[0] <= 0xf4 && Tail(e[1]) && Tail(e[2]) && Tail(e[3])
                && (e[0] == 0xf0 ==> e[1] >= 0x90) && (e[0] == 0xf4 ==> e[1] <= 0x8f))
  {
    if c >= 0x1_0000 {
      WellFormedFour(c);
    } else if c >= 0x800 {
      WellFormedThree(c);
    }
  }

  lemma WellFormedThree(c: int)
    requires Scalar(c) && 0x800 <= c < 0x1_0000
    ensures var x, y, z := 0xe0 + c / 4096, 0x80 + c / 64 % 64, 0x80 + c % 64;
            && EncodeScalar(c) == [x, y, z] && 0xe0 <= x <= 0xef && Tail(y) && Tail(z)
            && (x == 0xe0 ==> y >= 0xa0) && (x == 0xed ==> y <= 0x9f)
  {
    assert c / 4096 == c / 64 / 64;
  }

  lemma WellFormedFour(c: int)
    requires Scalar(c) && c >= 0x1_0000
    ensures var x, y, z, w := 0xf0 + c / 262144, 0x80 + c / 4096 % 64, 0x80 + c / 64 % 64, 0x80 + c % 64;
            && EncodeScalar(c) == [x, y, z, w] && 0xf0 <= x <= 0xf4 && Tail(y) && Tail(z) && Tail(w)
            && (x == 0xf0 ==> y >= 0x90) && (x == 0xf4 ==> y <= 0x8f)
  {
    assert c / 262144 == c / 4096 / 64;
  }

  type Text = s: seq<byte> | ValidUtf8(s) witness []

  // ---------------------------------------------------------------- messages

  /** Enum fields keep the number they carry, known or not. */
  datatype RequestData = RequestData(version: u32, command: i32, timeout: u32, argUint: u32, argBytes: seq<byte>)
  datatype ResponseData = ResponseData(version: u32, status: i32, error: Text, dataBytes: seq<byte>)

  const NewRequest := RequestData(0, 0, 0, 0, [])
  const NewResponse := ResponseData(0, STATUS_INVALID, [], [])

  function U32Record(field: nat, v: u32): (rs: seq<Record>)
    requires 1 <= field < 16
  {
    if v == 0 then [] else [Record(8 * field, Varint(v))]
  }

  function EnumRecord(field: nat, v: i32): (rs: seq<Record>)
    requires 1 <= field < 16
  {
    if v == 0 then [] else [Record(8 * field, Varint(SignExtend(v)))]
  }

  function BytesRecord(field: nat, s: seq<byte>): (rs: seq<Record>)
    requires 1 <= field < 16 && |s| < 0x1_0000_0000
  {
    if s == [] then [] else [Record(8 * field + 2, Len(s))]
  }

  /** Fields longer than a length prefix can say are not encodable. */
  predicate Encodable(m: RequestData) {
    |m.argBytes| < 0x1_0000_0000
  }

  predicate EncodableResponse(m: ResponseData) {
    |m.error| < 0x1_0000_0000 && |m.dataBytes| < 0x1_0000_0000
  }

  /** The records written for a message: its non-default fields in field order. */
  function RequestRecords(m: RequestData): seq<Record>
    requires Encodable(m)
  {
    U32Record(1, m.version) + EnumRecord(2, m.command) + U32Record(3, m.timeout)
    + U32Record(4, m.argUint) + BytesRecord(5, m.argBytes)
  }

  function ResponseRecords(m: ResponseData): seq<Record>
    requires EncodableResponse(m)
  {
    U32Record(1, m.version) + EnumRecord(2, m.status) + BytesRecord(3, m.error) + BytesRecord(4, m.dataBytes)
  }

  function EncodeRequest(m: RequestData): seq<byte>
    requires Encodable(m)
  {
    EncodeRecords(RequestRecords(m))
  }

  function EncodeResponse(m: ResponseData): seq<byte>
    requires EncodableResponse(m)
  {
    EncodeRecords(ResponseRecords(m))
  }

  // ---------------------------------------------------------------- merging

  /** One field assignment; an unknown tag changes no known field. */
  function ApplyRequest(m: RequestData, r: Record): RequestData {
    match r.tag
    case 8 => m.(version := Low32(r.value.n))
    case 16 => m.(command := ToInt32(r.value.n))
    case 24 => m.(timeout := Low32(r.value.n))
    case 32 => m.(argUint := Low32(r.value.n))
    case 42 => m.(argBytes := r.value.payload)
    case _ => m
  }

  function FoldRequest(m: RequestData, rs: seq<Record>): RequestData
    decreases |rs|
  {
    if rs == [] then m else FoldRequest(ApplyRequest(m, rs[0]), rs[1..])
  }

  /** merge_from up to the end of the input; no value on malformed input. */
  function MergeRequest(m: RequestData, s: seq<byte>): Option<RequestData> {
    match ReadRecords(s)
    case None => None
    case Some(rs) => Some(FoldRequest(m, rs))
  }

  /** A string field must hold UTF-8. */
  function ApplyResponse(m: ResponseData, r: Record): Option<ResponseData> {
    match r.tag
    case 8 => Some(m.(version := Low32(r.value.n)))
    case 16 => Some(m.(status := ToInt32(r.value.n)))
    case 26 => if ValidUtf8(r.value.payload) then Some(m.(error := r.value.payload)) else None
    case 34 => Some(m.(dataBytes := r.value.payload))
    case _ => Some(m)
  }

  function FoldResponse(m: ResponseData, rs: seq<Record>): Option<ResponseData>
    decreases |rs|
  {
    if rs == [] then Some(m)
    else
      match ApplyResponse(m, rs[0])
      case None => None
      case Some(m') => FoldResponse(m', rs[1..])
  }

  function MergeResponse(m: ResponseData, s: seq<byte>): Option<ResponseData> {
    match ReadRecords(s)
    case None => None
    case Some(rs) => FoldResponse(m, rs)
  }

  // ---------------------------------------------------------------- homomorphism

  lemma {:induction false} FoldRequestAppend(m: RequestData, a: seq<Record>, b: seq<Record>)
    ensures FoldRequest(m, a + b) == FoldRequest(FoldRequest(m, a), b)
    decreases |a|
  {
    hide ApplyRequest;
    if a == [] {
      assert a + b == b;
    } else {
      FoldRequestAppend(ApplyRequest(m, a[0]), a[1..], b);
      assert (a + b)[1..] == a[1..] + b;
    }
  }

  lemma {:induction false} FoldResponseAppend(m: ResponseData, a: seq<Record>, b: seq<Record>)
    ensures FoldResponse(m, a + b) ==
            match FoldResponse(m, a)
            case None => None
            case Some(m') => FoldResponse(m', b)
    decreases |a|
  {
    hide ApplyResponse;
    if a == [] {
      assert a + b == b;
    } else {
      assert (a + b)[1..] == a[1..] + b;
      match ApplyResponse(m, a[0])
      case None =>
      case Some(m') => FoldResponseAppend(m', a[1..], b);
    }
  }

  /** Merging is a homomorphism: after a well-formed x, merging x ++ y is merging y into the
      result of merging x. */
  lemma MergeRequestAppend(m: RequestData, x: seq<byte>, y: seq<byte>)
    requires MergeRequest(m, x).Some?
    ensures MergeRequest(m, x + y) == MergeRequest(MergeRequest(m, x).value, y)
  {
    ReadRecordsAppend(x, y);
    if ReadRecords(y).Some? {
      FoldRequestAppend(m, ReadRecords(x).value, ReadRecords(y).value);
    }
  }

  lemma MergeResponseAppend(m: ResponseData, x: seq<byte>, y: seq<byte>)
    requires MergeResponse(m, x).Some?
    ensures MergeResponse(m, x + y) == MergeResponse(MergeResponse(m, x).value, y)
  {
    ReadRecordsAppend(x, y);
    if ReadRecords(y).Some? {
      FoldResponseAppend(m, ReadRecords(x).value, ReadRecords(y).value);
    }
  }

  // ---------------------------------------------------------------- last one wins

  function LastVarint(rs: seq<Record>, tag: u32, default: u64): u64
    requires tag % 8 == 0
  {
    match Last(rs, tag)
    case Some(r) => r.value.n
    case None => default
  }

  function LastBytes(rs: seq<Record>, tag: u32, default: seq<byte>): seq<byte>
    requires tag % 8 == 2
  {
    match Last(rs, tag)
    case Some(r) => r.value.payload
    case None => default
  }

  /** A merged request holds, field by field, the last occurrence of the field, or what it held. */
  lemma {:induction false} RequestLastWins(m: RequestData, rs: seq<Record>)
    ensures FoldRequest(m, rs) ==
            RequestData(Low32(LastVarint(rs, 8, m.version)),
                        ToInt32(LastVarint(rs, 16, SignExtend(m.command))),
                        Low32(LastVarint(rs, 24, m.timeout)),
                        Low32(LastVarint(rs, 32, m.argUint)),
                        LastBytes(rs, 42, m.argBytes))
  {
    Int32RoundTrip(m.command);
    if rs != [] {
      var n := |rs| - 1;
      RequestLastWins(m, rs[..n]);
      FoldRequestAppend(m, rs[..n], [rs[n]]);
      assert rs[..n] + [rs[n]] == rs;
      assert FoldRequest(FoldRequest(m, rs[..n]), [rs[n]]) == ApplyRequest(FoldRequest(m, rs[..n]), rs[n]);
    }
  }

  /** The order of fields with different tags does not matter: only the last occurrence of each
      known tag does. Permuting records with distinct tags changes nothing. */
  lemma RequestOrderIrrelevant(m: RequestData, a: seq<Record>, b: seq<Record>)
    requires forall tag :: tag in {8, 16, 24, 32, 42} ==> Last(a, tag) == Last(b, tag)
    ensures FoldRequest(m, a) == FoldRequest(m, b)
  {
    hide FoldRequest, Last;
    RequestLastWins(m, a);
    RequestLastWins(m, b);
    assert Last(a, 8) == Last(b, 8) && Last(a, 16) == Last(b, 16) && Last(a, 24) == Last(b, 24);
    assert Last(a, 32) == Last(b, 32) && Last(a, 42) == Last(b, 42);
  }

  lemma RequestPermutation(m: RequestData, a: seq<Record>, b: seq<Record>)
    requires multiset(a) == multiset(b) && DistinctTags(a)
    ensures MergeRequest(m, EncodeRecords(a)) == MergeRequest(m, EncodeRecords(b))
  {
    hide FoldRequest, Last, DistinctTags, EncodeRecords;
    forall tag: u32 | tag in {8, 16, 24, 32, 42} ensures Last(a, tag) == Last(b, tag) {
      LastOfPermutation(a, b, tag);
    }
    RequestOrderIrrelevant(m, a, b);
    RecordsRoundTrip(a);
    RecordsRoundTrip(b);
  }

  predicate TextsValid(rs: seq<Record>) {
    forall i :: 0 <= i < |rs| && rs[i].tag == 26 ==> ValidUtf8(rs[i].value.payload)
  }

  /** The same for responses, which are refused exactly when some error text is not UTF-8. */
  lemma {:induction false} ResponseLastWins(m: ResponseData, rs: seq<Record>)
    ensures FoldResponse(m, rs).Some? <==> TextsValid(rs)
    ensures TextsValid(rs) ==>
              && ValidUtf8(LastBytes(rs, 26, m.error))
              && FoldResponse(m, rs) ==
                 Some(ResponseData(Low32(LastVarint(rs, 8, m.version)),
                                   ToInt32(LastVarint(rs, 16, SignExtend(m.status))),
                                   LastBytes(rs, 26, m.error),
                                   LastBytes(rs, 34, m.dataBytes)))
  {
    hide ValidUtf8;
    Int32RoundTrip(m.status);
    if rs != [] {
      var n := |rs| - 1;
      ResponseLastWins(m, rs[..n]);
      FoldResponseAppend(m, rs[..n], [rs[n]]);
      assert rs[..n] + [rs[n]] == rs;
      var before := FoldResponse(m, rs[..n]);
      if before.Some? {
        assert FoldResponse(before.value, [rs[n]]) == ApplyResponse(before.value, rs[n]);
      }
      TextsValidAppend(rs);
    }
  }

  lemma TextsValidAppend(rs: seq<Record>)
    requires rs != []
    ensures var n := |rs| - 1;
            TextsValid(rs) <==> TextsValid(rs[..n]) && (rs[n].tag == 26 ==> ValidUtf8(rs[n].value.payload))
  {
  }

  // ---------------------------------------------------------------- round trips

  /** What a decoded message does to one that is already there: it replaces the fields it sets. */
  function OverlayRequest(m: RequestData, n: RequestData): RequestData {
    RequestData(if n.version != 0 then n.version else m.version,
                if n.command != 0 then n.command else m.command,
                if n.timeout != 0 then n.timeout else m.timeout,
                if n.argUint != 0 then n.argUint else m.argUint,
                if n.argBytes != [] then n.argBytes else m.argBytes)
  }

  function OverlayResponse(m: ResponseData, n: ResponseData): ResponseData {
    ResponseData(if n.version != 0 then n.version else m.version,
                 if n.status != 0 then n.status else m.status,
                 if n.error != [] then n.error else m.error,
                 if n.dataBytes != [] then n.dataBytes else m.dataBytes)
  }

  lemma FoldOneResponse(m: ResponseData, r: Record)
    ensures FoldResponse(m, [r]) == ApplyResponse(m, r)
  {
  }

  /** Codec round trip, merged into any message: every request, enum numbers unknown or negative
      included. Into a fresh message it is the identity. */
  lemma RequestRoundTrip(m: RequestData, n: RequestData)
    requires Encodable(n)
    ensures MergeRequest(m, EncodeRequest(n)) == Some(OverlayRequest(m, n))
    ensures MergeRequest(NewRequest, EncodeRequest(n)) == Some(n)
  {
    RecordsRoundTrip(RequestRecords(n));
    FoldRequestRecords(m, n);
    FoldRequestRecords(NewRequest, n);
  }

  lemma FoldRequestRecords(m: RequestData, n: RequestData)
    requires Encodable(n)
    ensures FoldRequest(m, RequestRecords(n)) == OverlayRequest(m, n)
  {
    var a, b, c, d, e :=
      U32Record(1, n.version), EnumRecord(2, n.command), U32Record(3, n.timeout), U32Record(4, n.argUint), BytesRecord(5, n.argBytes);
    FoldRequestAppend(m, a + b + c + d, e);
    FoldRequestAppend(m, a + b + c, d);
    FoldRequestAppend(m, a + b, c);
    FoldRequestAppend(m, a, b);
    Int32RoundTrip(n.command);
    FoldU32(m, 1, n.version);
    var m1 := FoldRequest(m, a);
    FoldEnum(m1, n.command);
    var m2 := FoldRequest(m1, b);
    FoldU32(m2, 3, n.timeout);
    var m3 := FoldRequest(m2, c);
    FoldU32(m3, 4, n.argUint);
    var m4 := FoldRequest(m3, d);
    FoldBytes(m4, n.argBytes);
  }

  lemma FoldU32(m: RequestData, field: nat, v: u32)
    requires field in {1, 3, 4}
    ensures FoldRequest(m, U32Record(field, v)) ==
            if v == 0 then m
            else if field == 1 then m.(version := v)
            else if field == 3 then m.(timeout := v)
            else m.(argUint := v)
  {
  }

  lemma FoldEnum(m: RequestData, v: i32)
    ensures FoldRequest(m, EnumRecord(2, v)) == if v == 0 then m else m.(command := v)
  {
  }

  lemma FoldBytes(m: RequestData, s: seq<byte>)
    requires |s| < 0x1_0000_0000
    ensures FoldRequest(m, BytesRecord(5, s)) == if s == [] then m else m.(argBytes := s)
  {
  }

  lemma ResponseRoundTrip(m: ResponseData, n: ResponseData)
    requires EncodableResponse(n)
    ensures MergeResponse(m, EncodeResponse(n)) == Some(OverlayResponse(m, n))
    ensures MergeResponse(NewResponse, EncodeResponse(n)) == Some(n)
  {
    RecordsRoundTrip(ResponseRecords(n));
    FoldResponseRecords(m, n);
    FoldResponseRecords(NewResponse, n);
  }

  lemma FoldResponseRecords(m: ResponseData, n: ResponseData)
    requires EncodableResponse(n)
    ensures FoldResponse(m, ResponseRecords(n)) == Some(OverlayResponse(m, n))
  {
    hide ValidUtf8;
    var a, b, c, d :=
      U32Record(1, n.version), EnumRecord(2, n.status), BytesRecord(3, n.error), BytesRecord(4, n.dataBytes);
    FoldResponseAppend(m, a + b + c, d);
    FoldResponseAppend(m, a + b, c);
    FoldResponseAppend(m, a, b);
    Int32RoundTrip(n.status);
    var m1 := m.(version := if n.version != 0 then n.version else m.version);
    var m2 := m1.(status := if n.status != 0 then n.status else m.status);
    var m3 := m2.(error := if n.error != [] then n.error else m.error);
    if n.version != 0 { FoldOneResponse(m, a[0]); }
    if n.status != 0 { FoldOneResponse(m1, b[0]); }
    if n.error != [] { FoldOneResponse(m2, c[0]); }
    if n.dataBytes != [] { FoldOneResponse(m3, d[0]); }
  }
}
