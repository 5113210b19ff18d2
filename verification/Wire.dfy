/** The wire primitives of the Protocol Buffers Encoding specification that the generated codec
    calls: base 128 varints, tags, length-delimited records, and records in sequence. */
module Wire {
  import opened Basics

  // ---------------------------------------------------------------- varints

  /** Base 128, least significant group first, top bit set on all bytes but the last. */
  function EncodeVarint(n: nat): seq<byte> {
    if n < 0x80 then [n] else [0x80 + n % 0x80] + EncodeVarint(n / 0x80)
  }

  /** Reads a varint of at most `limit` bytes; the value and what follows it. */
  function ReadVarint(s: seq<byte>, limit: nat): (r: Option<(nat, seq<byte>)>)
    ensures r.Some? ==> |r.value.1| < |s|
  {
    if s == [] || limit == 0 then None
    else if s[0] < 0x80 then Some((s[0], s[1..]))
    else
      match ReadVarint(s[1..], limit - 1)
      case None => None
      case Some((high, rest)) => Some((s[0] - 0x80 + 0x80 * high, rest))
  }

  /** At most ten bytes; bits beyond 64 are dropped. */
  function ReadVarint64(s: seq<byte>): (r: Option<(u64, seq<byte>)>)
    ensures r.Some? ==> |r.value.1| < |s|
  {
    match ReadVarint(s, 10)
    case None => None
    case Some((n, rest)) => Some((n % 0x1_0000_0000_0000_0000, rest))
  }

  function Low32(n: u64): u32 {
    n % 0x1_0000_0000
  }

  /** An int32 travels as a sign-extended 64-bit varint. */
  function SignExtend(v: i32): u64 {
    if v < 0 then v + 0x1_0000_0000_0000_0000 else v
  }

  function ToInt32(n: u64): i32 {
    if Low32(n) >= 0x8000_0000 then Low32(n) - 0x1_0000_0000 else Low32(n)
  }

  /** Sign extension is congruence modulo 2^64, truncation congruence modulo 2^32. */
  lemma Congruent(v: i32, n: u64)
    ensures (SignExtend(v) - v) % 0x1_0000_0000_0000_0000 == 0
    ensures (n - Low32(n)) % 0x1_0000_0000 == 0
    ensures (n - ToInt32(n)) % 0x1_0000_0000 == 0
  {
  }

  lemma Int32RoundTrip(v: i32)
    ensures ToInt32(SignExtend(v)) == v
  {
  }

  function Pow128(k: nat): (p: nat)
    ensures p >= 1
  {
    if k == 0 then 1 else 0x80 * Pow128(k - 1)
  }

  lemma {:induction false} VarintRoundTrip(n: nat, rest: seq<byte>, limit: nat)
    requires 1 <= limit && n < Pow128(limit)
    ensures ReadVarint(EncodeVarint(n) + rest, limit) == Some((n, rest))
    decreases limit
  {
    var s := EncodeVarint(n) + rest;
    if n < 0x80 {
      assert s[1..] == rest;
    } else {
      assert limit >= 2;
      VarintRoundTrip(n / 0x80, rest, limit - 1);
      assert s[1..] == EncodeVarint(n / 0x80) + rest;
    }
  }

  /** What is on the wire: byte i carries bits 7 i to 7 i + 6 of the number, and its top bit says that
      another byte follows. */
  lemma {:induction false} VarintGroups(n: nat, i: nat)
    requires i < |EncodeVarint(n)|
    ensures EncodeVarint(n)[i] % 0x80 == n / Pow128(i) % 0x80
    ensures EncodeVarint(n)[i] >= 0x80 <==> i + 1 < |EncodeVarint(n)|
  {
    if n >= 0x80 && i > 0 {
      VarintGroups(n / 0x80, i - 1);
      DivideInSteps(n, Pow128(i - 1));
    }
  }

  lemma DivideInSteps(n: nat, b: nat)
    requires b >= 1
    ensures n / 0x80 / b == n / (0x80 * b)
  {
    var m, t := n / 0x80, n % 0x80;
    var q, r := m / b, m % b;
    assert m == q * b + r;
    Shift(q, b);
    QuotientIs(n, 0x80 * b, q, 0x80 * r + t);
  }

  lemma QuotientIs(n: nat, d: nat, q: nat, r: nat)
    requires d >= 1 && n == q * d + r && r < d
    ensures n / d == q
  {
    var k := n / d;
    assert n == k * d + n % d;
    if k < q {
      InOrder(k + 1, q, d);
    } else if k > q {
      InOrder(q + 1, k, d);
    }
  }

  lemma InOrder(i: nat, j: nat, d: nat)
    requires 1 <= i <= j
    ensures i * d <= j * d && i * d == (i - 1) * d + d
  {
    assert j * d == i * d + (j - i) * d;
    assert (j - i) * d >= 0;
  }

  /** The number that groups of seven bits spell, least significant first. */
  function Groups(s: seq<byte>): nat {
    if s == [] then 0 else Groups(s[..|s| - 1]) + s[|s| - 1] % 0x80 * Pow128(|s| - 1)
  }

  /** A varint of n bytes stands at the head: the top bit is set on all of them but the last. */
  predicate StartsVarint(s: seq<byte>, n: nat) {
    1 <= n <= |s| && s[n - 1] < 0x80 && forall i :: 0 <= i < n - 1 ==> s[i] >= 0x80
  }

  /** Reading takes any varint within the limit, canonical or not, and gives the sum of its groups. */
  lemma {:induction false} ReadVarintGroups(s: seq<byte>, limit: nat, n: nat)
    requires StartsVarint(s, n) && n <= limit
    ensures ReadVarint(s, limit) == Some((Groups(s[..n]), s[n..]))
    decreases limit
  {
    hide Groups;
    if n == 1 {
      assert s[..1] == [s[0]];
      OneGroup(s[0]);
    } else {
      var t := s[1..];
      ReadVarintGroups(t, limit - 1, n - 1);
      assert t[..n - 1] == s[1..n] && t[n - 1..] == s[n..];
      assert s[..n] == [s[0]] + s[1..n];
      FirstGroup(s[0], s[1..n]);
    }
  }

  lemma OneGroup(b: byte)
    ensures Groups([b]) == b % 0x80
  {
    assert [b][..0] == [];
  }

  lemma {:induction false} FirstGroup(b: byte, s: seq<byte>)
    ensures Groups([b] + s) == b % 0x80 + 0x80 * Groups(s)
  {
    var t := [b] + s;
    if s == [] {
      assert t[..0] == [];
    } else {
      var n := |s| - 1;
      assert t[..|t| - 1] == [b] + s[..n];
      FirstGroup(b, s[..n]);
      assert Pow128(n + 1) == 0x80 * Pow128(n);
      Shift(s[n] % 0x80, Pow128(n));
    }
  }

  lemma Shift(x: nat, p: nat)
    ensures x * (0x80 * p) == 0x80 * (x * p)
  {
  }

  /** And nothing else is a varint: reading fails when none ends within the limit. */
  lemma {:induction false} ReadVarintNeedsEnd(s: seq<byte>, limit: nat) returns (n: nat)
    requires ReadVarint(s, limit).Some?
    ensures n <= limit && StartsVarint(s, n)
    decreases limit
  {
    if s[0] < 0x80 {
      n := 1;
    } else {
      n := ReadVarintNeedsEnd(s[1..], limit - 1);
      n := n + 1;
    }
  }

  lemma Varint64RoundTrip(n: u64, rest: seq<byte>)
    ensures ReadVarint64(EncodeVarint(n) + rest) == Some((n, rest))
  {
    hide Pow128, EncodeVarint, ReadVarint;
    TenBytesAreEnough();
    VarintRoundTrip(n, rest, 10);
  }

  lemma TenBytesAreEnough()
    ensures Pow128(10) >= 0x1_0000_0000_0000_0000
  {
    assert Pow128(5) == 0x8_0000_0000;
    assert Pow128(10) == 0x80 * 0x80 * 0x80 * 0x80 * 0x80 * Pow128(5);
  }

  /** Size of a varint by magnitude: one byte per started group of seven bits. */
  function VarintSize(n: u64): nat {
    if n < 0x80 then 1
    else if n < 0x4000 then 2
    else if n < 0x20_0000 then 3
    else if n < 0x1000_0000 then 4
    else if n < 0x8_0000_0000 then 5
    else if n < 0x400_0000_0000 then 6
    else if n < 0x2_0000_0000_0000 then 7
    else if n < 0x100_0000_0000_0000 then 8
    else if n < 0x8000_0000_0000_0000 then 9
    else 10
  }

  lemma {:induction false} VarintSizeIsLength(n: u64)
    ensures |EncodeVarint(n)| == VarintSize(n)
  {
    if n >= 0x80 {
      VarintSizeIsLength(n / 0x80);
    }
  }

  /** Reading looks no further than the varint. */
  lemma {:induction false} ReadVarintPrefix(x: seq<byte>, y: seq<byte>, limit: nat)
    requires ReadVarint(x, limit).Some?
    ensures ReadVarint(x + y, limit) == Some((ReadVarint(x, limit).value.0, ReadVarint(x, limit).value.1 + y))
  {
    if x[0] < 0x80 {
      assert (x + y)[1..] == x[1..] + y;
    } else {
      ReadVarintPrefix(x[1..], y, limit - 1);
      assert (x + y)[1..] == x[1..] + y;
    }
  }

  // ---------------------------------------------------------------- records

  datatype WireValue = Varint(n: u64) | I64(raw: seq<byte>) | Len(payload: seq<byte>) | I32(raw: seq<byte>)

  /** A tag with its value. The tag is the field number shifted by three, plus the wire type. */
  datatype RawRecord = Record(tag: u32, value: WireValue)

  /** The value is what the wire type in the tag announces, and fits its encoding. */
  predicate Typed(r: RawRecord) {
    && r.tag / 8 >= 1
    && match r.value
       case Varint(_) => r.tag % 8 == 0
       case I64(raw) => r.tag % 8 == 1 && |raw| == 8
       case Len(p) => r.tag % 8 == 2 && |p| < 0x1_0000_0000
       case I32(raw) => r.tag % 8 == 5 && |raw| == 4
  }

  type Record = r: RawRecord | Typed(r) witness Record(8, Varint(0))

  function EncodeRecord(r: Record): seq<byte> {
    EncodeVarint(r.tag) +
    match r.value
    case Varint(n) => EncodeVarint(n)
    case I64(raw) => raw
    case Len(p) => EncodeVarint(|p|) + p
    case I32(raw) => raw
  }

  function EncodeRecords(rs: seq<Record>): seq<byte> {
    if rs == [] then [] else EncodeRecord(rs[0]) + EncodeRecords(rs[1..])
  }

  function ReadRaw(s: seq<byte>, n: nat): (r: Option<(seq<byte>, seq<byte>)>)
    ensures r.Some? ==> |r.value.0| == n && |r.value.0| + |r.value.1| == |s|
  {
    if n <= |s| then Some((s[..n], s[n..])) else None
  }

  /** One record. Field number zero and the wire types other than 0, 1, 2 and 5 are errors. */
  function ReadRecord(s: seq<byte>): (r: Option<(Record, seq<byte>)>)
    ensures r.Some? ==> |r.value.1| < |s|
  {
    match ReadVarint64(s)
    case None => None
    case Some((t, rest)) =>
      var tag := Low32(t);
      if tag / 8 == 0 then None else ReadValue(tag, rest)
  }

  function ReadValue(tag: u32, s: seq<byte>): (r: Option<(Record, seq<byte>)>)
    requires tag / 8 >= 1
    ensures r.Some? ==> |r.value.1| <= |s| && r.value.0.tag == tag
  {
    if tag % 8 == 0 then
      match ReadVarint64(s)
      case None => None
      case Some((n, rest)) => Some((Record(tag, Varint(n)), rest))
    else if tag % 8 == 1 then
      match ReadRaw(s, 8)
      case None => None
      case Some((raw, rest)) => Some((Record(tag, I64(raw)), rest))
    else if tag % 8 == 2 then
      match ReadVarint64(s)
      case None => None
      case Some((n, rest)) =>
        match ReadRaw(rest, Low32(n))
        case None => None
        case Some((p, rest')) => Some((Record(tag, Len(p)), rest'))
    else if tag % 8 == 5 then
      match ReadRaw(s, 4)
      case None => None
      case Some((raw, rest)) => Some((Record(tag, I32(raw)), rest))
    else None
  }

  /** All records up to the end of the input; no value when any of them is malformed. */
  function ReadRecords(s: seq<byte>): Option<seq<Record>>
    decreases |s|
  {
    if s == [] then Some([])
    else
      match ReadRecord(s)
      case None => None
      case Some((r, rest)) =>
        match ReadRecords(rest)
        case None => None
        case Some(rs) => Some([r] + rs)
  }

  lemma ReadRawExact(p: seq<byte>, rest: seq<byte>)
    ensures ReadRaw(p + rest, |p|) == Some((p, rest))
  {
  }

  lemma ReadRecordRoundTrip(r: Record, rest: seq<byte>)
    ensures ReadRecord(EncodeRecord(r) + rest) == Some((r, rest))
  {
    hide EncodeVarint, ReadVarint64;
    var tag := EncodeVarint(r.tag);
    var tail := EncodeRecord(r)[|tag|..];
    assert EncodeRecord(r) == tag + tail;
    Associative(tag, tail, rest);
    Varint64RoundTrip(r.tag, tail + rest);
    match r.value
    case Varint(n) =>
      assert tail == EncodeVarint(n);
      Varint64RoundTrip(n, rest);
    case I64(raw) =>
      assert tail == raw;
      ReadRawExact(raw, rest);
    case Len(p) =>
      assert tail == EncodeVarint(|p|) + p;
      Associative(EncodeVarint(|p|), p, rest);
      Varint64RoundTrip(|p|, p + rest);
      ReadRawExact(p, rest);
    case I32(raw) =>
      assert tail == raw;
      ReadRawExact(raw, rest);
  }

  lemma EncodeRecordNonEmpty(r: Record)
    ensures EncodeRecord(r) != []
  {
  }

  /** Every sequence of records is read back exactly as written. */
  lemma {:induction false} RecordsRoundTrip(rs: seq<Record>)
    ensures ReadRecords(EncodeRecords(rs)) == Some(rs)
  {
    if rs != [] {
      hide EncodeRecord, ReadRecord;
      EncodeRecordNonEmpty(rs[0]);
      ReadRecordRoundTrip(rs[0], EncodeRecords(rs[1..]));
      RecordsRoundTrip(rs[1..]);
      assert [rs[0]] + rs[1..] == rs;
    }
  }

  lemma EncodeRecordsFirst(r: Record, rs: seq<Record>)
    ensures EncodeRecords([r] + rs) == EncodeRecord(r) + EncodeRecords(rs)
  {
    assert ([r] + rs)[1..] == rs;
  }

  lemma {:induction false} EncodeRecordsAppend(a: seq<Record>, b: seq<Record>)
    ensures EncodeRecords(a + b) == EncodeRecords(a) + EncodeRecords(b)
    decreases |a|
  {
    if a == [] {
      assert a + b == b;
    } else {
      hide EncodeRecord, EncodeRecords;
      EncodeRecordsAppend(a[1..], b);
      EncodeRecordsFirst(a[0], a[1..]);
      EncodeRecordsFirst(a[0], a[1..] + b);
      Associative([a[0]], a[1..], b);
      assert [a[0]] + a[1..] == a;
      Associative(EncodeRecord(a[0]), EncodeRecords(a[1..]), EncodeRecords(b));
    }
  }

  lemma ReadVarint64Prefix(x: seq<byte>, y: seq<byte>)
    requires ReadVarint64(x).Some?
    ensures ReadVarint64(x + y) == Some((ReadVarint64(x).value.0, ReadVarint64(x).value.1 + y))
  {
    ReadVarintPrefix(x, y, 10);
  }

  lemma ReadRawPrefix(x: seq<byte>, y: seq<byte>, n: nat)
    requires n <= |x|
    ensures ReadRaw(x + y, n) == Some((x[..n], x[n..] + y))
  {
    assert (x + y)[..n] == x[..n] && (x + y)[n..] == x[n..] + y;
  }

  lemma ReadRecordPrefix(x: seq<byte>, y: seq<byte>)
    requires ReadRecord(x).Some?
    ensures ReadRecord(x + y) == Some((ReadRecord(x).value.0, ReadRecord(x).value.1 + y))
  {
    hide ReadVarint64;
    ReadVarint64Prefix(x, y);
    var (t, s) := ReadVarint64(x).value;
    var tag := Low32(t);
    if tag % 8 == 0 {
      ReadVarint64Prefix(s, y);
    } else if tag % 8 == 1 {
      ReadRawPrefix(s, y, 8);
    } else if tag % 8 == 2 {
      ReadVarint64Prefix(s, y);
      ReadRawPrefix(ReadVarint64(s).value.1, y, Low32(ReadVarint64(s).value.0));
    } else {
      ReadRawPrefix(s, y, 4);
    }
  }

  /** After well-formed records, reading goes on as if the rest stood alone. */
  lemma {:induction false} ReadRecordsAppend(x: seq<byte>, y: seq<byte>)
    requires ReadRecords(x).Some?
    ensures ReadRecords(x + y) ==
            match ReadRecords(y)
            case None => None
            case Some(rs) => Some(ReadRecords(x).value + rs)
    decreases |x|
  {
    if x == [] {
      assert x + y == y;
      if ReadRecords(y).Some? {
        assert [] + ReadRecords(y).value == ReadRecords(y).value;
      }
    } else {
      hide ReadRecord;
      ReadRecordPrefix(x, y);
      var (r, rest) := ReadRecord(x).value;
      ReadRecordsAppend(rest, y);
      if ReadRecords(y).Some? {
        Associative([r], ReadRecords(rest).value, ReadRecords(y).value);
      }
    }
  }

  // ---------------------------------------------------------------- last one wins

  /** The last record carrying a tag. */
  function Last(rs: seq<Record>, tag: u32): (r: Option<Record>)
    ensures r.Some? ==> r.value in rs && r.value.tag == tag
    ensures r.None? ==> forall i :: 0 <= i < |rs| ==> rs[i].tag != tag
  {
    if rs == [] then None
    else if rs[|rs| - 1].tag == tag then Some(rs[|rs| - 1])
    else Last(rs[..|rs| - 1], tag)
  }

  predicate DistinctTags(rs: seq<Record>) {
    forall i, j :: 0 <= i < j < |rs| ==> rs[i].tag != rs[j].tag
  }

  /** A permutation of records with distinct tags has the same last record for every tag. */
  lemma LastOfPermutation(a: seq<Record>, b: seq<Record>, tag: u32)
    requires multiset(a) == multiset(b) && DistinctTags(a)
    ensures Last(a, tag) == Last(b, tag)
  {
    forall r: Record ensures r in a <==> r in b {
      assert r in a <==> r in multiset(a);
      assert r in b <==> r in multiset(b);
    }
    var la, lb := Last(a, tag), Last(b, tag);
    if la.Some? {
      assert la.value in b;
      assert lb.Some? && lb.value in a;
    }
  }

  // ---------------------------------------------------------------- fixed32

  /** Little endian, four bytes. */
  function Fixed32(n: u32): (s: seq<byte>)
    ensures |s| == 4
  {
    [n % 0x100, n / 0x100 % 0x100, n / 0x100 / 0x100 % 0x100, n / 0x100 / 0x100 / 0x100]
  }

  function UnFixed32(s: seq<byte>): u32
    requires |s| == 4
  {
    var a: int, b: int, c: int, d: int := s[0], s[1], s[2], s[3];
    a + 0x100 * b + 0x1_0000 * c + 0x100_0000 * d
  }

  /** The prefix on the wire: byte i is n / 256^i modulo 256. */
  lemma Fixed32Bytes(n: u32)
    ensures Fixed32(n)[0] == n % 256 && Fixed32(n)[1] == n / 256 % 256
    ensures Fixed32(n)[2] == n / 65536 % 256 && Fixed32(n)[3] == n / 16777216 % 256
  {
  }

  /** Any four bytes, by their weights. */
  lemma UnFixed32Weights(s: seq<byte>)
    requires |s| == 4
    ensures UnFixed32(s) == s[0] as int + 256 * (s[1] as int) + 65536 * (s[2] as int) + 16777216 * (s[3] as int)
  {
  }

  lemma Fixed32RoundTrip(n: u32)
    ensures UnFixed32(Fixed32(n)) == n
  {
  }
}
