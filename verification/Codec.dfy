/** The generated codec: message objects that read themselves from a stream, size themselves and
    write themselves, field by field. */
module Codec {
  import opened Basics
  import opened Wire
  import opened Messages

  /** An input with an optional limit. `Window` is what may be read before the limit or the end. */
  class InputStream {
    const data: seq<byte>
    var pos: nat
    var limit: Option<nat>

    ghost predicate Valid()
      reads this
    {
      pos <= End() <= |data|
    }

    function End(): int
      reads this
    {
      if limit.Some? && limit.value < |data| then limit.value else |data|
    }

    function Window(): seq<byte>
      requires Valid()
      reads this
    {
      data[pos..End()]
    }

    constructor (data: seq<byte>)
      ensures Valid() && this.data == data && pos == 0 && limit == None
    {
      this.data, pos, limit := data, 0, None;
    }

    /** Narrows the window to its first `n` bytes, or to all of it when it is shorter. */
    method PushLimit(n: nat) returns (outer: Option<nat>)
      requires Valid() && limit == None
      modifies `limit
      ensures Valid() && outer == None
      ensures Window() == data[pos..if pos + n < |data| then pos + n else |data|]
    {
      outer := limit;
      limit := Some(pos + n);
    }

    method PopLimit(outer: Option<nat>)
      requires Valid() && outer == None
      modifies `limit
      ensures Valid() && limit == outer
    {
      limit := outer;
    }

    /** Moves past `n` bytes of the window. */
    method Advance(n: nat)
      requires Valid() && n <= |Window()|
      modifies `pos
      ensures Valid() && pos == old(pos) + n && Window() == old(Window())[n..]
    {
      pos := pos + n;
    }

    /** After a failed read the position is anywhere ahead in the window. */
    method Fail()
      requires Valid()
      modifies `pos
      ensures Valid() && old(pos) <= pos
    {
      var n :| 0 <= n <= |Window()|;
      Advance(n);
    }

    method ReadFixed() returns (r: Option<u32>)
      requires Valid()
      modifies `pos
      ensures Valid() && old(pos) <= pos
      ensures r.Some? <==> |old(Window())| >= 4
      ensures r.Some? ==> r.value == UnFixed32(old(Window())[..4]) && pos == old(pos) + 4
    {
      if |Window()| < 4 {
        Fail();
        return None;
      }
      r := Some(UnFixed32(Window()[..4]));
      Advance(4);
    }

    method ReadVarint() returns (r: Option<u64>)
      requires Valid()
      modifies `pos
      ensures Valid() && old(pos) <= pos
      ensures match ReadVarint64(old(Window()))
              case None => r == None
              case Some((n, rest)) => r == Some(n) && Window() == rest && pos > old(pos)
    {
      match ReadVarint64(Window())
      case None =>
        Fail();
        r := None;
      case Some((n, rest)) =>
        SuffixOf(Window());
        Advance(|Window()| - |rest|);
        r := Some(n);
    }

    /** The next tag, or None at the end of the window; no tag at all is an error. */
    method ReadTagOrEof() returns (ok: bool, tag: Option<u32>)
      requires Valid()
      modifies `pos
      ensures Valid() && old(pos) <= pos
      ensures old(Window()) == [] ==> ok && tag == None && pos == old(pos)
      ensures old(Window()) != [] ==>
                match ReadVarint64(old(Window()))
                case None => !ok
                case Some((t, rest)) =>
                  ok == (Low32(t) / 8 != 0) && (ok ==> tag == Some(Low32(t)) && Window() == rest && pos > old(pos))
    {
      if Window() == [] {
        return true, None;
      }
      var t := ReadVarint();
      if t.None? || Low32(t.value) / 8 == 0 {
        return false, None;
      }
      return true, Some(Low32(t.value));
    }

    method ReadBytes() returns (r: Option<seq<byte>>)
      requires Valid()
      modifies `pos
      ensures Valid() && old(pos) <= pos
      ensures match ReadVarint64(old(Window()))
              case None => r == None
              case Some((n, rest)) =>
                match ReadRaw(rest, Low32(n))
                case None => r == None
                case Some((p, rest')) => r == Some(p) && Window() == rest'
    {
      var n := ReadVarint();
      if n.None? {
        return None;
      }
      if |Window()| < Low32(n.value) {
        Fail();
        return None;
      }
      r := Some(Window()[..Low32(n.value)]);
      Advance(Low32(n.value));
    }

    /** read_unknown for the wire types other than groups. */
    method SkipUnknown(tag: u32) returns (ok: bool)
      requires Valid() && tag / 8 >= 1
      modifies `pos
      ensures Valid() && old(pos) <= pos
      ensures match ReadValue(tag, old(Window()))
              case None => !ok
              case Some((_, rest)) => ok && Window() == rest
    {
      if tag % 8 == 0 {
        var n := ReadVarint();
        return n.Some?;
      } else if tag % 8 == 2 {
        var p := ReadBytes();
        return p.Some?;
      } else if (tag % 8 == 1 && |Window()| >= 8) || (tag % 8 == 5 && |Window()| >= 4) {
        Advance(if tag % 8 == 1 then 8 else 4);
        return true;
      }
      Fail();
      return false;
    }
  }

  /** What reading leaves is always a suffix. */
  lemma SuffixOf(s: seq<byte>)
    requires ReadVarint64(s).Some?
    ensures var rest := ReadVarint64(s).value.1;
            s[|s| - |rest|..] == rest
  {
    SuffixOfVarint(s, 10);
  }

  lemma {:induction false} SuffixOfVarint(s: seq<byte>, limit: nat)
    requires ReadVarint(s, limit).Some?
    ensures var rest := ReadVarint(s, limit).value.1;
            |rest| <= |s| && s[|s| - |rest|..] == rest
    decreases limit
  {
    if s[0] >= 0x80 {
      SuffixOfVarint(s[1..], limit - 1);
    }
  }

  class OutputStream {
    var out: seq<byte>

    constructor ()
      ensures out == []
    {
      out := [];
    }

    method WriteFixed32NoTag(n: u32)
      modifies this
      ensures out == old(out) + Fixed32(n)
    {
      out := out + Fixed32(n);
    }

    method WriteUint32(field: nat, v: u32)
      requires 1 <= field < 16
      modifies this
      ensures out == old(out) + EncodeRecord(Record(8 * field, Varint(v)))
    {
      out := out + EncodeVarint(8 * field) + EncodeVarint(v);
    }

    method WriteEnum(field: nat, v: i32)
      requires 1 <= field < 16
      modifies this
      ensures out == old(out) + EncodeRecord(Record(8 * field, Varint(SignExtend(v))))
    {
      out := out + EncodeVarint(8 * field) + EncodeVarint(SignExtend(v));
    }

    /** write_bytes and write_string. */
    method WriteBytes(field: nat, s: seq<byte>)
      requires 1 <= field < 16 && |s| < 0x1_0000_0000
      modifies this
      ensures out == old(out) + EncodeRecord(Record(8 * field + 2, Len(s)))
    {
      out := out + EncodeVarint(8 * field + 2) + EncodeVarint(|s|) + s;
    }
  }

  // ---------------------------------------------------------------- sizes

  function Truncate32(n: nat): u32 {
    n % 0x1_0000_0000
  }

  /** uint32_size and int32_size: tag and varint. */
  function VarintFieldSize(field: nat, n: u64): nat
    requires 1 <= field < 16
  {
    VarintSize(8 * field) + VarintSize(n)
  }

  /** bytes_size and string_size: tag, length and payload. */
  function BytesFieldSize(field: nat, s: seq<byte>): nat
    requires 1 <= field < 16 && |s| < 0x1_0000_0000
  {
    VarintSize(8 * field + 2) + VarintSize(|s|) + |s|
  }

  lemma EncodeNone()
    ensures EncodeRecords([]) == []
  {
  }

  lemma EncodeOne(r: Record)
    ensures EncodeRecords([r]) == EncodeRecord(r)
  {
  }

  /** The bytes and the size of one varint field. */
  lemma VarintField(field: nat, n: u64)
    requires 1 <= field < 16
    ensures var r := Record(8 * field, Varint(n));
            EncodeRecords([r]) == EncodeRecord(r) && |EncodeRecord(r)| == VarintFieldSize(field, n)
  {
    EncodeOne(Record(8 * field, Varint(n)));
    VarintSizeIsLength(8 * field);
    VarintSizeIsLength(n);
  }

  lemma BytesField(field: nat, s: seq<byte>)
    requires 1 <= field < 16 && |s| < 0x1_0000_0000
    ensures var r := Record(8 * field + 2, Len(s));
            EncodeRecords([r]) == EncodeRecord(r) && |EncodeRecord(r)| == BytesFieldSize(field, s)
  {
    EncodeOne(Record(8 * field + 2, Len(s)));
    VarintSizeIsLength(8 * field + 2);
    VarintSizeIsLength(|s|);
  }

  /** The encoding is the fields' encodings, one after the other. */
  lemma RequestFields(m: RequestData)
    requires Encodable(m)
    ensures EncodeRequest(m) ==
            EncodeRecords(U32Record(1, m.version)) + EncodeRecords(EnumRecord(2, m.command))
            + EncodeRecords(U32Record(3, m.timeout)) + EncodeRecords(U32Record(4, m.argUint))
            + EncodeRecords(BytesRecord(5, m.argBytes))
  {
    hide EncodeRecords, EncodeRecord;
    var a, b, c, d, e :=
      U32Record(1, m.version), EnumRecord(2, m.command), U32Record(3, m.timeout), U32Record(4, m.argUint), BytesRecord(5, m.argBytes);
    EncodeRecordsAppend(a + b + c + d, e);
    EncodeRecordsAppend(a + b + c, d);
    EncodeRecordsAppend(a + b, c);
    EncodeRecordsAppend(a, b);
  }

  lemma ResponseFields(m: ResponseData)
    requires EncodableResponse(m)
    ensures EncodeResponse(m) ==
            EncodeRecords(U32Record(1, m.version)) + EncodeRecords(EnumRecord(2, m.status))
            + EncodeRecords(BytesRecord(3, m.error)) + EncodeRecords(BytesRecord(4, m.dataBytes))
  {
    hide EncodeRecords, EncodeRecord;
    var a, b, c, d :=
      U32Record(1, m.version), EnumRecord(2, m.status), BytesRecord(3, m.error), BytesRecord(4, m.dataBytes);
    EncodeRecordsAppend(a + b + c, d);
    EncodeRecordsAppend(a + b, c);
    EncodeRecordsAppend(a, b);
  }

  /** A varint field on the wire: its tag, and the groups of its number; nothing for zero. */
  function VarintBytes(tag: byte, n: u64): seq<byte> {
    if n == 0 then [] else [tag] + EncodeVarint(n)
  }

  /** A bytes field on the wire: its tag, its length, and the bytes as they are; nothing when empty. */
  function PayloadBytes(tag: byte, s: seq<byte>): seq<byte> {
    if s == [] then [] else [tag] + EncodeVarint(|s|) + s
  }

  lemma VarintFieldBytes(field: nat, n: u64)
    requires 1 <= field < 16
    ensures EncodeRecords([Record(8 * field, Varint(n))]) == [8 * field] + EncodeVarint(n)
  {
    hide EncodeVarint;
    EncodeOne(Record(8 * field, Varint(n)));
    OneByteTag(8 * field);
  }

  lemma BytesFieldBytes(tag: byte, s: seq<byte>)
    requires tag in {0x1a, 0x22, 0x2a} && |s| < 0x1_0000_0000
    ensures EncodeRecords([Record(tag, Len(s))]) == [tag] + EncodeVarint(|s|) + s
  {
    hide EncodeVarint, EncodeRecord, EncodeRecords;
    EncodeOne(Record(tag, Len(s)));
    LenRecord(tag, s);
    OneByteTag(tag);
    Associative([tag], EncodeVarint(|s|), s);
  }

  lemma LenRecord(tag: byte, s: seq<byte>)
    requires tag in {0x1a, 0x22, 0x2a} && |s| < 0x1_0000_0000
    ensures EncodeRecord(Record(tag, Len(s))) == EncodeVarint(tag) + (EncodeVarint(|s|) + s)
  {
    hide EncodeVarint;
  }

  /** A request byte by byte. */
  lemma RequestBytes(m: RequestData)
    requires Encodable(m)
    ensures EncodeRequest(m) ==
            VarintBytes(0x08, m.version) + VarintBytes(0x10, SignExtend(m.command)) + VarintBytes(0x18, m.timeout)
            + VarintBytes(0x20, m.argUint) + PayloadBytes(0x2a, m.argBytes)
  {
    hide EncodeRecords, EncodeRecord, EncodeRequest, EncodeVarint;
    RequestFields(m);
    EncodeNone();
    VarintFieldBytes(1, m.version);
    VarintFieldBytes(2, SignExtend(m.command));
    VarintFieldBytes(3, m.timeout);
    VarintFieldBytes(4, m.argUint);
    BytesFieldBytes(0x2a, m.argBytes);
  }

  /** A response byte by byte. */
  lemma ResponseBytes(m: ResponseData)
    requires EncodableResponse(m)
    ensures EncodeResponse(m) ==
            VarintBytes(0x08, m.version) + VarintBytes(0x10, SignExtend(m.status)) + PayloadBytes(0x1a, m.error)
            + PayloadBytes(0x22, m.dataBytes)
  {
    hide EncodeRecords, EncodeRecord, EncodeResponse, EncodeVarint;
    ResponseFields(m);
    EncodeNone();
    VarintFieldBytes(1, m.version);
    VarintFieldBytes(2, SignExtend(m.status));
    BytesFieldBytes(0x1a, m.error);
    BytesFieldBytes(0x22, m.dataBytes);
  }

  /** A field of an unknown number is skipped by its wire type: a varint, eight bytes, a length and as
      many bytes, or four bytes. The other wire types are refused. */
  lemma UnknownFieldSkipped(m: RequestData, field: nat, n: u64, eight: seq<byte>, s: seq<byte>, four: seq<byte>, rest: seq<byte>)
    requires 6 <= field < 16 && |eight| == 8 && |four| == 4 && |s| < 0x1_0000_0000
    ensures MergeRequest(m, [8 * field] + EncodeVarint(n) + rest) == MergeRequest(m, rest)
    ensures MergeRequest(m, [8 * field + 1] + eight + rest) == MergeRequest(m, rest)
    ensures MergeRequest(m, [8 * field + 2] + EncodeVarint(|s|) + s + rest) == MergeRequest(m, rest)
    ensures MergeRequest(m, [8 * field + 5] + four + rest) == MergeRequest(m, rest)
  {
    hide EncodeVarint, MergeRequest, EncodeRecords;
    OneByteTag(8 * field);
    OneByteTag(8 * field + 1);
    OneByteTag(8 * field + 2);
    OneByteTag(8 * field + 5);
    Associative([8 * field + 2], EncodeVarint(|s|), s);
    Skips(m, Record(8 * field, Varint(n)), rest);
    Skips(m, Record(8 * field + 1, I64(eight)), rest);
    Skips(m, Record(8 * field + 2, Len(s)), rest);
    Skips(m, Record(8 * field + 5, I32(four)), rest);
  }

  lemma Skips(m: RequestData, r: Record, rest: seq<byte>)
    requires r.tag >= 48
    ensures MergeRequest(m, EncodeRecord(r) + rest) == MergeRequest(m, rest)
  {
    hide EncodeRecord, ReadRecords, EncodeRecords;
    EncodeOne(r);
    RecordsRoundTrip([r]);
    assert FoldRequest(m, [r]) == m by {
      assert [r][1..] == [];
    }
    MergeRequestAppend(m, EncodeRecord(r), rest);
  }

  lemma OneByteTag(tag: byte)
    requires tag < 0x80
    ensures EncodeVarint(tag) == [tag]
  {
  }

  /** Wire types 3, 4, 6 and 7 are refused for every field, and so is field number zero. */
  lemma WireTypeRefused(m: RequestData, tag: byte, rest: seq<byte>)
    requires tag < 0x80 && (tag % 8 in {3, 4, 6, 7} || tag < 8)
    ensures MergeRequest(m, [tag] + rest) == None
  {
    OneByteTag(tag);
    hide ReadVarint64;
    Varint64RoundTrip(tag, rest);
  }

  /** One turn of merge_from. */
  lemma MergeRequestStep(m: RequestData, w: seq<byte>)
    ensures MergeRequest(m, w) ==
            if w == [] then Some(m)
            else
              match ReadRecord(w)
              case None => None
              case Some((r, rest)) => MergeRequest(ApplyRequest(m, r), rest)
  {
  }

  lemma MergeResponseStep(m: ResponseData, w: seq<byte>)
    ensures MergeResponse(m, w) ==
            if w == [] then Some(m)
            else
              match ReadRecord(w)
              case None => None
              case Some((r, rest)) =>
                match ApplyResponse(m, r)
                case None => None
                case Some(m') => MergeResponse(m', rest)
  {
  }

  // ---------------------------------------------------------------- messages

  class Request {
    var version: u32
    var command: i32
    var timeout: u32
    var argUint: u32
    var argBytes: seq<byte>
    var cachedSize: u32

    function View(): RequestData
      reads this
    {
      RequestData(version, command, timeout, argUint, argBytes)
    }

    constructor ()
      ensures View() == NewRequest
    {
      version, command, timeout, argUint, argBytes, cachedSize := 0, 0, 0, 0, [], 0;
    }

    /** The assignment of one field, its tag already read. */
    method MergeField(t: u32, input: InputStream) returns (ok: bool)
      requires input.Valid() && t / 8 >= 1
      modifies this, input`pos
      ensures input.Valid() && old(input.pos) <= input.pos
      ensures match ReadValue(t, old(input.Window()))
              case None => !ok
              case Some((r, rest)) => ok && View() == ApplyRequest(old(View()), r) && input.Window() == rest
    {
      hide ReadVarint64, Low32, ToInt32;
      if t == 42 {
        var p := input.ReadBytes();
        if p.None? {
          return false;
        }
        argBytes := p.value;
      } else if t == 8 || t == 16 || t == 24 || t == 32 {
        var n := input.ReadVarint();
        if n.None? {
          return false;
        }
        if t == 8 {
          version := Low32(n.value);
        } else if t == 16 {
          command := ToInt32(n.value);
        } else if t == 24 {
          timeout := Low32(n.value);
        } else {
          argUint := Low32(n.value);
        }
      } else {
        ok := input.SkipUnknown(t);
        return ok;
      }
      return true;
    }

    /** merge_from: assigns fields as their records come, up to the end of the window. */
    method MergeFrom(input: InputStream) returns (ok: bool)
      requires input.Valid()
      modifies this, input`pos
      ensures input.Valid() && old(input.pos) <= input.pos
      ensures match MergeRequest(old(View()), old(input.Window()))
              case None => !ok
              case Some(m) => ok && View() == m && input.Window() == []
    {
      hide MergeRequest, ReadVarint64, ReadValue, ApplyRequest;
      while true
        invariant input.Valid() && old(input.pos) <= input.pos
        invariant MergeRequest(View(), input.Window()) == MergeRequest(old(View()), old(input.Window()))
        decreases |input.data| - input.pos
      {
        MergeRequestStep(View(), input.Window());
        var tag;
        ok, tag := input.ReadTagOrEof();
        if !ok || tag == None {
          return;
        }
        ok := MergeField(tag.value, input);
        if !ok {
          return;
        }
      }
    }

    /** compute_size: the number of bytes that write_to emits. */
    method ComputeSize() returns (size: nat)
      requires Encodable(View())
      modifies `cachedSize
      ensures size == |EncodeRequest(View())| && cachedSize == Truncate32(size)
    {
      hide EncodeRequest, EncodeRecord, EncodeRecords, VarintFieldSize, BytesFieldSize;
      EncodeNone();
      RequestFields(View());
      var mySize := 0;
      if version != 0 {
        VarintField(1, version);
        mySize := mySize + VarintFieldSize(1, version);
      }
      if command != 0 {
        VarintField(2, SignExtend(command));
        mySize := mySize + VarintFieldSize(2, SignExtend(command));
      }
      if timeout != 0 {
        VarintField(3, timeout);
        mySize := mySize + VarintFieldSize(3, timeout);
      }
      if argUint != 0 {
        VarintField(4, argUint);
        mySize := mySize + VarintFieldSize(4, argUint);
      }
      if argBytes != [] {
        BytesField(5, argBytes);
        mySize := mySize + BytesFieldSize(5, argBytes);
      }
      cachedSize := Truncate32(mySize);
      return mySize;
    }

    /** write_to_with_cached_sizes. */
    method WriteTo(os: OutputStream)
      requires Encodable(View())
      modifies os
      ensures os.out == old(os.out) + EncodeRequest(View())
    {
      hide EncodeRequest, EncodeRecord, EncodeRecords, VarintFieldSize, BytesFieldSize, SignExtend, EncodeVarint;
      EncodeNone();
      RequestFields(View());
      ghost var start := os.out;
      if version != 0 {
        VarintField(1, version);
        os.WriteUint32(1, version);
      }
      ghost var written := EncodeRecords(U32Record(1, version));
      assert os.out == start + written;
      if command != 0 {
        VarintField(2, SignExtend(command));
        os.WriteEnum(2, command);
      }
      Associative(start, written, EncodeRecords(EnumRecord(2, command)));
      written := written + EncodeRecords(EnumRecord(2, command));
      assert os.out == start + written;
      if timeout != 0 {
        VarintField(3, timeout);
        os.WriteUint32(3, timeout);
      }
      Associative(start, written, EncodeRecords(U32Record(3, timeout)));
      written := written + EncodeRecords(U32Record(3, timeout));
      assert os.out == start + written;
      if argUint != 0 {
        VarintField(4, argUint);
        os.WriteUint32(4, argUint);
      }
      Associative(start, written, EncodeRecords(U32Record(4, argUint)));
      written := written + EncodeRecords(U32Record(4, argUint));
      assert os.out == start + written;
      if argBytes != [] {
        BytesField(5, argBytes);
        os.WriteBytes(5, argBytes);
      }
      Associative(start, written, EncodeRecords(BytesRecord(5, argBytes)));
      written := written + EncodeRecords(BytesRecord(5, argBytes));
      assert os.out == start + written;
    }
  }

  class Response {
    var version: u32
    var status: i32
    var error: Text
    var dataBytes: seq<byte>
    var cachedSize: u32

    function View(): ResponseData
      reads this
    {
      ResponseData(version, status, error, dataBytes)
    }

    constructor ()
      ensures View() == NewResponse
    {
      version, status, error, dataBytes, cachedSize := 0, STATUS_INVALID, [], [], 0;
    }

    method MergeField(t: u32, input: InputStream) returns (ok: bool)
      requires input.Valid() && t / 8 >= 1
      modifies this, input`pos
      ensures input.Valid() && old(input.pos) <= input.pos
      ensures match ReadValue(t, old(input.Window()))
              case None => !ok
              case Some((r, rest)) =>
                match ApplyResponse(old(View()), r)
                case None => !ok
                case Some(m) => ok && View() == m && input.Window() == rest
    {
      hide ReadVarint64, Low32, ToInt32, ValidUtf8;
      if t == 26 || t == 34 {
        var p := input.ReadBytes();
        if p.None? || (t == 26 && !ValidUtf8(p.value)) {
          return false;
        }
        if t == 26 {
          error := p.value;
        } else {
          dataBytes := p.value;
        }
      } else if t == 8 || t == 16 {
        var n := input.ReadVarint();
        if n.None? {
          return false;
        }
        if t == 8 {
          version := Low32(n.value);
        } else {
          status := ToInt32(n.value);
        }
      } else {
        ok := input.SkipUnknown(t);
        return ok;
      }
      return true;
    }

    method MergeFrom(input: InputStream) returns (ok: bool)
      requires input.Valid()
      modifies this, input`pos
      ensures input.Valid() && old(input.pos) <= input.pos
      ensures match MergeResponse(old(View()), old(input.Window()))
              case None => !ok
              case Some(m) => ok && View() == m && input.Window() == []
    {
      hide MergeResponse, ReadVarint64, ReadValue, ApplyResponse, ValidUtf8;
      while true
        invariant input.Valid() && old(input.pos) <= input.pos
        invariant MergeResponse(View(), input.Window()) == MergeResponse(old(View()), old(input.Window()))
        decreases |input.data| - input.pos
      {
        MergeResponseStep(View(), input.Window());
        var tag;
        ok, tag := input.ReadTagOrEof();
        if !ok || tag == None {
          return;
        }
        ok := MergeField(tag.value, input);
        if !ok {
          return;
        }
      }
    }

    method ComputeSize() returns (size: nat)
      requires EncodableResponse(View())
      modifies `cachedSize
      ensures size == |EncodeResponse(View())| && cachedSize == Truncate32(size)
    {
      hide EncodeResponse, EncodeRecord, EncodeRecords, VarintFieldSize, BytesFieldSize;
      EncodeNone();
      ResponseFields(View());
      var mySize := 0;
      if version != 0 {
        VarintField(1, version);
        mySize := mySize + VarintFieldSize(1, version);
      }
      if status != 0 {
        VarintField(2, SignExtend(status));
        mySize := mySize + VarintFieldSize(2, SignExtend(status));
      }
      if error != [] {
        BytesField(3, error);
        mySize := mySize + BytesFieldSize(3, error);
      }
      if dataBytes != [] {
        BytesField(4, dataBytes);
        mySize := mySize + BytesFieldSize(4, dataBytes);
      }
      cachedSize := Truncate32(mySize);
      return mySize;
    }

    method WriteTo(os: OutputStream)
      requires EncodableResponse(View())
      modifies os
      ensures os.out == old(os.out) + EncodeResponse(View())
    {
      hide EncodeResponse, EncodeRecord, EncodeRecords;
      EncodeNone();
      ResponseFields(View());
      ghost var start := os.out;
      if version != 0 {
        VarintField(1, version);
        os.WriteUint32(1, version);
      }
      ghost var written := EncodeRecords(U32Record(1, version));
      assert os.out == start + written;
      if status != 0 {
        VarintField(2, SignExtend(status));
        os.WriteEnum(2, status);
      }
      Associative(start, written, EncodeRecords(EnumRecord(2, status)));
      written := written + EncodeRecords(EnumRecord(2, status));
      assert os.out == start + written;
      if error != [] {
        BytesField(3, error);
        os.WriteBytes(3, error);
      }
      Associative(start, written, EncodeRecords(BytesRecord(3, error)));
      written := written + EncodeRecords(BytesRecord(3, error));
      assert os.out == start + written;
      if dataBytes != [] {
        BytesField(4, dataBytes);
        os.WriteBytes(4, dataBytes);
      }
      Associative(start, written, EncodeRecords(BytesRecord(4, dataBytes)));
      written := written + EncodeRecords(BytesRecord(4, dataBytes));
      assert os.out == start + written;
    }
  }
}
