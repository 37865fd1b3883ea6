/**
 The Confluent wire format as the Protobuf and Avro deserializers take it apart
 (internal/serde/protobuf.go, internal/serde/avro.go):
 magic byte 0, four-byte big-endian schema id, for Protobuf a varint message-index array, payload.
 */
module WireFrame {
  import opened Wrappers
  import opened Varint

  const MAX_INDEX_COUNT := 100

  datatype Error = InvalidCount | CountExceedsMaximum | Truncated | InvalidIndex

  datatype Index = Index(path: seq<int>, bytesRead: nat)

  /** Go's int(v) for a uint64. */
  function AsInt(v: nat): int {
    if v < 0x8000_0000_0000_0000 then v else v - 0x1_0000_0000_0000_0000
  }

  // ---------------------------------------------------------------- the message index

  /** The whole result, from the indices read so far and the result of reading the others. */
  function Resume(path: seq<int>, read: nat, rest: Result<Index, Error>): Result<Index, Error> {
    match rest
    case Ok(index) => Ok(Index(path + index.path, read + index.bytesRead))
    case Err(e) => Err(e)
  }

  /** Reads count varints one after the other. */
  function ReadIndices(data: seq<byte>, count: nat): Result<Index, Error>
    decreases count
  {
    if count == 0 then Ok(Index([], 0))
    else if data == [] then Err(Truncated)
    else
      var first := Uvarint(data);
      if !first.Done? then Err(InvalidIndex)
      else Resume([AsInt(first.value)], first.n, ReadIndices(data[first.n..], count - 1))
  }

  function MessageIndex(data: seq<byte>): Result<Index, Error> {
    if data == [] then Ok(Index([0], 0))
    else
      var first := Uvarint(data);
      if !first.Done? then Err(InvalidCount)
      else if first.value == 0 then Ok(Index([0], first.n))
      else if first.value > MAX_INDEX_COUNT then Err(CountExceedsMaximum)
      else
        match ReadIndices(data[first.n..], first.value)
        case Ok(rest) => Ok(Index(rest.path, first.n + rest.bytesRead))
        case Err(e) => Err(e)
  }

  method ParseMessageIndex(data: seq<byte>) returns (r: Result<Index, Error>)
    ensures r == MessageIndex(data)
  {
    if |data| == 0 {
      return Ok(Index([0], 0));
    }
    var first := Uvarint(data);
    if !first.Done? {
      return Err(InvalidCount);
    }
    ReadIsLocal(data, [], 0);
    var count, totalRead := first.value, first.n;
    if count == 0 {
      return Ok(Index([0], totalRead));
    }
    if count > MAX_INDEX_COUNT {
      return Err(CountExceedsMaximum);
    }
    var rest := ReadPath(data[totalRead..], count);
    if rest.Err? {
      return Err(rest.error);
    }
    return Ok(Index(rest.value.path, totalRead + rest.value.bytesRead));
  }

  /** The loop of ParseMessageIndex: fills the index array from the bytes after the count. */
  method ReadPath(data: seq<byte>, count: nat) returns (r: Result<Index, Error>)
    ensures r == ReadIndices(data, count)
  {
    var indices := new int[count];
    var totalRead: nat := 0;
    ResumeStart(data, count);
    for i := 0 to count
      invariant totalRead <= |data|
      invariant Resume(indices[..i], totalRead, ReadIndices(data[totalRead..], count - i)) == ReadIndices(data, count)
    {
      if totalRead >= |data| {
        return Err(Truncated);
      }
      var next := Uvarint(data[totalRead..]);
      if !next.Done? {
        return Err(InvalidIndex);
      }
      ResumeStep(data, totalRead, indices[..i], count - i);
      ghost var done := indices[..i];
      indices[i] := AsInt(next.value);
      assert indices[..i + 1] == done + [AsInt(next.value)];
      totalRead := totalRead + next.n;
    }
    ResumeEnd(indices[..count], totalRead, data[totalRead..]);
    assert indices[..] == indices[..count];
    return Ok(Index(indices[..], totalRead));
  }

  lemma ResumeStart(data: seq<byte>, count: nat)
    ensures Resume([], 0, ReadIndices(data[0..], count)) == ReadIndices(data, count)
  {
    assert data[0..] == data;
    var rest := ReadIndices(data, count);
    if rest.Ok? {
      assert [] + rest.value.path == rest.value.path;
    }
  }

  lemma ResumeEnd(path: seq<int>, read: nat, data: seq<byte>)
    ensures Resume(path, read, ReadIndices(data, 0)) == Ok(Index(path, read))
  {
    assert path + [] == path;
  }

  /** One more index read moves from what is left to what is done. */
  lemma ResumeStep(data: seq<byte>, at: nat, path: seq<int>, count: nat)
    requires at < |data| && count > 0 && Uvarint(data[at..]).Done?
    ensures var next := Uvarint(data[at..]);
            && at + next.n <= |data|
            && Resume(path, at, ReadIndices(data[at..], count)) ==
               Resume(path + [AsInt(next.value)], at + next.n, ReadIndices(data[at + next.n..], count - 1))
  {
    var next := Uvarint(data[at..]);
    ReadIsLocal(data[at..], [], 0);
    assert data[at..][next.n..] == data[at + next.n..];
    var rest := ReadIndices(data[at + next.n..], count - 1);
    if rest.Ok? {
      assert path + ([AsInt(next.value)] + rest.value.path) == (path + [AsInt(next.value)]) + rest.value.path;
    }
  }

  // ---------------------------------------------------------------- round trip and locality

  function PutIndices(path: seq<nat>): seq<byte> {
    if path == [] then [] else PutUvarint(path[0]) + PutIndices(path[1..])
  }

  /** The indices written in front of what follows them. */
  ghost function PutBefore(path: seq<nat>, rest: seq<byte>): seq<byte> {
    if path == [] then rest else PutUvarint(path[0]) + PutBefore(path[1..], rest)
  }

  lemma {:induction false} PutBeforeIsPut(path: seq<nat>, rest: seq<byte>)
    ensures PutBefore(path, rest) == PutIndices(path) + rest
  {
    if path == [] {
    } else {
      PutBeforeIsPut(path[1..], rest);
    }
  }

  lemma ReadOne(data: seq<byte>, k: nat, x: nat, path: seq<nat>, n: nat)
    requires x < 0x8000_0000_0000_0000 && Uvarint(data) == Done(x, k)
    requires ReadIndices(data[k..], |path|) == Ok(Index(path, n))
    ensures ReadIndices(data, |path| + 1) == Ok(Index([x] + path, k + n))
  {
  }

  lemma FirstNumber(x: nat, tail: seq<byte>)
    requires x < 0x8000_0000_0000_0000
    ensures var data := PutUvarint(x) + tail;
            Uvarint(data) == Done(x, |PutUvarint(x)|) && data[|PutUvarint(x)|..] == tail
  {
    CapacityIs64Bits();
    ReadsWhatWasPut(x, tail, 0);
  }

  lemma {:induction false} ReadsPutBefore(path: seq<nat>, rest: seq<byte>)
    requires forall i :: 0 <= i < |path| ==> path[i] < 0x8000_0000_0000_0000
    ensures ReadIndices(PutBefore(path, rest), |path|) == Ok(Index(path, |PutIndices(path)|))
  {
    if path == [] {
    } else {
      ReadsPutBefore(path[1..], rest);
      FirstNumber(path[0], PutBefore(path[1..], rest));
      ReadOne(PutBefore(path, rest), |PutUvarint(path[0])|, path[0], path[1..], |PutIndices(path[1..])|);
      assert [path[0]] + path[1..] == path;
    }
  }

  lemma IndicesRoundTrip(path: seq<nat>, rest: seq<byte>)
    requires forall i :: 0 <= i < |path| ==> path[i] < 0x8000_0000_0000_0000
    ensures ReadIndices(PutIndices(path) + rest, |path|) == Ok(Index(path, |PutIndices(path)|))
  {
    ReadsPutBefore(path, rest);
    PutBeforeIsPut(path, rest);
  }

  lemma DropOfAppend(data: seq<byte>, more: seq<byte>, n: nat)
    requires n <= |data|
    ensures (data + more)[n..] == data[n..] + more
  {
  }

  /** Reading indices is reading one and then the others. */
  lemma ReadStep(data: seq<byte>, count: nat)
    requires count > 0 && Uvarint(data).Done?
    ensures ReadIndices(data, count) ==
            Resume([AsInt(Uvarint(data).value)], Uvarint(data).n, ReadIndices(data[Uvarint(data).n..], count - 1))
  {
  }

  lemma {:induction false} IndicesLocal(data: seq<byte>, more: seq<byte>, count: nat)
    requires ReadIndices(data, count).Ok?
    ensures ReadIndices(data, count).value.bytesRead <= |data|
    ensures |ReadIndices(data, count).value.path| == count
    ensures ReadIndices(data + more, count) == ReadIndices(data, count)
    decreases count
  {
    if count == 0 {
    } else {
      var n := Uvarint(data).n;
      ReadIsLocal(data, more, 0);
      DropOfAppend(data, more, n);
      IndicesLocal(data[n..], more, count - 1);
      ReadStep(data, count);
      ReadStep(data + more, count);
    }
  }

  /** The unsigned numbers that stand where the indices are read. */
  function Numbers(data: seq<byte>, count: nat): seq<nat>
    decreases count
  {
    if count == 0 || !Uvarint(data).Done? then []
    else [Uvarint(data).value] + Numbers(data[Uvarint(data).n..], count - 1)
  }

  /** Each index is its number's value as a signed 64-bit integer: negative exactly from 2^63 on. */
  lemma {:induction false} IndexNegativeIff(data: seq<byte>, count: nat)
    requires ReadIndices(data, count).Ok?
    ensures |Numbers(data, count)| == |ReadIndices(data, count).value.path| == count
    ensures forall i :: 0 <= i < count ==>
              var index, number := ReadIndices(data, count).value.path[i], Numbers(data, count)[i];
              && number < 0x1_0000_0000_0000_0000
              && (index < 0 <==> number >= 0x8000_0000_0000_0000)
              && number == if index < 0 then index + 0x1_0000_0000_0000_0000 else index
    decreases count
  {
    if count == 0 {
    } else {
      CapacityIs64Bits();
      ReadFits(data, 0);
      IndexNegativeIff(data[Uvarint(data).n..], count - 1);
    }
  }

  /** Every index read fits a signed 64-bit integer. */
  lemma IndicesFitInt64(data: seq<byte>, count: nat)
    requires ReadIndices(data, count).Ok?
    ensures forall i :: 0 <= i < |ReadIndices(data, count).value.path| ==>
              -0x8000_0000_0000_0000 <= ReadIndices(data, count).value.path[i] < 0x8000_0000_0000_0000
  {
    IndexNegativeIff(data, count);
  }

  datatype Choice = NoMessages | OutOfRange | Chosen(i: int)

  /** The choice of the message among the schema's messages, as Deserialize makes it. */
  function Choose(path: seq<int>, messages: nat): Choice {
    if messages == 0 then NoMessages
    else
      var idx := if |path| > 0 then path[0] else 0;
      if idx >= messages then OutOfRange else Chosen(idx)
  }

  lemma LastIndex(data: seq<byte>, v: nat)
    requires data != [] && Uvarint(data) == Done(v, |data|)
    ensures ReadIndices(data, 1) == Ok(Index([AsInt(v)], |data|))
  {
    ReadStep(data, 1);
    assert data[|data|..] == [] && [AsInt(v)] + [] == [AsInt(v)];
  }

  /** A single index whose number has the top bit set is negative, and the range check lets it through, whatever
      the schema: the largest number stands for the index -1. */
  lemma NegativeIndexPasses(v: nat, messages: nat)
    requires 0x8000_0000_0000_0000 <= v < 0x1_0000_0000_0000_0000 && messages > 0
    ensures var data, index := [1] + PutUvarint(v), v - 0x1_0000_0000_0000_0000;
            && MessageIndex(data) == Ok(Index([index], |data|))
            && Choose([index], messages) == Chosen(index)
  {
    CapacityIs64Bits();
    ReadsWhatWasPut(v, [], 0);
    assert PutUvarint(v) + [] == PutUvarint(v);
    LastIndex(PutUvarint(v), v);
    var data := [1] + PutUvarint(v);
    assert data[1..] == PutUvarint(v) && Uvarint(data) == Done(1, 1);
  }

  lemma SameMessageIndex(a: seq<byte>, b: seq<byte>)
    requires a != [] && b != [] && Uvarint(a) == Uvarint(b) && Uvarint(a).Done?
    requires var count, n := Uvarint(a).value, Uvarint(a).n;
             0 < count <= MAX_INDEX_COUNT ==> ReadIndices(a[n..], count) == ReadIndices(b[n..], count)
    ensures MessageIndex(a) == MessageIndex(b)
  {
  }

  /** Whatever parses from a non-empty input was read from within it, and more bytes after it change nothing. */
  lemma MessageIndexIsLocal(data: seq<byte>, more: seq<byte>)
    requires data != [] && MessageIndex(data).Ok?
    ensures 1 <= MessageIndex(data).value.bytesRead <= |data|
    ensures 1 <= |MessageIndex(data).value.path| <= 100
    ensures MessageIndex(data + more) == MessageIndex(data)
  {
    ReadIsLocal(data, more, 0);
    var count, n := Uvarint(data).value, Uvarint(data).n;
    DropOfAppend(data, more, n);
    if count > 0 {
      IndicesLocal(data[n..], more, count);
    }
    SameMessageIndex(data, data + more);
  }

  lemma DropOfTake(data: seq<byte>, k: nat, n: nat)
    requires k <= n <= |data|
    ensures data[..n][k..] == data[k..][..n - k]
  {
  }

  lemma {:induction false} IndicesInPrefix(data: seq<byte>, n: nat, count: nat)
    requires ReadIndices(data, count).Ok? && ReadIndices(data, count).value.bytesRead <= n <= |data|
    ensures ReadIndices(data[..n], count) == ReadIndices(data, count)
    decreases count
  {
    if count == 0 {
    } else {
      var k := Uvarint(data).n;
      ReadIsLocal(data, [], 0);
      ReadInPrefix(data, n, 0);
      DropOfTake(data, k, n);
      ReadStep(data, count);
      ReadStep(data[..n], count);
      IndicesInPrefix(data[k..], n - k, count - 1);
    }
  }

  lemma MessageIndexInPrefix(data: seq<byte>, n: nat)
    requires data != [] && MessageIndex(data).Ok? && MessageIndex(data).value.bytesRead <= n <= |data|
    ensures MessageIndex(data[..n]) == MessageIndex(data)
  {
    ReadInPrefix(data, n, 0);
    var count, k := Uvarint(data).value, Uvarint(data).n;
    DropOfTake(data, k, n);
    if count > 0 {
      IndicesInPrefix(data[k..], n - k, count);
    }
    SameMessageIndex(data, data[..n]);
  }

  // ---------------------------------------------------------------- frames

  function PutID(id: nat): seq<byte> {
    var q1 := id / 256;
    var q2 := q1 / 256;
    [q2 / 256 % 256, q2 % 256, q1 % 256, id % 256]
  }

  /** binary.BigEndian.Uint32 */
  function Uint32(b: seq<byte>): nat
    requires |b| == 4
  {
    b[0] as int * 0x100_0000 + b[1] as int * 0x1_0000 + b[2] as int * 0x100 + b[3]
  }

  /** The first byte is the most significant one. */
  lemma BigEndian(a: byte, rest: seq<byte>)
    requires |rest| == 3
    ensures Uint32([a] + rest) == a * 0x100_0000 + Uint32([0] + rest)
    ensures Uint32([0, 0, 0, a]) == a
  {
  }

  lemma IDRoundTrip(id: nat)
    requires id < 0x1_0000_0000
    ensures Uint32(PutID(id)) == id
  {
  }

  predicate DetectProtobuf(data: seq<byte>) {
    |data| >= 6 && data[0] == 0
  }

  predicate DetectAvro(data: seq<byte>) {
    |data| >= 5 && data[0] == 0
  }

  datatype ProtobufFrame = ProtobufFrame(schemaID: nat, path: seq<int>, payload: seq<byte>)
  datatype AvroFrame = AvroFrame(schemaID: nat, payload: seq<byte>)

  function SplitAvro(data: seq<byte>): AvroFrame
    requires DetectAvro(data)
  {
    AvroFrame(Uint32(data[1..5]), data[5..])
  }

  method SplitProtobuf(data: seq<byte>) returns (r: Result<ProtobufFrame, Error>)
    requires DetectProtobuf(data)
    ensures r == ProtobufParts(data)
  {
    var schemaID := Uint32(data[1..5]);
    var payload := data[5..];
    var parsed := ParseMessageIndex(payload);
    if parsed.Err? {
      return Err(parsed.error);
    }
    MessageIndexIsLocal(payload, []);
    payload := payload[parsed.value.bytesRead..];
    return Ok(ProtobufFrame(schemaID, parsed.value.path, payload));
  }

  function ProtobufParts(data: seq<byte>): Result<ProtobufFrame, Error>
    requires DetectProtobuf(data)
  {
    match MessageIndex(data[5..])
    case Ok(index) =>
      MessageIndexIsLocal(data[5..], []);
      Ok(ProtobufFrame(Uint32(data[1..5]), index.path, data[5..][index.bytesRead..]))
    case Err(e) => Err(e)
  }

  lemma IDFromBytes(b: seq<byte>)
    requires |b| == 4
    ensures Uint32(b) < 0x1_0000_0000 && PutID(Uint32(b)) == b
  {
    var q2 := b[0] as int * 0x100 + b[1];
    var q1 := q2 * 0x100 + b[2];
    assert Uint32(b) == q1 * 0x100 + b[3];
    assert Uint32(b) / 256 == q1 && q1 / 256 == q2 && q2 / 256 == b[0];
  }

  /** A frame put together from the magic byte, an id, bytes that by themselves read as a path, and a payload. */
  lemma FramePutTogether(id: nat, index: seq<byte>, payload: seq<byte>)
    requires id < 0x1_0000_0000 && index != []
    requires MessageIndex(index).Ok? && MessageIndex(index).value.bytesRead == |index|
    ensures var data := [0] + PutID(id) + index + payload;
            DetectProtobuf(data) && ProtobufParts(data) ==
                Ok(ProtobufFrame(id, MessageIndex(index).value.path, payload))
  {
    var data := [0] + PutID(id) + index + payload;
    assert data[1..5] == PutID(id) && data[5..] == index + payload;
    IDRoundTrip(id);
    MessageIndexIsLocal(index, payload);
    assert data[5..][|index|..] == payload;
  }

  lemma CutFrame(data: seq<byte>, n: nat)
    requires |data| >= 5 && n <= |data| - 5
    ensures data == [data[0]] + data[1..5] + data[5..][..n] + data[5..][n..]
  {
  }

  lemma FrameTakenApart(data: seq<byte>) returns (index: seq<byte>)
    requires DetectProtobuf(data) && ProtobufParts(data).Ok?
    ensures var frame := ProtobufParts(data).value;
            && frame.schemaID < 0x1_0000_0000 && index != []
            && data == [0] + PutID(frame.schemaID) + index + frame.payload
            && MessageIndex(index) == Ok(Index(frame.path, |index|))
  {
    var n := MessageIndex(data[5..]).value.bytesRead;
    MessageIndexIsLocal(data[5..], []);
    MessageIndexInPrefix(data[5..], n);
    IDFromBytes(data[1..5]);
    CutFrame(data, n);
    index := data[5..][..n];
  }

  /** A frame is taken apart into an id, a path and a payload exactly when it consists of the magic byte, the id's
      four bytes, bytes that by themselves read as the path and nothing more, and the payload. */
  lemma FrameIff(data: seq<byte>, id: nat, path: seq<int>, payload: seq<byte>)
    requires DetectProtobuf(data)
    ensures ProtobufParts(data) == Ok(ProtobufFrame(id, path, payload)) <==>
            exists index :: && id < 0x1_0000_0000 && index != [] && data == [0] + PutID(id) + index + payload
                            && MessageIndex(index) == Ok(Index(path, |index|))
  {
    if ProtobufParts(data) == Ok(ProtobufFrame(id, path, payload)) {
      var index := FrameTakenApart(data);
    }
    if index :| && id < 0x1_0000_0000 && index != [] && data == [0] + PutID(id) + index + payload
                && MessageIndex(index) == Ok(Index(path, |index|)) {
      FramePutTogether(id, index, payload);
    }
  }

  /** Of a frame that is taken apart, what the range check lets through is one of the schema's messages exactly when
      the count behind the id is zero or the varint behind the count is below 2^63. */
  lemma ChosenIsAMessageIff(data: seq<byte>, messages: nat)
    requires DetectProtobuf(data) && ProtobufParts(data).Ok?
    requires Choose(ProtobufParts(data).value.path, messages).Chosen?
    ensures Uvarint(data[5..]).Done?
    ensures var count, n := Uvarint(data[5..]).value, Uvarint(data[5..]).n;
            && (count > 0 ==> Uvarint(data[5 + n..]).Done?)
            && (0 <= Choose(ProtobufParts(data).value.path, messages).i < messages <==>
                  count == 0 || Uvarint(data[5 + n..]).value < 0x8000_0000_0000_0000)
  {
    var count, n := Uvarint(data[5..]).value, Uvarint(data[5..]).n;
    assert data[5..][n..] == data[5 + n..];
    if count > 0 {
      IndexNegativeIff(data[5 + n..], count);
    }
  }

  function EncodeProtobuf(id: nat, path: seq<nat>, payload: seq<byte>): seq<byte> {
    [0] + PutID(id) + PutUvarint(|path|) + PutIndices(path) + payload
  }

  /** Any 32-bit id, any 1 to 100 indices below 2^63 and any payload come back from their frame. */
  lemma FrameRoundTrip(id: nat, path: seq<nat>, payload: seq<byte>)
    requires id < 0x1_0000_0000 && 1 <= |path| <= 100
    requires forall i :: 0 <= i < |path| ==> path[i] < 0x8000_0000_0000_0000
    ensures DetectProtobuf(EncodeProtobuf(id, path, payload))
    ensures ProtobufParts(EncodeProtobuf(id, path, payload)) == Ok(ProtobufFrame(id, path, payload))
  {
    var data := EncodeProtobuf(id, path, payload);
    var count, indices := PutUvarint(|path|), PutIndices(path);
    assert data[1..5] == PutID(id);
    assert data[5..] == count + (indices + payload);
    IDRoundTrip(id);
    CapacityIs64Bits();
    ReadsWhatWasPut(|path|, indices + payload, 0);
    IndicesRoundTrip(path, payload);
    assert data[5..][|count|..] == indices + payload;
    assert data[5..][|count| + |indices|..] == payload;
  }

  /** The bytes between id and payload decide: no byte at all stands for the path [0], a count above 100 or below
      the number of indices that follow is an error. */
  lemma WrongCounts(count: nat, path: seq<nat>)
    requires count < 0x1_0000_0000_0000_0000
    requires forall i :: 0 <= i < |path| ==> path[i] < 0x8000_0000_0000_0000
    ensures MessageIndex([]) == Ok(Index([0], 0))
    ensures count > 100 ==> MessageIndex(PutUvarint(count) + PutIndices(path)) == Err(CountExceedsMaximum)
    ensures |path| < count <= 100 ==> MessageIndex(PutUvarint(count) + PutIndices(path)) == Err(Truncated)
  {
    CapacityIs64Bits();
    ReadsWhatWasPut(count, PutIndices(path), 0);
    assert (PutUvarint(count) + PutIndices(path))[|PutUvarint(count)|..] == PutIndices(path);
    if |path| < count {
      TooFewIndices(path, count);
    }
  }

  lemma {:induction false} TooFewIndices(path: seq<nat>, count: nat)
    requires |path| < count && forall i :: 0 <= i < |path| ==> path[i] < 0x8000_0000_0000_0000
    ensures ReadIndices(PutIndices(path), count) == Err(Truncated)
  {
    if path == [] {
    } else {
      FirstNumber(path[0], PutIndices(path[1..]));
      TooFewIndices(path[1..], count - 1);
    }
  }

  /** A number that is cut off in the middle is an error, in the count and in the indices. */
  lemma CutNumbers(v: nat, n: nat)
    requires 1 <= n < |PutUvarint(v)| && v < 0x1_0000_0000_0000_0000
    ensures MessageIndex(PutUvarint(v)[..n]) == Err(InvalidCount)
    ensures MessageIndex([1] + PutUvarint(v)[..n]) == Err(InvalidIndex)
  {
    CapacityIs64Bits();
    CutIsTooShort(v, n, 0);
    var data := [1] + PutUvarint(v)[..n];
    assert data[1..] == PutUvarint(v)[..n] && Uvarint(data) == Done(1, 1);
  }

  lemma {:induction false} CutIsTooShort(v: nat, n: nat, i: nat)
    requires i <= 9 && v < Capacity(i) && n < |PutUvarint(v)|
    ensures Uvarint(PutUvarint(v)[..n], i) == TooShort
    decreases v
  {
    if n == 0 {
    } else {
      assert PutUvarint(v)[..n][1..] == PutUvarint(v / 128)[..n - 1];
      CutIsTooShort(v / 128, n - 1, i + 1);
    }
  }

  /** The header alone, without any byte behind the id, is an Avro frame but not a Protobuf one; no frame begins with
      another byte than zero. */
  lemma HeaderAlone(id: nat, first: byte, rest: seq<byte>)
    ensures DetectAvro([0] + PutID(id)) && !DetectProtobuf([0] + PutID(id))
    ensures first != 0 ==> !DetectAvro([first] + rest) && !DetectProtobuf([first] + rest)
  {
  }

  /** A first index that is one of the messages chooses that message. */
  lemma FirstIndexIsChosen(path: seq<int>, messages: nat)
    requires path != []
    ensures 0 <= path[0] < messages ==> Choose(path, messages) == Chosen(path[0])
    ensures messages == 0 ==> Choose(path, messages) == NoMessages
    ensures 0 < messages <= path[0] ==> Choose(path, messages) == OutOfRange
  {
  }

  /** The one-byte short form stands for the path [0]. */
  lemma ShortFormRoundTrip(id: nat, payload: seq<byte>)
    requires id < 0x1_0000_0000
    ensures DetectProtobuf([0] + PutID(id) + [0] + payload)
    ensures ProtobufParts([0] + PutID(id) + [0] + payload) == Ok(ProtobufFrame(id, [0], payload))
  {
    var data := [0] + PutID(id) + [0] + payload;
    assert data[1..5] == PutID(id);
    assert data[5..] == [0] + payload;
    assert data[5..][1..] == payload;
    IDRoundTrip(id);
  }

  lemma AvroRoundTrip(id: nat, payload: seq<byte>)
    requires id < 0x1_0000_0000
    ensures DetectAvro([0] + PutID(id) + payload)
    ensures SplitAvro([0] + PutID(id) + payload) == AvroFrame(id, payload)
  {
    var data := [0] + PutID(id) + payload;
    assert data[1..5] == PutID(id);
    IDRoundTrip(id);
  }
}
