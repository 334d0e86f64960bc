/** The incremental decoder of chunked bodies (httpparser/chunkprocessor.c; the coding is section 4.1 of RFC 7230). */
module ChunkProcessor {
  type Byte = x: int | 0 <= x < 256

  const CR: Byte := 13
  const LF: Byte := 10

  datatype Option<+T> = None | Some(value: T)

  // ----- the chunk size line

  function Digit(b: Byte): Option<nat> {
    if 48 <= b <= 57 then Some(b - 48)
    else if 65 <= b <= 70 then Some(b - 55)
    else if 97 <= b <= 102 then Some(b - 87)
    else None
  }

  function HexValue(text: seq<Byte>, n: nat): Option<nat>
    requires n <= |text|
  {
    if n == 0 then Some(0)
    else
      match HexValue(text, n - 1)
      case None => None
      case Some(v) => if Digit(text[n - 1]).Some? then Some(16 * v + Digit(text[n - 1]).value) else None
  }

  /** jf_string_getS32FromHexString: a number if there are only hexadecimal digits. */
  function ParseHex(text: seq<Byte>): Option<nat> {
    HexValue(text, |text|)
  }

  lemma {:induction false} HexHasNoCR(text: seq<Byte>, n: nat, i: nat)
    requires i < n <= |text| && HexValue(text, n).Some?
    ensures text[i] != CR
  {
    if i < n - 1 { HexHasNoCR(text, n - 1, i); }
  }

  // ----- the processor

  datatype Flag = Start | End | Data | Footer

  /** internal_httpparser_chunk_processor_t; out is the part of the buffer in use and size the buffer's size.
      body is what has been handed to the packet header. */
  datatype Proc = Proc(flag: Flag, out: seq<Byte>, size: nat, left: nat, body: Option<seq<Byte>>)

  datatype Status = Ok | Incomplete | Corrupted

  datatype Step = Step(status: Status, p: Proc, consumed: nat)

  /** Index j is behind a CRLF and before the end. */
  predicate BehindLine(buf: seq<Byte>, j: nat) {
    2 <= j < |buf| && buf[j - 2] == CR && buf[j - 1] == LF
  }

  /** The first index from i on that is behind a CRLF and before the end, or the end. */
  function FindLineEnd(buf: seq<Byte>, i: nat): (r: nat)
    ensures r < |buf| ==> r >= i && BehindLine(buf, r)
    ensures r <= |buf| && forall j :: i <= j < r ==> !BehindLine(buf, j)
    decreases |buf| - i
  {
    if i >= |buf| then |buf| else if BehindLine(buf, i) then i else FindLineEnd(buf, i + 1)
  }

  /** _processStartChunkInHttpParser */
  function StartStep(p: Proc, buf: seq<Byte>): Step {
    var index := FindLineEnd(buf, 3);
    if index >= |buf| then Step(Incomplete, p, 0)
    else
      match ParseHex(buf[..index - 2])
      case None => Step(Incomplete, p, 0)
      case Some(v) => Step(Ok, p.(left := v, flag := if v == 0 then Footer else Data), index)
  }

  /** _processEndChunkInHttpParser */
  function EndStep(p: Proc, buf: seq<Byte>): Step {
    if |buf| >= 2 then Step(Ok, p.(flag := Start), 2) else Step(Incomplete, p, 0)
  }

  /** _processDataChunkInHttpParser */
  function DataStep(p: Proc, buf: seq<Byte>): Step {
    var index := if |buf| >= p.left then p.left else |buf|;
    Step(Ok,
         p.(flag := if |buf| >= p.left then End else Data,
            size := if |p.out| + |buf| > p.size then p.size + |buf| else p.size,
            out := p.out + buf[..index], left := p.left - index),
         index)
  }

  /** _processFooterChunkInHttpParser */
  function FooterStep(p: Proc, buf: seq<Byte>): Step {
    if |buf| < 2 then Step(Incomplete, p, 0)
    else if buf[0] == CR && buf[1] == LF then Step(Ok, p.(body := Some(p.out)), 2)
    else Step(Corrupted, p, 0)
  }

  function OneStep(p: Proc, buf: seq<Byte>): Step {
    match p.flag
    case Start => StartStep(p, buf)
    case End => EndStep(p, buf)
    case Data => DataStep(p, buf)
    case Footer => FooterStep(p, buf)
  }

  /** What every state of the processor satisfies: the data fits the buffer, and the data state expects data. */
  predicate ProcOk(p: Proc) {
    |p.out| <= p.size && (p.flag == Data ==> p.left > 0)
  }

  /** On any input a step that succeeds makes progress, and the data stays within the buffer as it grows. */
  lemma StepProgress(p: Proc, buf: seq<Byte>)
    requires ProcOk(p) && buf != []
    ensures var s := OneStep(p, buf); ProcOk(s.p) && s.consumed <= |buf| && (s.status == Ok <==> s.consumed > 0) && p.size <= s.p.size
  {
  }

  /** The loop of jf_httpparser_processChunk over one buffer. */
  function Process(p: Proc, buf: seq<Byte>): (r: Step)
    requires ProcOk(p)
    ensures ProcOk(r.p) && r.consumed <= |buf|
    decreases |buf|
  {
    if buf == [] then Step(Ok, p, 0)
    else
      StepProgress(p, buf);
      var s := OneStep(p, buf);
      if s.status != Ok then s
      else
        var r := Process(s.p, buf[s.consumed..]);
        r.(consumed := s.consumed + r.consumed)
  }

  // ----- encoded bodies

  /** One chunk: the text of its size line and its data. */
  datatype Chunk = Chunk(text: seq<Byte>, data: seq<Byte>)

  ghost predicate ChunkOk(c: Chunk) {
    c.data != [] && ParseHex(c.text) == Some(|c.data|) && c.text != []
  }

  ghost predicate LastOk(last: seq<Byte>) {
    last != [] && ParseHex(last) == Some(0)
  }

  const CRLF: seq<Byte> := [CR, LF]

  function Encode(chunks: seq<Chunk>, last: seq<Byte>): seq<Byte> {
    if chunks == [] then last + CRLF + CRLF
    else chunks[0].text + CRLF + chunks[0].data + CRLF + Encode(chunks[1..], last)
  }

  function Payload(chunks: seq<Chunk>): seq<Byte> {
    if chunks == [] then [] else chunks[0].data + Payload(chunks[1..])
  }

  ghost predicate Valid(chunks: seq<Chunk>, last: seq<Byte>) {
    LastOk(last) && forall i :: 0 <= i < |chunks| ==> ChunkOk(chunks[i])
  }

  /** stream is what is left of the encoding, with data still to deliver before the given chunks. */
  ghost predicate Expects(p: Proc, stream: seq<Byte>, data: seq<Byte>, chunks: seq<Chunk>, last: seq<Byte>) {
    && Valid(chunks, last) && ProcOk(p) && (p.flag != Footer ==> p.body == None)
    && match p.flag
       case Start => stream == Encode(chunks, last) && data == []
       case Data => stream == data + CRLF + Encode(chunks, last) && |data| == p.left
       case End => stream == CRLF + Encode(chunks, last) && data == []
       case Footer =>
         chunks == [] && data == [] && ((stream == CRLF && p.body == None) || (stream == [] && p.body == Some(p.out)))
  }

  /** Behind a size line the search stops right after its CRLF, once at least one more byte is there. */
  lemma LineFound(buf: seq<Byte>, text: seq<Byte>, tail: seq<Byte>)
    requires buf <= text + CRLF + tail && text != [] && ParseHex(text).Some?
    ensures |buf| > |text| + 2 ==> FindLineEnd(buf, 3) == |text| + 2 && buf[..|text|] == text
    ensures |buf| <= |text| + 2 ==> FindLineEnd(buf, 3) == |buf|
  {
    hide FindLineEnd, HexValue;
    var r := FindLineEnd(buf, 3);
    var whole := text + CRLF + tail;
    assert forall i :: 0 <= i < |buf| ==> buf[i] == whole[i];
    forall j | 3 <= j < |text| + 2 ensures !BehindLine(buf, j) {
      if BehindLine(buf, j) { HexHasNoCR(text, |text|, j - 2); }
    }
    if |buf| > |text| + 2 {
      assert whole[|text|] == CR && whole[|text| + 1] == LF;
      assert BehindLine(buf, |text| + 2);
    }
  }

  /** What a step on the next bytes of a valid encoding does. */
  ghost predicate StepGood(p: Proc, buf: seq<Byte>, stream: seq<Byte>, data: seq<Byte>, chunks: seq<Chunk>, last: seq<Byte>,
                           s: Step, data': seq<Byte>, chunks': seq<Chunk>) {
    match s.status
    case Ok =>
      && s.consumed <= |stream| && Expects(s.p, stream[s.consumed..], data', chunks', last)
      && s.p.out + data' + Payload(chunks') == p.out + data + Payload(chunks)
    case Incomplete => s.p == p && s.consumed == 0 && buf != stream
    case Corrupted => false
  }

  lemma StartGood(p: Proc, buf: seq<Byte>, stream: seq<Byte>, data: seq<Byte>, chunks: seq<Chunk>, last: seq<Byte>)
      returns (data': seq<Byte>, chunks': seq<Chunk>)
    requires Expects(p, stream, data, chunks, last) && p.flag == Start && buf <= stream
    ensures StepGood(p, buf, stream, data, chunks, last, StartStep(p, buf), data', chunks')
  {
    hide FindLineEnd, HexValue;
    if chunks == [] {
      data', chunks' := [], [];
      assert stream == last + CRLF + CRLF;
      LineFound(buf, last, CRLF);
      assert stream[|last| + 2..] == CRLF;
    } else {
      var c := chunks[0];
      assert ChunkOk(c);
      data', chunks' := c.data, chunks[1..];
      var tail := c.data + CRLF + Encode(chunks', last);
      assert stream == c.text + CRLF + tail;
      LineFound(buf, c.text, tail);
      assert stream[|c.text| + 2..] == tail;
      assert p.out + data' + Payload(chunks') == p.out + data + Payload(chunks);
    }
  }

  lemma DataGood(p: Proc, buf: seq<Byte>, stream: seq<Byte>, data: seq<Byte>, chunks: seq<Chunk>, last: seq<Byte>)
      returns (data': seq<Byte>, chunks': seq<Chunk>)
    requires Expects(p, stream, data, chunks, last) && p.flag == Data && buf <= stream
    ensures StepGood(p, buf, stream, data, chunks, last, DataStep(p, buf), data', chunks')
  {
    hide Encode, Payload, Valid;
    var index := if |buf| >= p.left then p.left else |buf|;
    data', chunks' := data[index..], chunks;
    assert buf[..index] == stream[..index] == data[..index];
    assert data == data[..index] + data[index..];
    assert stream[index..] == data' + CRLF + Encode(chunks, last);
    if index == |data| { assert data' + CRLF + Encode(chunks, last) == CRLF + Encode(chunks, last); }
    assert (p.out + data[..index]) + data' + Payload(chunks) == p.out + data + Payload(chunks);
  }

  lemma EndGood(p: Proc, buf: seq<Byte>, stream: seq<Byte>, data: seq<Byte>, chunks: seq<Chunk>, last: seq<Byte>)
    requires Expects(p, stream, data, chunks, last) && p.flag == End && buf <= stream
    ensures StepGood(p, buf, stream, data, chunks, last, EndStep(p, buf), data, chunks)
  {
    hide Payload, Valid, Encode;
    assert stream[2..] == Encode(chunks, last);
  }

  lemma FooterGood(p: Proc, buf: seq<Byte>, stream: seq<Byte>, data: seq<Byte>, chunks: seq<Chunk>, last: seq<Byte>)
    requires Expects(p, stream, data, chunks, last) && p.flag == Footer && buf <= stream && buf != []
    ensures StepGood(p, buf, stream, data, chunks, last, FooterStep(p, buf), data, chunks)
  {
  }

  lemma StepExpects(p: Proc, buf: seq<Byte>, stream: seq<Byte>, data: seq<Byte>, chunks: seq<Chunk>, last: seq<Byte>)
      returns (data': seq<Byte>, chunks': seq<Chunk>)
    requires Expects(p, stream, data, chunks, last) && buf <= stream && buf != []
    ensures StepGood(p, buf, stream, data, chunks, last, OneStep(p, buf), data', chunks')
  {
    hide Expects, StepGood, StartStep, DataStep, EndStep, FooterStep;
    data', chunks' := data, chunks;
    match p.flag {
      case Start => data', chunks' := StartGood(p, buf, stream, data, chunks, last);
      case Data => data', chunks' := DataGood(p, buf, stream, data, chunks, last);
      case End => EndGood(p, buf, stream, data, chunks, last);
      case Footer => FooterGood(p, buf, stream, data, chunks, last);
    }
  }

  lemma ExpectsOk(p: Proc, stream: seq<Byte>, data: seq<Byte>, chunks: seq<Chunk>, last: seq<Byte>)
    requires Expects(p, stream, data, chunks, last)
    ensures ProcOk(p)
  {
  }

  /** One call on the next bytes of the encoding: no error, and everything is consumed once everything is there. */
  lemma {:induction false} ProcessExpects(p: Proc, buf: seq<Byte>, stream: seq<Byte>, data: seq<Byte>, chunks: seq<Chunk>, last: seq<Byte>)
      returns (data': seq<Byte>, chunks': seq<Chunk>)
    requires Expects(p, stream, data, chunks, last) && buf <= stream && ProcOk(p)
    ensures var r := Process(p, buf);
            && r.status != Corrupted && r.consumed <= |stream| && Expects(r.p, stream[r.consumed..], data', chunks', last)
            && r.p.out + data' + Payload(chunks') == p.out + data + Payload(chunks)
            && (buf == stream ==> r.consumed == |buf|)
    decreases |buf|
  {
    hide Expects, OneStep, Payload, ProcOk;
    if buf == [] {
      data', chunks' := data, chunks;
      assert stream[0..] == stream;
    } else {
      StepProgress(p, buf);
      var s := OneStep(p, buf);
      var d1, c1 := StepExpects(p, buf, stream, data, chunks, last);
      if s.status != Ok {
        data', chunks' := data, chunks;
        assert stream[0..] == stream;
      } else {
        var rest, stream1 := buf[s.consumed..], stream[s.consumed..];
        assert rest <= stream1;
        ExpectsOk(s.p, stream1, d1, c1, last);
        data', chunks' := ProcessExpects(s.p, rest, stream1, d1, c1, last);
        assert stream1[Process(s.p, rest).consumed..] == stream[Process(p, buf).consumed..];
      }
    }
  }

  // ----- any cut into segments

  /** The processor after a stream of segments, and the bytes it has not consumed. */
  datatype Fed = Fed(failed: bool, p: Proc, kept: seq<Byte>)

  /** The caller's loop: unconsumed bytes are presented again in front of the next segment. */
  function Feed(p: Proc, kept: seq<Byte>, segments: seq<seq<Byte>>): Fed
    requires ProcOk(p)
    decreases |segments|
  {
    if segments == [] then Fed(false, p, kept)
    else
      var buf := kept + segments[0];
      var r := Process(p, buf);
      if r.status == Corrupted then Fed(true, r.p, buf[r.consumed..]) else Feed(r.p, buf[r.consumed..], segments[1..])
  }

  function Flat(segments: seq<seq<Byte>>): seq<Byte> {
    if segments == [] then [] else segments[0] + Flat(segments[1..])
  }

  function New(size: nat): Proc {
    Proc(Start, [], size, 0, None)
  }

  lemma {:induction false} FeedExpects(p: Proc, kept: seq<Byte>, segments: seq<seq<Byte>>, stream: seq<Byte>, data: seq<Byte>,
                                       chunks: seq<Chunk>, last: seq<Byte>)
    requires Expects(p, stream, data, chunks, last) && ProcOk(p) && stream == kept + Flat(segments) && segments != []
    ensures var r := Feed(p, kept, segments);
            !r.failed && r.kept == [] && r.p.flag == Footer && r.p.body == Some(p.out + data + Payload(chunks))
    decreases |segments|
  {
    hide Expects, Process, Payload, ProcOk;
    var buf := kept + segments[0];
    assert kept + Flat(segments) == buf + Flat(segments[1..]);
    var d1, c1 := ProcessExpects(p, buf, stream, data, chunks, last);
    var r := Process(p, buf);
    var kept1, stream1 := buf[r.consumed..], stream[r.consumed..];
    assert stream1 == kept1 + Flat(segments[1..]);
    if segments[1..] != [] {
      FeedExpects(r.p, kept1, segments[1..], stream1, d1, c1, last);
    } else {
      assert buf == stream;
      AllConsumed(r.p, stream1, d1, c1, last);
    }
  }

  /** With no input left to come, the body has been delivered. */
  lemma AllConsumed(p: Proc, stream: seq<Byte>, data: seq<Byte>, chunks: seq<Chunk>, last: seq<Byte>)
    requires Expects(p, stream, data, chunks, last) && stream == []
    ensures p.flag == Footer && p.body == Some(p.out + data + Payload(chunks))
  {
    assert p.out + [] + [] == p.out;
  }

  /** Decoding does not depend on how the encoding is cut up: every cut is consumed without error and delivers the chunks' data. */
  lemma SplitInvariant(size: nat, chunks: seq<Chunk>, last: seq<Byte>, segments: seq<seq<Byte>>)
    requires Valid(chunks, last) && Flat(segments) == Encode(chunks, last)
    ensures var r := Feed(New(size), [], segments); !r.failed && r.kept == [] && r.p.body == Some(Payload(chunks))
  {
    hide Encode, Payload, Valid, Feed;
    EncodeNonEmpty(chunks, last);
    assert [] + Flat(segments) == Flat(segments);
    FeedExpects(New(size), [], segments, Encode(chunks, last), [], chunks, last);
    assert [] + [] + Payload(chunks) == Payload(chunks);
  }

  lemma EncodeNonEmpty(chunks: seq<Chunk>, last: seq<Byte>)
    ensures Encode(chunks, last) != []
  {
  }

  // ----- the processor as stored

  /** memcpy */
  method Copy(to: array<Byte>, at: nat, from: seq<Byte>, begin: nat, n: nat)
    requires at + n <= to.Length && begin + n <= |from|
    modifies to
    ensures to[..at + n] == old(to[..at]) + from[begin..begin + n]
  {
    for i := 0 to n
      invariant to[..at + i] == old(to[..at]) + from[begin..begin + i]
    {
      to[at + i] := from[begin + i];
      assert to[..at + i + 1] == to[..at + i] + [from[begin + i]];
    }
  }

  class StoredProcessor {
    var flag: Flag
    var buffer: array<Byte>
    var offset: nat
    var left: nat
    var body: Option<seq<Byte>>

    ghost predicate Ready()
      reads this, buffer
    {
      offset <= buffer.Length && ProcOk(Value())
    }

    ghost function Value(): Proc
      reads this, buffer
    {
      Proc(flag, if offset <= buffer.Length then buffer[..offset] else [], buffer.Length, left, body)
    }

    /** jf_httpparser_createChunkProcessor */
    constructor (size: nat)
      ensures Ready() && fresh(buffer) && Value() == New(size)
    {
      flag := Start;
      buffer := new Byte[size](i => 0);
      offset := 0;
      left := 0;
      body := None;
    }

    /** _reallocHttpParserChunkMemory */
    method Grow(size: nat)
      requires offset <= buffer.Length < size
      modifies this`buffer
      ensures fresh(buffer) && buffer.Length == size && buffer[..offset] == old(buffer[..offset])
    {
      var grown := new Byte[size](i => 0);
      Copy(grown, 0, buffer[..offset], 0, offset);
      buffer := grown;
    }

    /** _processStartChunkInHttpParser on the input from begin on */
    method ProcessStart(input: seq<Byte>, begin: nat) returns (status: Status, consumed: nat)
      requires Ready() && begin <= |input| && flag == Start
      modifies this`flag, this`left
      ensures offset <= buffer.Length && Step(status, Value(), consumed) == OneStep(old(Value()), input[begin..])
    {
      hide FindLineEnd, HexValue;
      ghost var buf := input[begin..];
      status, consumed := Incomplete, 0;
      var index := 3;
      while index < |input| - begin && !(input[begin + index - 2] == CR && input[begin + index - 1] == LF)
        invariant index >= 3 && (index <= |buf| ==> forall j :: 3 <= j < index ==> !BehindLine(buf, j))
        invariant index > 3 ==> index <= |buf|
      {
        index := index + 1;
      }
      LineEndIs(buf, index);
      if index < |input| - begin {
        assert buf[..index - 2] == input[begin..begin + index - 2];
        var parsed := ParseHex(input[begin..begin + index - 2]);
        if parsed.Some? {
          left := parsed.value;
          flag := if left == 0 then Footer else Data;
          status, consumed := Ok, index;
        }
      }
    }

    /** _processDataChunkInHttpParser */
    method ProcessData(input: seq<Byte>, begin: nat) returns (status: Status, consumed: nat)
      requires Ready() && begin <= |input| && flag == Data
      modifies this, buffer
      ensures buffer == old(buffer) || fresh(buffer)
      ensures offset <= buffer.Length && Step(status, Value(), consumed) == OneStep(old(Value()), input[begin..])
    {
      ghost var buf := input[begin..];
      var end := |input| - begin;
      var index: nat := if end >= left then left else end;
      if end >= left { flag := End; }
      if offset + end > buffer.Length {
        Grow(buffer.Length + end);
      }
      Copy(buffer, offset, input, begin, index);
      assert input[begin..begin + index] == buf[..index];
      left := left - index;
      offset := offset + index;
      status, consumed := Ok, index;
    }

    /** jf_httpparser_processChunk from the given position on: the position reached. */
    method ProcessChunk(input: seq<Byte>, from: nat) returns (status: Status, begin: nat)
      requires Ready() && from <= |input|
      modifies this, buffer
      ensures Ready() && begin >= from && (buffer == old(buffer) || fresh(buffer))
      ensures Step(status, Value(), begin - from) == Process(old(Value()), input[from..])
    {
      hide OneStep, ProcOk, Value;
      status, begin := Ok, from;
      while status == Ok && begin < |input|
        invariant Ready() && from <= begin <= |input| && (buffer == old(buffer) || fresh(buffer))
        invariant Process(old(Value()), input[from..]) ==
                  if status == Ok then Process(Value(), input[begin..]).(consumed := begin - from + Process(Value(), input[begin..]).consumed)
                  else Step(status, Value(), begin - from)
        decreases |input| - begin, status == Ok
      {
        StepProgress(Value(), input[begin..]);
        var consumed: nat;
        status, consumed := ProcessOne(input, begin);
        assert input[begin..][consumed..] == input[begin + consumed..];
        begin := begin + consumed;
      }
    }

    /** One round of that loop. */
    method ProcessOne(input: seq<Byte>, begin: nat) returns (status: Status, consumed: nat)
      requires Ready() && begin < |input|
      modifies this, buffer
      ensures Ready() && (buffer == old(buffer) || fresh(buffer))
      ensures Step(status, Value(), consumed) == OneStep(old(Value()), input[begin..])
    {
      hide OneStep;
      StepProgress(Value(), input[begin..]);
      match flag {
        case Start => status, consumed := ProcessStart(input, begin);
        case End => status, consumed := ProcessEnd(input, begin);
        case Data => status, consumed := ProcessData(input, begin);
        case Footer => status, consumed := ProcessFooter(input, begin);
      }
    }

    /** _processEndChunkInHttpParser */
    method ProcessEnd(input: seq<Byte>, begin: nat) returns (status: Status, consumed: nat)
      requires Ready() && begin <= |input| && flag == End
      modifies this`flag
      ensures offset <= buffer.Length && Step(status, Value(), consumed) == OneStep(old(Value()), input[begin..])
    {
      status, consumed := Incomplete, 0;
      if |input| - begin >= 2 {
        status, consumed := Ok, 2;
        flag := Start;
      }
    }

    /** _processFooterChunkInHttpParser */
    method ProcessFooter(input: seq<Byte>, begin: nat) returns (status: Status, consumed: nat)
      requires Ready() && begin <= |input| && flag == Footer
      modifies this`body
      ensures offset <= buffer.Length && Step(status, Value(), consumed) == OneStep(old(Value()), input[begin..])
    {
      status, consumed := Incomplete, 0;
      if |input| - begin >= 2 {
        if input[begin] == CR && input[begin + 1] == LF {
          body := Some(buffer[..offset]);
          status, consumed := Ok, 2;
        } else {
          status := Corrupted;
        }
      }
    }
  }

  lemma LineEndIs(buf: seq<Byte>, index: nat)
    requires index >= 3 && (index <= |buf| ==> forall j :: 3 <= j < index ==> !BehindLine(buf, j))
    requires index < |buf| ==> BehindLine(buf, index)
    requires index > 3 ==> index <= |buf|
    ensures FindLineEnd(buf, 3) == if index < |buf| then index else |buf|
  {
    hide FindLineEnd;
    var r := FindLineEnd(buf, 3);
  }
}
