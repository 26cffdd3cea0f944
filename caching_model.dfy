/**
 * The content-caching response wrapper as a state machine on values. Each public call of the
 * wrapper (and of its output stream and writer) is an `Op`; `Apply` gives its effect on the
 * wrapper's fields and on the raw response, or the exception it throws. The classes in
 * module ContentCaching are proved to behave as `Apply` says.
 */
module CachingModel {
  import opened Wrappers
  import opened Java
  import opened Servlet

  /** The encoding a writer falls back to when the response names none (ISO-8859-1). */
  const DefaultCharacterEncoding: string := "ISO-8859-1"

  /** The exceptions the modelled calls can throw. */
  datatype JavaException =
    | IllegalArgument   // setContentLengthLong beyond Integer.MAX_VALUE
    | IndexOutOfBounds  // an offset/length pair outside the array or string written
    | NoWriter          // a character write before getWriter created the writer

  /**
   * The library code whose effect the wrapper relies on but this model does not see:
   * the charset conversion done by the writer, and the buffer's `resize`.
   */
  datatype Library = Library(
    encode: (string, seq<char>) -> seq<Byte>,
    resize: (seq<Byte>, Int32) -> seq<Byte>)

  /** The wrapper's fields together with the raw response it wraps. */
  datatype State = State(
    content: seq<Byte>,
    statusCode: Int32,
    writerEncoding: Option<string>,  // None until the writer is created
    sink: Sink)

  /** A freshly constructed wrapper around `sink`. */
  function Initial(sink: Sink): State {
    State([], ScOk, None, sink)
  }

  /** Everything the handler has written that is still accounted for: sent bytes, then cached ones. */
  function Stream(st: State): seq<Byte> {
    st.sink.body + st.content
  }

  /** One call on the wrapper, its output stream or its writer. */
  datatype Op =
    | SetStatus(sc: Int32, message: Option<string>)
    | SendError(sc: Int32, message: Option<string>)
    | SendRedirect(location: string)
    | GetWriter
    | SetContentLength(len: Int32)
    | SetContentLengthLong(longLen: Int64)
    | SetBufferSize(size: Int32)
    | ResetBuffer
    | Reset
    | CopyBodyToResponse
    | WriteByte(b: Int32)
    | WriteBytes(bytes: seq<Byte>, off: Int32, len: Int32)
    | WriteChars(chars: seq<char>, charOff: Int32, charLen: Int32)
    | WriteChar(c: char)
  {
    /** A body write through the output stream or the writer. */
    predicate IsWrite() {
      WriteByte? || WriteBytes? || WriteChars? || WriteChar?
    }

    /** A call that records a status code. */
    predicate SetsStatus() {
      SetStatus? || SendError?
    }

    /** A call that may drop cached bytes (a reset, or a resize whose effect is not modelled). */
    predicate Discards() {
      SetContentLength? || SetContentLengthLong? || SetBufferSize? || ResetBuffer? || Reset?
    }
  }

  /** The range check of an array or string write. */
  predicate InBounds(size: int, off: int, len: int) {
    0 <= off && 0 <= len && off + len <= size
  }

  /** The bytes a body write adds to the cache, given the writer's encoding, or what it throws. */
  function Payload(lib: Library, enc: Option<string>, op: Op): (r: Result<seq<Byte>, JavaException>)
    requires op.IsWrite()
    ensures op.WriteByte? ==> r == Success([LowByte(op.b)])
    ensures op.WriteBytes? ==>
      (r.Success? <==> InBounds(|op.bytes|, op.off, op.len)) &&
      (r.Failure? ==> r.error == IndexOutOfBounds) &&
      (r.Success? ==> |r.value| == op.len && forall k :: 0 <= k < op.len ==> r.value[k] == op.bytes[op.off + k])
    ensures (op.WriteChars? || op.WriteChar?) && enc.None? ==> r == Failure(NoWriter)
    ensures op.WriteChars? && enc.Some? ==>
      (r.Success? <==> InBounds(|op.chars|, op.charOff, op.charLen)) &&
      (r.Failure? ==> r.error == IndexOutOfBounds) &&
      (r.Success? ==> r.value == lib.encode(enc.value, op.chars[op.charOff..op.charOff + op.charLen]))
    ensures op.WriteChar? && enc.Some? ==> r == Success(lib.encode(enc.value, [op.c]))
  {
    match op
    case WriteByte(b) => Success([LowByte(b)])
    case WriteBytes(bytes, off, len) =>
      if InBounds(|bytes|, off, len) then Success(bytes[off..off + len]) else Failure(IndexOutOfBounds)
    case WriteChars(chars, off, len) =>
      if enc.None? then Failure(NoWriter)
      else if !InBounds(|chars|, off, len) then Failure(IndexOutOfBounds)
      else Success(lib.encode(enc.value, chars[off..off + len]))
    case WriteChar(c) =>
      if enc.None? then Failure(NoWriter) else Success(lib.encode(enc.value, [c]))
  }

  /** The events a flush of `st` sends to the raw response. */
  function FlushEvents(st: State): (r: seq<Event>)
    ensures r == [] <==> st.content == []
    ensures |r| == (if st.content == [] then 0 else if st.sink.committed then 1 else 2)
    ensures r != [] ==> r[|r| - 1] == BodyWritten(st.content)
    ensures ContentLengthSet(|st.content|) in r <==> st.content != [] && !st.sink.committed
    ensures forall e :: e in r ==> e == ContentLengthSet(|st.content|) || e == BodyWritten(st.content)
  {
    if st.content == [] then []
    else (if st.sink.committed then [] else [ContentLengthSet(|st.content|)]) + [BodyWritten(st.content)]
  }

  /** The effect of `copyBodyToResponse`. */
  function Flushed(st: State): (r: State)
    ensures r.content == []
    ensures Stream(r) == Stream(st)
    ensures r.sink.log == st.sink.log + FlushEvents(st)
    ensures st.content == [] ==> r == st
    ensures r.statusCode == st.statusCode && r.writerEncoding == st.writerEncoding
    ensures r.sink.committed == st.sink.committed && r.sink.characterEncoding == st.sink.characterEncoding
  {
    if st.content == [] then st
    else st.(content := [], sink := st.sink.(body := st.sink.body + st.content, log := st.sink.log + FlushEvents(st)))
  }

  /** The effect of `getWriter`: the writer's encoding is fixed by the first call. */
  function WithWriter(st: State): (r: State)
    ensures r.writerEncoding.Some?
    ensures st.writerEncoding.Some? ==> r == st
    ensures st.writerEncoding.None? ==> r == st.(writerEncoding := Some(st.sink.characterEncoding.GetOr(DefaultCharacterEncoding)))
  {
    if st.writerEncoding.Some? then st
    else st.(writerEncoding := Some(st.sink.characterEncoding.GetOr(DefaultCharacterEncoding)))
  }

  /** The effect of one call, or the exception it throws (a throwing call changes nothing). */
  function Apply(lib: Library, st: State, op: Op): (r: Result<State, JavaException>)
    ensures r.Failure? <==>
      || (op.SetContentLengthLong? && op.longLen > IntegerMaxValue)
      || (op.IsWrite() && Payload(lib, st.writerEncoding, op).Failure?)
    ensures r.Success? ==> st.sink.log <= r.value.sink.log && st.sink.body <= r.value.sink.body
    ensures r.Success? && !op.SetsStatus() ==> r.value.statusCode == st.statusCode
  {
    match op
    case SetStatus(sc, message) =>
      Success(st.(statusCode := sc, sink := st.sink.Record(StatusSet(sc, message))))
    case SendError(sc, message) =>
      var f := Flushed(st);
      Success(f.(statusCode := sc, sink := f.sink.Record(ErrorSent(sc, message))))
    case SendRedirect(location) =>
      var f := Flushed(st);
      Success(f.(sink := f.sink.Record(Redirected(location))))
    case GetWriter =>
      Success(WithWriter(st))
    case SetContentLength(len) =>
      Success(st.(content := lib.resize(st.content, len)))
    case SetContentLengthLong(len) =>
      if len > IntegerMaxValue then Failure(IllegalArgument)
      else Success(st.(content := lib.resize(st.content, ToInt32(len))))
    case SetBufferSize(size) =>
      Success(st.(content := lib.resize(st.content, size)))
    case ResetBuffer =>
      Success(st.(content := []))
    case Reset =>
      Success(st.(content := [], sink := st.sink.Record(ResetDone)))
    case CopyBodyToResponse =>
      Success(Flushed(st))
    case _ =>
      match Payload(lib, st.writerEncoding, op)
      case Success(bytes) => Success(st.(content := st.content + bytes))
      case Failure(e) => Failure(e)
  }

  /** The state after one call; a call that throws leaves the state as it was. */
  function Next(lib: Library, st: State, op: Op): (r: State)
    ensures Apply(lib, st, op).Failure? ==> r == st
    ensures st.sink.log <= r.sink.log && st.sink.body <= r.sink.body
  {
    match Apply(lib, st, op)
    case Success(s) => s
    case Failure(_) => st
  }

  /**
   * The state after a sequence of calls, in order. The raw response's body and event log are
   * only ever appended to, whatever the calls.
   */
  function Run(lib: Library, st: State, ops: seq<Op>): (r: State)
    ensures st.sink.log <= r.sink.log && st.sink.body <= r.sink.body
    decreases |ops|
  {
    if ops == [] then st else Run(lib, Next(lib, st, ops[0]), ops[1..])
  }
}
