/**
 * The wrapper itself, as objects whose fields its methods update in place: the wrapper, the
 * byte buffer it caches into, and the output stream and writer it hands to the handler. The
 * wrapper's status, error, redirect, getWriter, content-length, buffer-size and reset methods are
 * proved to have the effect that CachingModel.Apply gives to the same call, and
 * CopyBodyToResponse the effect of CachingModel.Flushed. The stream and writer methods are proved
 * to append to the buffer exactly what CachingModel.Payload gives for their call, or to throw
 * what it throws. The getters return the matching part of the wrapper's Model().
 */
module ContentCaching {
  import opened Wrappers
  import opened Java
  import opened Servlet
  import opened CachingModel

  /**
   * The growable byte buffer that holds the cached body. Only its external behaviour is
   * modelled; what `resize` does to the bytes is the opaque function `resize`.
   */
  class FastByteArrayOutputStream {
    var bytes: seq<Byte>
    const resize: (seq<Byte>, Int32) -> seq<Byte>

    constructor (resize: (seq<Byte>, Int32) -> seq<Byte>)
      ensures bytes == [] && this.resize == resize
    {
      this.resize := resize;
      this.bytes := [];
    }

    /** Stores the low byte of `datum`. */
    method Write(datum: Int32)
      modifies this
      ensures bytes == old(bytes) + [LowByte(datum)]
    {
      bytes := bytes + [LowByte(datum)];
    }

    /** Stores `data[off..off + len]`, or throws IndexOutOfBoundsException for a bad range. */
    method WriteRange(data: array<Byte>, off: Int32, len: Int32) returns (outcome: Outcome<JavaException>)
      modifies this
      ensures outcome == Pass <==> InBounds(data.Length, off, len)
      ensures outcome == Pass ==> bytes == old(bytes) + data[off..off + len]
      ensures outcome != Pass ==> outcome == Fail(IndexOutOfBounds) && bytes == old(bytes)
    {
      if !InBounds(data.Length, off, len) {
        return Fail(IndexOutOfBounds);
      }
      bytes := bytes + data[off..off + len];
      outcome := Pass;
    }

    /** Stores bytes produced by a character encoder flushing into this buffer. */
    method Append(encoded: seq<Byte>)
      modifies this
      ensures bytes == old(bytes) + encoded
    {
      bytes := bytes + encoded;
    }

    method Resize(targetCapacity: Int32)
      modifies this
      ensures bytes == resize(old(bytes), targetCapacity)
    {
      bytes := resize(bytes, targetCapacity);
    }

    method Reset()
      modifies this
      ensures bytes == []
    {
      bytes := [];
    }

    method Size() returns (n: int)
      ensures n == |bytes|
    {
      n := |bytes|;
    }

    /** A snapshot of the stored bytes. */
    method ToByteArray() returns (snapshot: seq<Byte>)
      ensures snapshot == bytes
    {
      snapshot := bytes;
    }

    /** writeTo: delivers all stored bytes to the response's output stream; keeps them stored. */
    method WriteTo(response: Response)
      modifies response
      ensures response.View() == old(response.View()).(body := old(response.body) + bytes).Record(BodyWritten(bytes))
    {
      response.WriteToOutputStream(bytes);
    }
  }

  /** The output stream the wrapper hands out: every write goes to the buffer, never to the response. */
  class ResponseServletOutputStream {
    const content: FastByteArrayOutputStream

    constructor (content: FastByteArrayOutputStream)
      ensures this.content == content
    {
      this.content := content;
    }

    /** write(int): caches the low byte of `b`. */
    method Write(b: Int32)
      modifies content
      ensures content.bytes == old(content.bytes) + [LowByte(b)]
    {
      content.Write(b);
    }

    /** write(byte[], int, int): caches `b[off..off + len]`, or throws for a bad range. */
    method WriteRange(b: array<Byte>, off: Int32, len: Int32) returns (outcome: Outcome<JavaException>)
      modifies content
      ensures outcome == Pass <==> InBounds(b.Length, off, len)
      ensures outcome == Pass ==> content.bytes == old(content.bytes) + b[off..off + len]
      ensures outcome != Pass ==> outcome == Fail(IndexOutOfBounds) && content.bytes == old(content.bytes)
    {
      outcome := content.WriteRange(b, off, len);
    }
  }

  /**
   * The writer the wrapper hands out: it encodes characters in the encoding fixed when it was
   * created and flushes after every write, so each write's bytes are cached before it returns.
   */
  class ResponsePrintWriter {
    const content: FastByteArrayOutputStream
    const encoding: string
    const library: Library

    constructor (content: FastByteArrayOutputStream, encoding: string, library: Library)
      ensures this.content == content && this.encoding == encoding && this.library == library
    {
      this.content := content;
      this.encoding := encoding;
      this.library := library;
    }

    /** write(char[], int, int): caches the encoding of `buf[off..off + len]`, or throws for a bad range. */
    method WriteCharArray(buf: array<char>, off: Int32, len: Int32) returns (outcome: Outcome<JavaException>)
      modifies content
      ensures outcome == Pass <==> InBounds(buf.Length, off, len)
      ensures
        match Payload(library, Some(encoding), WriteChars(buf[..], off, len))
        case Success(p) => outcome == Pass && content.bytes == old(content.bytes) + p
        case Failure(e) => outcome == Fail(e) && content.bytes == old(content.bytes)
    {
      if !InBounds(buf.Length, off, len) {
        return Fail(IndexOutOfBounds);
      }
      content.Append(library.encode(encoding, buf[off..off + len]));
      outcome := Pass;
    }

    /** write(String, int, int): caches the encoding of `s[off..off + len]`, or throws for a bad range. */
    method WriteString(s: string, off: Int32, len: Int32) returns (outcome: Outcome<JavaException>)
      modifies content
      ensures outcome == Pass <==> InBounds(|s|, off, len)
      ensures
        match Payload(library, Some(encoding), WriteChars(s, off, len))
        case Success(p) => outcome == Pass && content.bytes == old(content.bytes) + p
        case Failure(e) => outcome == Fail(e) && content.bytes == old(content.bytes)
    {
      if !InBounds(|s|, off, len) {
        return Fail(IndexOutOfBounds);
      }
      content.Append(library.encode(encoding, s[off..off + len]));
      outcome := Pass;
    }

    /** write(int): caches the encoding of one character. */
    method WriteChar(c: char)
      modifies content
      ensures content.bytes == old(content.bytes) + library.encode(encoding, [c])
      ensures
        match Payload(library, Some(encoding), Op.WriteChar(c))
        case Success(p) => content.bytes == old(content.bytes) + p
        case Failure(_) => false
    {
      content.Append(library.encode(encoding, [c]));
    }
  }

  /**
   * The response wrapper. Body writes go to `content`; `statusCode` remembers the last status
   * set; `writer` is created by the first getWriter. Calls that may commit the raw response
   * flush the cache to it first.
   */
  class ContentCachingResponseWrapper {
    const response: Response
    const library: Library
    const content: FastByteArrayOutputStream
    const outputStream: ResponseServletOutputStream
    var writer: ResponsePrintWriter?
    var statusCode: Int32

    /** The stream and the writer write into this wrapper's buffer. */
    ghost predicate Valid()
      reads this
    {
      && content.resize == library.resize
      && outputStream.content == content
      && (writer != null ==> writer.content == content && writer.library == library)
    }

    ghost function WriterEncoding(): Option<string>
      reads this
    {
      if writer == null then None else Some(writer.encoding)
    }

    /** The wrapper and its raw response as a value of the state machine. */
    ghost function Model(): CachingModel.State
      reads this, content, response
    {
      CachingModel.State(content.bytes, statusCode, WriterEncoding(), response.View())
    }

    constructor (response: Response, library: Library)
      ensures Valid() && this.response == response && this.library == library
      ensures fresh(content) && fresh(outputStream)
      ensures Model() == Initial(response.View())
    {
      this.response := response;
      this.library := library;
      var buffer := new FastByteArrayOutputStream(library.resize);
      this.content := buffer;
      this.outputStream := new ResponseServletOutputStream(buffer);
      this.writer := null;
      this.statusCode := ScOk;
    }

    /** setStatus(int): forwards the status and records it; nothing is flushed. */
    method SetStatus(sc: Int32)
      requires Valid()
      modifies this`statusCode, response
      ensures Valid()
      ensures Apply(library, old(Model()), Op.SetStatus(sc, None)) == Success(Model())
      ensures statusCode == sc && content.bytes == old(content.bytes)
    {
      response.SetStatus(sc, None);
      statusCode := sc;
    }

    /** setStatus(int, String): as setStatus(int), forwarding the message too. */
    method SetStatusWithMessage(sc: Int32, sm: string)
      requires Valid()
      modifies this`statusCode, response
      ensures Valid()
      ensures Apply(library, old(Model()), Op.SetStatus(sc, Some(sm))) == Success(Model())
      ensures statusCode == sc && content.bytes == old(content.bytes)
    {
      response.SetStatus(sc, Some(sm));
      statusCode := sc;
    }

    /** sendError(int): flushes, forwards the error, then records its code. */
    method SendError(sc: Int32)
      requires Valid()
      modifies this`statusCode, content, response
      ensures Valid()
      ensures Apply(library, old(Model()), Op.SendError(sc, None)) == Success(Model())
      ensures statusCode == sc && content.bytes == []
      ensures response.log == Flushed(old(Model())).sink.log + [ErrorSent(sc, None)]
    {
      CopyBodyToResponse();
      response.SendError(sc, None);
      statusCode := sc;
    }

    /** sendError(int, String): as sendError(int), forwarding the message too. */
    method SendErrorWithMessage(sc: Int32, msg: string)
      requires Valid()
      modifies this`statusCode, content, response
      ensures Valid()
      ensures Apply(library, old(Model()), Op.SendError(sc, Some(msg))) == Success(Model())
      ensures statusCode == sc && content.bytes == []
      ensures response.log == Flushed(old(Model())).sink.log + [ErrorSent(sc, Some(msg))]
    {
      CopyBodyToResponse();
      response.SendError(sc, Some(msg));
      statusCode := sc;
    }

    /** sendRedirect: flushes, then forwards the redirect; the status code is kept. */
    method SendRedirect(location: string)
      requires Valid()
      modifies content, response
      ensures Valid()
      ensures Apply(library, old(Model()), Op.SendRedirect(location)) == Success(Model())
      ensures statusCode == old(statusCode) && content.bytes == []
      ensures response.log == Flushed(old(Model())).sink.log + [Redirected(location)]
    {
      CopyBodyToResponse();
      response.SendRedirect(location);
    }

    /** getOutputStream: always the same stream, which writes into the cache. */
    method GetOutputStream() returns (stream: ResponseServletOutputStream)
      requires Valid()
      ensures stream == outputStream && stream.content == content
    {
      stream := outputStream;
    }

    /**
     * getWriter: the first call creates the writer, in the response's encoding if it has one and
     * in the default encoding otherwise; every later call returns that same writer.
     */
    method GetWriter() returns (w: ResponsePrintWriter)
      requires Valid()
      modifies this`writer
      ensures Valid()
      ensures Apply(library, old(Model()), Op.GetWriter) == Success(Model())
      ensures writer == w && w.content == content
      ensures old(writer) != null ==> w == old(writer)
      ensures old(writer) == null ==>
        && fresh(w)
        && w.encoding == if response.characterEncoding.Some? then response.characterEncoding.value else DefaultCharacterEncoding
    {
      if writer == null {
        var characterEncoding := response.GetCharacterEncoding();
        writer := new ResponsePrintWriter(content, characterEncoding.GetOr(DefaultCharacterEncoding), library);
      }
      w := writer;
    }

    /** setContentLength: a resize of the buffer. */
    method SetContentLength(len: Int32)
      requires Valid()
      modifies content
      ensures Valid()
      ensures Apply(library, old(Model()), Op.SetContentLength(len)) == Success(Model())
    {
      content.Resize(len);
    }

    /** setContentLengthLong: refuses lengths above Integer.MAX_VALUE, otherwise a resize. */
    method SetContentLengthLong(len: Int64) returns (outcome: Outcome<JavaException>)
      requires Valid()
      modifies content
      ensures Valid()
      ensures outcome == Pass <==> len <= IntegerMaxValue
      ensures
        match Apply(library, old(Model()), Op.SetContentLengthLong(len))
        case Success(s) => outcome == Pass && Model() == s
        case Failure(e) => outcome == Fail(e) && Model() == old(Model())
    {
      if len > IntegerMaxValue {
        return Fail(IllegalArgument);
      }
      content.Resize(ToInt32(len));
      outcome := Pass;
    }

    /** setBufferSize: a resize of the buffer. */
    method SetBufferSize(size: Int32)
      requires Valid()
      modifies content
      ensures Valid()
      ensures Apply(library, old(Model()), Op.SetBufferSize(size)) == Success(Model())
    {
      content.Resize(size);
    }

    /** resetBuffer: empties the cache only. */
    method ResetBuffer()
      requires Valid()
      modifies content
      ensures Valid()
      ensures Apply(library, old(Model()), Op.ResetBuffer) == Success(Model())
      ensures content.bytes == []
    {
      content.Reset();
    }

    /** reset: forwards a reset to the raw response and empties the cache. */
    method Reset()
      requires Valid()
      modifies content, response
      ensures Valid()
      ensures Apply(library, old(Model()), Op.Reset) == Success(Model())
      ensures content.bytes == [] && response.log == old(response.log) + [ResetDone]
    {
      response.Reset();
      content.Reset();
    }

    /** getStatusCode: the last status set, 200 if none was. */
    method GetStatusCode() returns (sc: Int32)
      ensures sc == statusCode
    {
      sc := statusCode;
    }

    /** getContentAsByteArray: a snapshot of the cached body. */
    method GetContentAsByteArray() returns (snapshot: seq<Byte>)
      ensures snapshot == content.bytes
    {
      snapshot := content.ToByteArray();
    }

    /**
     * copyBodyToResponse: when the cache holds bytes, sets the raw response's content length to
     * their number if it is not committed, hands them all to it in one `writeTo` call and empties the cache.
     * An empty cache makes this a no-op.
     */
    method CopyBodyToResponse()
      requires Valid()
      modifies content, response
      ensures Valid()
      ensures Model() == Flushed(old(Model()))
      ensures old(content.bytes) == [] ==> response.View() == old(response.View())
      ensures old(content.bytes) != [] ==>
        response.log == old(response.log)
          + (if old(response.committed) then [] else [ContentLengthSet(|old(content.bytes)|)])
          + [BodyWritten(old(content.bytes))]
      ensures response.body == old(response.body) + old(content.bytes) && content.bytes == []
    {
      var size := content.Size();
      if size > 0 {
        var committed := response.IsCommitted();
        if !committed {
          response.SetContentLength(size);
        }
        content.WriteTo(response);
        content.Reset();
      }
    }

    /** getContentSize: the number of cached bytes. */
    method GetContentSize() returns (size: int)
      ensures size == |content.bytes|
    {
      size := content.Size();
    }
  }
}
