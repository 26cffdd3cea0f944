/**
 * The raw servlet response that the wrapper decorates, reduced to what the wrapper can observe:
 * whether it is committed, its character encoding, the bytes written to its output stream, and
 * the ordered log of every call the wrapper forwards to it.
 */
module Servlet {
  import opened Wrappers
  import opened Java

  /** HttpServletResponse.SC_OK. */
  const ScOk: Int32 := 200

  /** One call received by the raw response. */
  datatype Event =
    | StatusSet(sc: Int32, message: Option<string>)
    | ErrorSent(sc: Int32, message: Option<string>)
    | Redirected(location: string)
    | ContentLengthSet(len: int)
    | ResetDone
    | BodyWritten(bytes: seq<Byte>)

  /** The observable state of the raw response, as a value. */
  datatype Sink = Sink(committed: bool, characterEncoding: Option<string>, body: seq<Byte>, log: seq<Event>)
  {
    /** This sink after it has received `e`. */
    function Record(e: Event): (r: Sink)
      ensures r.log == log + [e] && |r.log| == |log| + 1
      ensures r.committed == committed && r.characterEncoding == characterEncoding && r.body == body
    {
      this.(log := log + [e])
    }
  }

  /** The raw response object. When the container commits it is not part of this model. */
  class Response {
    var committed: bool
    var characterEncoding: Option<string>
    var body: seq<Byte>
    var log: seq<Event>

    ghost function View(): Sink
      reads this
    {
      Sink(committed, characterEncoding, body, log)
    }

    constructor (characterEncoding: Option<string>)
      ensures View() == Sink(false, characterEncoding, [], [])
    {
      this.committed := false;
      this.characterEncoding := characterEncoding;
      this.body := [];
      this.log := [];
    }

    method IsCommitted() returns (c: bool)
      ensures c == committed
    {
      c := committed;
    }

    method GetCharacterEncoding() returns (e: Option<string>)
      ensures e == characterEncoding
    {
      e := characterEncoding;
    }

    /** The container flushes its own buffer: status and headers are sent. */
    method Commit()
      modifies this
      ensures View() == old(View()).(committed := true)
    {
      committed := true;
    }

    method SetStatus(sc: Int32, message: Option<string>)
      modifies this
      ensures View() == old(View()).Record(StatusSet(sc, message))
    {
      log := log + [StatusSet(sc, message)];
    }

    method SendError(sc: Int32, message: Option<string>)
      modifies this
      ensures View() == old(View()).Record(ErrorSent(sc, message))
    {
      log := log + [ErrorSent(sc, message)];
    }

    method SendRedirect(location: string)
      modifies this
      ensures View() == old(View()).Record(Redirected(location))
    {
      log := log + [Redirected(location)];
    }

    method SetContentLength(len: int)
      modifies this
      ensures View() == old(View()).Record(ContentLengthSet(len))
    {
      log := log + [ContentLengthSet(len)];
    }

    method Reset()
      modifies this
      ensures View() == old(View()).Record(ResetDone)
    {
      log := log + [ResetDone];
    }

    /** The bytes one `writeTo` of the cache delivers to the response's own output stream. */
    method WriteToOutputStream(bytes: seq<Byte>)
      modifies this
      ensures View() == old(View()).(body := old(body) + bytes).Record(BodyWritten(bytes))
    {
      body := body + bytes;
      log := log + [BodyWritten(bytes)];
    }
  }
}
