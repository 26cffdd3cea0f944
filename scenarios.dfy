/**
 * Callers of the wrapper, checked against the class contracts alone: what a handler and a
 * filter can rely on when they use the wrapper. Each scenario holds for every encoder and
 * every resize the library may have.
 */
module Scenarios {
  import opened Wrappers
  import opened Java
  import opened Servlet
  import opened CachingModel
  import opened ContentCaching

  /** "ABC" through the byte path, then a redirect: length 3, the bytes, then the redirect. */
  method RedirectAfterBytes(lib: Library) {
    var response := new Response(None);
    var wrapper := new ContentCachingResponseWrapper(response, lib);
    var stream := wrapper.GetOutputStream();
    var abc := new Byte[] [0x41, 0x42, 0x43];
    var outcome := stream.WriteRange(abc, 0, 3);
    assert outcome == Pass;
    assert wrapper.content.bytes == [0x41, 0x42, 0x43];
    wrapper.SendRedirect("/x");
    assert response.log == [ContentLengthSet(3), BodyWritten([0x41, 0x42, 0x43]), Redirected("/x")];
    assert response.body == [0x41, 0x42, 0x43];
    var size := wrapper.GetContentSize();
    var sc := wrapper.GetStatusCode();
    assert size == 0 && sc == 200;
  }

  /** Two flushes in a row: the second sends nothing. */
  method FlushTwice(lib: Library) {
    var response := new Response(None);
    var wrapper := new ContentCachingResponseWrapper(response, lib);
    wrapper.outputStream.Write(0x2a);
    assert LowByte(0x2a) == 0x2a;
    assert wrapper.content.bytes == [0x2a];
    wrapper.CopyBodyToResponse();
    var logAfterFirst := response.log;
    assert logAfterFirst == [ContentLengthSet(1), BodyWritten([0x2a])];
    wrapper.CopyBodyToResponse();
    assert response.log == logAfterFirst;
  }

  /** A committed response gets the cached bytes of a flush but no content length. */
  method FlushOnCommittedResponse(lib: Library) {
    var response := new Response(None);
    var wrapper := new ContentCachingResponseWrapper(response, lib);
    wrapper.outputStream.Write(7);
    assert LowByte(7) == 7;
    response.Commit();
    assert wrapper.Model().content == [7] && wrapper.Model().sink.committed;
    wrapper.CopyBodyToResponse();
    assert response.log == [BodyWritten([7])];
    assert response.body == [7];
    var size := wrapper.GetContentSize();
    var sc := wrapper.GetStatusCode();
    assert size == 0 && sc == 200;
  }

  /** getWriter twice yields one writer, and what it writes is cached before the call returns. */
  method WriterIsCreatedOnce(lib: Library) {
    var response := new Response(Some("UTF-8"));
    var wrapper := new ContentCachingResponseWrapper(response, lib);
    var w1 := wrapper.GetWriter();
    var w2 := wrapper.GetWriter();
    assert w1 == w2 && w1.encoding == "UTF-8";
    assert w1.content == wrapper.content && wrapper.content.bytes == [];
    assert "hi"[0..2] == "hi";
    var outcome := w1.WriteString("hi", 0, 2);
    assert outcome == Pass;
    var snapshot := wrapper.GetContentAsByteArray();
    assert snapshot == lib.encode("UTF-8", "hi");
  }

  /** setContentLengthLong accepts Integer.MAX_VALUE and refuses one more. */
  method ContentLengthCeiling(lib: Library) {
    var response := new Response(None);
    var wrapper := new ContentCachingResponseWrapper(response, lib);
    var accepted := wrapper.SetContentLengthLong(0x7fff_ffff);
    assert accepted == Pass;
    var refused := wrapper.SetContentLengthLong(0x8000_0000);
    assert refused == Fail(IllegalArgument);
  }
}
