/**
 * What the wrapper promises, stated over the state machine of module CachingModel: the flush
 * rule, flush-before-forward, the status and reset rules, the 32-bit content-length ceiling,
 * the once-only writer, and the invariants that hold over any sequence of calls.
 */
module CachingProperties {
  import opened Wrappers
  import opened Java
  import opened Servlet
  import opened CachingModel

  // ----- The flush rule (copyBodyToResponse) -----

  /**
   * An empty cache makes the flush a no-op. A non-empty one is drained to the raw response as
   * one write, after a content length equal to its size exactly when the response is not
   * committed; afterwards the cache is empty and the status code is untouched.
   */
  lemma FlushRule(st: State)
    ensures st.content == [] ==> Flushed(st) == st
    ensures st.content != [] ==>
      var r := Flushed(st);
      var sent := r.sink.log[|st.sink.log|..];
      && st.sink.log <= r.sink.log
      && |sent| == (if st.sink.committed then 1 else 2)
      && (!st.sink.committed ==> sent[0] == ContentLengthSet(|st.content|))
      && sent[|sent| - 1] == BodyWritten(st.content)
      && (ContentLengthSet(|st.content|) in sent <==> !st.sink.committed)
      && (forall e :: e in sent ==> e == ContentLengthSet(|st.content|) || e == BodyWritten(st.content))
      && r.sink.body == st.sink.body + st.content
      && r.content == [] && r.statusCode == st.statusCode
  {

  }

  /** Two flushes in a row with no write between them: the second one does nothing. */
  lemma CopyBodyToResponseTwice(lib: Library, st: State)
    ensures Run(lib, st, [CopyBodyToResponse, CopyBodyToResponse]) == Run(lib, st, [CopyBodyToResponse])
  {

  }

  // ----- Flush, then forward -----

  /**
   * sendError (with or without a message) flushes the cache, then forwards the error, then
   * records its code: the error is the last event, directly after the flushed ones.
   */
  lemma SendErrorFlushesFirst(lib: Library, st: State, sc: Int32, message: Option<string>)
    ensures Apply(lib, st, SendError(sc, message)).Success?
    ensures
      var r := Next(lib, st, SendError(sc, message));
      && r.sink.log == Flushed(st).sink.log + [ErrorSent(sc, message)]
      && r.sink.body == st.sink.body + st.content
      && r.content == []
      && r.statusCode == sc
      && r.writerEncoding == st.writerEncoding
  {
  }

  /** sendRedirect flushes the cache, then forwards the redirect; the status code is kept. */
  lemma SendRedirectFlushesFirst(lib: Library, st: State, location: string)
    ensures Apply(lib, st, SendRedirect(location)).Success?
    ensures
      var r := Next(lib, st, SendRedirect(location));
      && r.sink.log == Flushed(st).sink.log + [Redirected(location)]
      && r.sink.body == st.sink.body + st.content
      && r.content == []
      && r.statusCode == st.statusCode
      && r.writerEncoding == st.writerEncoding
  {
  }

  // ----- Status and reset -----

  /** setStatus (with or without a message) forwards and records the code, and flushes nothing. */
  lemma SetStatusDoesNotFlush(lib: Library, st: State, sc: Int32, message: Option<string>)
    ensures
      var r := Next(lib, st, SetStatus(sc, message));
      && r.sink.log == st.sink.log + [StatusSet(sc, message)]
      && r.sink.body == st.sink.body
      && r.content == st.content
      && r.statusCode == sc
  {
  }

  /** resetBuffer empties the cache and changes nothing else; a later size query yields zero. */
  lemma ResetBufferEmptiesOnly(lib: Library, st: State)
    ensures Next(lib, st, ResetBuffer) == st.(content := [])
    ensures |Next(lib, st, ResetBuffer).content| == 0
  {
  }

  /** reset forwards a reset to the raw response and empties the cache; status and writer stay. */
  lemma ResetForwardsAndEmpties(lib: Library, st: State)
    ensures
      var r := Next(lib, st, Reset);
      && r.sink.log == st.sink.log + [ResetDone]
      && r.sink.body == st.sink.body
      && r.content == []
      && r.statusCode == st.statusCode
      && r.writerEncoding == st.writerEncoding
  {
  }

  /** A fresh wrapper reports status 200 and an empty cache until something is set or written. */
  lemma InitialState(sink: Sink)
    ensures Initial(sink).statusCode == 200
    ensures Initial(sink).content == [] && Stream(Initial(sink)) == sink.body
  {
  }

  // ----- Content length as a resize hint -----

  /**
   * setContentLengthLong throws IllegalArgumentException exactly above Integer.MAX_VALUE and then
   * changes nothing; otherwise it is the int overload applied to the value cast to int (the
   * value itself when it fits in an int).
   */
  lemma ContentLengthLongLimit(lib: Library, st: State, len: Int64)
    ensures Apply(lib, st, SetContentLengthLong(len)).Failure? <==> len > IntegerMaxValue
    ensures len > IntegerMaxValue ==>
      Apply(lib, st, SetContentLengthLong(len)) == Failure(IllegalArgument) &&
      Next(lib, st, SetContentLengthLong(len)) == st
    ensures len <= IntegerMaxValue ==>
      Apply(lib, st, SetContentLengthLong(len)) == Apply(lib, st, SetContentLength(ToInt32(len)))
    ensures IntegerMinValue <= len <= IntegerMaxValue ==>
      Apply(lib, st, SetContentLengthLong(len)) == Apply(lib, st, SetContentLength(len))
  {
  }

  // ----- The writer -----

  /**
   * The first getWriter fixes the writer's encoding: the response's if it has one, otherwise
   * the default. A later getWriter changes nothing, whatever the response's encoding is by then.
   */
  lemma GetWriterOnce(lib: Library, st: State)
    ensures st.writerEncoding.None? ==>
      Next(lib, st, GetWriter).writerEncoding ==
        Some(if st.sink.characterEncoding.Some? then st.sink.characterEncoding.value else DefaultCharacterEncoding)
    ensures st.writerEncoding.Some? ==> Next(lib, st, GetWriter) == st
    ensures Next(lib, Next(lib, st, GetWriter), GetWriter) == Next(lib, st, GetWriter)
    ensures Next(lib, st, GetWriter).content == st.content && Next(lib, st, GetWriter).sink == st.sink
  {
  }

  /** One call never replaces a writer that exists. */
  lemma NextKeepsWriter(lib: Library, st: State, op: Op)
    requires st.writerEncoding.Some?
    ensures Next(lib, st, op).writerEncoding == st.writerEncoding
  {
  }

  /** Once created, the writer keeps its encoding through any sequence of calls. */
  lemma {:induction false} WriterEncodingFixed(lib: Library, st: State, ops: seq<Op>)
    requires st.writerEncoding.Some?
    ensures Run(lib, st, ops).writerEncoding == st.writerEncoding
    decreases |ops|
  {
    if ops != [] {
      NextKeepsWriter(lib, st, ops[0]);
      WriterEncodingFixed(lib, Next(lib, st, ops[0]), ops[1..]);
    }
  }

  // ----- The status code over a run -----

  /** The code of the last setStatus or sendError in `ops`, or `initial` when there is none. */
  function LastStatus(ops: seq<Op>, initial: Int32): Int32
    decreases |ops|
  {
    if ops == [] then initial
    else if ops[|ops| - 1].SetsStatus() then ops[|ops| - 1].sc
    else LastStatus(ops[..|ops| - 1], initial)
  }

  /** Running `ops` and then `op` is running `op` after `ops`. */
  lemma {:induction false} RunSnoc(lib: Library, st: State, ops: seq<Op>, op: Op)
    ensures Run(lib, st, ops + [op]) == Next(lib, Run(lib, st, ops), op)
    decreases |ops|
  {
    if ops == [] {
      assert [] + [op] == [op];
      assert Run(lib, st, [op]) == Run(lib, Next(lib, st, op), []);
    } else {
      assert (ops + [op])[0] == ops[0];
      assert (ops + [op])[1..] == ops[1..] + [op];
      RunSnoc(lib, Next(lib, st, ops[0]), ops[1..], op);
    }
  }

  /** One call sets the status code exactly when it is a setStatus or a sendError. */
  lemma NextStatus(lib: Library, st: State, op: Op)
    ensures Next(lib, st, op).statusCode == if op.SetsStatus() then op.sc else st.statusCode
  {
  }

  /** After any sequence of calls, getStatusCode answers the last status set, or the one before. */
  lemma {:induction false} StatusIsLastSet(lib: Library, st: State, ops: seq<Op>)
    ensures Run(lib, st, ops).statusCode == LastStatus(ops, st.statusCode)
    decreases |ops|
  {
    if ops != [] {
      var init, last := ops[..|ops| - 1], ops[|ops| - 1];
      assert ops == init + [last];
      RunSnoc(lib, st, init, last);
      StatusIsLastSet(lib, st, init);
      NextStatus(lib, Run(lib, st, init), last);
    }
  }

  // ----- Bytes: nothing lost, nothing reordered -----

  /** What a body write adds to the cache when it succeeds, and nothing otherwise. */
  function WriteBytesOf(lib: Library, st: State, op: Op): seq<Byte> {
    if !op.IsWrite() then []
    else match Payload(lib, st.writerEncoding, op)
      case Success(p) => p
      case Failure(_) => []
  }

  /** The bytes the body writes of `ops` produce, in call order. */
  function Written(lib: Library, st: State, ops: seq<Op>): seq<Byte>
    decreases |ops|
  {
    if ops == [] then []
    else WriteBytesOf(lib, st, ops[0]) + Written(lib, Next(lib, st, ops[0]), ops[1..])
  }

  lemma ConcatAssoc(a: seq<Byte>, b: seq<Byte>, c: seq<Byte>)
    ensures a + b + c == a + (b + c)
  {
  }

  /** A body write only appends its bytes to the cache; the raw response is not touched. */
  lemma WriteOnlyAppends(lib: Library, st: State, op: Op)
    requires op.IsWrite()
    ensures Next(lib, st, op) == st.(content := st.content + WriteBytesOf(lib, st, op))
  {
  }

  /**
   * Any mix of byte and character writes leaves the cache holding its old content followed by
   * every written byte in call order, and leaves status, writer and raw response untouched.
   */
  lemma {:induction false} WritesOnlyAppend(lib: Library, st: State, ops: seq<Op>)
    requires forall i :: 0 <= i < |ops| ==> ops[i].IsWrite()
    ensures Run(lib, st, ops) == st.(content := st.content + Written(lib, st, ops))
    decreases |ops|
  {
    if ops == [] {
      assert st.content + [] == st.content;
    } else {
      var s1, w, rest := Next(lib, st, ops[0]), WriteBytesOf(lib, st, ops[0]), ops[1..];
      WriteOnlyAppends(lib, st, ops[0]);
      assert forall i :: 0 <= i < |rest| ==> rest[i] == ops[i + 1];
      WritesOnlyAppend(lib, s1, rest);
      assert Run(lib, st, ops) == Run(lib, s1, rest);
      assert Written(lib, st, ops) == w + Written(lib, s1, rest);
      ConcatAssoc(st.content, w, Written(lib, s1, rest));
    }
  }

  /** One call that discards nothing extends the stream by exactly the bytes it writes. */
  lemma NextExtendsStream(lib: Library, st: State, op: Op)
    requires !op.Discards()
    ensures Stream(Next(lib, st, op)) == Stream(st) + WriteBytesOf(lib, st, op)
  {
    if op.IsWrite() {
      WriteOnlyAppends(lib, st, op);
      assert Stream(Next(lib, st, op)) == st.sink.body + (st.content + WriteBytesOf(lib, st, op));
    } else {
      assert WriteBytesOf(lib, st, op) == [];
      assert Stream(st) + [] == Stream(st);
    }
  }

  /**
   * Without resets and resizes, no byte is ever lost, duplicated or reordered: what reached the
   * raw response followed by what is still cached grows by exactly the written bytes.
   */
  lemma {:induction false} StreamConserved(lib: Library, st: State, ops: seq<Op>)
    requires forall i :: 0 <= i < |ops| ==> !ops[i].Discards()
    ensures Stream(Run(lib, st, ops)) == Stream(st) + Written(lib, st, ops)
    decreases |ops|
  {
    if ops == [] {
      assert Stream(st) + [] == Stream(st);
    } else {
      var s1 := Next(lib, st, ops[0]);
      NextExtendsStream(lib, st, ops[0]);
      StreamConserved(lib, s1, ops[1..]);
      ConcatAssoc(Stream(st), WriteBytesOf(lib, st, ops[0]), Written(lib, s1, ops[1..]));
    }
  }

  // ----- The shape of the forwarded log -----

  /**
   * Every body write sent to the raw response is non-empty, and every content length the
   * wrapper sets is directly followed by the write of exactly that many bytes.
   */
  predicate FlushEventsWellFormed(log: seq<Event>) {
    && (forall i :: 0 <= i < |log| && log[i].BodyWritten? ==> log[i].bytes != [])
    && (forall i :: 0 <= i < |log| && log[i].ContentLengthSet? ==>
          i + 1 < |log| && log[i + 1].BodyWritten? && |log[i + 1].bytes| == log[i].len)
  }

  /** Well-formed logs concatenate to a well-formed log. */
  lemma AppendWellFormed(a: seq<Event>, b: seq<Event>)
    requires FlushEventsWellFormed(a) && FlushEventsWellFormed(b)
    ensures FlushEventsWellFormed(a + b)
  {
    var ab := a + b;
    forall i | 0 <= i < |ab| && ab[i].ContentLengthSet?
      ensures i + 1 < |ab| && ab[i + 1].BodyWritten? && |ab[i + 1].bytes| == ab[i].len
    {
      if i < |a| {
        assert ab[i] == a[i] && ab[i + 1] == a[i + 1];
      } else {
        assert ab[i] == b[i - |a|] && ab[i + 1] == b[i + 1 - |a|];
      }
    }
    forall i | 0 <= i < |ab| && ab[i].BodyWritten?
      ensures ab[i].bytes != []
    {
      if i < |a| { assert ab[i] == a[i]; } else { assert ab[i] == b[i - |a|]; }
    }
  }

  /** The events of one flush are well formed. */
  lemma FlushEventsAreWellFormed(st: State)
    ensures FlushEventsWellFormed(FlushEvents(st))
  {
  }

  /** One call keeps the forwarded log well formed. */
  lemma NextKeepsLogWellFormed(lib: Library, st: State, op: Op)
    requires FlushEventsWellFormed(st.sink.log)
    ensures FlushEventsWellFormed(Next(lib, st, op).sink.log)
  {
    var f := Flushed(st);
    FlushEventsAreWellFormed(st);
    AppendWellFormed(st.sink.log, FlushEvents(st));
    match op
    case SetStatus(sc, message) =>
      AppendWellFormed(st.sink.log, [StatusSet(sc, message)]);
    case SendError(sc, message) =>
      AppendWellFormed(f.sink.log, [ErrorSent(sc, message)]);
    case SendRedirect(location) =>
      AppendWellFormed(f.sink.log, [Redirected(location)]);
    case Reset =>
      AppendWellFormed(st.sink.log, [ResetDone]);
    case _ =>
  }

  /** Any sequence of calls keeps the forwarded log well formed. */
  lemma {:induction false} LogStaysWellFormed(lib: Library, st: State, ops: seq<Op>)
    requires FlushEventsWellFormed(st.sink.log)
    ensures FlushEventsWellFormed(Run(lib, st, ops).sink.log)
    decreases |ops|
  {
    if ops != [] {
      NextKeepsLogWellFormed(lib, st, ops[0]);
      LogStaysWellFormed(lib, Next(lib, st, ops[0]), ops[1..]);
    }
  }
}
