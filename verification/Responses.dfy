/** The buffering response writer (writerWrapper) and the middleware that wraps a handler in it. */
module Responses {
  import opened Primitives

  /** One call on a response writer. */
  datatype Emit = Header(status: int) | Body(bytes: Str)

  /** What a handler does to its writer, call by call. */
  type Script = seq<Emit>

  const OK: int := 200

  // ------- What a client receives -------

  /** The status that counts: the first one set, or 200 when a body comes first or nothing does. */
  function FirstStatus(script: Script): int {
    if script != [] && script[0].Header? then script[0].status else OK
  }

  function Concat(script: Script): Str {
    if script == [] then []
    else
      var last := script[|script| - 1];
      Concat(script[..|script| - 1]) + (if last.Body? then last.bytes else [])
  }

  /** Status and body as a client sees them after these calls on the connection's own writer. */
  function Received(script: Script): (int, Str) {
    (FirstStatus(script), Concat(script))
  }

  /** The two calls a wrapper makes on the writer it wraps, once the handler has made `script`. */
  function Buffered(script: Script): Script {
    [Header(FirstStatus(script)), Body(Concat(script))]
  }

  /** The handler sets a status before it writes, if it writes at all. */
  predicate StatusFirst(script: Script) {
    script == [] || script[0].Header?
  }

  /** Wrapping is transparent: the client receives the same through a wrapper. What a wrapper emits
      sets its status first, and wrapping once more emits the same again. */
  lemma BufferedTransparent(script: Script)
    ensures Received(Buffered(script)) == Received(script)
    ensures StatusFirst(Buffered(script)) && Buffered(Buffered(script)) == Buffered(script)
  {
    var b := Buffered(script);
    var h: Script := [Header(FirstStatus(script))];
    assert h[..0] == [];
    assert Concat(h) == [];
    assert b[..|b| - 1] == h;
    assert Concat(b) == [] + Concat(script) == Concat(script);
  }

  // ------- The writers -------

  /** A writer that is given calls: the connection's own, or the next wrapper's input. */
  class ResponseWriter {
    var calls: Script

    constructor ()
      ensures calls == []
    {
      calls := [];
    }

    method WriteHeader(status: int)
      modifies this
      ensures calls == old(calls) + [Header(status)]
    {
      calls := calls + [Header(status)];
    }

    method Write(bytes: Str)
      modifies this
      ensures calls == old(calls) + [Body(bytes)]
    {
      calls := calls + [Body(bytes)];
    }
  }

  class WriterWrapper {
    const inner: ResponseWriter
    var status: int
    var wroteHeader: bool
    var buffer: Str
    var aborted: bool
    /** The mutex; it is not reentrant, so a holder that locks it again waits for ever. */
    var locked: bool
    /** The calls that have taken effect. */
    ghost var script: Script

    /** While it is live, the wrapper holds what its calls amount to. */
    ghost predicate Valid()
      reads this
    {
      && !locked
      && (!aborted ==> StatusFirst(script) && buffer == Concat(script))
      && (!aborted ==> (wroteHeader <==> script != []))
      && (!aborted && wroteHeader ==> status == FirstStatus(script))
      && (aborted ==> buffer == [])
    }

    constructor (inner: ResponseWriter)
      ensures Valid() && this.inner == inner && !aborted && script == []
    {
      this.inner := inner;
      status, wroteHeader, buffer, aborted, locked := 0, false, [], false, false;
      script := [];
    }

    method WriteHeader(status: int)
      requires Valid()
      modifies this
      ensures Valid() && aborted == old(aborted)
      ensures script == if aborted then old(script) else old(script) + [Header(status)]
    {
      locked := true;
      if !aborted {
        script := script + [Header(status)];
        assert script[..|script| - 1] == old(script);
      }
      if aborted || wroteHeader {
        locked := false;
        return;
      }
      this.status := status;
      wroteHeader := true;
      locked := false;
    }

    /** Write. On a live wrapper without a status it calls WriteHeader while it holds the mutex, and
        is stuck: the only case in which it does not return, and then it keeps the mutex. */
    method Write(bytes: Str) returns (n: nat, stuck: bool)
      requires Valid()
      modifies this
      ensures aborted == old(aborted)
      ensures stuck <==> !old(aborted) && !old(wroteHeader)
      ensures stuck ==> locked && script == old(script) && buffer == old(buffer)
      ensures !stuck ==> Valid()
      ensures !stuck ==> script == if aborted then old(script) else old(script) + [Body(bytes)]
      ensures !stuck ==> n == if aborted then 0 else |bytes|
    {
      locked := true;
      if aborted {
        locked := false;
        return 0, false;
      }
      if !wroteHeader {
        return 0, true;
      }
      buffer := buffer + bytes;
      script := script + [Body(bytes)];
      assert script[..|script| - 1] == old(script);
      locked := false;
      return |bytes|, false;
    }

    /** Flush: one status and one body, whatever the number of calls before. */
    method Flush()
      requires Valid()
      modifies this`status, inner
      ensures inner.calls == old(inner.calls) + [Header(status), Body(buffer)]
      ensures status == if wroteHeader then old(status) else 200
      ensures !aborted ==> inner.calls == old(inner.calls) + Buffered(script) && status == FirstStatus(script)
    {
      if !wroteHeader {
        status := OK;
      }
      inner.WriteHeader(status);
      inner.Write(buffer);
    }

    method Abort()
      requires Valid()
      modifies this
      ensures Valid() && aborted && buffer == []
    {
      locked := true;
      aborted := true;
      buffer := [];
      locked := false;
    }
  }

  /** observabilityMiddleware around a handler that makes the calls of `script`: the wrapped writer
      gets what the handler amounts to, and the status logged is the status sent. The handler gets
      stuck if, and only if, it writes before it sets a status. */
  method Observe(w: ResponseWriter, script: Script) returns (logged: int, stuck: bool)
    modifies w
    ensures stuck <==> !StatusFirst(script)
    ensures stuck ==> w.calls == old(w.calls)
    ensures !stuck ==> w.calls == old(w.calls) + Buffered(script) && logged == FirstStatus(script)
  {
    var ww := new WriterWrapper(w);
    for i := 0 to |script|
      invariant fresh(ww) && ww.inner == w && ww.Valid() && !ww.aborted
      invariant ww.script == script[..i] && w.calls == old(w.calls)
    {
      match script[i]
      case Header(status) => ww.WriteHeader(status);
      case Body(bytes) =>
        var _, blocked := ww.Write(bytes);
        if blocked {
          assert script[..i] == [];
          return 0, true;
        }
      assert script[..i + 1] == script[..i] + [script[i]];
      assert script[..i + 1][0] == script[0];
    }
    assert script[..|script|] == script;
    ww.Flush();
    return ww.status, false;
  }

  // ------- Chains of middleware -------

  /** m[0](m[1](...(h))). */
  function Compose<H>(ms: seq<H -> H>, h: H): H {
    if ms == [] then h else ms[0](Compose(ms[1..], h))
  }

  /** chain: the last middleware is applied first. */
  method Chain<H>(h: H, middlewares: seq<H -> H>) returns (r: H)
    ensures middlewares == [] ==> r == h
    ensures middlewares != [] ==> r == middlewares[0](Compose(middlewares[1..], h))
    ensures r == Compose(middlewares, h)
  {
    r := h;
    var i := |middlewares| - 1;
    while i >= 0
      invariant -1 <= i < |middlewares|
      invariant r == Compose(middlewares[i + 1..], h)
    {
      r := middlewares[i](r);
      assert middlewares[i..][1..] == middlewares[i + 1..];
      i := i - 1;
    }
    assert middlewares[0..] == middlewares;
  }

  /** Any stack of wrappers is as good as one, for every script that sets a status before it writes;
      on other scripts a wrapper gets stuck, and nothing is asked of it. */
  lemma {:induction false} StackIsOne(ms: seq<Script -> Script>, script: Script)
    requires StatusFirst(script)
    requires ms != [] && forall i, s :: 0 <= i < |ms| && StatusFirst(s) ==> ms[i](s) == Buffered(s)
    ensures Compose(ms, script) == Buffered(script)
    ensures Received(Compose(ms, script)) == Received(script)
  {
    BufferedTransparent(script);
    if |ms| > 1 {
      StackIsOne(ms[1..], script);
    } else {
      assert Compose(ms[1..], script) == script;
    }
  }
}
