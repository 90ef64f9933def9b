/**
 * Response streaming (src/lws_interface.c): the read callback that hands prelude, separator and body to
 * libcurl, and the calls that write, flush and finish a response around it.
 */
module Streaming {
  import opened Wrappers

  const SEPARATOR_LEN: nat := 8

  /** What lws_handle_read returns: a number of bytes (0 ends the data), a pause, or an abort. */
  datatype ReadResult = Bytes(n: nat) | Pause | Abort

  function Min(a: nat, b: nat): nat {
    if a < b then a else b
  }

  function Zeros(n: nat): (z: bytes)
    ensures |z| == n
  {
    seq(n, _ => 0)
  }

  /** The prelude, the separator, and the body. */
  ghost function Framed(prelude: bytes, body: bytes): (w: bytes)
    ensures |w| == |prelude| + SEPARATOR_LEN + |body|
  {
    prelude + Zeros(SEPARATOR_LEN) + body
  }

  /** The separator is eight zero bytes; whatever has been sent of a response, its bytes are where they belong. */
  lemma SentIsFramed(prelude: bytes, body: bytes, sent: bytes)
    requires sent <= Framed(prelude, body)
    ensures |Framed(prelude, body)| == |prelude| + 8 + |body|
    ensures forall i :: 0 <= i < |sent| ==>
      sent[i] == if i < |prelude| then prelude[i] else if i < |prelude| + 8 then 0 else body[i - |prelude| - 8]
  {
  }

  class Response {
    var prelude: bytes
    var preludePos: nat
    var separator: nat
    var body: bytes
    var bodyPos: nat
    var streaming: bool
    var paused: bool
    var eof: bool

    /** All that libcurl has been handed so far. */
    ghost var sent: bytes

    /** All there is to hand out for what has been written so far. */
    ghost function Stream(): bytes
      reads this
    {
      Framed(prelude, body)
    }

    /** The three cursors advance one after the other. */
    ghost predicate Cursors()
      reads this
    {
      && preludePos <= |prelude| && separator <= SEPARATOR_LEN && bodyPos <= |body|
      && (separator > 0 ==> preludePos == |prelude|)
      && (bodyPos > 0 ==> separator == SEPARATOR_LEN)
    }

    ghost predicate Valid()
      reads this
    {
      && Cursors()
      && |sent| == preludePos + separator + bodyPos
      && sent == Stream()[..|sent|]
    }

    /** Every byte written so far has been handed out. */
    ghost predicate Drained()
      reads this
    {
      sent == Stream()
    }

    /** memcpy into the callback's buffer; `was` is what had been sent before the callback. */
    method Send(ptr: array<byte>, at: nat, s: bytes, ghost was: bytes)
      requires at + |s| <= ptr.Length && |sent| + |s| <= |Stream()|
      requires s == Stream()[|sent|..|sent| + |s|] && sent == Stream()[..|sent|] && sent == was + ptr[..at]
      modifies this`sent, ptr
      ensures |sent| == |old(sent)| + |s| && sent == Stream()[..|sent|] && sent == was + ptr[..at + |s|]
    {
      forall i | 0 <= i < |s| {
        ptr[at + i] := s[i];
      }
      assert ptr[..at] == old(ptr[..at]);
      assert ptr[..at + |s|] == ptr[..at] + s;
      sent := sent + s;
    }

    /** The "send prelude" step of the callback; n bytes of the buffer are used. */
    method SendPrelude(ptr: array<byte>, at: nat, remain: nat, ghost was: bytes) returns (n: nat)
      requires Valid() && at + remain <= ptr.Length && sent == was + ptr[..at]
      modifies this`preludePos, this`sent, ptr
      ensures n == Min(old(|prelude| - preludePos), remain) && preludePos == old(preludePos) + n
      ensures Valid() && sent == was + ptr[..at + n]
    {
      n := 0;
      if preludePos < |prelude| {
        n := Min(|prelude| - preludePos, remain);
        Send(ptr, at, prelude[preludePos..preludePos + n], was);
        preludePos := preludePos + n;
      }
    }

    /** The "send separator" step. */
    method SendSeparator(ptr: array<byte>, at: nat, remain: nat, ghost was: bytes) returns (n: nat)
      requires Valid() && at + remain <= ptr.Length && sent == was + ptr[..at]
      requires remain > 0 ==> preludePos == |prelude|
      modifies this`separator, this`sent, ptr
      ensures n == Min(SEPARATOR_LEN - old(separator), remain) && separator == old(separator) + n
      ensures Valid() && sent == was + ptr[..at + n]
    {
      n := 0;
      if separator < SEPARATOR_LEN {
        n := Min(SEPARATOR_LEN - separator, remain);
        assert n > 0 ==> Stream()[|sent|..|sent| + n] == Zeros(n);
        Send(ptr, at, Zeros(n), was);
        separator := separator + n;
      }
    }

    /** The "send response data" step. */
    method SendBody(ptr: array<byte>, at: nat, remain: nat, ghost was: bytes) returns (n: nat)
      requires Valid() && at + remain <= ptr.Length && sent == was + ptr[..at]
      requires remain > 0 ==> preludePos == |prelude| && separator == SEPARATOR_LEN
      modifies this`bodyPos, this`sent, ptr
      ensures n == Min(old(|body| - bodyPos), remain) && bodyPos == old(bodyPos) + n
      ensures Valid() && sent == was + ptr[..at + n]
    {
      n := 0;
      if bodyPos < |body| {
        n := Min(|body| - bodyPos, remain);
        assert n > 0 ==> Stream()[|sent|..|sent| + n] == body[bodyPos..bodyPos + n];
        Send(ptr, at, body[bodyPos..bodyPos + n], was);
        bodyPos := bodyPos + n;
      }
    }

    /** The three steps in a row; n bytes of the buffer are used. */
    method SendAll(ptr: array<byte>, len: nat) returns (n: nat)
      requires Valid() && len <= ptr.Length
      modifies this`preludePos, this`separator, this`bodyPos, this`sent, ptr
      ensures Valid() && n == Min(len, old(|Stream()| - |sent|))
      ensures sent == old(sent) + ptr[..n]
    {
      ghost var was := sent;
      assert sent == was + ptr[..0];
      hide Valid;
      LeftOver();
      var n1 := SendPrelude(ptr, 0, len, was);
      var n2 := SendSeparator(ptr, n1, len - n1, was);
      var n3 := SendBody(ptr, n1 + n2, len - n1 - n2, was);
      n := n1 + n2 + n3;
    }

    lemma LeftOver()
      requires Valid()
      ensures |Stream()| - |sent| == (|prelude| - preludePos) + (SEPARATOR_LEN - separator) + (|body| - bodyPos)
      ensures preludePos <= |prelude| && separator <= SEPARATOR_LEN && bodyPos <= |body|
      ensures preludePos < |prelude| ==> separator == 0
      ensures separator < SEPARATOR_LEN ==> bodyPos == 0
      ensures Drained() <==> |sent| == |Stream()|
    {
    }

    /** The part of lws_handle_read after its overflow check. */
    method Fill(ptr: array<byte>, len: nat) returns (r: ReadResult)
      requires Valid() && len <= ptr.Length
      modifies this`preludePos, this`separator, this`bodyPos, this`paused, this`sent, ptr
      ensures Valid()
      ensures r == if old(Drained()) || len == 0 then (if eof then Bytes(0) else Pause)
                   else Bytes(Min(len, old(|Stream()| - |sent|)))
      ensures sent == old(sent) + (if r.Bytes? then ptr[..r.n] else [])
      ensures paused == (r == Pause || old(paused))
    {
      LeftOver();
      var n := SendAll(ptr, len);
      var remain := len - n;
      if remain == len {
        if eof {
          return Bytes(0);
        }
        paused := true;
        return Pause;
      }
      return Bytes(len - remain);
    }

    /**
     * lws_handle_read: the buffer is filled from the prelude, the separator and the body, in this order. A
     * pause, and the end of the data, come only when everything written so far has been handed out, given
     * a buffer that is not empty.
     */
    method HandleRead(ptr: array<byte>, size: nat, nmemb: nat) returns (r: ReadResult)
      requires Valid() && (size * nmemb <= SIZE_MAX ==> size * nmemb <= ptr.Length)
      modifies this`preludePos, this`separator, this`bodyPos, this`paused, this`sent, ptr
      ensures Valid()
      ensures r == if size * nmemb > SIZE_MAX then Abort
                   else if old(Drained()) || size * nmemb == 0 then (if eof then Bytes(0) else Pause)
                   else Bytes(Min(size * nmemb, old(|Stream()| - |sent|)))
      ensures sent == old(sent) + (if r.Bytes? then ptr[..r.n] else [])
      ensures paused == (r == Pause || old(paused))
    {
      ProductFits(size, nmemb);
      if nmemb > 0 && size > SIZE_MAX / nmemb {
        return Abort;
      }
      r := Fill(ptr, size * nmemb);
    }

    /** The overflow check of the callback is exact. */
    static lemma ProductFits(size: nat, nmemb: nat)
      ensures nmemb > 0 && size > SIZE_MAX / nmemb <==> size * nmemb > SIZE_MAX
    {
      if nmemb > 0 {
        QuotientBound(size, nmemb, SIZE_MAX);
      }
    }

    static lemma QuotientBound(a: nat, n: nat, max: nat)
      requires n > 0
      ensures a > max / n <==> a * n > max
    {
      var q := max / n;
      assert max == q * n + max % n;
      if a <= q {
        assert (q - a) * n == q * n - a * n;
      } else {
        assert (a - q - 1) * n == a * n - q * n - n;
      }
    }

    // ----- the calls around the callback

    const raw: bool
    /** The status and headers of the response, as the JSON that the first flush makes its prelude. */
    const header: bytes
    /** The transfer is known to libcurl; it has come to an end; and that end has been a success. */
    var added: bool
    var ended: bool
    var ok: bool
    /** The callback has told libcurl that there is no more data. */
    ghost var complete: bool

    constructor (raw: bool, header: bytes)
      ensures Valid() && Fresh() && body == [] && !eof
      ensures this.raw == raw && this.header == header
    {
      this.raw, this.header := raw, header;
      prelude, preludePos, separator, body, bodyPos := [], 0, 0, [], 0;
      streaming, paused, eof := false, false, false;
      added, ended, ok, complete := false, false, false, false;
      sent := [];
    }

    /** No flush has been tried yet. */
    ghost predicate Fresh()
      reads this
    {
      !streaming && !paused && sent == [] && prelude == [] && !added && !ended && !complete
    }

    /** A write to the response body. */
    method Write(data: bytes)
      requires Valid()
      modifies this`body
      ensures Valid() && body == old(body) + data
    {
      body := body + data;
      assert old(Stream()) <= Stream();
    }

    /**
     * A seek of the response body: it is truncated. What has been handed out stays a part of the stream
     * exactly when the seek does not go back behind it.
     */
    method Seek(offset: nat) returns (rc: int)
      requires Valid()
      modifies this`body
      ensures rc == if offset > |old(body)| then -1 else 0
      ensures body == if rc == 0 then old(body)[..offset] else old(body)
      ensures Valid() <==> rc != 0 || offset >= bodyPos
    {
      if offset > |body| {
        return -1;
      }
      body := body[..offset];
      if offset >= bodyPos {
        assert Stream()[..|sent|] == old(Stream())[..|sent|];
      }
      return 0;
    }

    /** The buffers that libcurl brings, one after the other, until the callback pauses or there are no more. */
    method Pull(sizes: seq<nat>) returns (stopped: bool)
      requires Valid() && !paused && !complete && Positive(sizes)
      modifies this`preludePos, this`separator, this`bodyPos, this`paused, this`sent, this`complete
      ensures Valid() && old(sent) <= sent
      ensures |sent| - |old(sent)| == Min(Total(sizes, |sizes|), old(|Stream()| - |sent|))
      ensures stopped ==> Drained() && paused == !eof && complete == eof
      ensures !stopped ==> !paused && !complete
      ensures |sizes| > old(|Stream()| - |sent|) ==> stopped
    {
      var i := 0;
      ghost var left := |Stream()| - |sent|;
      while i < |sizes|
        invariant 0 <= i <= |sizes| && Valid() && !paused && !complete && old(sent) <= sent
        invariant |Stream()| == old(|Stream()|) && |sent| - |old(sent)| == Min(Total(sizes, i), left)
        invariant i <= left
        invariant Total(sizes, i) >= i
      {
        hide Valid;
        LeftOver();
        TotalGrows(sizes, i);
        var ptr := new byte[sizes[i]];
        var r := HandleRead(ptr, 1, sizes[i]);
        if r == Pause || r == Bytes(0) {
          complete := r != Pause;
          return true;
        }
        i := i + 1;
      }
      return false;
    }

    /**
     * lws_curl_perform on the streaming transfer, driven as libcurl chooses. Unless it is to finish, it returns as
     * soon as the callback pauses or the transfer has come to an end, in both cases with 0: so a flush that returns
     * 0 has handed out everything exactly if the transfer had not ended before and libcurl asked for enough of
     * it. Only when it is to finish does it look at how the transfer ended.
     */
    method Perform(d: Drive, finish: bool) returns (rc: int)
      requires Valid() && !paused && !complete && finish == eof && Positive(d.sizes)
      modifies this`preludePos, this`separator, this`bodyPos, this`paused, this`sent, this`ended, this`ok, this`complete
      ensures Valid() && (rc == 0 || rc == -1) && old(sent) <= sent
      ensures old(ended) ==> sent == old(sent) && ended && ok == old(ok) && !paused && !complete
      ensures old(ended) && !finish ==> rc == 0
      ensures !finish && rc == 0 ==>
                paused != ended &&
                (Drained() <==> if old(ended) then old(Drained())
                                else Total(d.sizes, |d.sizes|) >= old(|Stream()| - |sent|))
      ensures paused ==> Drained() && !finish && rc == 0 && !ended
      ensures !finish && rc != 0 ==> !paused && !ended
      ensures complete ==> Drained() && finish
      ensures finish ==> (rc == 0 <==> ended && ok)
      ensures !finish && d.stop.Ends? ==> rc == 0
      ensures !old(ended) && d.stop.Ends? && !paused ==> ended && ok == d.stop.ok
      ensures |d.sizes| == 0 ==> sent == old(sent)
      ensures !old(ended) && |d.sizes| > old(|Stream()| - |sent|) ==>
                if finish then complete && (rc == 0 <==> d.stop == Ends(true)) else paused
    {
      LeftOver();
      if !ended {
        var stopped := Pull(d.sizes);
        LeftOver();
        if !finish && paused {
          return 0;
        }
        match d.stop {
          case Ends(result) =>
            ended, ok := true, result;
          case _ =>
            return -1;
        }
      }
      if !finish {
        return 0;
      }
      return if ok then 0 else -1;
    }

    /**
     * Between the calls of a response: nothing is pending in the callback that has not been handed out or is still
     * to be, and the transfer is paused, ended, or, after a failure of libcurl, neither.
     */
    ghost predicate Between()
      reads this
    {
      && Valid() && !eof && !complete && !(paused && ended)
      && (prelude == [] || prelude == header)
      && (streaming ==> prelude == header)
      && (!streaming ==> !paused && !ended && (sent == [] || (added && prelude == header)))
    }

    /** The "already streaming" case of lws_stream_response. */
    method Resume(finish: bool, d: Drive) returns (rc: int)
      requires Valid() && streaming && prelude == header && finish == eof && !complete && !(paused && ended)
      requires Positive(d.sizes)
      modifies this`preludePos, this`separator, this`bodyPos, this`paused, this`sent, this`ended, this`ok, this`complete
      ensures Valid() && (rc == 0 || rc == -1) && old(sent) <= sent && !(paused && ended)
      ensures old(ended) ==> ended && ok == old(ok) && sent == old(sent) && !complete && (!finish ==> rc == 0)
      ensures !finish ==> !complete && (rc == 0 && !ended ==> paused && Drained())
      ensures !finish && rc == 0 && !old(ended) ==>
                (Drained() <==> Total(d.sizes, |d.sizes|) >= old(|Stream()| - |sent|))
      ensures !finish && d.stop.Ends? ==> rc == 0
      ensures !old(ended) && d.stop.Ends? && !paused ==> ended && ok == d.stop.ok
      ensures |d.sizes| == 0 ==> sent == old(sent)
      ensures complete ==> Drained()
      ensures finish ==> (rc == 0 <==> ended && ok)
      ensures Enough(d) && !old(ended) ==>
                if finish then complete && (rc == 0 <==> d.stop == Ends(true)) else rc == 0 && paused
    {
      LeftOver();
      if paused {
        if d.stop == ResumeFails {
          return -1;
        }
        paused := false;
      }
      rc := Perform(d, finish);
    }

    /** The rest of lws_stream_response: the first flush, which makes the header the prelude and adds the transfer. */
    method Open(d: Drive) returns (rc: int)
      requires Between() && !streaming && Positive(d.sizes)
      modifies this`preludePos, this`separator, this`bodyPos, this`paused, this`sent, this`streaming, this`prelude,
               this`added, this`ended, this`ok, this`complete
      ensures Between() && (rc == 0 || rc == -1) && old(sent) <= sent && streaming == (rc == 0)
      ensures rc == 0 && !ended ==> paused && Drained()
      ensures rc == 0 ==> (Drained() <==> Total(d.sizes, |d.sizes|) >= |header| + SEPARATOR_LEN + |body|)
      ensures old(added) ==> rc == -1 && sent == old(sent)
      ensures !old(added) && d.stop.Ends? ==> rc == 0
      ensures rc == 0 && d.stop.Ends? && !paused ==> ended && ok == d.stop.ok
      ensures |d.sizes| == 0 ==> sent == old(sent)
      ensures !old(added) && Enough(d) ==> rc == 0 && paused
    {
      prelude := header;
      if added {
        return -1;
      }
      added := true;
      LeftOver();
      rc := Perform(d, false);
      if rc != 0 {
        return -1;
      }
      streaming := true;
    }

    /** lws_stream_response: the first flush opens the stream with the prelude, later ones resume it. */
    method StreamResponse(finish: bool, d: Drive) returns (rc: int)
      requires if finish then Closing() else Between()
      requires Positive(d.sizes)
      modifies this`preludePos, this`separator, this`bodyPos, this`paused, this`sent, this`streaming, this`prelude,
               this`added, this`ended, this`ok, this`complete
      ensures Valid() && (rc == 0 || rc == -1) && old(sent) <= sent
      ensures raw ==> rc == -1 && sent == old(sent) && streaming == old(streaming) && ended == old(ended) && !complete
      ensures !finish ==> Between() && streaming == (old(streaming) || rc == 0)
      ensures !finish && rc == 0 && !ended ==> paused && Drained()
      ensures !finish && rc == 0 && !old(ended) ==>
                (Drained() <==>
                  Total(d.sizes, |d.sizes|) >=
                    (if old(streaming) then old(|Stream()| - |sent|) else |header| + SEPARATOR_LEN + |body|))
      ensures old(ended) ==> ended && ok == old(ok) && sent == old(sent) && !complete && (!finish && !raw ==> rc == 0)
      ensures !raw && !finish && (old(streaming) || !old(added)) && d.stop.Ends? ==>
                rc == 0 && (old(!ended) && !paused ==> ended && ok == d.stop.ok)
      ensures |d.sizes| == 0 ==> sent == old(sent)
      ensures finish ==> streaming && prelude == header && (complete ==> Drained())
      ensures finish && !raw ==> (rc == 0 <==> ended && ok)
      ensures !raw && Enough(d) && (old(streaming) || !old(added)) && !old(ended) ==>
                if finish then complete && (rc == 0 <==> d.stop == Ends(true)) else rc == 0 && paused
    {
      if raw {
        return -1;
      }
      hide Valid, Enough;
      if streaming {
        rc := Resume(finish, d);
      } else {
        rc := Open(d);
      }
    }

    /** When a response is finished: as between calls, with the end of the data in sight. */
    ghost predicate Closing()
      reads this
    {
      Valid() && eof && streaming && !complete && !(paused && ended) && prelude == header
    }

    /** libcurl can resume the transfer and brings more buffers than there are bytes. */
    ghost predicate Enough(d: Drive)
      reads this
    {
      d.stop != ResumeFails && |d.sizes| > |header| + SEPARATOR_LEN + |body|
    }

    /**
     * lws_finalize_response. It reports success exactly if libcurl has reported that for the transfer. What
     * libcurl was told is complete is complete; so a loss goes unreported only if libcurl reports success for a
     * transfer whose data it has not been given.
     */
    method Finalize(d: Drive) returns (rc: int)
      requires Between() && Positive(d.sizes)
      modifies this`preludePos, this`separator, this`bodyPos, this`paused, this`sent, this`streaming, this`prelude,
               this`added, this`ended, this`ok, this`complete, this`eof
      ensures Valid() && (rc == 0 || rc == -1) && old(sent) <= sent
      ensures !old(streaming) ==> rc == 0 && sent == old(sent)
      ensures sent <= Framed(header, body)
      ensures old(streaming) ==> prelude == header
      ensures old(streaming) && !raw ==> (rc == 0 <==> ended && ok)
      ensures old(streaming) && complete ==> sent == Framed(header, body)
      ensures old(streaming) && !raw && rc == 0 && sent != Framed(header, body) ==> ok && !complete
      ensures old(ended) ==> ended && ok == old(ok)
      ensures old(ended) && old(sent) != Framed(header, body) ==> !complete && sent == old(sent)
      ensures old(streaming) && !old(ended) && !raw && Enough(d) ==> complete && (rc == 0 <==> d.stop == Ends(true))
    {
      if streaming {
        eof := true;
        rc := StreamResponse(true, d);
        return;
      }
      return 0;
    }
  }

  /** What libcurl does with a transfer: the buffers it brings, and what happens if they do not make it stop. */
  datatype Stop = ResumeFails | MultiFails | Ends(ok: bool)

  datatype Drive = Drive(sizes: seq<nat>, stop: Stop)

  ghost predicate Positive(sizes: seq<nat>) {
    forall i :: 0 <= i < |sizes| ==> 0 < sizes[i] <= SIZE_MAX
  }

  ghost function Total(sizes: seq<nat>, n: nat): nat
    requires n <= |sizes|
  {
    if n == 0 then 0 else Total(sizes, n - 1) + sizes[n - 1]
  }

  lemma {:induction false} TotalGrows(sizes: seq<nat>, n: nat)
    requires n < |sizes|
    ensures Total(sizes, |sizes|) >= Total(sizes, n + 1) == Total(sizes, n) + sizes[n]
    decreases |sizes| - n
  {
    if n + 1 < |sizes| {
      TotalGrows(sizes, n + 1);
    }
  }

  // ----- whole responses

  /** What a Lua chunk does to the response body, with what libcurl does at each flush. */
  datatype Event = Write(data: bytes) | Flush(drive: Drive)

  /** What an event came to: its result, and what had been handed out and whether the transfer had ended after it. */
  datatype Step = Step(rc: int, sent: bytes, ended: bool)

  ghost function Written(events: seq<Event>, n: nat): bytes
    requires n <= |events|
  {
    if n == 0 then [] else
    Written(events, n - 1) + (if events[n - 1].Write? then events[n - 1].data else [])
  }

  /** All there is to hand out of a response after n events. */
  ghost function Whole(header: bytes, events: seq<Event>, n: nat): bytes
    requires n <= |events|
  {
    Framed(header, Written(events, n))
  }

  /** Some flush has opened the stream. */
  ghost predicate Opened(events: seq<Event>, steps: seq<Step>)
    requires |steps| <= |events|
  {
    exists i :: 0 <= i < |steps| && events[i].Flush? && steps[i].rc == 0
  }

  /** What is true of a step in any run. */
  ghost predicate StepHolds(header: bytes, events: seq<Event>, steps: seq<Step>, i: nat)
    requires i < |steps| <= |events|
  {
    && steps[i].sent <= Whole(header, events, i + 1)
    && (i > 0 ==> steps[i - 1].sent <= steps[i].sent && (steps[i - 1].ended ==> steps[i].ended))
    && (events[i].Flush? && steps[i].rc == 0 && !steps[i].ended ==> steps[i].sent == Whole(header, events, i + 1))
    && (i > 0 && steps[i - 1].ended ==> steps[i].sent == steps[i - 1].sent)
  }

  /** libcurl asks often enough for the callback to hand out everything, even byte by byte. */
  ghost predicate EnoughBuffers(header: bytes, events: seq<Event>, last: Drive) {
    && last.stop != ResumeFails && |last.sizes| > |Whole(header, events, |events|)|
    && forall i :: 0 <= i < |events| && events[i].Flush? ==>
         events[i].drive.stop != ResumeFails && |events[i].drive.sizes| > |Whole(header, events, i)|
  }

  /** One event. */
  method Take(r: Response, event: Event) returns (rc: int)
    requires r.Between() && (event.Flush? ==> Positive(event.drive.sizes))
    modifies r
    ensures r.Between() && r.body == old(r.body) + (if event.Write? then event.data else [])
    ensures r.streaming == (old(r.streaming) || (event.Flush? && rc == 0))
    ensures r.raw ==> r.streaming == old(r.streaming)
    ensures old(r.sent) <= r.sent && (old(r.ended) ==> r.ended && r.sent == old(r.sent))
    ensures r.sent <= Framed(r.header, r.body)
    ensures event.Flush? && rc == 0 && !r.ended ==> r.sent == Framed(r.header, r.body)
    ensures event.Write? ==> r.paused == old(r.paused) && (old(r.Fresh()) ==> r.Fresh())
    ensures event.Flush? && !r.raw && old(r.Enough(event.drive) && (r.paused || r.Fresh())) ==> rc == 0 && r.paused
  {
    rc := 0;
    match event
    case Write(data) => r.Write(data);
    case Flush(drive) => rc := r.StreamResponse(false, drive);
    SentIsPrefix(r);
  }

  lemma SentIsPrefix(r: Response)
    requires r.Between()
    ensures r.sent <= Framed(r.header, r.body)
  {
  }

  lemma StepMade(header: bytes, events: seq<Event>, before: seq<Step>, step: Step)
    requires |before| < |events|
    requires step.sent <= Whole(header, events, |before| + 1)
    requires events[|before|].Flush? && step.rc == 0 && !step.ended ==> step.sent == Whole(header, events, |before| + 1)
    requires before != [] ==>
               var last := before[|before| - 1];
               last.sent <= step.sent && (last.ended ==> step.ended && step.sent == last.sent)
    requires forall k :: 0 <= k < |before| ==> StepHolds(header, events, before, k)
    ensures forall k :: 0 <= k <= |before| ==> StepHolds(header, events, before + [step], k)
    ensures Opened(events, before + [step]) <==> Opened(events, before) || (events[|before|].Flush? && step.rc == 0)
  {
    var steps := before + [step];
    assert StepHolds(header, events, steps, |before|);
    StepsHold(header, events, before, steps, |before|);
    if Opened(events, before) {
      var i :| 0 <= i < |before| && events[i].Flush? && before[i].rc == 0;
      assert steps[i].rc == 0;
    }
    if events[|before|].Flush? && step.rc == 0 {
      assert steps[|before|].rc == 0;
    }
  }

  /** All events. */
  method TakeAll(r: Response, events: seq<Event>, ghost last: Drive) returns (ghost steps: seq<Step>)
    requires r.Valid() && r.Fresh() && r.body == [] && !r.eof
    requires forall i :: 0 <= i < |events| && events[i].Flush? ==> Positive(events[i].drive.sizes)
    modifies r
    ensures r.Between() && |steps| == |events| && r.body == Written(events, |events|)
    ensures (r.streaming <==> Opened(events, steps)) && (r.raw ==> !r.streaming)
    ensures forall k :: 0 <= k < |steps| ==> StepHolds(r.header, events, steps, k)
    ensures r.sent == (if steps == [] then [] else steps[|steps| - 1].sent)
    ensures !r.raw && EnoughBuffers(r.header, events, last) ==> if r.streaming then r.paused else r.Fresh()
  {
    hide StepHolds, Opened, EnoughBuffers, r.Between, r.Valid, r.Enough;
    NothingYet(r, events);
    steps := [];
    var i := 0;
    while i < |events|
      invariant 0 <= i == |steps| <= |events| && r.Between() && r.body == Written(events, i)
      invariant r.streaming <==> Opened(events, steps)
      invariant r.raw ==> !r.streaming
      invariant forall k :: 0 <= k < i ==> StepHolds(r.header, events, steps, k)
      invariant r.sent == (if i == 0 then [] else steps[i - 1].sent)
      invariant r.ended == (i > 0 && steps[i - 1].ended)
      invariant !r.raw && EnoughBuffers(r.header, events, last) ==> if r.streaming then r.paused else r.Fresh()
    {
      DriveEnough(r, events, last, i);
      var rc := Take(r, events[i]);
      StepMade(r.header, events, steps, Step(rc, r.sent, r.ended));
      steps := steps + [Step(rc, r.sent, r.ended)];
      i := i + 1;
    }
  }

  /**
   * Any interleaving of writes and flushes, with libcurl doing as it likes. After every event, what has been handed
   * out is a prefix of header, eight zero bytes and everything written, and only grows; a flush that succeeds has
   * handed out everything written before it unless the transfer has ended; once it has ended nothing more is
   * handed out. The response is reported as a success exactly if libcurl reports the transfer as one.
   */
  method Respond(r: Response, events: seq<Event>, last: Drive) returns (rc: int, ghost steps: seq<Step>)
    requires r.Valid() && r.Fresh() && r.body == [] && !r.eof
    requires Positive(last.sizes)
    requires forall i :: 0 <= i < |events| && events[i].Flush? ==> Positive(events[i].drive.sizes)
    modifies r
    ensures |steps| == |events| && r.body == Written(events, |events|)
    ensures forall i :: 0 <= i < |steps| ==> StepHolds(r.header, events, steps, i)
    ensures steps != [] ==> steps[|steps| - 1].sent <= r.sent
    ensures r.sent <= Whole(r.header, events, |events|)
    ensures forall i :: 0 <= i < |r.sent| ==>
      i < |r.header| + 8 + |r.body| &&
      r.sent[i] == if i < |r.header| then r.header[i] else if i < |r.header| + 8 then 0 else r.body[i - |r.header| - 8]
    ensures Opened(events, steps) ==> (rc == 0 <==> r.ended && r.ok)
    ensures Opened(events, steps) && r.complete ==> r.sent == Whole(r.header, events, |events|)
    ensures Opened(events, steps) && rc == 0 && r.sent != Whole(r.header, events, |events|) ==> r.ok && !r.complete
    ensures !Opened(events, steps) ==> rc == 0 && r.sent == if steps == [] then [] else steps[|steps| - 1].sent
    ensures !r.raw && EnoughBuffers(r.header, events, last) && Opened(events, steps) ==>
              r.sent == Whole(r.header, events, |events|) && (rc == 0 <==> last.stop == Ends(true))
  {
    hide StepHolds, Opened, EnoughBuffers, r.Between, r.Valid, r.Enough;
    steps := TakeAll(r, events, last);
    PausedIsNotEnded(r);
    rc := r.Finalize(last);
    DriveEnough(r, events, last, |events|);
    SentIsFramed(r.header, r.body, r.sent);
  }

  lemma NothingYet(r: Response, events: seq<Event>)
    requires r.Valid() && r.Fresh() && r.body == [] && !r.eof
    ensures r.Between() && !r.streaming && !r.ended && r.sent == [] && !Opened(events, [])
  {
  }

  lemma PausedIsNotEnded(r: Response)
    requires r.Between()
    ensures !(r.paused && r.ended)
  {
  }

  lemma DriveEnough(r: Response, events: seq<Event>, last: Drive, i: nat)
    requires i <= |events| && r.body == Written(events, i)
    ensures EnoughBuffers(r.header, events, last) ==>
              if i == |events| then r.Enough(last) else events[i].Flush? ==> r.Enough(events[i].drive)
  {
  }

  /** Later steps do not matter to earlier ones. */
  lemma StepsHold(header: bytes, events: seq<Event>, before: seq<Step>, steps: seq<Step>, i: nat)
    requires i == |before| && |steps| == i + 1 <= |events| && steps[..i] == before
    requires forall k :: 0 <= k < i ==> StepHolds(header, events, before, k)
    ensures forall k :: 0 <= k < i ==> StepHolds(header, events, steps, k)
  {
    forall k | 0 <= k < i
      ensures StepHolds(header, events, steps, k)
    {
      assert StepHolds(header, events, before, k);
      assert steps[k] == steps[..i][k] && (k > 0 ==> steps[k - 1] == steps[..i][k - 1]);
    }
  }

  /**
   * A flush that is lost: libcurl cannot connect, and the transfer ends before a byte is handed out. The flush
   * succeeds all the same, and so does the next one; finishing the response reports the failure.
   */
  method LostFlush(header: bytes, first: bytes, second: bytes) returns (r: Response, rcs: seq<int>)
    ensures rcs == [0, 0, -1]
    ensures r.sent == [] && r.body == first + second && r.ended
  {
    r := new Response(false, header);
    var refused := Drive([], Ends(false));
    r.Write(first);
    var rc1 := r.StreamResponse(false, refused);
    r.Write(second);
    var rc2 := r.StreamResponse(false, refused);
    var rc3 := r.Finalize(refused);
    rcs := [rc1, rc2, rc3];
  }
}
