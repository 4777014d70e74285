/**
 * src/http_manager.c: the 2048-byte response accumulator filled by the HTTP
 * client's event callback, the guard and reset around one GET request, and
 * the argument checks and URL copy of the public `http_manager_httpGet`.
 * Wi-Fi state, client creation, the transfer itself, the request queue and
 * the completion semaphore are inputs.
 */
module HttpManager {
  import opened Machine
  import opened Wrappers

  const MAX_RESPONSE_LENGTH: nat := 2048

  /** `response_buffer` and `response_length`. */
  datatype Response = Response(buffer: seq<Byte>, length: nat)

  /** The length stays strictly below the capacity, so the terminator slot at
      `length` always exists. */
  predicate Valid(r: Response)
  {
    |r.buffer| == MAX_RESPONSE_LENGTH && r.length < MAX_RESPONSE_LENGTH
  }

  /** The zeroed buffer a request starts from. */
  function Fresh(): (r: Response)
    ensures Valid(r) && r.length == 0
    ensures forall i :: 0 <= i < |r.buffer| ==> r.buffer[i] == 0
  {
    Response(seq(MAX_RESPONSE_LENGTH, _ => 0), 0)
  }

  /** The client events the callback distinguishes. */
  datatype HttpEvent = Connected | Header | OnData(data: seq<Byte>) | OnFinish | Disconnected | OtherEvent

  /** Whether a chunk fits after `length` bytes with room for the terminator. */
  predicate Fits(length: nat, data: seq<Byte>)
  {
    length + |data| < MAX_RESPONSE_LENGTH
  }

  /** `http_event_handler` */
  function Handle(r: Response, e: HttpEvent): (next: Response)
    requires Valid(r)
    ensures Valid(next)
    ensures e.OnData? && Fits(r.length, e.data) ==>
      && next.length == r.length + |e.data|
      && next.buffer[..r.length] == r.buffer[..r.length]
      && next.buffer[r.length..next.length] == e.data
      && next.buffer[next.length..] == r.buffer[next.length..]
    ensures e.OnData? && !Fits(r.length, e.data) ==> next == r
    ensures e.OnFinish? ==>
      && next.length == r.length && next.buffer[r.length] == 0
      && forall i :: 0 <= i < MAX_RESPONSE_LENGTH && i != r.length ==> next.buffer[i] == r.buffer[i]
    ensures !e.OnData? && !e.OnFinish? ==> next == r
  {
    match e
    case OnData(data) =>
      if Fits(r.length, data) then
        var end := r.length + |data|;
        Response(r.buffer[..r.length] + data + r.buffer[end..], end)
      else r
    case OnFinish => r.(buffer := r.buffer[r.length := 0])
    case _ => r
  }

  /** The events of one transfer, handled in order. */
  function Replay(r: Response, events: seq<HttpEvent>): (r': Response)
    requires Valid(r)
    ensures Valid(r')
    decreases |events|
  {
    if |events| == 0 then r else Replay(Handle(r, events[0]), events[1..])
  }

  /** Reference definition: the bytes of the chunks that are kept, starting
      from `length` bytes already stored. */
  function Accepted(length: nat, events: seq<HttpEvent>): seq<Byte>
    decreases |events|
  {
    if |events| == 0 then []
    else if events[0].OnData? && Fits(length, events[0].data) then
      events[0].data + Accepted(length + |events[0].data|, events[1..])
    else Accepted(length, events[1..])
  }

  /** The stored response is exactly the earlier bytes followed by every chunk
      that fitted, in arrival order; the chunks that did not fit are dropped
      whole. */
  lemma {:induction false} ReplayAccumulates(r: Response, events: seq<HttpEvent>)
    requires Valid(r)
    ensures Replay(r, events).length == r.length + |Accepted(r.length, events)|
    ensures Replay(r, events).buffer[..Replay(r, events).length] ==
      r.buffer[..r.length] + Accepted(r.length, events)
    decreases |events|
  {
    if |events| > 0 {
      var r1 := Handle(r, events[0]);
      assert Replay(r, events) == Replay(r1, events[1..]);
      ReplayAccumulates(r1, events[1..]);
      if events[0].OnData? && Fits(r.length, events[0].data) {
        assert r1.buffer[..r1.length] == r.buffer[..r.length] + events[0].data by {
          assert r1.buffer[..r1.length] == r1.buffer[..r.length] + r1.buffer[r.length..r1.length];
        }
      } else if events[0].OnFinish? {
        assert r1.buffer[..r1.length] == r.buffer[..r.length];
      }
    }
  }

  /** The outcome of `http_manager_doGetRequest`: its return value, the
      accumulator afterwards, and the bytes copied to the caller (None when
      nothing was copied). */
  datatype GetOutcome = GetOutcome(success: bool, state: Response, copied: Option<seq<Byte>>)

  /** `http_manager_doGetRequest`: `gotIp` is whether the IP status is
      GOT_IP, `clientOk` whether the client was created, `events` what the
      client delivered during the transfer and `performOk` its result;
      `callerBuffers` is whether both output pointers are non-NULL. */
  function DoGetRequest(prior: Response, gotIp: bool, clientOk: bool, events: seq<HttpEvent>,
                        performOk: bool, callerBuffers: bool): (out: GetOutcome)
    requires Valid(prior)
    ensures !gotIp ==> out == GetOutcome(false, prior, None)
    ensures gotIp && !clientOk ==> out == GetOutcome(false, Fresh(), None)
    ensures gotIp && clientOk ==> out.state == Replay(Fresh(), events)
    ensures out.success <==> gotIp && clientOk && performOk && callerBuffers
    ensures out.success <==> out.copied.Some?
    ensures out.success ==> out.copied.value == Accepted(0, events)
    ensures Valid(out.state)
  {
    if !gotIp then GetOutcome(false, prior, None)
    else
      var blank := Fresh();
      if !clientOk then GetOutcome(false, blank, None)
      else
        var after := Replay(blank, events);
        ReplayAccumulates(blank, events);
        if performOk && callerBuffers then
          GetOutcome(true, after, Some(after.buffer[..after.length]))
        else GetOutcome(false, after, None)
  }

  /** A C string held in a character array: the characters before the first NUL. */
  function CString(buf: seq<char>): (s: seq<char>)
    ensures |s| <= |buf| && s == buf[..|s|]
    ensures forall i :: 0 <= i < |s| ==> s[i] != '\0'
    ensures |s| < |buf| ==> buf[|s|] == '\0'
  {
    if |buf| == 0 || buf[0] == '\0' then [] else [buf[0]] + CString(buf[1..])
  }

  predicate NoNul(s: seq<char>)
  {
    forall i :: 0 <= i < |s| ==> s[i] != '\0'
  }

  /** `strncpy(url_field, url, cap - 1)` followed by a NUL in the last slot of
      a `cap`-character field: the copy stops at the source's end and pads
      the rest with NULs. */
  function CopyUrl(url: seq<char>, cap: nat): (field: seq<char>)
    requires cap >= 1 && NoNul(url)
    ensures |field| == cap && field[cap - 1] == '\0'
  {
    var n := if |url| < cap - 1 then |url| else cap - 1;
    url[..n] + seq(cap - n, _ => '\0')
  }

  /** The queued URL reads back as the caller's URL cut to `cap - 1` characters. */
  lemma CopyUrlReadsBack(url: seq<char>, cap: nat)
    requires cap >= 1 && NoNul(url)
    ensures |url| < cap ==> CString(CopyUrl(url, cap)) == url
    ensures |url| >= cap ==> CString(CopyUrl(url, cap)) == url[..cap - 1]
  {
    var n := if |url| < cap - 1 then |url| else cap - 1;
    CStringOfPadded(url[..n], cap - n);
  }

  lemma {:induction false} CStringOfPadded(s: seq<char>, pad: nat)
    requires NoNul(s) && pad >= 1
    ensures CString(s + seq(pad, _ => '\0')) == s
    decreases |s|
  {
    var buf := s + seq(pad, _ => '\0');
    if |s| == 0 {
      assert buf[0] == '\0';
    } else {
      assert buf[1..] == s[1..] + seq(pad, _ => '\0');
      CStringOfPadded(s[1..], pad);
    }
  }

  /** What the caller of `http_manager_httpGet` sees, and the URL field of the
      request handed to the HTTP task (None when no request was queued). */
  datatype GetResult = GetResult(ok: bool, queuedUrl: Option<seq<char>>)

  /** `http_manager_httpGet`: `allocOk`, `sent` and `answered` are the
      results of the allocation, the queue send and the 30-second wait, and
      `served` is what the HTTP task reported for the request. */
  function HttpGet(url: Option<seq<char>>, respPresent: bool, respLenPresent: bool, cap: nat,
                   allocOk: bool, sent: bool, answered: bool, served: bool): (r: GetResult)
    requires cap >= 1
    requires url.Some? ==> NoNul(url.value)
    ensures url.None? || !respPresent || !respLenPresent ==> r == GetResult(false, None)
    ensures r.ok <==> url.Some? && respPresent && respLenPresent && allocOk && sent && answered && served
    ensures r.queuedUrl.Some? <==> url.Some? && respPresent && respLenPresent && allocOk && sent
    ensures r.queuedUrl.Some? ==> |r.queuedUrl.value| == cap && r.queuedUrl.value[cap - 1] == '\0'
    ensures r.queuedUrl.Some? ==>
      CString(r.queuedUrl.value) == (if |url.value| < cap then url.value else url.value[..cap - 1])
  {
    if url.None? || !respPresent || !respLenPresent then GetResult(false, None)
    else if !allocOk then GetResult(false, None)
    else
      var field := CopyUrl(url.value, cap);
      CopyUrlReadsBack(url.value, cap);
      if !sent then GetResult(false, None)
      else if !answered then GetResult(false, Some(field))
      else GetResult(served, Some(field))
  }
}
