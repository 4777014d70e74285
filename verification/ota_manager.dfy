/**
 * src/ota_manager.c: the firmware-upload handler's status machine, the
 * progress percentage it publishes, and the seven-pixel progress bar drawn in
 * column 31 from that status. The HTTP request, the flash partition calls and
 * the restart are inputs and outcomes; the payload bytes are not modelled.
 */
module OtaManager {
  import opened Machine
  import opened Wrappers
  import opened Colors
  import opened DisplayManager
  import NeopixelDriver

  const NUM_LEDS: nat := 7
  const STARTING_X: nat := 31
  const STARTING_Y: nat := 1
  /** Size of the receive buffer: the most one `httpd_req_recv` returns. */
  const RECV_BUFFER: nat := 1024

  /** `ota_manager_status_E` */
  datatype OtaStatus = Idle | Starting | InProgress | Success | Failed

  /** The result of one `esp_ota_write`. */
  datatype WriteResult = WriteOk | ValidateFailed | InvalidSize | OtherWriteError

  /** One positive `httpd_req_recv` result and what writing it returned. */
  datatype Chunk = Chunk(size: nat, write: WriteResult)

  /** Everything the handler learns from the outside world, in order:
      `recvEnd` is the non-positive receive result that ends the loop. */
  datatype Request = Request(
    contentLen: int,
    hasPartition: bool,
    beginOk: bool,
    chunks: seq<Chunk>,
    recvEnd: int,
    endOk: bool,
    bootOk: bool)

  /** The handler's effect: the published status and progress, whether it
      took the success path, and how many chunks were handed to
      `esp_ota_write`. Every failing path returns ESP_FAIL; the success path
      ends in `esp_restart()` inside the handler, so its trailing
      `return ESP_OK` is never reached. */
  datatype Outcome = Outcome(status: OtaStatus, progress: Byte, ok: bool, written: nat)

  predicate WellFormed(req: Request)
  {
    && INT32_MIN <= req.contentLen <= INT32_MAX
    && (forall i :: 0 <= i < |req.chunks| ==> 0 < req.chunks[i].size <= RECV_BUFFER)
    && req.recvEnd <= 0
  }

  /** Bytes received in the first `k` chunks. */
  function Total(chunks: seq<Chunk>, k: nat): (n: nat)
    requires k <= |chunks|
  {
    if k == 0 then 0 else Total(chunks, k - 1) + chunks[k - 1].size
  }

  /** The first chunk at or after `k` whose write did not succeed. */
  function FirstFailureFrom(chunks: seq<Chunk>, k: nat): (r: Option<nat>)
    requires k <= |chunks|
    ensures r.Some? ==> k <= r.value < |chunks| && chunks[r.value].write != WriteOk
    ensures r.Some? ==> forall j :: k <= j < r.value ==> chunks[j].write == WriteOk
    ensures r.None? <==> forall j :: k <= j < |chunks| ==> chunks[j].write == WriteOk
    decreases |chunks| - k
  {
    if k == |chunks| then None
    else if chunks[k].write != WriteOk then Some(k)
    else FirstFailureFrom(chunks, k + 1)
  }

  /** `(rx_counter * 100) / content_len` stored into the `uint8_t` progress:
      the product is an `int` (two's complement on the target), the quotient
      truncates, and the store keeps the low byte. */
  function Progress(received: nat, contentLen: int): Byte
    requires contentLen > 0
  {
    Wrap8(CDiv(ToInt32(Wrap32(received * 100)), contentLen))
  }

  /** Without overflow, the published progress is the received percentage,
      and it never exceeds 100 while no more than the announced length arrived. */
  lemma ProgressIsPercentage(received: nat, contentLen: int)
    requires contentLen > 0 && received * 100 <= INT32_MAX
    ensures received <= contentLen ==> Progress(received, contentLen) == received * 100 / contentLen <= 100
    ensures received == contentLen ==> Progress(received, contentLen) == 100
  {
    var a := received * 100;
    assert ToInt32(Wrap32(a)) == a;
    assert CDiv(a, contentLen) == a / contentLen;
    if received <= contentLen {
      QuotientAtMost(a, contentLen, 100);
    }
    if received == contentLen {
      QuotientExact(100, contentLen);
    }
  }

  lemma QuotientExact(m: nat, n: int)
    requires n > 0
    ensures (m * n) / n == m
  {
    var q, r := (m * n) / n, (m * n) % n;
    assert (q - m) * n + r == 0;
    ZeroProduct(q - m, n, r);
  }

  lemma ZeroProduct(d: int, n: int, r: int)
    requires n > 0 && 0 <= r < n && d * n + r == 0
    ensures d == 0
  {
  }

  lemma QuotientAtMost(a: nat, n: int, m: nat)
    requires n > 0 && a <= m * n
    ensures a / n <= m
  {
  }

  /** `ota_post_handler` */
  method PostHandler(req: Request, prior: Byte) returns (out: Outcome)
    requires WellFormed(req)
    ensures req.contentLen <= 0 || !req.hasPartition ==> out == Outcome(Starting, prior, false, 0)
    ensures req.contentLen > 0 && req.hasPartition && !req.beginOk ==> out == Outcome(InProgress, prior, false, 0)
    ensures req.contentLen > 0 && req.hasPartition && req.beginOk && FirstFailureFrom(req.chunks, 0).Some? ==>
      var k := FirstFailureFrom(req.chunks, 0).value;
      && out.written == k + 1 && !out.ok
      && out.progress == Progress(Total(req.chunks, k + 1), req.contentLen)
      && out.status == (if req.chunks[k].write == OtherWriteError then InProgress else Failed)
    ensures req.contentLen > 0 && req.hasPartition && req.beginOk && FirstFailureFrom(req.chunks, 0).None? ==>
      && out.written == |req.chunks|
      && out.progress == (if |req.chunks| == 0 then prior else Progress(Total(req.chunks, |req.chunks|), req.contentLen))
      && (out.ok <==> req.recvEnd == 0 && req.endOk && req.bootOk)
      && out.status == (if out.ok then Success else Failed)
    ensures CompleteUpload(req) ==> out.status == Success && out.ok && out.progress == 100
  {
    if CompleteUpload(req) {
      CompleteUploadSucceeds(req);
    }
    if req.contentLen <= 0 || !req.hasPartition {
      return Outcome(Starting, prior, false, 0);
    }
    if !req.beginOk {
      return Outcome(InProgress, prior, false, 0);
    }
    var progress := prior;
    var received := 0;
    var i := 0;
    while i < |req.chunks|
      invariant 0 <= i <= |req.chunks|
      invariant received == Total(req.chunks, i)
      invariant progress == if i == 0 then prior else Progress(received, req.contentLen)
      invariant FirstFailureFrom(req.chunks, 0) == FirstFailureFrom(req.chunks, i)
    {
      received := received + req.chunks[i].size;
      progress := Progress(received, req.contentLen);
      var write := req.chunks[i].write;
      if write == ValidateFailed || write == InvalidSize {
        return Outcome(Failed, progress, false, i + 1);
      } else if write == OtherWriteError {
        return Outcome(InProgress, progress, false, i + 1);
      }
      i := i + 1;
    }
    if req.recvEnd < 0 || !req.endOk || !req.bootOk {
      return Outcome(Failed, progress, false, i);
    }
    return Outcome(Success, progress, true, i);
  }

  /** An upload in which every step succeeds: every chunk is written, the
      chunks add up to the announced length, the receive ends cleanly, and
      `esp_ota_end` and the boot switch succeed. */
  predicate CompleteUpload(req: Request)
  {
    && req.contentLen > 0 && req.hasPartition && req.beginOk
    && (forall i :: 0 <= i < |req.chunks| ==> req.chunks[i].write == WriteOk)
    && Total(req.chunks, |req.chunks|) == req.contentLen && req.contentLen * 100 <= INT32_MAX
    && req.recvEnd == 0 && req.endOk && req.bootOk
  }

  /** In a complete upload no write fails, there is at least one chunk, and
      the progress after the last chunk is 100. */
  lemma CompleteUploadSucceeds(req: Request)
    requires WellFormed(req) && CompleteUpload(req)
    ensures FirstFailureFrom(req.chunks, 0).None?
    ensures |req.chunks| > 0 && Progress(Total(req.chunks, |req.chunks|), req.contentLen) == 100
  {
    ProgressIsPercentage(req.contentLen, req.contentLen);
  }

  /** The bar's pixels: `count` cells down column STARTING_X from row STARTING_Y. */
  method Column(count: nat, color: Word) returns (calls: seq<PixelCall>)
    requires count < 0x1_0000
    ensures |calls| == count
    ensures forall i :: 0 <= i < count ==> calls[i] == PixelCall(STARTING_Y + i, STARTING_X, color)
  {
    calls := [];
    var i := 0;
    while i < count
      invariant 0 <= i <= count && |calls| == i
      invariant forall j :: 0 <= j < i ==> calls[j] == PixelCall(STARTING_Y + j, STARTING_X, color)
    {
      calls := calls + [PixelCall(STARTING_Y + i, STARTING_X, color)];
      i := i + 1;
    }
  }

  /** `leds_to_inc` */
  function LedsToLight(progress: Byte): (n: nat)
    ensures n <= 17
    ensures progress <= 100 ==> n <= NUM_LEDS
    ensures progress == 100 ==> n == NUM_LEDS
    ensures progress < 15 ==> n == 0
    ensures n * 100 <= progress * NUM_LEDS < (n + 1) * 100
  {
    progress * NUM_LEDS / 100
  }

  lemma LedsMonotone(p: Byte, q: Byte)
    requires p <= q
    ensures LedsToLight(p) <= LedsToLight(q)
  {
  }

  /** `ota_manager_drawProgressBar`: the pixel calls for the current status and
      the progress value afterwards (reset to 0 while idle or starting). */
  method DrawProgressBar(status: OtaStatus, progress: Byte, palette: Palette)
    returns (calls: seq<PixelCall>, progress': Byte)
    ensures progress' == (if status in {Idle, Starting} then 0 else progress)
    ensures status != InProgress ==> |calls| == NUM_LEDS
    ensures status == InProgress ==> |calls| == LedsToLight(progress)
    ensures forall i :: 0 <= i < |calls| ==> calls[i].row == STARTING_Y + i && calls[i].col == STARTING_X
    ensures forall c :: c in calls ==> c.color == match status
      case Idle => palette.black
      case Starting => palette.black
      case InProgress => palette.yellow
      case Success => palette.green
      case Failed => palette.red
  {
    match status
    case Idle =>
      progress' := 0;
      calls := Column(NUM_LEDS, palette.black);
    case Starting =>
      progress' := 0;
      calls := Column(NUM_LEDS, palette.black);
    case InProgress =>
      progress' := progress;
      calls := Column(LedsToLight(progress), palette.yellow);
    case Success =>
      progress' := progress;
      calls := Column(NUM_LEDS, palette.green);
    case Failed =>
      progress' := progress;
      calls := Column(NUM_LEDS, palette.red);
  }

  /** With progress at most 100 the bar stays on the grid: rows 1..7 of column 31. */
  lemma BarOnGrid(calls: seq<PixelCall>)
    requires |calls| <= NUM_LEDS
    requires forall i :: 0 <= i < |calls| ==> calls[i].row == STARTING_Y + i && calls[i].col == STARTING_X
    ensures forall c :: c in calls ==> InGrid(c.row, c.col)
  {
  }

  /** A progress above 100 asks for up to 17 pixels, running off the bottom
      of the grid; in column 31 every row past the bottom maps to a negative
      strip index, so those extra calls change nothing. */
  lemma OverfullBarIsDropped(f: seq<NeopixelDriver.Pixel>, row: Word)
    requires NeopixelDriver.IsFrame(f)
    requires NUM_ROWS <= row <= STARTING_Y + 16
    ensures LedsToLight(255) == 17
    ensures !InGrid(row, STARTING_X)
    ensures StripIndex(row, STARTING_X) < 0
    ensures DisplayManager.SetPixel(f, PixelCall(row, STARTING_X, 0)) == f
  {
  }

  /** Rendering a bar of at most seven calls colours exactly its cells. */
  lemma BarShows(f: seq<NeopixelDriver.Pixel>, calls: seq<PixelCall>, color: Word, row: nat)
    requires NeopixelDriver.IsFrame(f)
    requires |calls| <= NUM_LEDS
    requires forall i :: 0 <= i < |calls| ==> calls[i] == PixelCall(STARTING_Y + i, STARTING_X, color)
    requires STARTING_Y <= row < STARTING_Y + |calls|
    ensures Render(f, calls)[Serpentine(row, STARTING_X)].rgb == color
  {
    var k := row - STARTING_Y;
    forall m | k < m < |calls|
      ensures StripIndex(calls[m].row, calls[m].col) != StripIndex(calls[k].row, calls[k].col)
    {
      StripIndexOnGrid(calls[m].row, calls[m].col);
      StripIndexOnGrid(calls[k].row, calls[k].col);
    }
    RenderLastWriteWins(f, calls, k);
  }
}
