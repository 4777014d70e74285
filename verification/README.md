# led-matrix-micro in Dafny

A model of the firmware that drives an 8x32 NeoPixel matrix from an ESP32.
The firmware turns a logical (row, column) grid into indices on a serpentine
LED strip, keeps a 256-entry pixel buffer with a brightness correction, and
draws rectangles, Bresenham lines and 3x5 digit glyphs on it. Around that sit
several small state machines: a software wall clock, an application registry
with a start sequence, a firmware-upload (OTA) handler with a progress bar, a
potentiometer sampler, a demonstration "walker", and an HTTP response
accumulator.

The model is written as pure functions and short methods over sequences. A
drawing operation does not mutate the display. It returns the log of
`display_manager_setPixel` calls it makes (`DisplayManager.PixelCall`), and
`DisplayManager.Render` applies such a log to the 256-entry frame. C
fixed-width arithmetic is spelled out in `Machine`: `uint32_t` and `uint8_t`
wrap-around (`Wrap32`, `Wrap8`), the reinterpretation of a `uint32_t` as an
`int` (`ToInt32`), and C's truncating division (`CDiv`).

Files and modules, one per source file of the firmware:

- `machine.dfy`, `wrappers.dfy`, `colors.dfy`: integer widths, `Option`, and the named colours.
- `neopixel_driver.dfy`: src/neopixel_driver.c.
- `display_manager.dfy`: src/display_manager.c.
- `graphics.dfy`: src/utils/graphics.c.
- `font_table.dfy`: the `font_getChar` shared by src/utils/fonts.c and src/fonts.c.
- `buffer_font.dfy`: `font_drawChar` of src/utils/fonts.c.
- `display_font.dfy`: `font_drawChar` of src/fonts.c.
- `legacy_font.dfy`: src/graphics.c.
- `clock.dfy`: src/apps/clock.c.
- `app_manager.dfy`: src/app_manager.c.
- `ota_manager.dfy`: src/ota_manager.c.
- `hardware.dfy`: lib/hardware/hardware.c.
- `walker.dfy`: the loop of `app_main` in src/main.c.
- `http_manager.dfy`: src/http_manager.c.

The application buffer used by src/utils/fonts.c is reduced to its size and
its `active` flag, and drawing into it is a log of
`display_manager_setBufferPixel` calls.

The three `font_getChar`/`font_drawChar` variants define the same C symbols and
cannot be linked together. They are therefore separate modules. The
`font_getChar` of src/utils/fonts.c and the one of src/fonts.c are identical
apart from the log call (`LOGD` in one, `LOGI` in the other), so both are modelled by `FontTable.GetChar`.

`graphics_drawLine` does not always plot the same cells whichever endpoint
comes first. Where the shorter axis meets a rounding tie, the C loop rounds
half down from the start point, so reversing the line moves that cell. A
diagonal, such as (0, 0) to (5, 5), is the same either way.
`Graphics.EndpointOrderMatters` and `Graphics.DiagonalReverses` state both
facts.

## Model

| member | source | states |
|---|---|---|
| `NeopixelDriver.SetPixel` | src/neopixel_driver.c:117-125 | An index below 0 or at least 256 leaves the whole frame unchanged. An in-range index sets that entry to (index, colour). Every other entry is unchanged. |
| `NeopixelDriver.SetRawPixel` | src/neopixel_driver.c:111-115 | The pixel is stored at its own index, which the caller must keep below 256. Every other entry is unchanged. |
| `NeopixelDriver.SetPixelIndexAgrees` | src/neopixel_driver.c:123-124 | An in-range `setPixel` is the same as a raw write of the pixel (index, colour), so the stored index always matches the position. |
| `NeopixelDriver.FillMatrix` | src/neopixel_driver.c:127-133 | Every entry i holds index i and the given colour. |
| `NeopixelDriver.Pack` | src/neopixel_driver.c:78 | Shifting and or-ing three bytes gives a value below 2^24 from which each channel reads back unchanged. |
| `NeopixelDriver.Factor` | src/neopixel_driver.c:66 | The applied factor is min(bright, 200): at most 200, at most bright, and equal to bright when bright is at most 200. |
| `NeopixelDriver.Scale` | src/neopixel_driver.c:74-76 | A scaled channel is at most the input channel and below 200, and it is the truncated quotient of channel times factor by 256. |
| `NeopixelDriver.ApplyBrightness` | src/neopixel_driver.c:63-81 | For every pixel, the index is copied and the top byte of the colour is zero. Each channel becomes channel * min(bright, 200) / 256. Brightness 0 turns every pixel black. |
| `NeopixelDriver.SetBrightness` | src/neopixel_driver.c:84-92 | A value in [0, 1] is stored. Any other real value is ignored, so a stored brightness stays in [0, 1]. |
| `DisplayManager.Serpentine` | src/display_manager.c:41-45 | With block = (31 - col) * 8, an even column gives block + row and an odd column gives block + 7 - row. The index is below 256 and lies in block 31 - col. |
| `DisplayManager.StripIndexOnGrid` | src/display_manager.c:41-45 | On the 8x32 grid the formula, computed in `uint32_t`, equals the serpentine layout and lies in [0, 256). |
| `DisplayManager.Corners` | src/display_manager.c:38-45 | (0, 0) maps to 248 and (7, 31) maps to 0, as the comment says. |
| `DisplayManager.CellOf` | src/display_manager.c:41-45 | Every strip index 0..255 is driven by a grid cell, which this inverse computes. |
| `DisplayManager.SerpentineInjective` | src/display_manager.c:41-45 | Two grid cells that map to the same strip index are the same cell. |
| `DisplayManager.SerpentineBijection` | src/display_manager.c:41-45 | `CellOf` and the mapping are mutually inverse, so the mapping is a bijection from the grid onto 0..255. |
| `DisplayManager.PastRightEdgeIsNegative` | src/display_manager.c:41-45 | On a grid row, a column in [32, 2^28) wraps to an index that is negative as an `int`, so the driver drops the write. |
| `DisplayManager.HugeColumnWrapsOntoGrid` | src/display_manager.c:32-44 | Columns are not range-checked and the `uint32_t` product wraps: row 0, column 0x2000_001F drives the same strip pixel as row 0, column 31. |
| `DisplayManager.RowEightAliases` | src/display_manager.c:41-45 | Rows are not range-checked: row 8 of column 1 lands on the strip pixel of row 7, column 2. |
| `DisplayManager.SetPixel` | src/display_manager.c:32-55 | A call on the grid changes exactly the mapped strip entry, to (index, colour). A call on a grid row whose column lies in [32, 2^28) wraps to a negative index and changes nothing. |
| `DisplayManager.RenderLeavesOthers` | src/display_manager.c:53 | A strip pixel that no call of a log maps to keeps its value. |
| `DisplayManager.RenderLastWriteWins` | src/display_manager.c:53 | A grid cell shows the colour of the last call in the log that reaches its strip pixel. |
| `DisplayManager.SetBrightness` | src/display_manager.c:23-30 | A value outside [0, 1] is ignored. A value inside is passed to the driver's setter. |
| `Graphics.DrawRectangle` | src/utils/graphics.c:23-33 | Exactly width * height calls, all in the colour. Every cell (y + r, x + c) with r < height and c < width is covered. The calls are in row-major order, so each cell is written once. x is the column and y is the row. |
| `Graphics.RowMajorDistinct` | src/utils/graphics.c:25-31 | No two calls of a row-major log coincide. |
| `Graphics.DrawChar` | src/utils/graphics.c:17-21 | Every call is in the colour, on one of the glyph's five rows, and shows a set bit of that row. Every set bit k of row r is painted at (y + r, x + 2 - k). There is one call per set bit and no call repeats, exactly as for the display-based `font_drawChar` it delegates to. |
| `Graphics.StepFacts` | src/utils/graphics.c:50-60 | While the end point is not reached, the doubled error term steps x only while x is short of x2 and y only while y is short of y2. It steps at least one axis, and the error term keeps its meaning. |
| `Graphics.ReachedNext` | src/utils/graphics.c:50-60 | One or two unit steps toward the end point reach a distinct cell at most one away on each axis and no farther from the end point. |
| `Graphics.LineStep` | src/utils/graphics.c:46-60 | One iteration away from the end point plots the current cell and keeps the loop invariant, with strictly fewer steps left. |
| `Graphics.LineEnd` | src/utils/graphics.c:46-48 | Plotting the end point completes a log that starts at (x1, y1), ends at (x2, y2) and contains the end only once. It stays in the endpoints' box and moves by adjacent steps that never move away from the end. |
| `Graphics.DrawLine` | src/utils/graphics.c:35-62 | The loop terminates for all byte endpoints. The first call plots (x1, y1), the last plots (x2, y2), and no earlier call plots the end. Consecutive cells are distinct and adjacent, and never farther from the end. Every cell lies in the box. There are exactly max(dx, dy) + 1 calls. Call k is `LineCell` k: k steps along the longer axis, and k * min(dx, dy) / max(dx, dy) steps along the shorter one, rounded to nearest with halves rounded down. |
| `Graphics.Rounding` | src/utils/graphics.c:50-60 | On the shorter axis, a step count is the rounded one exactly when its scaled deviation from the ideal line lies in [-max/2, max/2). This is the range the C error term keeps. |
| `Graphics.MinorStep` | src/utils/graphics.c:50-60 | From a rounded position, the test on the doubled error term steps the shorter axis exactly when the next rounded position is one further, and never stops the longer axis from stepping. |
| `Graphics.LineCounters` | src/utils/graphics.c:50-60 | Before the end, one iteration moves both step counters from the closed form at k to the closed form at k + 1. |
| `Graphics.LineEnds` | src/utils/graphics.c:48 | After max(dx, dy) iterations, both counters are at their ends, so the loop stops exactly there. |
| `Graphics.OnLineStep` | src/utils/graphics.c:46-60 | One iteration away from the end plots the closed-form cell for its index and keeps the counters on the closed form. |
| `Graphics.OnLineEnd` | src/utils/graphics.c:46-48 | Plotting the end point completes a log of max(dx, dy) + 1 calls, each the closed-form cell for its index. |
| `Graphics.EndpointOrderMatters` | src/utils/graphics.c:35-62 | The plotted cells depend on which endpoint comes first. From (x, y) = (0, 0) to (1, 2) the line passes (0, 1). From (1, 2) to (0, 0) it does not. |
| `Graphics.DiagonalReverses` | src/utils/graphics.c:35-62 | On a diagonal (dx = dy), swapping the endpoints plots the same cells in reverse order. |
| `FontTable.GlyphStart` | src/utils/fonts.c:33-37 | Only '1'..'8' select offset (c - '0') * 5. Every other character, '0' and '9' included, selects 0. The glyph fits in a 45-byte table. |
| `FontTable.GetChar` | src/fonts.c:23-48 | Width 3 and height 5 for every size. The bitmap is the 5 consecutive table bytes at the selected offset. |
| `FontTable.SizeIgnored` | src/utils/fonts.c:23-31 | The size argument never changes the result. |
| `FontTable.NineDrawsAsZero` | src/utils/fonts.c:34-41 | '9' yields the glyph of '0', the first five table bytes. |
| `FontTable.DistinctDigitsDistinctRows` | src/fonts.c:36-44 | Distinct characters in '1'..'8' read disjoint table rows. |
| `BufferFont.DrawChar` | src/utils/fonts.c:47-80 | No write for a NULL or inactive buffer, or when x + 3 or y + 5 exceeds its size. Otherwise exactly 15 writes cover the footprint row by row, each cell once and all inside the buffer. Cell (x + col, y + row) gets the colour if bit 2 - col of the row byte is set, and 0 if not. |
| `BufferFont.SameLitCells` | src/utils/fonts.c:73-77 | For a non-zero colour, this routine colours exactly the cells of a row that the display-based routine paints. |
| `DisplayFont.DrawRow` | src/fonts.c:58-64 | One call per set low bit of the row byte, with strictly decreasing columns. Bit k lands at column x + 2 - k, and every set bit is covered. |
| `DisplayFont.DrawnExtend` | src/fonts.c:56-65 | Appending the calls of the next glyph row keeps the count, the placement, the coverage and the (row, falling column) order. |
| `DisplayFont.DrawChar` | src/fonts.c:50-66 | The number of calls equals the number of set low-3 bits over the five rows. Each call is in the colour on row y + r and shows a set bit of row r. Every set bit k of row r is painted at (y + r, x + 2 - k). No call repeats. Coordinates are not bounds-checked. |
| `LegacyFont.GetChar` | src/graphics.c:6-24 | For size 5x3 and a digit: one byte, the table byte at the digit's ordinal, with width 3 and height 5. For size 5x3 and a non-digit: nothing is written. For any other size: width and height become 0 and the bitmap is untouched. |
| `LegacyFont.ReadsDigitOrdinal` | src/graphics.c:13-14 | The byte read is not scaled by the glyph height, so only '0' gets the first row of its own glyph. |
| `Clock.AddSeconds` | src/apps/clock.c:145-160 | Afterwards second < 60, minute < 60 and hour < 24. Month and year never change. |
| `Clock.AddSecondsFields` | src/apps/clock.c:145-160 | Each field is the carried value reduced: the seconds modulo 60, the carried minutes modulo 60, the carried hours modulo 24, and the carried days modulo 256 for the `uint8_t` day. |
| `Clock.CarryChain` | src/apps/clock.c:147-159 | Carrying seconds into minutes, minutes into hours and hours into days loses no time. |
| `Clock.AddSecondsElapsed` | src/apps/clock.c:145-160 | day * 86400 + hour * 3600 + minute * 60 + second grows by exactly `seconds`, less whole 256-day cycles lost to the byte-wide day. Nothing is lost while the total stays within those 256 days. |
| `Clock.Tick` | src/apps/clock.c:32-36 | One alarm on a normalised time below hh:mm:59 only increments the second, and the result is normalised. |
| `Clock.TickAdvancesOneSecond` | src/apps/clock.c:32-36 | Within the 256-day range, the timer callback advances the elapsed time by exactly one second. |
| `Clock.DigitChar` | src/apps/clock.c:125-143 | A value below 10 becomes the character '0' + value. |
| `Clock.Digits24` | src/apps/clock.c:125-143 | For a normalised time, the four 24-hour getters give decimal digits that spell the hour and the minute. |
| `Clock.Hour12` | src/apps/clock.c:99-123 | The 12-hour dial value of an hour is in 1..12 and congruent to it modulo 12. |
| `Clock.Digits12` | src/apps/clock.c:99-123 | For any hour below 24, the two 12-hour getters give decimal digits (tens '0' or '1') that spell the dial value: 12 at midnight and hour - 12 in the afternoon. |
| `Clock.GetCurrentTime` | src/apps/clock.c:78-86 | It returns false and writes nothing when the pointer is NULL or the year is 0. Otherwise it copies the whole time and returns true. |
| `Clock.GetCurrentTime12` | src/apps/clock.c:88-97 | Same guard and copy as `get_current_time`. |
| `Clock.TwelveHourCopyIsSame` | src/apps/clock.c:78-97 | The two getters behave identically on every input. |
| `Clock.AfterFetch` | src/apps/clock.c:199-211 | At most three fetch attempts are made. The clock holds the result of the first attempt that succeeded, since the loop stops there, or its initial value if none of the first three succeeded. |
| `Clock.StartupTime` | src/apps/clock.c:212-221 | A clock still at year 0 after fetching is set to 2023-01-01 12:30:15. Otherwise the fetched time is kept, so the year ends up non-zero. |
| `Clock.StartedClockIsReadable` | src/apps/clock.c:78-86 | After start-up the getter succeeds for any non-NULL destination. |
| `AppManager.Init` | src/app_manager.c:22-31 | `initialized` becomes true and the registered apps are untouched. The registry invariant is kept. |
| `AppManager.InitIdempotent` | src/app_manager.c:22-31 | A second init changes nothing. |
| `AppManager.Register` | src/app_manager.c:33-56 | INVALID_STATE, with the registry unchanged, when the manager is uninitialised, the app is NULL, the name is empty or the name is a duplicate. NO_MEM, with the registry unchanged, when 16 apps are registered. OK exactly otherwise, and then the app is appended at the end. Distinct non-empty names and at most 16 apps are preserved. |
| `AppManager.Find` | src/app_manager.c:44-50 | The scan finds an app with the name, or reports that none has it. |
| `AppManager.FindOwnName` | src/app_manager.c:64-68 | With distinct names, looking up an app's own name finds that app. |
| `AppManager.GetApp` | src/app_manager.c:58-72 | The result is an app with the given name. It is NULL exactly when the name is NULL, the manager is uninitialised, or no app has the name. |
| `AppManager.Launch` | src/app_manager.c:81-112 | A RUNNING app is left alone with OK. Otherwise: a failing init function gives ERROR and FAIL, a failed task creation gives ERROR and NO_MEM, and success gives RUNNING with `active` set and OK. The result is always RUNNING or ERROR. |
| `AppManager.StartApp` | src/app_manager.c:74-113 | An unknown name gives NOT_FOUND and no change. Otherwise only the named app changes, as `Launch` describes, and the registry invariant is kept. |
| `AppManager.StopApp` | src/app_manager.c:115-125 | A NULL name gives INVALID_ARG, any other name gives OK, and nothing changes. |
| `AppManager.StartPending` | src/app_manager.c:127-140 | Every active app that is not running is launched with its own init and task outcomes. Every other app is unchanged, and the registry invariant is kept. |
| `OtaManager.ProgressIsPercentage` | src/ota_manager.c:135 | Without overflow, the published progress is rx * 100 / content_len. It is at most 100 while rx is at most content_len, and exactly 100 when they are equal. |
| `OtaManager.PostHandler` | src/ota_manager.c:101-196 | A non-positive length or a missing partition fails with status STARTING. A failing `esp_ota_begin` fails with IN_PROGRESS. A write error at chunk k stops there with the progress of k + 1 chunks: validation and size errors give FAILED, any other error leaves IN_PROGRESS. Otherwise the handler succeeds (status SUCCESS) exactly when the receive ended cleanly and `esp_ota_end` and the boot switch succeed. If not, the status is FAILED. A complete upload, with every chunk written and the chunks adding up to the announced length, ends with status SUCCESS and progress 100. |
| `OtaManager.CompleteUploadSucceeds` | src/ota_manager.c:133-164 | In a complete upload no write fails, there is at least one chunk, and the progress after the last chunk is 100. |
| `OtaManager.Column` | src/ota_manager.c:35-46 | The bar's calls are rows 1, 2, ... of column 31, in order, in one colour. |
| `OtaManager.LedsToLight` | src/ota_manager.c:52 | k = progress * 7 / 100 is at most 7 when progress is at most 100. It is exactly 7 at 100 and 0 below 15. |
| `OtaManager.LedsMonotone` | src/ota_manager.c:52 | More progress never lights fewer pixels. |
| `OtaManager.DrawProgressBar` | src/ota_manager.c:73-99 | IDLE and STARTING reset the progress to 0 and paint rows 1..7 of column 31 black. SUCCESS paints them green and FAILED red. IN_PROGRESS paints rows 1..k yellow and nothing else. |
| `OtaManager.BarOnGrid` | src/ota_manager.c:26-28 | A bar of at most seven pixels lies inside the 8x32 grid. |
| `OtaManager.OverfullBarIsDropped` | src/ota_manager.c:52-58 | A progress above 100 asks for up to 17 pixels. Every row past the grid in column 31 maps to a negative strip index, so those calls change nothing. |
| `OtaManager.BarShows` | src/ota_manager.c:41-44 | Rendering a bar colours each of its rows in column 31 with the bar's colour. |
| `Hardware.Sum` | lib/hardware/hardware.c:57-61 | The sum of n readings lies in [-n, 4095 * n]. |
| `Hardware.Average` | lib/hardware/hardware.c:62 | The truncated average of ten readings lies in [-1, 4095]. |
| `Hardware.Clamp` | lib/hardware/hardware.c:63-67 | The value is clamped into [0, 4095], and values already in range are unchanged. |
| `Hardware.Percent` | lib/hardware/hardware.c:68 | clamped * 100 / 4095 lies in [0, 100] and is the truncated quotient. |
| `Hardware.PercentMonotone` | lib/hardware/hardware.c:68 | The percentage never decreases as the clamped value grows. |
| `Hardware.PercentEnds` | lib/hardware/hardware.c:68 | 4095 gives 100, and any value up to 40 gives 0. |
| `Hardware.Sample` | lib/hardware/hardware.c:56-68 | The first reading is discarded. The stored value is the percentage of the clamped truncated average of the next ten, and it is at most 100. |
| `Hardware.SteadyReadsAverageExactly` | lib/hardware/hardware.c:57-62 | Ten equal in-range readings average to exactly that reading. |
| `Hardware.GetPotentiometerValue` | lib/hardware/hardware.c:39-42 | The getter returns the stored percentage, which is 0 before the first sample. |
| `Hardware.PublishedValueIsPercentage` | lib/hardware/hardware.c:39-42 | After a sample the getter returns at most 100, and exactly 100 at full scale. |
| `Walker.Advance` | src/main.c:52-68 | The head moves one column in its direction. At the right edge it parks at column 32, turns left and moves down a row. At the left edge it stays at column 0, turns right and moves down a row. Past the last row it restarts at (0, 0) heading right. Row in [0, 8) and column in [0, 32] are invariant. |
| `Walker.Paint` | src/main.c:48-49 | Each iteration paints the head red, then the previous head black. |
| `Walker.Step` | src/main.c:48-68 | The previous head becomes the head from before the step, the head advances, and the invariant is kept. |
| `Walker.ParkedHeadIsInvisible` | src/main.c:52-57 | The red pixel painted while the head is parked at column 32 is dropped by the display. |
| `Walker.SweepOut` | src/main.c:52-57 | From the left end of a row, 32 iterations bring the head to column 32 of the next row, heading left. |
| `Walker.SweepBack` | src/main.c:58-68 | From column 32, 33 iterations bring the head to the left end of the next row, heading right, or back to (0, 0) after the last row. |
| `Walker.WalkPeriod` | src/main.c:45-68 | The walk is periodic: after 260 iterations the head is back at (0, 0), heading right. |
| `HttpManager.Fresh` | src/http_manager.c:92-93 | Each request starts with a zeroed buffer and length 0. |
| `HttpManager.Handle` | src/http_manager.c:54-83 | ON_DATA appends the chunk right after the stored bytes exactly when length + chunk < 2048, and otherwise drops it entirely. ON_FINISH writes a NUL at `length`, always in bounds. Other events change nothing. length < 2048 is kept. |
| `HttpManager.ReplayAccumulates` | src/http_manager.c:65-71 | After a transfer the stored bytes are the earlier bytes followed by every chunk that fitted, in arrival order. |
| `HttpManager.DoGetRequest` | src/http_manager.c:85-135 | Without an IP address it fails and leaves the buffer untouched. Otherwise the buffer is reset first. It succeeds exactly when the client was created, the transfer succeeded and both output pointers are non-NULL, and then it hands back exactly the accepted bytes. |
| `HttpManager.CString` | src/http_manager.c:246-247 | A character array reads as the characters before its first NUL. |
| `HttpManager.CopyUrl` | src/http_manager.c:246-247 | The URL field is full length and always ends in NUL. |
| `HttpManager.CopyUrlReadsBack` | src/http_manager.c:246-247 | The queued URL reads back as the caller's URL, cut to the field size minus one. |
| `HttpManager.HttpGet` | src/http_manager.c:227-266 | A NULL URL, response or length pointer is rejected before anything is queued. The call succeeds exactly when allocation, queueing and the wait succeed and the HTTP task reports success. The queued URL field reads back, as a C string, as the caller's URL cut to the field size minus one. |

## Left out

- Wi-Fi, IP events, the ESP HTTP client, the request queue and its semaphores, and the HTTP server of the OTA path are ESP-IDF I/O. Their results are boolean or event-sequence inputs (`HttpManager.DoGetRequest`, `HttpManager.HttpGet`, `OtaManager.PostHandler`).
- The OTA payload bytes, the flash partition calls and the restart are not modelled. `OtaManager.PostHandler`'s `ok` marks the success path. That path ends in `esp_restart()` inside the handler, so its trailing `return ESP_OK` is never reached. Every other path returns ESP_FAIL.
- `ota_task` and `start_ota_server` are scheduling and server start-up. Their poll delays (100 ms while updating, 2500 ms otherwise) are not modelled.
- Telnet logging, NVS storage and the genealogy helpers are I/O wrappers.
- Floating point: the brightness is a `real` guarded to [0, 1]. The float-to-byte conversion before scaling is left out, so `NeopixelDriver.ApplyBrightness` takes the byte factor. At brightness 1.0 that conversion is undefined in C. The exponential smoothing of the potentiometer and the potentiometer logging are left out too.
- Concurrency: FreeRTOS tasks, the timer interrupt writing the clock while getters read it, and the unlocked shared pixel buffer. Every operation is treated as atomic and sequential.
- The `sscanf` parsing of the fetched time (`fetch_time`) is left out. A fetch attempt is an input that either fails without touching the clock or yields a whole time.
- The queue-based pixel path (`neopixel_driver_addToQueue`, `neopixel_task`), the NeoPixel library calls, `blinky_task`, the host-side ota.py script, and `display_manager_clearScreen`, whose callee `neopixel_driver_clearMatrix` is not modelled.
- The glyph table `font_5x3_chars` is not part of this model. It is an arbitrary byte sequence of at least 45 bytes, or 10 bytes for src/graphics.c.
- `displayManager_buffer_t` and `display_manager_setBufferPixel` are not part of this model. A buffer is its width, height and `active` flag, and drawing into it is a log of setter calls.
- The colour constants RED, GREEN, YELLOW and BLACK come from a header that is not modelled, so they are a `Colors.Palette` parameter.
- App names are unbounded strings compared for equality. The 32-byte name array is not modelled. The function pointers, stack size and task handle are not modelled either: only the outcome of the init function and of task creation are inputs.
- The `url` field size of the HTTP request item is not part of this model. It is the parameter `cap`.
- `Clock.AddSecondsElapsed`: the exact time equation is proved only when seconds, minute, hour and the added amount are all below 2^31. Then no `uint32_t` sum wraps. Larger field values wrap, and the function `Clock.AddSeconds` models that wrap faithfully.
- `OtaManager.ProgressIsPercentage`: stated only while rx * 100 fits in an `int`. Beyond that the C multiplication overflows, which is undefined behaviour. `OtaManager.Progress` then takes the two's-complement result.
- `Walker.Advance`: the head is an unbounded `int`. The C `int` cannot overflow, because the row and column stay within [0, 8] and [-1, 32].
- `NeopixelDriver.SetRawPixel`: requires the pixel's index to be below 256. The C function does not check the index, and a larger index writes outside the buffer, which is undefined behaviour.
- `AppManager.Launch`: the transient STARTING state set before the init function runs is not observable in a sequential model, so only the final RUNNING or ERROR state is stated.
- `NeopixelDriver.SetBrightness`: a Dafny `real` has no NaN. A NaN brightness fails both comparisons of the C guard and is stored, which the model cannot express.
- `DisplayManager.SetPixel`: the no-op is stated only for columns in [32, 2^28). Because the `uint32_t` product wraps, a larger column can land back on the strip: column 0x2000_001F maps to the same index as column 31.
- `AppManager.Register`: the C registry stores the caller's pointer, `get_app` returns that pointer, and start-up writes `state` and `active` through it. The model keeps a copy of each app in a sequence. Later changes the caller makes to its own record, such as renaming it, are therefore not seen by the model, and the distinct-names invariant covers only the copies.
