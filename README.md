# EPaperPictureFrame core in Dafny

A model of the core of the EPaperPictureFrame firmware, with proofs. The
firmware wakes up, picks the next image file on an SD card and streams it to
a 5.65-inch seven-colour e-paper panel. The model has three parts.

- **The directory rotator** (`SdEnumerator`). A 256-byte cursor buffer holds
  the name of the last image shown. On every call, `getNextImage` scans the
  whole root directory once. During the scan it keeps two running minima
  under `strcmp`: the least suitable name, and the least suitable name after
  the cursor. It then moves the cursor to the second, or wraps to the first,
  or clears it when nothing is suitable. `getCurrentImage` reopens the
  cursor's file and falls back to `getNextImage`. `getSystemImage` opens a
  fixed file by name.
- **The panel driver** (`EPaperDisplay`). Each method is modelled as what it
  appends to a trace of pin and bus events. `Cmd(b)` is a byte sent with DC
  low and `Data(b)` a byte sent with DC high. Delays, reset-line edges, busy
  waits, and the SPI transaction and chip-select edges are events too. A list
  of `Op`s (a command with its data bytes, or a single signal) is the
  panel-side reading of a trace. `Send` turns ops into events and `Parse`
  reads a trace back, and the two are proved inverse. The register tables of
  `init`, `endImage` and `sleep` are stated as op lists, and each method is
  proved to emit exactly its list.
- **The viewer** (`SdImageViewer`) and `Util.h`. A display cycle always runs
  init, clear to `Clean`, then either the open file streamed in 4200-byte
  chunks or a clear to the fallback colour, then sleep. Each show operation
  picks its file and its fallback colour as the firmware does.

File by file:

| file | models |
|---|---|
| `base.dfy` | bytes, `Option`, `Min` |
| `cstrings.dfy` | C strings in fixed buffers, `strlcpy`, `strcmp` and the order it induces |
| `util.dfy` | `Util.h`: the `_ms`/`_s`/`_m`/`_h` literals (64-bit, wrapping) and `array_size` |
| `storage.dfy` | directory entries, file handles, open-by-name, `read` |
| `rotation.dfy` | the rotation order, the two running minima of the scan, and what repeated calls visit |
| `enumerator.dfy` | `SdEnumerator.cpp`/`.h`: the cursor buffer and the three getters |
| `display.dfy` | `EPaperDisplay.h`/`.cpp`: colours, pixel packing, the trace, the command tables, the driver class |
| `viewer.dfy` | `SdImageViewer.cpp`: the display cycle and the show operations |

Three behaviours of the code worth knowing:

- `clear` sends `width / 2 * height` bytes, computed in that order. For an
  even width that is `width * height / 2`, one pixel per position, and
  `Display.ClearFillsPanel` proves it. For an odd width, clear sends
  `height / 2` fewer bytes than `width * height / 2`.
- `init` waits for busy-high once, after the reset pulse. There is no second
  wait before the first data byte.
- The cursor is not always a name that was once suitable. The constructor
  seeds it with any previous name, truncated to 255 bytes. `getCurrentImage`
  keeps the cursor on any entry that opens by that name, even one that is no
  longer suitable.

## Model

| member | source | states |
|---|---|---|
| `CStrings.CString` | SdEnumerator.h:39 | the C string in a buffer is the bytes before its first NUL; once the buffer holds a NUL the string is shorter than the buffer and that NUL ends it |
| `CStrings.CStringOfTerminated` | SdEnumerator.cpp:60 | a buffer whose byte n is the first NUL holds exactly its first n bytes as a C string, so writing NUL at index 0 empties the cursor |
| `CStrings.Truncate` | SdEnumerator.cpp:9 | what `strlcpy(dst, src, size)` keeps: all of `src` when it fits, and otherwise exactly its first `size - 1` bytes |
| `CStrings.StrlCpy` | SdEnumerator.cpp:9 | after `strlcpy` the buffer holds a terminator, and its C string is the truncated source |
| `CStrings.CompareSwap` | SdEnumerator.cpp:44 | swapping the arguments of `strcmp` flips its sign, so `strcmp(candidate, current) > 0` says the cursor sorts below the candidate |
| `CStrings.CompareZero` | SdEnumerator.cpp:39-44 | on C strings `strcmp` is 0 exactly when the names are equal |
| `CStrings.LessIrreflexive` | SdEnumerator.cpp:39-44 | no name sorts strictly below itself, so equal names never replace a running minimum |
| `CStrings.LessAsymmetric` | SdEnumerator.cpp:39-44 | `strcmp`'s order is asymmetric |
| `CStrings.LessTotal` | SdEnumerator.cpp:39-44 | any two distinct names are ordered one way or the other |
| `CStrings.LessTransitive` | SdEnumerator.cpp:39-44 | `strcmp`'s order is transitive, which is what makes a running minimum the minimum |
| `CStrings.EmptyIsLeast` | SdEnumerator.cpp:60 | the cleared (empty) cursor sorts below every entry name |
| `Util.Seconds` | Util.h:8-10 | `n_s` is n * 1000 modulo 2^64, and equals n times `1000_ms` whenever that does not wrap |
| `Util.Minutes` | Util.h:12-14 | `n_m` is n * 60000 modulo 2^64, and equals `(60 n)_s` whenever 60 n does not wrap |
| `Util.Hours` | Util.h:16-18 | `n_h` is n * 3600000 modulo 2^64, and equals `(60 n)_m` whenever 60 n does not wrap |
| `Util.UnitsCompose` | Util.h:4-18 | for every count, overflow included, `n_s` is `(n * 1000)_ms` wrapped to 64 bits, `n_m` is `(n * 60)_s` and `n_h` is `(n * 60)_m` with the count wrapped to 64 bits |
| `Storage.FirstWhere` | SdEnumerator.cpp:70 | the first position in directory order whose entry satisfies a test; none exactly when no entry does |
| `Storage.OpenByName` | SdEnumerator.cpp:70 | opening by name fails exactly when no entry carries the name; otherwise the file is the entry at its directory index and carries that name |
| `Storage.Read` | SdImageViewer.cpp:27 | a read copies min(count, bytes left) bytes from the read position into the buffer, and returns 0 only at the end of the file |
| `Rotation.NextName` | SdEnumerator.cpp:52-58 | the name the cursor moves to: none exactly when nothing is suitable, otherwise one of the suitable names |
| `Rotation.NextImageIsSuitable` | SdEnumerator.cpp:86-88 | the file `getNextImage` returns is open exactly when some entry is suitable; it is then open, not a directory, not hidden, of the expected size, at its directory index, and carries the chosen name |
| `Rotation.LeastStep` | SdEnumerator.cpp:39-47 | one step of the scan keeps each running minimum: an eligible name strictly below the best replaces it, while an equal or larger one, including a later duplicate, does not |
| `Rotation.ScanFindsSuccessor` | SdEnumerator.cpp:44-47 | when the minimum above the cursor ends at k, `getNextImage` returns the entry at k: the least suitable name after the cursor, at its first position |
| `Rotation.ScanWrapsAround` | SdEnumerator.cpp:52-58 | when no suitable name is after the cursor, `getNextImage` wraps around to the first position of the least suitable name |
| `Rotation.ScanFindsNothing` | SdEnumerator.cpp:59-61 | when no entry is suitable, the suitable set is empty and `getNextImage` returns a file that is not open |
| `Rotation.SelectionIgnoresDirectoryOrder` | SdEnumerator.cpp:30-50 | two listings of the same entries in any order have the same suitable names and select the same next name |
| `Rotation.DeletedCursorStillAdvances` | SdEnumerator.cpp:44-58 | deleting the cursor's own file does not change which name comes next, as long as some suitable file is left |
| `Rotation.Sorted` | SdEnumerator.h:5-6 | the suitable names in strictly ascending `strcmp` order, each exactly once; the firmware never stores this order, and the scan finds it again on every call |
| `Rotation.NextNameInSorted` | SdEnumerator.cpp:39-58 | the next name is the first name in ascending order after the cursor, or the first name of all when there is none |
| `Rotation.NextImageIsFirstVisit` | SdEnumerator.cpp:52-61 | one `getNextImage` call is the first step of `Visits`: the file it opens carries the first visited name, which is the cursor it leaves, and it opens nothing exactly when there is nothing to visit |
| `Rotation.RotationVisitsEachOnce` | SdEnumerator.cpp:39-60 | from any cursor, even one naming a deleted file, n calls on n suitable names return every name exactly once: the ascending list rotated to start after the cursor |
| `Rotation.FreshStartVisitsAscending` | SdEnumerator.h:17-19 | from an empty cursor, n calls return the n names in strictly ascending order, the least first |
| `Rotation.RotationRepeats` | SdEnumerator.h:17 | after n calls the cycle repeats: the next calls return the same names in the same order |
| `Enumerator.SdEnumerator.Cursor` | SdEnumerator.h:33-39 | the cursor name always fits the 256-byte buffer with its terminator |
| `Enumerator.SdEnumerator.constructor` | SdEnumerator.cpp:4-10 | the cursor starts as the previous name truncated by `strlcpy` to 255 bytes |
| `Enumerator.SdEnumerator.GetNextImage` | SdEnumerator.cpp:20-65 | the single pass returns exactly `NextImage` for the old cursor, and leaves the cursor on the returned file's name, or empty when nothing is open |
| `Enumerator.SdEnumerator.GetCurrentImage` | SdEnumerator.cpp:67-76 | when the cursor's name opens, that file is returned without a suitability check and the cursor is unchanged; otherwise the result and the new cursor are those of `getNextImage` |
| `Enumerator.SdEnumerator.GetSystemImage` | SdEnumerator.cpp:78-84 | opens by exact name in the system directory: not open exactly when no entry has that name, with no size filter and no access to the cursor |
| `Display.Color.Code` | EPaperDisplay.h:5-14 | every colour's enum value is below 8, so it fits in a nibble |
| `Display.ColorOf` | EPaperDisplay.h:5-14 | each code 0 to 7 names the colour with that code |
| `Display.ColorOfCode` | EPaperDisplay.h:5-14 | codes identify colours: the colour of a colour's code is that colour |
| `Display.Pack` | EPaperDisplay.cpp:123-125 | a pixel pair's high nibble is the first colour and its low nibble the second |
| `Display.Unpack` | EPaperDisplay.h:39-40 | the two pixels a pixel-pair byte stands for, high nibble first |
| `Display.UnpackPack` | EPaperDisplay.h:36-37 | packing loses nothing: both pixels come back out of the byte, in order |
| `Display.PackUnpack` | EPaperDisplay.h:39-40 | every byte whose nibbles are colour codes is the packing of its two pixels |
| `Display.DataOfChunks` | SdImageViewer.cpp:26-29 | data sent in consecutive chunks is the data of the whole prefix |
| `Display.SendAppends` | EPaperDisplay.cpp:167-175 | sending only appends, and what a list of ops adds does not depend on the trace before it |
| `Display.SendConcat` | EPaperDisplay.cpp:167-175 | sending two op lists one after the other is sending their concatenation |
| `Display.CommandOnBus` | EPaperDisplay.cpp:167-175 | a command puts its byte with DC low, then each of its parameters with DC high |
| `Display.ParseSend` | EPaperDisplay.cpp:167-175 | every well-formed op list reads back from the trace it produces |
| `Display.SendParse` | EPaperDisplay.cpp:167-175 | whatever a trace reads back as is well formed and reproduces that trace exactly |
| `Display.ResolutionBytes` | EPaperDisplay.cpp:185-191 | the resolution parameters are 600 and 448 as big-endian 16-bit words |
| `Display.SessionOnBus` | EPaperDisplay.cpp:59-65 | `init` begins with the transaction, CS low, the reset pulse and a busy-high wait |
| `Display.PanelSetupOnBus` | EPaperDisplay.cpp:67-95 | the eight register writes from 0x00 to 0x60, byte for byte |
| `Display.PanelFinishOnBus` | EPaperDisplay.cpp:97-105 | then the resolution, 0xE3 0xAA, a 100 ms delay and 0x50 0x37 again |
| `Display.InitReadsBack` | EPaperDisplay.cpp:59-106 | init's trace reads back as exactly its command table |
| `Display.ImageOnBus` | EPaperDisplay.cpp:118-144 | a frame is the begin-image trace, the image bytes as data, then the end-image trace |
| `Display.ImageReadsBack` | EPaperDisplay.cpp:118-144 | a frame reads back as the resolution, one 0x10 command carrying exactly the image bytes, and the refresh sequence |
| `Display.ClearFillsPanel` | EPaperDisplay.cpp:108-116 | clear's frame carries `width / 2 * height` bytes, which is one pixel per position when the width is even, and each byte unpacks to the colour twice |
| `Display.QuietSend` | EPaperDisplay.cpp:167-175 | ops that carry no bus-session signal put no session event on the bus |
| `Display.ImageIsQuiet` | EPaperDisplay.cpp:118-144 | a frame never takes or releases the bus |
| `Display.InitToSleepHoldsBus` | EPaperDisplay.h:16-17 | with only quiet ops between `init` and `sleep`, the bus is taken and CS lowered first, released and CS raised last, and not touched in between |
| `Display.EPaperDisplay.constructor` | EPaperDisplay.cpp:41-50 | keeps width and height, and starts with nothing on the bus |
| `Display.EPaperDisplay.Init` | EPaperDisplay.cpp:59-106 | appends exactly the init table: session start, reset, wait, register setup, resolution, finish |
| `Display.EPaperDisplay.Clear` | EPaperDisplay.cpp:108-116 | appends one frame of `width / 2 * height` copies of the colour's pixel pair |
| `Display.EPaperDisplay.BeginImage` | EPaperDisplay.cpp:118-121 | appends the resolution and the data-start command 0x10 |
| `Display.EPaperDisplay.SendPixelPair` | EPaperDisplay.cpp:123-125 | appends one data byte, the packed pair |
| `Display.EPaperDisplay.SendImageData` | EPaperDisplay.cpp:127-131 | appends exactly the first `count` buffer bytes as data, in order, and nothing else |
| `Display.EPaperDisplay.EndImage` | EPaperDisplay.cpp:133-144 | appends power on, busy-high, refresh, busy-high, power off, busy-low, then 500 ms |
| `Display.EPaperDisplay.Sleep` | EPaperDisplay.cpp:146-158 | appends 100 ms, deep sleep 0x07 0xA5, 100 ms, reset low, end of transaction, CS high |
| `Display.EPaperDisplay.Reset` | EPaperDisplay.cpp:160-165 | appends reset low, 1 ms, reset high, 200 ms |
| `Display.EPaperDisplay.SendCommand` | EPaperDisplay.cpp:167-170 | appends one byte sent with DC low |
| `Display.EPaperDisplay.SendData` | EPaperDisplay.cpp:172-175 | appends one byte sent with DC high |
| `Display.EPaperDisplay.WaitForBusyHigh` | EPaperDisplay.cpp:177-179 | appends one wait for the busy line to go high |
| `Display.EPaperDisplay.WaitForBusyLow` | EPaperDisplay.cpp:181-183 | appends one wait for the busy line to go low |
| `Display.EPaperDisplay.SendResolution` | EPaperDisplay.cpp:185-191 | appends 0x61 and the fixed 600 by 448 parameters, whatever the constructed size |
| `Viewer.DisplayInParts` | SdImageViewer.cpp:18-38 | a display cycle is init, clear to `Clean`, the image or the fallback clear, and sleep, sent one after the other |
| `Viewer.DisplayHoldsBusOnce` | SdImageViewer.cpp:18-38 | on both branches a display cycle is one bus session: taken by init first, released by sleep last, never released or retaken in between |
| `Viewer.SdImageViewer.constructor` | SdImageViewer.h:8-10 | joins a panel driver and a rotator |
| `Viewer.SdImageViewer.StreamImage` | SdImageViewer.cpp:22-32 | streaming a file through the 4200-byte buffer until a read returns 0 puts on the panel exactly one frame of the whole file, however it is chunked |
| `Viewer.SdImageViewer.DisplayImage` | SdImageViewer.cpp:18-38 | init, clear to `Clean`, then the open file's frame or a clear to the fallback colour, then sleep |
| `Viewer.SdImageViewer.ShowNextImage` | SdImageViewer.cpp:40-49 | when the card starts, shows `getNextImage`'s file with a blue fallback and advances the cursor; otherwise shows orange and leaves the cursor buffer untouched |
| `Viewer.SdImageViewer.ShowCurrentImage` | SdImageViewer.cpp:51-60 | when the card starts, shows `getCurrentImage`'s file with a blue fallback; otherwise shows orange and leaves the cursor buffer untouched |
| `Viewer.SdImageViewer.ShowSystemImage` | SdImageViewer.cpp:62-69 | shows the named system file, and uses the caller's colour both for a card that does not start and for a missing file |
| `Viewer.SdImageViewer.ShowLowBatteryImage` | SdImageViewer.cpp:71-73 | shows `LowBattery.bin` from the system directory with a red fallback |

## Left out

- `Adc.h` is not part of this model. It converts a voltage with floating-point arithmetic.
- `ScopedPin.h` is not part of this model. The LED pin that the show operations hold high is not modelled.
- `SPIClassSercom.h` (SERCOM pin multiplexing), every `setup()` method, and the SPI speed and pin numbers are not modelled.
- The SD library is not part of this model. The root and `system` directories are given to each call as sequences of entries. A missing `system` directory is an empty sequence. Whether `sd.begin()` succeeds is a boolean parameter.
- Directory entries are never opened one by one with `openNext`, closed, or named via `getName`. A file handle is its directory index and entry. A read error (a negative return from `read`) is not modelled.
- The cursor is opened as the bare name of a root entry. Path separators in a seeded cursor are not interpreted as a path by the open call.
- Entry names are non-empty byte strings of at most 255 bytes, compared exactly. FAT long-name encoding and case-insensitive lookup are not modelled, so opening the empty cursor name opens nothing.
- `UINT_MAX` as the "none yet" index is modelled as `None`. The local name buffers of `getNextImage` are modelled as sequences, since `strlcpy` keeps whole entry names there.
- The 4200-byte read buffer is a fresh array on each cycle. It is not stack memory.
- `Display.EPaperDisplay.WaitForBusyHigh`: the busy-wait loop is a single event. The hang when the busy line never changes is not modelled.
- `Display.EPaperDisplay.WaitForBusyLow`: the busy-wait loop is a single event. The hang when the busy line never changes is not modelled.
- Delays are `Delay(ms)` events and take no time. No clock is modelled.
- `width / 2 * height` is computed in `int` in the source. It is at most 32767 * 65535, so it never overflows, and the model uses unbounded integers.
- `Viewer.SdImageViewer.StreamImage` is the open-file branch of `displayImage` written as its own method. Its proof then stands apart from the `init` and `clear` trace before it. The file is not closed, because handles are values here.
