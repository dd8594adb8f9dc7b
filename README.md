# Loopback pipe start (motion's `vloopback_motion2.c`), modelled in Dafny

Motion can publish the frames it produces to a V4L2 loopback device, where
other programs can read them as if they came from a camera. Before any
frames are written, the pipe start does three things:

* **Discovery** (`v4l2_open_vidpipe`). It scans `/sys/class/video4linux/`
  in readdir order and considers only the `video...` entries. For each one
  it reads the entry's `name` attribute. It returns `/dev/<entry>`, opened
  read-write, for the first entry whose attribute starts with
  `Loopback video device` and whose device opens. A loopback entry whose
  device fails to open is passed over, and the scan goes on.
* **Negotiation** (`v4l2_startpipe`, `vid_startpipe`). It takes a handle
  from discovery (device name `-`) or opens the named device. Then it runs
  `VIDIOC_QUERYCAP`, `VIDIOC_G_FMT` and `VIDIOC_S_FMT` in that order. The
  `S_FMT` call proposes the caller's geometry: 4:2:0 image size, stride
  equal to the width, progressive frames, sRGB.
* **Capability report** (`show_vcap` over `cap_list`). It splits the
  driver version into three bytes and lists the capability flags that are
  set, in table order. Each flag is a `Capabilities.Flag`, standing for the
  line `show_vcap` prints for it.

Every operating-system call is an input of the model, not I/O:

* A `Discovery.Registry` says whether the directory opens. For each entry
  it gives what the attribute `open` returns, what the `read` yields and
  what the device `open` returns.
* A `StartPipe.Device` says what each ioctl answers.

Operations return the calls they made as a trace of `Sys.Event`s. Open,
read, close and ioctl events carry the descriptor involved. The trace lets
the model state ordering and descriptor accounting.

The two scanning buffers (`char buffer[255]`, `char pipepath[255]`) are
`array<char>`s. `strncpy`, `strncat`, `strcpy`, `read`, `strncmp` and
`atoi` are modelled in `CStrings` with C's NUL-terminated semantics. The
strings copied into a buffer are C string texts, so they hold no NUL.

Modules:

* `CStrings`: C string buffers and the libc calls on them.
* `Formats`: the `v4l2_format` record and the proposed format.
* `Sys`: the call trace.
* `Discovery`: the scan.
* `Capabilities`: the capability report.
* `StartPipe`: the start sequence.

Each imperative operation is a method proved equal to a specification
function (`Discover`, `Report`, `Start`). The lemmas state the guarantees
of those functions.

Three properties of the code the model makes explicit:

* A matched entry's attribute descriptor is never closed. The attribute
  descriptor of every rejected candidate is closed.
* The "close the previous tentative match" branch can never run.
* No format is re-queried after `S_FMT`. The code only prints the record
  that `S_FMT` filled in.

## Model

| member | source | states |
|---|---|---|
| Sys.ReadResult | vloopback_motion2.c:46 | `read` returns at most the requested count of bytes, a prefix of the file, and the whole file when it fits. |
| Discovery.OpenVidpipe | vloopback_motion2.c:21-89 | The scan over the two 255-char buffers returns exactly the descriptor, the path and the trace of opendir, open, read, log, close and closedir calls that `Discover` prescribes. |
| Discovery.Scan | vloopback_motion2.c:38-82 | The readdir loop, followed by closedir, yields exactly `Discover`'s result; it returns at the first entry whose device opens. |
| Discovery.VisitEntry | vloopback_motion2.c:39-79 | An entry whose name does not start with `video` gets no call; any other entry gets exactly its `VisitEvents`, and a descriptor iff it qualifies. `pipepath` is left unchanged unless the entry qualifies. |
| Discovery.ProbeEntry | vloopback_motion2.c:39-79 | For one `video...` entry it makes exactly that entry's calls. The descriptor is non-negative iff the entry qualifies; then it is the device's descriptor and `pipepath` holds `/dev/<name>`; otherwise `pipepath` is unchanged. A failed attribute open still reaches `close(fd)`, which is `close(-1)`. |
| Discovery.AttrPathInto | vloopback_motion2.c:40-42 | After strncpy and two strncat calls the buffer holds the C string `/sys/class/video4linux/<name>/name`. |
| Discovery.CheckAttribute | vloopback_motion2.c:46-60 | The buffer afterwards holds the bytes read (at most 254) at its front, a NUL at index `len`, and its old bytes after that. The strncmp succeeds iff the attribute text starts with the 21-char signature; atoi then parses what follows it. |
| Discovery.NodePathInto | vloopback_motion2.c:62-63 | After strcpy and strncat the buffer holds `/dev/<name>`. |
| Discovery.SignatureInBuffer | vloopback_motion2.c:46-55 | The 254-byte read limit never hides the signature, and a text shorter than 21 chars never matches (the NUL stops strncmp). |
| Discovery.MatchVisit | vloopback_motion2.c:40-75 | A qualifying entry's calls are exactly: attribute open, read, the "found" log line with the parsed minor, device open, and no close. |
| Discovery.ProbeBalance | vloopback_motion2.c:46-67 | Between the attribute open and its close nothing is closed; only a loopback's device open can add a descriptor. |
| Discovery.AttrPathInjective | vloopback_motion2.c:40-42 | Different entry names give different attribute paths. |
| Discovery.NodePathInjective | vloopback_motion2.c:62-63 | Different entry names give different device paths. |
| Discovery.AttrPathIsNotNodePath | vloopback_motion2.c:40-63 | No attribute path is ever a device path, so the two opens of one entry never name the same file. |
| Discovery.FirstQualifying | vloopback_motion2.c:38-76 | The first-match rule of the loop: the index found is that of an entry that qualifies, and no earlier entry qualifies; it is the end of the directory when none does. |
| Discovery.DiscoverFindsFirstLoopback | vloopback_motion2.c:32-88 | The result is a descriptor iff the directory opens and some entry qualifies. It is then the device of the first qualifying entry in readdir order, with `pipepath` its /dev path. Otherwise it is -1. |
| Discovery.DiscoverStopsAtMatch | vloopback_motion2.c:68-75 | On success, appending more entries to the directory changes nothing: the scan stops at its match. |
| Discovery.NonVideoNeverOpened | vloopback_motion2.c:38-39 | No path derived from a name that does not start with `video` is ever opened, neither its attribute nor its device node. |
| Discovery.VisitBalance | vloopback_motion2.c:45-78 | A skipped entry leaves no descriptor open: its attribute descriptor is closed on every rejection path. The matched entry leaves two open. |
| Discovery.DiscoverBalance | vloopback_motion2.c:32-82 | Over a whole scan, opens equal closes, plus 2 on success: the returned descriptor and the matched entry's attribute descriptor, whose close is skipped by `break`. |
| Discovery.NoLoopbackNoHandle | vloopback_motion2.c:38-88 | With no qualifying entry the result is -1 and every descriptor opened is closed. |
| Discovery.DiscoverSuccessTail | vloopback_motion2.c:68-82 | On success the trace ends with the match's attribute open (a real descriptor), its read, the log line, the device open and closedir, with no close among them. So the close of a previous tentative handle (lines 71-72) never runs, and the attribute descriptor is leaked. |
| Discovery.LoopbackAttributeMinor | vloopback_motion2.c:55-60 | An attribute `Loopback video device <n>\n` passes the signature check and yields minor number n. |
| Discovery.DiscoverNoIoctl | vloopback_motion2.c:21-89 | Discovery issues no ioctl. |
| Discovery.AttrPathOverrunAsWritten | vloopback_motion2.c:41-42 | With the bound `sizeof - strlen`, the path's NUL is stored at index 255 or beyond exactly when the entry name is longer than 226 chars. |
| Discovery.AttrPathOverrunExample | vloopback_motion2.c:41-42 | A 227-char name puts the NUL at index 255, one past the 255-char buffer. |
| Discovery.AttrPathNulInBounds | vloopback_motion2.c:41-42 | With the bound `sizeof - strlen - 1`, the NUL always lies inside the buffer. For names of at most 226 chars it lands where the code as written puts it. |
| CStrings.StrLen | vloopback_motion2.c:41-42 | `strlen` (also at line 63) is the index of the first NUL, or the buffer's length when there is none: no character before it is a NUL. |
| CStrings.StrNEq | vloopback_motion2.c:55 | `strncmp(a, b, n) == 0` (also at line 39) holds iff a and b agree at every position below n, up to and including the NUL that ends the string in a. |
| CStrings.Atoi | vloopback_motion2.c:60 | After leading white space, text that starts with neither a sign nor a digit gives 0, and a negative result only comes from a leading `-`. |
| CStrings.StrNCpy | vloopback_motion2.c:40 | The buffer becomes the source's first n chars, padded with NULs to n, with the rest of the buffer unchanged. For a short NUL-free source the C string read back is the source. |
| CStrings.StrNCat | vloopback_motion2.c:41-42 | The source's first min(len, n) chars and a NUL are appended at the current string's end, and the C string read back is the old one plus those chars. |
| CStrings.StrCpy | vloopback_motion2.c:62 | The source and a NUL are copied to the front, and the C string read back is the source. |
| CStrings.ReadIntoBuffer | vloopback_motion2.c:46 | The bytes read replace the front of the buffer; the rest is unchanged. |
| CStrings.StrNEqLiteral | vloopback_motion2.c:39 | `strncmp(a, s, n) == 0` for a NUL-free literal s iff a has at least n chars and they equal s's first n. |
| CStrings.CStrAfterNCat | vloopback_motion2.c:41-42 | The C string after strncat is the old C string followed by at most n chars of the source. |
| CStrings.AtoiDecimal | vloopback_motion2.c:60 | atoi skips leading white space, reads a decimal numeral and stops at the first non-digit. |
| CStrings.AtoiStopsAtNul | vloopback_motion2.c:50-60 | What follows the terminating NUL does not affect atoi. |
| CStrings.CatBound | vloopback_motion2.c:41-42 | The corrected strncat bound keeps the NUL inside a buffer of the given size, whatever the source length. |
| CStrings.CatBoundAgrees | vloopback_motion2.c:41-42 | When the whole source fits, the corrected and the original bound copy the same chars. |
| Formats.ProposedFormat | vloopback_motion2.c:188-195 | The proposal has type VIDEO_OUTPUT, field NONE, colour space SRGB, and the caller's width, height, pixel format and stride. All other pixel fields keep their G_FMT values. |
| Formats.ProposalImageSize | vloopback_motion2.c:192 | `sizeimage` is 3·w·h/2 rounded down. |
| Formats.ProposalIgnoresBaseline | vloopback_motion2.c:178-195 | The proposal depends on the G_FMT record only through the fields it does not overwrite. |
| Formats.ProposalIdempotent | vloopback_motion2.c:188-195 | Applying the proposal to its own result changes nothing. |
| Formats.ProposalVga | vloopback_motion2.c:192-193 | For 640×480 the image size is 460800 and the stride 640. |
| Formats.ProposalNegativeWidth | vloopback_motion2.c:189-192 | A negative width is stored as its 32-bit two's complement, and so is the negative image size it produces. |
| Formats.ToU32 | vloopback_motion2.c:189-193 | The `int`-to-`__u32` conversion keeps values in range and adds 2^32 to negative `int`s. |
| Formats.CDiv | vloopback_motion2.c:192 | C division truncates toward zero. |
| Capabilities.ShowVcap | vloopback_motion2.c:122-134 | The report is the version split into bytes and the flags `DecodeCaps` gives for the capability mask. |
| Capabilities.ListCaps | vloopback_motion2.c:132-133 | The loop up to the zero-code sentinel lists, in table order, the flags of the entries whose bit is set. |
| Capabilities.TableSentinel | vloopback_motion2.c:92-120 | `cap_list` has 27 entries, and the only zero code is the last one, `Last`. |
| Capabilities.TableKnownCaps | vloopback_motion2.c:93-118 | The union of the table's codes is 0x877FFFF7. |
| Capabilities.MaskCovers | vloopback_motion2.c:93-118 | Every code before the sentinel lies within the union of the table's codes. |
| Capabilities.DecodeCapsExactly | vloopback_motion2.c:132-133 | An entry is reported iff it is a table entry before the sentinel and its bit is set in the mask. |
| Capabilities.DecodeCapsIsFilter | vloopback_motion2.c:132-133 | The reported entries are those of the table before the sentinel whose bit is set, in table order: the sentinel-driven walk equals a plain filter. |
| Capabilities.DecodeCapsUnknownBits | vloopback_motion2.c:132-133 | Bits that no table entry names produce nothing: the mask and its known bits give the same report. |
| Capabilities.VersionOf | vloopback_motion2.c:130 | Each of the three version parts is in 0..255. |
| Capabilities.VersionRoundTrip | vloopback_motion2.c:130 | Splitting `KERNEL_VERSION(a, b, c)` gives back a, b and c. |
| Capabilities.VersionSplitRoundTrip | vloopback_motion2.c:130 | Re-encoding the three parts gives back the word's low 24 bits. |
| StartPipe.StartPipe | vloopback_motion2.c:151-207 | The start returns exactly the descriptor, trace and capability report that `Start` prescribes. The record sent to S_FMT is built field by field and equals `ProposedFormat` of the G_FMT result. |
| StartPipe.VidStartPipe | vloopback_motion2.c:222-225 | The public entry point behaves exactly like the start. |
| StartPipe.StartSucceedsIff | vloopback_motion2.c:157-206 | The result is a descriptor iff the handle opened and QUERYCAP, G_FMT and S_FMT all succeeded. It is then the handle; otherwise -1. With `-` it is the first loopback device discovery finds. |
| StartPipe.FailedOpenNoIoctl | vloopback_motion2.c:165-169 | A handle below zero gives -1 before any ioctl. |
| StartPipe.HandleNoIoctl | vloopback_motion2.c:157-162 | Getting the handle, by discovery or by opening the named device, issues no ioctl. |
| StartPipe.IoctlOrder | vloopback_motion2.c:171-203 | On an open handle the ioctls are QUERYCAP, then G_FMT on the zeroed output record, then S_FMT with the proposed format. All are on the handle, each runs only after the previous one succeeded, and the last one made failed unless the start succeeds. |
| StartPipe.NegotiateCalls | vloopback_motion2.c:171-206 | The negotiation's ioctl list is the prescribed one, and it opens and closes nothing. |
| StartPipe.StartBalance | vloopback_motion2.c:157-206 | The start never closes its handle. Opens exceed closes by 1 for a named device and by 2 after discovery, whether the ioctls then succeed or fail. |
| StartPipe.ReportShown | vloopback_motion2.c:171-176 | The capability report is produced iff QUERYCAP succeeded, and it describes the record QUERYCAP returned. |

## Left out

- `v4l2_putpipe` and `vid_putpipe`: each is a single `write(2)` on the handle. Nothing here computes anything.
- The system calls: `opendir`, `readdir`, `open`, `read`, `close`, `ioctl` and `closedir`. Their outcomes are inputs (`Registry`, `Device`, the open result of a named device). The `readdir` results are the `Registry.entries` sequence and are not recorded; each of the other calls is recorded as an event. `errno` is not modelled.
- The padded names in `cap_list` are not modelled. The report lists each entry by its `Capabilities.Flag`, and the names only feed `printf`.
- Diagnostic output is not modelled: `printf`, `fprintf`, `MOTION_LOG`, `show_vfmt`, and the driver, card and bus strings that `show_vcap` echoes (it prints the driver as the card). The one exception is the "found video device" log line, which is kept as a `Found` event because it carries the parsed minor number.
- The driver's adjustments to the format inside `VIDIOC_S_FMT`, and the record it writes back. Only the proposal sent to the driver is modelled.
- The binary layout of `struct v4l2_format` and `struct v4l2_capability`. The model keeps only the fields the code reads or writes. The untouched pixel-format fields travel together as `PixRest`. The rest of the format union is not modelled.
- Discovery.OpenVidpipe: its value of `pipepath` when nothing is found is not modelled. That value is an uninitialised local in the source and is never used; the model returns "".
- Discovery.OpenVidpipe: requires video entry names of at most 226 chars. Longer names make the source write past `buffer` (see Findings), and that write is not modelled. Within the limit the model uses the strncat bounds as written.
- CStrings.Atoi: integer overflow is not modelled. The minor number is unbounded here; it is only logged.
- Formats.ProposedFormat: requires that `3 * width * height` fits in an `int`. Outside that range the source's signed multiplication is undefined behaviour.
- Capabilities.CapEnt: the source stores the code 0x80000000 in an `int` field. It is compared with the unsigned mask after the usual conversion, so the model stores every code as its unsigned 32-bit value.

## Findings

| source | as written | input that shows it | evidently intended | confidence | as-written member | corrected member |
|---|---|---|---|---|---|---|
| vloopback_motion2.c:41-42 | `strncat(buffer, s, sizeof(buffer) - strlen(buffer))` leaves no room for the terminating NUL. strncat writes up to n chars plus a NUL. Line 63 uses the same bound. | A directory entry `video` followed by 222 more chars (227 in all). The second strncat then copies all 5 chars of `/name` and stores the NUL at `buffer[255]`, one byte past the array. | The bound `sizeof(buffer) - strlen(buffer) - 1`, which keeps the NUL inside the buffer for every name. | not executed; sysfs entry names that long do not occur in practice | Discovery.AttrPathOverrunAsWritten | Discovery.AttrPathNulInBounds |
