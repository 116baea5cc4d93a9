# Verified model of the smartwatch firmware

This Dafny project models the parts of the watch firmware that carry state, buffer arithmetic or
parsing, and proves what they promise. `dafny verify dfyconfig.toml` checks it.

## What is modelled

**The Gadgetbridge pipeline.** A phone sends commands over the BLE UART service. A command starts with
the byte 0x10, ends with a newline and arrives cut into packets. The receiver collects it in a buffer of
1000 bytes and hands it to one of two parsers. `GB(...)` carries JSON in which base64 payloads stand as
`atob("...")` calls; they are decoded inside the receive buffer before the JSON parser sees the text.
`setTime(...)` sets the clock and the TZ variable.

- `Bytes`, `Ascii`, `Wrappers`, `Arithmetic`: byte strings, `string_view::find`, small facts.
- `Base64`: section 4 of RFC 4648, and the decoder writing over its own input.
- `AtobRewrite`: the rewriting loop on the buffer, and the one-pass substitution it stands for.
- `Messages`: JSON texts as the sender builds them, plain parts and payloads.
- `StParse`: numbers, the setTime command, the TZ text.
- `Framing`: the packet protocol as a function, and its laws over runs.
- `Gadgetbridge`: the receiver object with its buffer; it is proved to follow `Framing` and to have
  exactly the effects (`World`) of the commands parsed.
- `Pipeline`: whole runs of the receiver object, and the end-to-end results.

**The GC9A01 display.** `Panel` is a model of the display controller: it decodes the column and row
windows and the memory-write bytes into an image. `Gc9a01` is the driver; what it sends is judged by what
that panel then shows.

**Four components over whole runs.** `Stopwatch`, `GapClient`, `Link` (with the pairing gate) and
`Backlight` are classes whose `Valid` holds after construction and after every operation, so in every run.
Ghost fields record the history the invariant speaks of. `Link` also states what the two modules report
after any run of events as properties of the run itself.

## Results worth knowing

- The receiver parses exactly the command sent *if and only if* no cut falls behind a newline or in front
  of a 0x10 inside it, it fits the buffer, and the first packet holds the whole command prefix or the
  receiver was still consuming (`Framing.DeliveredIff`). The last alternative is a quirk: an unknown
  command leaves a consuming receiver consuming, so a prefix cut in two is taken up or dropped depending
  on what came before. A stream of frames is parsed as sent *if and only if* each of them meets this
  condition in the state it finds (`Framing.StreamDeliveredIff`).
- The rewriting loop searches from the start each time and so decodes calls that a decoded payload has
  created. It equals the one-pass substitution *if and only if* that substitution contains no `atob("`
  (`AtobRewrite.RewriteIsSubstitute`, and in terms of the payloads `Messages.RewriteMessage`); a payload
  that is itself a call is the counterexample: it is decoded a second time (`Messages.CallInPayload`). The
  loop ends in every case.
- `gc9a01_clear` sends 100*(N/100) + (N%100)^2 pixels for a panel of N: the number is right *if and only
  if* N%100 is 0 or 1 (`Gc9a01.ClearCount`), as on the configured 240x240 panel
  (`boards/nrf5340dk_nrf5340_cpuapp.overlay:122-123`). Any panel ends up fully painted all the same.
- `gc9a01_write_buf` ignores the buffer's pitch: it draws the rectangle meant for every buffer of the
  layout described *if and only if* the pitch is the width or there is one row (`Panel.PitchIgnored`).
- A `setTime(` command changes nothing *if and only if* no number follows (`Pipeline.TimeWithoutSeconds`). Without
  a `setTimeZone(` the search's npos makes the code read the offset from byte 11 on: the ten digits of a present-day
  time just reach the `)` and the clock alone is set, fewer digits throw (`Pipeline.TimeWithoutZone`,
  `Pipeline.TenDigitTime`).
- The TZ text has the meaning intended *if and only if* the offset is within 24 hours
  (`StParse.ZoneMeaning`): larger ones are reduced modulo 100 or no longer valid.
- Over every run of GAP client operations in which all reads taken are answered, each answer calls its own
  read's function *if and only if* no read was tried while another was unanswered, which takes a reset at
  such a time (`GapClient.Client.AnswersIff`). After such a reset the next read's function gets the first
  read's answer as well (`GapClient.ReadAfterReset`).
- After every run of link events the references held are those taken less those given back, and they are
  exactly the current link's *if and only if* no link came up while one was held (`Link.Dispatch`).
- The backlight window, in microseconds as it is programmed, never shrinks as the brightness falls *if and
  only if* 33 periods fit 32 bits or the period lies within 8 ns of 2^32, where every window wraps around to
  the same number (`Backlight.WindowGrows`). The configured period of 15 us is of the first kind.
- After any run of events `bt::connected()` is true *if and only if* the latest link event brought a link
  without error whose security request succeeded and that was bonded or came while the gate was open
  (`Link.ReportedIff`, `Link.GateOpenIff`). A failed connection event clears it even though the link before
  stays held.

## Assumptions

- `base64_decode` is a Zephyr function that is not part of the repository. It is modelled from section 4 of
  RFC 4648 as a left-to-right loop that reads each quartet before it stores the quartet's bytes. Bits of
  the last symbol that encode nothing are ignored.
- `int` and `long` have 32 bits and memory is little-endian, as on the nRF5340.
- The panel's write position returns to the start of the window after its last pixel. SPI transfers succeed.
  Drawing calls are in bounds and not empty, and the panel's byte count fits an `int`.
- The sender's base64 is padded and without spaces or line breaks in it, as section 4 of RFC 4648 has it;
  what Zephyr's decoder makes of other text is not modelled.
- Further inputs are excluded by preconditions only where the C++ code is undefined or throws: a
  lone 0x10 while consuming (`Framing.Defined`), a malformed call reached by the rewriting loop, a number out
  of range, an offset of INT_MIN, a `setTime` text too short for the search that misses `setTimeZone(`
  (`Gadgetbridge.Safe`). The code does not look at the byte in front of the `)` of a call; neither does
  the model, so any byte may stand there.

## Model

| member | source | states |
|---|---|---|
| Ascii.Spelling | src/ble/services/gadgetbridge.cpp:29-33 | the prefixes, names and characters compared with are the bytes of those strings |
| Base64.RoundTrip | src/ble/services/gadgetbridge/gb_parse.cpp:155-159 | decoding the base64 text of any byte string gives the byte string back |
| Base64.Alphabet | src/ble/services/gadgetbridge/gb_parse.cpp:155-159 | the 64 symbols stand for their values in the order of table 1 of RFC 4648, every symbol for just one, and the padding is the equals sign |
| Base64.DecodeBits | src/ble/services/gadgetbridge/gb_parse.cpp:155-159 | in every valid text quartet k and the bytes from 3k on are the same 24-bit number; one pad keeps its leading 16 bits, two pads its leading 8 |
| Base64.EncodeBits | src/ble/services/gadgetbridge/gb_parse.cpp:155-159 | encoding makes four symbols of every three bytes begun, the same number with zero bits and padding behind it |
| Base64.DecodeOver | src/ble/services/gadgetbridge/gb_parse.cpp:154-159 | decoding with the output area overlapping the input from at most one byte behind its start equals decoding into a separate buffer, for every length, and changes no byte outside the output |
| AtobRewrite.Base64DecodeInPlace | src/ble/services/gadgetbridge/gb_parse.cpp:149-164 | a call becomes quote, payload, quote and spaces of the same total length; not a byte past its closing parenthesis or before it changes |
| AtobRewrite.CallNonSpace | src/ble/services/gadgetbridge/gb_parse.cpp:151-152 | every byte of a call counts as non-space, except a space in place of its unchecked quote |
| AtobRewrite.ReplaceCallShrinks | src/ble/services/gadgetbridge/gb_parse.cpp:149-164 | replacing a call removes at least six non-space bytes (five if the unchecked quote is a space), whatever the payload holds |
| AtobRewrite.Rewrite | src/ble/services/gadgetbridge/gb_parse.cpp:286-290 | the loop terminates, keeps the length and leaves no atob(" behind |
| AtobRewrite.Substitute | src/ble/services/gadgetbridge/gb_parse.cpp:286-290 | the single left-to-right substitution keeps the length |
| AtobRewrite.RewriteGoesOn | src/ble/services/gadgetbridge/gb_parse.cpp:286-290 | with a prefix already handled the restarting search continues as the single pass does |
| AtobRewrite.RewriteIsSubstitute | src/ble/services/gadgetbridge/gb_parse.cpp:284-290 | the restarting in-place loop equals the one-pass substitution exactly when that is free of atob(" |
| AtobRewrite.RewriteInPlace | src/ble/services/gadgetbridge/gb_parse.cpp:284-290 | the loop on the buffer leaves exactly the rewritten text in the text's range and everything else alone |
| Messages.CallIsWellFormed | src/ble/services/gadgetbridge/gb_parse.cpp:149-164 | for every byte string B with base64 text X, atob("X") and any rest become quote, B, quote, exactly len(X)+6-len(B) spaces, and the rest untouched |
| Messages.SubstituteMessage | src/ble/services/gadgetbridge/gb_parse.cpp:284-290 | the single pass reads a text built from plain parts and payloads as those parts and the quoted payloads, each at its own place |
| Messages.ShowIsClean | src/ble/services/gadgetbridge/gb_parse.cpp:161-163 | the decoded text is free of atob(" exactly when no plain part or payload contains it or ends in atob( in front of a quote the decoder sets |
| Messages.RewriteMessage | src/ble/services/gadgetbridge/gb_parse.cpp:284-290 | the loop turns such a text into what it means exactly under that condition |
| Messages.CallInPayload | src/ble/services/gadgetbridge/gb_parse.cpp:286-290 | a payload that is itself a call is decoded a second time: not the meant text results but, for a clean inner payload, the inner quoted field and its spaces between the outer quotes |
| StParse.FromCharsSigned | src/ble/services/gadgetbridge/st_parse.cpp:24-39 | a printed number is read back whatever non-digit text follows it |
| StParse.FromCharsSpelled | src/ble/services/gadgetbridge/st_parse.cpp:24-39 | a number with any leading zeros is read as meant, whatever non-digit text follows it, or found out of range |
| StParse.FromCharsInvalid | src/ble/services/gadgetbridge/st_parse.cpp:25-41 | exactly the texts that do not start with a digit or a minus and a digit hold no number |
| StParse.Numerals | src/ble/services/gadgetbridge/st_parse.cpp:24-39 | every other text is a minus or none, zeros, a printed number, and text that does not continue it |
| StParse.SetTimeRoundTrip | src/ble/services/gadgetbridge/st_parse.cpp:19-41 | setTime(s), any text without setTimeZone(, and setTimeZone(z) give exactly s and z for every long s and every int z but INT_MIN; a fraction is cut off |
| StParse.BothRead | src/ble/services/gadgetbridge/st_parse.cpp:19-41 | the same with any leading zeros |
| StParse.OffsetAtByte11 | src/ble/services/gadgetbridge/st_parse.cpp:34-39 | without setTimeZone( the offset is read from byte 11 of what stands behind setTime(, since npos + 12 wraps to 11 |
| StParse.ZoneTextLayout | src/ble/services/gadgetbridge/st_parse.cpp:43-44 | the zone text is UTC, a sign opposite to the offset's and two digits, six characters in a buffer of seven |
| StParse.ZoneMeaning | src/ble/services/gadgetbridge/st_parse.cpp:43-45 | read by the POSIX sign rule the text means UTC plus z hours exactly for offsets from -24 to 24 |
| StParse.Parse | src/ble/services/gadgetbridge/st_parse.cpp:12-46 | a command without a number first changes nothing; any other sets the clock to the number as meant, and TZ as its text requests or not at all |
| Framing.Delivery | src/ble/services/gadgetbridge.cpp:39-94 | from any state, packets cut in an admissible way have exactly the command parsed, once, if it opens and fits, otherwise nothing, and end idle |
| Framing.DeliveredIff | src/ble/services/gadgetbridge.cpp:39-94 | for every split of a frame into packets and every state: exactly the command is parsed if and only if the cuts are quiet, it fits, and the first packet opens it; otherwise what is parsed falls short of it |
| Framing.RunBudget | src/ble/services/gadgetbridge.cpp:49-93 | all commands parsed in a run and the bytes still held are together paid for by the bytes received; a packet while idle, a restart or an early newline costs one more |
| Framing.StreamDeliveredIff | src/ble/services/gadgetbridge.cpp:39-94 | for every stream of frames, every split and every state: exactly the commands are parsed, in order, if and only if every frame has quiet cuts, fits, and is opened in the state it meets |
| Framing.StreamDelivery | src/ble/services/gadgetbridge.cpp:39-94 | fragmentation independence: for a stream of frames cut in any admissible way the commands are parsed each once and in order |
| Framing.RunInvariant | src/ble/services/gadgetbridge.cpp:16-25 | over every run a consuming receiver holds exactly the bytes since the last 0x10 packet, at most 1000, and every parsed command is exactly the bytes since a 0x10 packet |
| Framing.Resynchronises | src/ble/services/gadgetbridge.cpp:49-61 | after any history, from a 0x10 packet with a known prefix on a run parses what a fresh receiver would |
| Framing.EmptyIgnored | src/ble/services/gadgetbridge.cpp:41-45 | empty packets anywhere in a run change neither its state nor what is parsed |
| Framing.IdleDrops | src/ble/services/gadgetbridge.cpp:68-72 | an idle receiver drops every packet up to the next 0x10 |
| Framing.OverflowDropped | src/ble/services/gadgetbridge.cpp:79-84 | a command of more than 1000 bytes is never parsed and all packets up to the next 0x10 are dropped |
| Gadgetbridge.Receiver.constructor | src/ble/services/gadgetbridge.cpp:16-25 | the receiver starts idle with an empty buffer |
| Gadgetbridge.Receiver.Consume | src/ble/services/gadgetbridge.cpp:39-94 | on the buffer, a packet takes the receiver to the protocol's next state, keeps the bytes behind the write position zero, and has exactly the effects of the command it completes, if any |
| Gadgetbridge.Receiver.Parse | src/ble/services/gadgetbridge.cpp:27-37 | the dispatch performs the command in the first bytes of the buffer and leaves the bytes behind it zero |
| Gadgetbridge.Receiver.GbParse | src/ble/services/gadgetbridge/gb_parse.cpp:325-329 | the JSON parser gets the rewritten text between GB( and the last byte; nothing behind the command changes |
| Gadgetbridge.GbCommandPerformed | src/ble/services/gadgetbridge.cpp:27-32 | a GB( command adds just what the loop makes of the text up to its last byte, whatever that byte is |
| Gadgetbridge.UnknownCommand | src/ble/services/gadgetbridge.cpp:27-37 | a command with neither prefix does nothing |
| Gadgetbridge.PerformAllKinds | src/ble/services/gadgetbridge.cpp:27-37 | over any commands the JSON parser gets exactly one text for each that starts with GB(, in order and four bytes shorter; clock and zone stay unless one starts with setTime( |
| Pipeline.Receive | src/ble/nus.cpp:12-18 | the receiver object under any run of packets ends in the protocol's state with exactly the effects of the commands it parses: one JSON text for each that starts with GB(, clock and zone unchanged unless one starts with setTime( |
| Pipeline.GbCommandEffect | src/ble/services/gadgetbridge/gb_parse.cpp:284-329 | a command around any text with well-formed calls gives the JSON parser its one-pass substitution exactly when that is free of atob(" |
| Pipeline.EndToEnd | src/ble/services/gadgetbridge.cpp:27-94 | the same from packets: for every text of up to 996 bytes, every admissible split and every receiver state that takes the command up |
| Pipeline.StreamEndToEnd | src/ble/services/gadgetbridge.cpp:27-94 | from any receiver state a stream of clean messages and time commands in any mixture and any admissible cut gives the JSON parser each message as meant, in order and nothing else, and leaves clock and zone as last asked for |
| Pipeline.OrderEffect | src/ble/services/gadgetbridge.cpp:27-37 | a clean message only adds its meant text, a time command only sets the clock and the zone text |
| Pipeline.SetTimeEndToEnd | src/ble/services/gadgetbridge/st_parse.cpp:12-51 | a setTime command in any admissible cut sets the clock, and a zone that has the intended meaning exactly for offsets up to 24 hours |
| Pipeline.TimeWithoutSeconds | src/ble/services/gadgetbridge/st_parse.cpp:19-26 | exactly the setTime commands that start with no number change nothing |
| Pipeline.TimeWithoutOffset | src/ble/services/gadgetbridge/st_parse.cpp:32-41 | with a setTimeZone( the clock alone is set exactly when no number comes first behind it |
| Pipeline.TimeWithoutZone | src/ble/services/gadgetbridge/st_parse.cpp:32-41 | without setTimeZone( the clock alone is set exactly when no number stands at byte 11 behind setTime(; a shorter text throws |
| Pipeline.TenDigitTime | src/ble/services/gadgetbridge/st_parse.cpp:19-41 | setTime(s) of ten digits on its own sets just the clock |
| Panel.WriteRest | src/drivers/display/gc9a01.cpp:364-366 | the pixel bytes of a window fill exactly its cells, row by row and high byte first, and bring the write position back to its corner |
| Panel.FrameSets | src/drivers/display/gc9a01.cpp:274-288 | the two big-endian transfers set exactly the window and leave the image alone |
| Panel.DrawOne | src/drivers/display/gc9a01.cpp:354-370 | after one drawing call the panel shows the image with the rectangle pasted in |
| Panel.PanelRefinement | src/drivers/display/gc9a01.cpp:354-370 | after any sequence of in-bounds drawing calls the panel shows the image obtained by pasting the rectangles in order |
| Panel.SixTransfers | src/drivers/display/gc9a01.cpp:274-288 | a drawing call sends the commands 2A, 2B and 2C, the two ranges in big-endian words, and the first two bytes for each pixel, and nothing else |
| Panel.DrawAllTransfers | src/drivers/display/gc9a01.cpp:354-370 | a sequence of drawing calls sends these six transfers for each, in order, and no others |
| Panel.PitchIgnored | src/drivers/display/gc9a01.cpp:364-366 | the rectangle meant is drawn for every buffer of pitch times height pixels exactly when the pitch is the width or there is one row |
| Panel.PitchWitness | src/drivers/display/gc9a01.cpp:364-366 | for any larger pitch and two or more rows, a buffer the driver call accepts that is drawn wrongly |
| Gc9a01.SwappedMemory | src/drivers/display/gc9a01.cpp:214-215 | the swapped words of the fill pattern lie in memory as pixels of the colour, high byte first |
| Gc9a01.ClearCount | src/drivers/display/gc9a01.cpp:217-224 | the two loops send at least N pixels, and exactly N if and only if N%100 is 0 or 1 |
| Gc9a01.ClearPaints | src/drivers/display/gc9a01.cpp:216-225 | on a panel of any size every pixel gets the colour; where the count is exact the write position is back at the window's corner after one round |
| Gc9a01.ClearTransfers | src/drivers/display/gc9a01.cpp:210-225 | a full clear sends the window, N/100 transfers of 100 pixels and N%100 of N%100 pixels, each of the colour with its high byte first, and nothing else |
| Gc9a01.Driver.SetFrame | src/drivers/display/gc9a01.cpp:274-288 | sends exactly the window's column and row transfers |
| Gc9a01.Driver.WriteCmdData | src/drivers/display/gc9a01.cpp:260-272 | a command followed by its data, if there is any |
| Gc9a01.Driver.WriteBuf | src/drivers/display/gc9a01.cpp:354-370 | sends exactly these six transfers, the data twice the window's area; the attached panel then shows the rectangle pasted in |
| Gc9a01.Driver.Clear | src/drivers/display/gc9a01.cpp:210-225 | sends exactly these transfers; every pixel of the attached panel then has the colour |
| Stopwatch.Recompose | src/ui/ui_events.cpp:40-42 | minutes, seconds below 60 and milliseconds below 1000 recompose to the duration cut to milliseconds |
| Stopwatch.ShownTotal | src/ui/ui_events.cpp:39-47 | after k laps the total shown exceeds the laps and remainder shown by 0 to k milliseconds |
| Stopwatch.Stopwatch.StartClicked | src/ui/ui_events.cpp:30-60 | starting begins a timing without laps; stopping shows the total, within k milliseconds of the k lap labels and the remainder |
| Stopwatch.Stopwatch.StopClicked | src/ui/ui_events.cpp:63-80 | a lap is the time since the one before, and all laps of a timing still add up exactly to lap time minus start time |
| Stopwatch.Stopwatch.Render | src/managers/display.cpp:191-203 | the running total shown agrees with the lap labels to within a millisecond a lap |
| GapClient.Client.Init | src/ble/services/gap_client.cpp:26-34 | clears every field, also the bit and function of an unanswered read, which is then lost |
| GapClient.Client.HandlesAssign | src/ble/services/gap_client.cpp:36-77 | assigns handle and link or reports why not; for the GAP service the bit of an unanswered read is lost, its function kept |
| GapClient.Client.ReadDeviceName | src/ble/services/gap_client.cpp:107-132 | taken, refused by the stack, busy or invalid, with the whole new state of each; a busy or invalid call changes nothing |
| GapClient.Client.ReadCallback | src/ble/services/gap_client.cpp:79-91 | clears the bit and calls the stored function, which is the answered read's own as long as no reads overlapped |
| GapClient.Client.AnswersIff | src/ble/services/gap_client.cpp:79-132 | over every run with all reads answered, each answer called its own read's function exactly when no reads overlapped, and they overlap only after a reset of an unanswered read |
| GapClient.ReadAfterReset | src/ble/services/gap_client.cpp:26-132 | after a reset with a read unanswered, the next read's function is called with the first read's answer and again with its own |
| Link.Auth.SetPairable | src/ble/auth.cpp:111-127 | opening registers pairing_accept and the passkey display, closing pairing_deny and none |
| Link.Auth.PairingComplete | src/ble/auth.cpp:65-74 | a completed pairing leaves pairing_deny registered and no passkey display |
| Link.Manager.Connected | src/ble/bt.cpp:167-203 | a link counts as connected exactly when it came without error, through the gate or a bond, and its security request succeeded; a successful event takes one more reference whether or not one is held |
| Link.Manager.Disconnected | src/ble/bt.cpp:205-223 | gives the current link's reference back, once, and leaves nothing connected |
| Link.Manager.SecurityChanged | src/ble/bt.cpp:225-245 | discovery starts exactly on an error-free change to at least L2, an error asks for disconnection |
| Link.Dispatch | src/ble/bt.cpp:167-245 | the two modules under any run of events: registered pairing handlers, reported connection, current link, discoveries and rejections are what the run's history says; the references held number those taken less those given back, and are exactly the current link's if and only if no link came up while one was held |
| Link.GateOpenIff | src/ble/auth.cpp:111-132 | the gate is open exactly when it was opened and since then neither set nor closed by a completed pairing |
| Link.ReportedIff | src/ble/bt.cpp:167-223 | after any run there is a connection exactly when the latest link event brought an admitted link, and that link is the current one |
| Link.PairingCloses | src/ble/auth.cpp:65-74 | from a completed pairing until the gate is opened again every unbonded link is rejected and not reported |
| Link.ReferenceBalance | src/ble/bt.cpp:175-215 | over every run the references taken are those given back and the current link's, exactly when no link came up while one was held; otherwise some are never given back |
| Backlight.StopAlarm | src/managers/display.cpp:158-162 | the window is period*(33-brightness)/1000 us, the stop alarm is never before the run alarm, and dimming never brings it forward |
| Backlight.WindowGrows | src/managers/display.cpp:158-162 | dimming never shortens the window in microseconds exactly for periods whose 33-fold fits 32 bits or that lie within 8 ns of 2^32 |
| Backlight.Display.constructor | src/managers/display.hpp:42-43 | the display starts asleep at full brightness |
| Backlight.Display.TurnOn | src/managers/display.cpp:114-127 | waking restores the brightness in force when the sleep began; a repeated call changes nothing |
| Backlight.Display.GoToSleep | src/managers/display.cpp:129-145 | keeps the brightness in force and dims to 0; a repeated call changes nothing |
| Backlight.Display.SetBrightness | src/managers/display.cpp:147-152 | caps the brightness at 32 and does not touch what waking restores |
| Backlight.Display.DoSetBrightness | src/managers/display.cpp:154-167 | with times in range the stop alarm lies the window of the brightness after the run alarm, and no brighter setting has a later one |
| Backlight.Dim | src/managers/display.cpp:147-167 | setting a brightness and later, after any run of display operations, a lower one never brings the stop alarm forward, nor before the run alarm |
| Backlight.SleepAndWake | src/managers/display.cpp:114-152 | a sleep and a wake, whatever is set in between, leave the brightness as it was |

## Left out

- The JSON parser, the message types and the loggers: the library is not part of the repository, and the rest only logs. The model stops at the text handed over and takes the parser not to write behind it.
- LVGL widgets, label text, colours and generated UI: wrappers and data. The stopwatch's figures are modelled, their printing is not.
- Advertising, settings, service discovery, notifications, NUS sending, the touch controller and the other services: callback forwarding around foreign code.
- The display's init table, orientation bits, power commands and delays, and rgb8_to_rgb565, which depends on float rounding.
- Failing SPI transfers: the driver's error returns are not modelled.
- Counter and PWM hardware: only the alarm times are modelled, not the callbacks, the order in which the channels are set, or the delay before the alarms are set.
- Old and new time logging in st_parse, and errors of clock_settime and setenv.
- Link.Manager.SecureConnection: only reads the stack's security level of the held link, so it promises no more than it computes.
- Wall-clock changes during a stopwatch run: the clock does not run backwards.
- GapClient.Client.ReadCallback: an answer that arrives after gap_client_init and before the next read goes through a null function pointer and is excluded; the called function runs as a later step, so a read it starts is the next call; notifications are not modelled.
