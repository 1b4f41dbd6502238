# Verified models of the Ironlake GPU and HDA drivers

This project models the parts of the drivers that hold a protocol, a graph algorithm or fixed-point
arithmetic, and proves what they guarantee over every input, every run or every interleaving. It checks
with `dafny verify dfyconfig.toml` (Dafny 4.11).

| file | what it models |
|---|---|
| `GpuRing.dfy` | the GPU command ring: a producer that pads, wraps and publishes TAIL against a GPU that moves HEAD at any time |
| `WidgetGraph.dfy`, `WidgetTrees.dfy`, `WidgetRuns.dfy`, `WidgetSearch.dfy` | the depth-bounded route searches of the HDA codec over a possibly cyclic widget graph, and the output and input trees |
| `ConnectionList.dfy` | unpacking a widget's connection list |
| `HdaTransport.dfy` | CORB, RIRB, interrupt handler and semaphore around `hda_send_verbs`, in every interleaving |
| `StreamClock.dfy` | the frame counter of a stream, from a cyclic byte position with padding |
| `IdctReference.dfy` | the two-pass fixed-point IDCT: wrapping, accuracy, symmetry |
| `Gem2d.dfy`, `FillSpan.dfy` | the double-buffered command batches and their span-filling client |
| `QueueCommands.dfy` | the two write paths of the legacy ring |
| `LinkRatio.dfy`, `HdmiPll.dfy`, `PipeAssign.dfy` | the M/N link ratios, the HDMI divider search, the pipe allocator |
| `AuxChannel.dfy` | the layout of DisplayPort AUX messages in bytes and data registers |
| `Cyclic.dfy`, `Common.dfy` | cyclic buffer segments, shared types and arithmetic |

How concurrency is modelled: hardware and interrupt handlers are methods that take an arbitrary number
of steps (`GpuRun`, `Environment`); the driver's code calls them between all of its own steps, so a
postcondition holds for every interleaving. Refused submissions are parameters, and the number of polls before
a time-out is a free choice of at least one (deadlines lie in the future). Ghost fields keep what the hardware
has read.

## What turned out different from the documented intent

- Vertical mirroring of the IDCT is not bit exact. Negating the odd vertical frequencies negates row
  sums, and a row sum that rounds at a tie then rounds the other way. A block whose only coefficient is
  1024 at row 1, column 0 gives 151 and 150 where the mirror image would be equal
  (`VerticalMirrorFails`). `VerticalMirrorIff` says exactly where it holds, for every block, wrapping
  included; horizontal mirroring always holds (`HorizontalMirror`).
- The ring fill at a wrap is written before the wait for HEAD. It is harmless exactly when HEAD is not
  ahead of the fill or only MI_NOOP is unread there (`NoopFillKeepsUnreadIff`). Reserving at most half of
  the ring does not ensure that: `HeadGetsAhead` is a history of such submissions after which the next
  wrap overwrites commands that the GPU has not read.
- After a wrap with an idle GPU a submission is read back exactly when its whole reservation, two DWORDs
  more than the array, ends at or before the old position (`IdleWrapReadsBackIff`). With an odd array that
  ends one DWORD before it, the alignment makes TAIL equal to HEAD and the submission is lost although
  every call returns `B_OK` (`IdleWrapLoses`).
- The run theorem (`Run`) therefore stops before the first job that breaks one of these two conditions
  (`Safe`). For a job that reserves at most half of the usable ring it can only be the one about HEAD.
- `gpu_ring_begin` computes its reservation in 32 bits (`BytesNeededExactIff`): 2^30 DWORDs pass the
  size check with a reservation of 8 bytes.
- `hda_send_verbs` with more than 16 verbs never returns `B_OK`, unless earlier calls left releases on the
  semaphore: responses beyond the sixteenth are dropped without releasing it (`SendVerbs`).
- After a time-out `hda_send_verbs` can return `B_OK` with results that do not answer its verbs. In every
  state the entries below the response count are the answers to the outstanding verbs of earlier calls and
  then to these, and the others are what the array held before (`SendVerbs`). So an entry answers its own
  verb exactly where no verb was outstanding and its response is stored; it is enough that no verb is
  outstanding and no release of the semaphore left over, which is what drained means (`DrainedIff`). Both
  kinds of undrained start go wrong: `LateAnswerIsTaken`, `StaleReleaseIsTaken`.
- The stream counter is right exactly when less than a cycle of frames goes by between two interrupts,
  plus one boundary case (`ProcessedIsGapIff`).
- `hda_stream_start` takes the link position to be zero. A stream that was stopped and is started again
  without a reset counts the frames of the current cycle that were played before (`RestartCountsOldFrames`,
  `RestartExample`);
  `StartIsRightIff` says exactly when its counter is right, and `HandleInterrupt` that the error stays.
- The connection list parser takes the long form from the bits `0xf0` of the length response, the HDA
  specification (section 7.3.4.11) from bit 7. They agree exactly when bit 7 is set or the list has fewer
  than 16 entries (`FormAgreesIff`). The query of the active connection in the same function is never
  reached, because the widget's input count is still zero there.
- A route may have up to 17 connections from a capture converter to its pin, but the search for the
  built-in microphone looks at 16 widgets only (`RoutedConverterMic`). On a chain of a converter, sixteen
  mixers and a fixed microphone pin the search builds that route and the test misses the microphone
  (`LongRouteMissesMic`).
- In `intel_fill_span` the end of a chunk wraps when fewer than 1024 counts of 32 bits are left
  (`ChunkEndIff`), and so does the beginning of the next one: with more than 2^32 - 1024 spans the loop
  never ends (`LoopEndsIff`).
- M/N loops: for a ratio of 2^24 or more, N is shifted down to 0 (`ComputeMN`). The link speed is a 32-bit
  product, exact below 2^29 lanes times kHz (`LinkSpeedExactIff`); above, M/N is exact for the wrong speed.
- `alreadyUsed` is what the search of the last input left, not whether any input is in use
  (`UsedIsLastInUse`). A headphone pin behind an unused mixer can miss a used one among the mixer's earlier
  inputs (`HeadphoneNeedsLastInput`); one that lists a used mixer or selector itself is always served
  (`HeadphoneIsServed`).
- The comment in `ComputeHdmiDpll` says that not all combinations are listed; up to 102 all are (`ListedIff`).
- When mixers and selectors are enough to serve some output pin, pins whose only routes start directly at
  a converter are left over (`LeftoverPin`).

## Model

| member | source | states |
|---|---|---|
| GpuRing.Ring.constructor | intel_extreme/accelerant/gpu_ring.cpp:63-70 | the producer starts at the hardware TAIL with nothing pending (an idle GPU is assumed) |
| GpuRing.Ring.GpuRun | intel_extreme/accelerant/gpu_ring.cpp:79-88 | however far HEAD moves, from a consistent state what was fetched plus what is unread stays what was published, and data not published yet stays behind it |
| GpuRing.Ring.IsIdle | intel_extreme/accelerant/gpu_ring.cpp:79-88 | an idle answer from two separate register reads is still true afterwards; an idle ring is found idle, and one whose HEAD stands still exactly when it is |
| GpuRing.Ring.WaitBehind | intel_extreme/accelerant/gpu_ring.cpp:112-132 | a successful wait leaves HEAD at or behind the wrap start although it tests a stale HEAD; an idle ring never times out, and with HEAD standing still the wait succeeds exactly when the ring is idle or HEAD is below the wrap start |
| GpuRing.Ring.WaitOutside | intel_extreme/accelerant/gpu_ring.cpp:138-172 | a successful wait leaves room for the whole reservation on top of everything unread; an idle ring never times out, and with HEAD standing still the wait succeeds exactly when the ring is idle or HEAD is outside the reservation |
| GpuRing.Ring.FillWithNoops | intel_extreme/accelerant/gpu_ring.cpp:103-110 | everything from pos to the end becomes MI_NOOP and nothing else changes; with HEAD not ahead the unread stream stays as it is while the GPU keeps reading |
| GpuRing.Ring.WrapToStart | intel_extreme/accelerant/gpu_ring.cpp:100-136 | the position is 0 exactly after a successful wait; with HEAD not ahead a wrap, timed out or not, leaves a state the next call can start from |
| GpuRing.Ring.Begin | intel_extreme/accelerant/gpu_ring.cpp:91-178 | in any state: too large exactly when over size - 64 in 32-bit bytes, and then nothing changes; an idle ring never times out; with HEAD standing still it succeeds exactly when the one or two waits would. From a safe state: on success exactly the wrap padding is pending and the reservation plus two DWORDs fit; a failure keeps the ring usable |
| GpuRing.Ring.MakeRoom | intel_extreme/accelerant/gpu_ring.cpp:99-172 | from a safe state the wrap and the wait leave the reservation free above everything unread, with HEAD behind a wrap |
| GpuRing.Ring.Emit | intel_extreme/accelerant/gpu_ring.cpp:181-189 | the position advances modulo the ring and one entry is written; with room left one DWORD is appended to what is pending and nothing unread is overwritten |
| GpuRing.Ring.Advance | intel_extreme/accelerant/gpu_ring.cpp:192-208 | TAIL is published QWORD aligned exactly when the kernel accepts it, and the log then grows by exactly this submission; when it was written into free room, it is the stream's end and TAIL differs from HEAD unless it was empty |
| GpuRing.Ring.Submit | intel_extreme/accelerant/gpu_ring.cpp:234-246 | in any state: the status (an idle ring never times out, and with HEAD standing still a submission of fitting size times out exactly when `CanSubmit` fails), what the ring, the log and TAIL become (`AfterSubmit`, with HEAD moved on by the GPU), and that a refused size changes nothing. From a safe state, under every interleaving: the GPU will read the array, the padding before it and at most one MI_NOOP after it, and TAIL is not equal to HEAD after a non-empty submission |
| GpuRing.Ring.WaitIdle | intel_extreme/accelerant/gpu_ring.cpp:211-224 | once idle, the GPU has fetched the whole published stream; with HEAD standing still the answer is whether it has |
| GpuRing.Ring.Run | intel_extreme/accelerant/gpu_ring.cpp:91-246 | over a whole run of jobs, time-outs and refused sizes included, under every interleaving: the log holds exactly the accepted jobs in order, and the GPU has fetched a prefix of their stream, all of it when idle. A job is refused exactly when it is too large, and none times out before one was accepted. The run ends early only when the kernel refuses a TAIL, or before a job that is not safe; one of at most half of the usable ring is unsafe only when HEAD is ahead at a wrap |
| GpuRing.StreamIsCommandsAndNoops | intel_extreme/accelerant/gpu_ring.cpp:100-110 | with MI_NOOP removed, the stream is the submitted arrays concatenated |
| GpuRing.FetchedCommandsAreAPrefix | intel_extreme/accelerant/gpu_ring.cpp:91-208 | at any moment the GPU has read a beginning of the submitted commands |
| GpuRing.NoopFillKeepsUnreadIff | intel_extreme/accelerant/gpu_ring.cpp:101-108 | the fill before the wait keeps the unread stream exactly when HEAD is not ahead of pos or only MI_NOOP is unread there |
| GpuRing.IdleWrapReadsBackIff | intel_extreme/accelerant/gpu_ring.cpp:112-135 | after a wrap with an idle GPU the padding and the aligned array are read back exactly when the reservation ends at or before the old position |
| GpuRing.IdleWrapLoses | intel_extreme/accelerant/gpu_ring.cpp:192-202 | 599 DWORDs submitted to an idle 1024 DWORD ring at 600: the size check passes, the ring wraps, and the published TAIL equals HEAD |
| GpuRing.HeadGetsAhead | intel_extreme/accelerant/gpu_ring.cpp:99-172 | six submissions of at most half of a 1024 DWORD ring, each as `Submit` leaves the ring while the GPU stands still, after which the fill of the next wrap overwrites unread commands |
| GpuRing.BytesNeededExactIff | intel_extreme/accelerant/gpu_ring.cpp:94-97 | the 32-bit reservation is the true one exactly below 2^30 - 2 DWORDs |
| Cyclic.NextIsModulo | hda/hda_controller.cpp:246-256 | the step to the next entry of a ring is the source's addition modulo its length |
| WidgetGraph.ConnectsById | hda/hda_codec.cpp:554-562 | a widget is connected to another exactly when it lists its node id |
| WidgetTrees.WidgetRoles | hda/hda_codec_defs.h:31-48 | which kinds of widgets and which device numbers the searches pass through, end at and start from |
| WidgetGraph.ReachIsRoute | hda/hda_codec.cpp:919-1035 | the recursive search on a fixed state succeeds exactly when a route of at most 16 - depth connections through unused widgets to a goal exists |
| WidgetGraph.ReachShrinks | hda/hda_codec.cpp:938-943 | flags set by a search only take routes away |
| WidgetGraph.ProgressTransitive | hda/hda_codec.cpp:945-961 | what one search after another does to the widgets composes |
| WidgetGraph.HitKeepsProgress | hda/hda_codec.cpp:951-959 | flagging a widget after a hit keeps every chosen input well-founded, also when an inner search entered the widget again |
| WidgetGraph.RankedLeads | hda/hda_codec.cpp:953-956 | from a ranked widget the active inputs reach a goal over flagged widgets in at most rank hops |
| WidgetRuns.SearchRunFinds | hda/hda_codec.cpp:919-1035 | a search that changes widgets as it goes decides what a search on the unchanged widgets would, and changes nothing when it fails |
| WidgetRuns.SearchRunGrows | hda/hda_codec.cpp:950-959 | a search takes back no flag and changes no choice already made, also when it enters a widget again |
| WidgetRuns.ScanRunExhausts | hda/hda_codec.cpp:945-965 | all inputs are searched, not only up to the first hit: in the end each input is flagged or has no route left |
| WidgetRuns.SearchRunFlagsRoutes | hda/hda_codec.cpp:955-958 | only widgets that had a route of their own when the search began are flagged |
| WidgetRuns.SearchIsThorough | hda/hda_codec.cpp:919-1035 | both hold for every search from a state that earlier searches left; the search methods promise it |
| WidgetSearch.AudioGroup.FindOutputPath | hda/hda_codec.cpp:919-970 | true exactly when a route exists at entry; a false result changes nothing; a true one leaves the widget flagged with a well-founded choice; the widgets end exactly as the specified run leaves them, with no input of the widget left to search and nothing flagged without a route |
| WidgetSearch.AudioGroup.ScanForOutput | hda/hda_codec.cpp:938-965 | the loop over the inputs does the same for a mixer or selector |
| WidgetSearch.AudioGroup.TryPin | hda/hda_codec.cpp:1059-1083 | one input of an output pin: accepted exactly when `PinAccepts`; otherwise nothing changes |
| WidgetRuns.PinAcceptsIff | hda/hda_codec.cpp:1059-1083 | an input is accepted exactly when the pass looks at it and a route of at most 16 connections starts there, or, for headphones only, its last inputs lead to a mixer or selector in use |
| WidgetRuns.UsedIsLastInUse | hda/hda_codec.cpp:936-965 | what a failed search reports as in use is decided by the last input of each widget alone: the chain of last inputs ends at a widget in use, within the depth |
| WidgetRuns.HeadphoneIsServed | hda/hda_codec.cpp:1073-1083 | a headphone pin beside a mixer or selector in use is routed |
| WidgetRuns.HeadphoneNeedsLastInput | hda/hda_codec.cpp:936-965 | a group in which a headphone pin is served or not according to the order of a mixer's inputs |
| WidgetSearch.AudioGroup.FindInputPath | hda/hda_codec.cpp:973-1035 | the same for capture: true exactly when a route through unused widgets to an unused capture pin exists at entry, with the same exact effect |
| WidgetSearch.AudioGroup.ScanForInput | hda/hda_codec.cpp:1005-1030 | the loop over the inputs does the same for a converter, mixer or selector |
| WidgetSearch.AudioGroup.TryConverter | hda/hda_codec.cpp:1106-1124 | one input of a capture converter: accepted exactly when a route starts there; otherwise nothing changes |
| WidgetSearch.AudioGroup.RoutePin | hda/hda_codec.cpp:1059-1085 | an output pin takes the first input it may accept, with a choice that leads on; without one nothing changes |
| WidgetSearch.AudioGroup.BuildOutputTree | hda/hda_codec.cpp:1037-1089 | the pins are handled in order, each on exactly what the ones before it left; true exactly when some candidate pin has a route at entry; every flagged pin leads on; pins left over have no route even at the end, and a headphone pin left over no used mixer or selector to share |
| WidgetSearch.AudioGroup.BuildOutputTrees | hda/hda_codec.cpp:1135-1140 | the two passes fail exactly when no candidate pin has any route, and then change nothing |
| WidgetSearch.AudioGroup.RouteConverter | hda/hda_codec.cpp:1106-1125 | a capture converter takes the first input that has a route in the current state; without one nothing changes |
| WidgetSearch.AudioGroup.BuildInputTree | hda/hda_codec.cpp:1092-1129 | the converters are handled in order, each on exactly what the ones before it left; true exactly when some converter has a route at entry; converters left over have none at the end; routes of different converters are disjoint when no converter is listed as an input |
| WidgetSearch.AudioGroup.BuildTree | hda/hda_codec.cpp:1132-1144 | ENODEV exactly when no output pin has a route; otherwise every flagged mixer, selector, converter and non-headphone pin leads to its goal, no widget is used both ways, no pin feeds two converters, a pin or converter left over has no route through the inputs its pass looks at, a headphone pin left over has no used mixer or selector among them, and the pass over mixers and selectors is the one that counts exactly when it can serve some pin |
| WidgetTrees.UnservedStays | hda/hda_codec.cpp:1041-1087 | a pin that found nothing would find nothing after any later pin: a widget flagged later had a route, so no pin left over lists it |
| WidgetTrees.LeftoverPin | hda/hda_codec.cpp:1132-1140 | a pin with a route is left over only when mixers and selectors served some pin and its routes start directly at a converter; a pin without a mixer or selector input always is then; a headphone pin never is beside a used mixer or selector that the pass looks at |
| WidgetSearch.AudioGroup.AdcReachesFixedMic | hda/hda_codec.cpp:1370-1394 | true exactly when the active inputs lead in at most 15 connections to a pin that is a fixed microphone |
| WidgetTrees.OutputTreeIsRouted | hda/hda_codec.cpp:1073-1083 | in a finished output tree every flagged widget leads to an output converter within 17 hops |
| WidgetTrees.OwnedRoutesAreDisjoint | hda/hda_codec.cpp:1117-1123 | when each captured widget belongs to one converter, no two converters' routes share a widget |
| WidgetTrees.OwnedStep | hda/hda_codec.cpp:1005-1023 | routing a converter takes only widgets that no other converter has |
| WidgetTrees.RoutedConverterMic | hda/hda_codec.cpp:1378-1393 | for a routed converter the answer is about the pin that feeds it exactly when the route has at most 16 widgets |
| WidgetRuns.LongRouteMissesMic | hda/hda_codec.cpp:1370-1394 | a chain on which the search routes the converter to a fixed microphone over 17 connections and the test for the built-in microphone fails |
| WidgetTrees.TrailUnique | hda/hda_codec.cpp:1385-1390 | the active inputs lead to at most one pin |
| ConnectionList.GetConnections | hda/hda_codec.cpp:565-643 | the inputs are the first 32 ids of what the list means, as far as its words arrive; the active input is 0 for one input, else the codec's selection where that was asked for, else what it was, so a fresh widget is left without one or with its only one |
| ConnectionList.ParseEntries | hda/hda_codec.cpp:591-637 | the same for the entry loop |
| ConnectionList.AddEntry | hda/hda_codec.cpp:611-634 | one entry, single, range or invalid range, keeps the meaning of inputs found plus entries left |
| ConnectionList.EncodedReadsBack | hda/hda_codec.cpp:611-634 | every list of ids, written with ranges as the specification encodes it, is read back |
| ConnectionList.StrayRangeEnds | hda/hda_codec.cpp:617-626 | the end of a range adds nothing at the beginning, after another range, or below the id before it |
| ConnectionList.ShortFields | hda/hda_codec.cpp:611-616 | in the short form the four bytes of a word are its entries, the low one first, a byte from 0x80 on ending a range |
| ConnectionList.LongFields | hda/hda_codec.cpp:611-616 | in the long form the two halves are, a half from 0x8000 on ending a range |
| ConnectionList.EntriesInOrder | hda/hda_codec.cpp:597-612 | the entries are the fields of the words in order, up to the first word that does not arrive |
| ConnectionList.LengthParts | hda/hda_codec.cpp:575-590 | the number of entries, the form in bit 7 and the form the source takes are read back from every length response |
| ConnectionList.FormAgreesIff | hda/hda_codec.cpp:575-576 | the entry width agrees with the specification exactly when bit 7 is set or fewer than 16 entries are listed |
| HdaTransport.Transport.constructor | hda/hda_controller.cpp:631-671 | the initial positions are a drained state |
| HdaTransport.Transport.Environment | hda/hda_controller.cpp:349-409 | every interleaving of fetches, responses, unsolicited responses and handler steps loses and reorders nothing, solicited or not, and keeps a drained state drained; the codec's unsolicited responses are taken in order, the last sixteen are in their buffer and its semaphore counts all of them |
| HdaTransport.Transport.HandlerExamine | hda/hda_controller.cpp:372-405 | what looking at one RIRB entry does: an answer is stored or, beyond the sixteenth, dropped; an unsolicited response goes to its buffer and releases its semaphore; an entry of another codec, and a seventeenth answer, leave both as they were; all but a stored answer move the handler on |
| HdaTransport.Transport.HandlerRun | hda/hda_controller.cpp:366-408 | an undisturbed run of the handler takes everything unread: all answers in order, as many stored and released as there is room for, all unsolicited responses with their releases |
| HdaTransport.Transport.HandlerRelease | hda/hda_controller.cpp:406-407 | the semaphore counts exactly the stored responses |
| HdaTransport.Transport.StoreUnsolicited | hda/hda_controller.cpp:386-395 | the response is written at the position of its ring, which moves on modulo 16, and the semaphore is released once |
| HdaTransport.Transport.TakeUnsolicited | hda/hda_controller.cpp:386-395 | taking one keeps the last sixteen unsolicited responses in the buffer and the answers as they were |
| HdaTransport.Transport.QueueVerb | hda/hda_controller.cpp:1052-1056 | a verb is appended to the CORB and no unread entry is overwritten |
| HdaTransport.Transport.RoomToQueue | hda/hda_controller.cpp:1040-1050 | the slot that differs from the read position looked at earlier is free although the controller has read on since |
| HdaTransport.Transport.AcquireSem | hda/hda_controller.cpp:1061-1064 | the wait takes the releases exactly when there are enough of them at one of its looks, at least one; enough at the start always are |
| HdaTransport.Transport.QueueRound | hda/hda_controller.cpp:1040-1058 | verbs are queued in order as far as the CORB looks free; from an empty CORB of any length of at least 2 at least one |
| HdaTransport.Transport.SendRound | hda/hda_controller.cpp:1039-1065 | a round that succeeds queued a verb and took that many releases; without anything left from earlier calls it ends with an empty CORB |
| HdaTransport.Transport.AllAnswered | hda/hda_controller.cpp:1061-1064 | once every issued verb is paid for by a release, all verbs are fetched, all answers stored in order, and nothing is left in any ring |
| HdaTransport.Transport.StartCall | hda/hda_controller.cpp:1031-1037 | a call keeps the verbs that earlier calls left unanswered and the releases they left on the semaphore |
| HdaTransport.Transport.SendVerbs | hda/hda_controller.cpp:1031-1076 | in any state and under every interleaving, B_OK means: each entry below the response count is the codec's answer to the outstanding verbs of earlier calls followed by these, in order, each other entry is what the array held; without leftover releases there are at most 16 verbs and every entry is such an answer. From a drained state: the codec took exactly these verbs, the result is its answer to each, the semaphore is zero and the state drained. It fails only when releases for the verbs it sent are missing or when the CORB is full. The call ends |
| HdaTransport.Transport.DrainedIff | hda/hda_controller.cpp:1031-1076 | a state is drained exactly when no verb is outstanding and no release is left over |
| HdaTransport.Transport.LateAnswerIsTaken | hda/hda_controller.cpp:1059-1075 | with a verb outstanding: its late answer becomes the result of the next call |
| HdaTransport.Transport.StaleReleaseIsTaken | hda/hda_controller.cpp:1059-1075 | with a release left over: the next call returns the old entry before the codec has taken its verb |
| StreamClock.FramesCountsFrameEnds | hda/hda_controller.cpp:312-320 | the frame position counts exactly the frames that end within the bytes, padding included |
| StreamClock.FramesPerCycle | hda/hda_controller.cpp:325-326 | a whole cycle of bytes adds a whole cycle of frames |
| StreamClock.ProcessedIsGapIff | hda/hda_controller.cpp:322-327 | an interrupt adds the true number of frames exactly when it is below a cycle, or a cycle from the very start to the very end |
| StreamClock.RunCountsAllFrames | hda/hda_controller.cpp:318-338 | over any run of such interrupts the sum is the true number of frames |
| StreamClock.BufferIndexIsNearest | hda/hda_controller.cpp:299-306 | the buffer chosen is the one whose start is nearest to the position |
| StreamClock.Stream.Start | hda/hda_controller.cpp:761-782 | wherever the link was stopped: the counter starts true exactly when no frame of the current cycle is complete there, as after a reset |
| StreamClock.Stream.LinkFramePosition | hda/hda_controller.cpp:312-320 | the subtraction loop computes the frame position |
| StreamClock.Stream.HandleInterrupt | hda/hda_controller.cpp:262-346 | interrupts that are not completions change nothing; a handled one adds what `Processed` says modulo 2^64, moves the position, picks the buffer, counts wrong positions and wakes the reader once. With less than a cycle since the last one it keeps the counter as far from the true total as it was, so a true one stays true; the first one after a start brings in the error of the start |
| StreamClock.Stream.FramesSince | hda/hda_controller.cpp:322-326 | the 32-bit subtraction does not wrap and gives the frames from one position to the next in the cycle |
| StreamClock.StartIsRightIff | hda/hda_controller.cpp:761-782 | after a start anywhere in the buffers the counter is right exactly when no frame of the cycle was complete there, or all were and the next cycle has begun |
| StreamClock.RestartCountsOldFrames | hda/hda_multi_audio.cpp:1166-1179 | after a start in the middle of a cycle the counter is off by exactly the frames of that cycle played before |
| StreamClock.RestartExample | hda/hda_multi_audio.cpp:1166-1179 | a stream stopped after three frames and started again without a reset counts four when one more is played |
| IdctReference.TableMirror | intel_extreme/accelerant/idct_ref.h:35-46 | row 7 - j of the table is row j with odd entries negated |
| IdctReference.TableIsCosines | intel_extreme/accelerant/idct_ref.h:21-46 | the entries obey the product formula of cosines along every row and down the second column, up to their rounding |
| IdctReference.RowsAreOrthogonal | intel_extreme/accelerant/idct_ref.h:35-46 | different rows are orthogonal and each has square length 2^31, within 77960 |
| IdctReference.PassInvertsForward | intel_extreme/accelerant/idct_ref.h:124-153 | the sums of a pass undo the forward cosine transform of any eight samples: each gives its sample back times 2^31, within 77960 times the sum of their absolute values |
| IdctReference.NoStepWraps | intel_extreme/accelerant/idct_ref.h:124-153 | for blocks with absolute coefficient sum up to 2953 no partial sum leaves 32 bits and no narrowing loses a bit |
| IdctReference.LargerNormWraps | intel_extreme/accelerant/idct_ref.h:132-140 | 2953 is sharp: a sum of 2954 can wrap in the row pass |
| IdctReference.OutIsAccurate | intel_extreme/accelerant/idct_ref.h:121-154 | every output is within 0.56 of the exact double cosine sum over 2^31 |
| IdctReference.HorizontalMirror | intel_extreme/accelerant/idct_ref.h:124-153 | negating the odd horizontal frequencies of any block mirrors the output left to right bit for bit |
| IdctReference.VerticalMirrorIff | intel_extreme/accelerant/idct_ref.h:124-153 | for every block, wrapping included, the top to bottom mirror holds at an output exactly where the sign errors of the odd rows do not carry the column sum over a rounding boundary |
| IdctReference.VerticalMirrorWithoutTies | intel_extreme/accelerant/idct_ref.h:124-153 | without such sign errors it holds, for every block |
| IdctReference.VerticalMirrorFails | intel_extreme/accelerant/idct_ref.h:124-153 | a block for which it fails |
| IdctReference.ComputeIdctReference | intel_extreme/accelerant/idct_ref.h:121-154 | the loops compute the transform that the lemmas are about, over the table that `TableIsCosines` and `RowsAreOrthogonal` tie to the cosines |
| Gem2d.Batches.Begin | intel_extreme/accelerant/gem2d.cpp:157-178 | the other buffer becomes the open, empty batch, and the GPU does not hold it |
| Gem2d.Batches.CopyIn | intel_extreme/accelerant/gem2d.cpp:237-238 | a command is appended whole, to a buffer the GPU does not hold |
| Gem2d.Batches.WriteTrailer | intel_extreme/accelerant/gem2d.cpp:191-197 | what the GPU is given is the payload, the end marker and padding to 8 bytes, within the buffer |
| Gem2d.Batches.End | intel_extreme/accelerant/gem2d.cpp:181-220 | a non-empty batch is submitted as it was built; a refused one switches acceleration off |
| Gem2d.Batches.Add | intel_extreme/accelerant/gem2d.cpp:223-239 | the command lies whole in the batch now open, submitting the previous one exactly when it does not fit; submitted plus open payload is everything added |
| Gem2d.Batches.WaitIdle | intel_extreme/accelerant/gem2d.cpp:242-249 | afterwards the GPU holds neither buffer, unless acceleration is off, and then nothing changes |
| Gem2d.Batches.Run | intel_extreme/accelerant/gem2d.cpp:157-249 | for every sequence of begin, add, end and wait calls without a failed submission, with the GPU retiring batches between them: the submitted batches and the open one are exactly those of the value model (`AfterCalls`) and hold exactly what was added, in order, each batch well formed, and a buffer that the GPU still holds contains what was submitted in it |
| FillSpan.BlitRoundTrip | intel_extreme/accelerant/engine.cpp:631-637 | a blit command is a scanline blit whose top is its bottom, and carries its span whole |
| FillSpan.ChunksDrawAllSpans | intel_extreme/accelerant/engine.cpp:626-640 | the chunks draw every span once and in order, each after a setup command in its own batch, and every command behind it is such a blit |
| FillSpan.ChunkEndIff | intel_extreme/accelerant/engine.cpp:628-628 | the 32-bit chunk end is right exactly when the sum does not wrap |
| FillSpan.LoopEndsIff | intel_extreme/accelerant/engine.cpp:626-640 | some round starts behind the last span exactly when there are at most 2^32 - 1024 |
| FillSpan.FillRounds | intel_extreme/accelerant/engine.cpp:626-640 | for every 32-bit count and number of rounds: the loop is done within them exactly when they are enough and there are at most 2^32 - 1024 spans, and then exactly the chunks were submitted |
| FillSpan.EmitChunk | intel_extreme/accelerant/engine.cpp:629-639 | one chunk becomes exactly one submitted batch |
| FillSpan.IntelFillSpan | intel_extreme/accelerant/engine.cpp:609-642 | for any number of spans up to 2^32 - 1024 exactly the chunks are submitted; above, the loop does not end (`FillRounds`) |
| QueueCommands.WrittenWithoutWrap | intel_extreme/accelerant/engine.cpp:105-110 | the copy and the DWORD by DWORD path write the same ring |
| QueueCommands.WrittenReadsBack | intel_extreme/accelerant/engine.cpp:97-117 | a command is read back whole across the wrap |
| QueueCommands.WrittenAt | intel_extreme/accelerant/engine.cpp:97-117 | entry by entry, nothing else changes |
| QueueCommands.RingBuffer.Put | intel_extreme/accelerant/engine.cpp:97-117 | both paths meet that specification and advance the position |
| LinkRatio.HalvingKeepsFloor | intel_extreme/accelerant/Pipes.cpp:265-268 | shifting M and N together keeps M the exact rounded ratio |
| LinkRatio.FirstN | intel_extreme/accelerant/Pipes.cpp:257-263 | the first N is the power of two at the link speed, capped at 2^23 |
| LinkRatio.Shrink | intel_extreme/accelerant/Pipes.cpp:265-268 | the loop ends with the largest N whose M fits 24 bits, and with N = 0 exactly for ratios from 2^24 |
| LinkRatio.ComputeMN | intel_extreme/accelerant/Ports.cpp:1898-1909 | M is exactly the scaled ratio rounded down, N a power of two up to 2^23, as large as fits; M/N is at most the true ratio and (M+1)/N above it |
| LinkRatio.TuSizeIsSeparate | intel_extreme/accelerant/Pipes.cpp:269-270 | M is read back from the low 24 bits, and the bits above are 0x7e000000 for every M |
| LinkRatio.LinkSpeedExactIff | intel_extreme/accelerant/Pipes.cpp:256-256 | the 32-bit link speed is the true one exactly below 2^29 lanes times kHz |
| LinkRatio.SetFDILink | intel_extreme/accelerant/Pipes.cpp:233-297 | the error cases; both ratios of a link are exact and as large as fits, and the transfer-unit bits stay apart from M |
| HdmiPll.FindDivider | intel_extreme/accelerant/TigerLakePLL.cpp:111-122 | the first of the dividers nearest to the middle of the DCO range, or none exactly when none is in range |
| HdmiPll.SplitIsExact | intel_extreme/accelerant/TigerLakePLL.cpp:124-161 | every listed divider is the product of its P, Q and K, which the hardware accepts |
| HdmiPll.ListedIff | intel_extreme/accelerant/TigerLakePLL.cpp:95-104 | the list has exactly the dividers up to 102 that have legal factors |
| HdmiPll.AfeClock | intel_extreme/accelerant/TigerLakePLL.cpp:109-109 | five times the frequency in MHz, rounded towards zero |
| HdmiPll.ComputeHdmiDpll | intel_extreme/accelerant/TigerLakePLL.cpp:88-170 | success exactly when a divider is in range, with the best one, its factors, and a DCO of 7998 to 10000 MHz that is the divider times the AFE clock |
| PipeAssign.Display.FirstPass | intel_extreme/accelerant/accelerant.cpp:458-473 | preferences are met and their pipes marked |
| PipeAssign.Display.SecondPass | intel_extreme/accelerant/accelerant.cpp:475-490 | leftover ports get the unpreferred pipes in ascending order, each once, none left out |
| PipeAssign.Display.AssignPipes | intel_extreme/accelerant/accelerant.cpp:442-493 | every connected port with a preference has that pipe, unconnected ports are as they were, every other connected port gets a free pipe of its own, and one is without a pipe only when every pipe is taken |
| AuxChannel.BuildTransmit | intel_extreme/accelerant/Ports.cpp:743-772 | a request is accepted exactly when it has at most 16 bytes, a buffer for them and a known kind; the sink then understands it as it was meant, with the address cut to 20 bits |
| AuxChannel.KindOf | intel_extreme/accelerant/Ports.cpp:743-751 | the request codes that write and those that read, with or without bit 2 |
| AuxChannel.PackWords | intel_extreme/accelerant/Ports.cpp:899-909 | the bytes can be read back from the registers, for every length |
| AuxChannel.UnpackReply | intel_extreme/accelerant/Ports.cpp:937-953 | the reply bytes are those in the registers, cut to the room there is; an impossible count stores nothing |

## Left out

- Registers, areas, fences, sleeps and ioctls themselves; their effects are parameters, free choices or
  environment steps.
- GpuRing.Ring.Submit: after the kernel refuses a TAIL write only the published stream is claimed, because
  the producer then carries unpublished commands that no later space check accounts for.
- GpuRing.Ring.constructor: starts from an idle GPU; commands of an earlier owner of the ring are not
  modelled.
- HdaTransport.Transport.SendVerbs: beyond 16 verbs only the sixteen responses there are appear in the
  result. Waiting for zero releases is taken to fail, as in Haiku's kernel.
- HdaTransport.Transport.Environment: the RIRB is taken not to overrun, calls for one codec are serialised,
  and the buffers of other codecs are not modelled.
- WidgetSearch.AudioGroup.BuildTree: a headphone pin that was accepted for a used widget need not lead to a
  converter; `PinAcceptsIff` says when that happens, and no more is claimed about its route.
- Node ids equal to the first id plus the widget count, which the source's range check lets through, are
  excluded.
- Writing the chosen connections to the codec, and the default of input 0 for widgets without a choice.
- Gem2d.Batches.Add: runs in which the submission inside it is refused are not modelled; the source then
  copies into a batch that is no longer open. Commands are whole DWORDs.
- FillSpan.IntelFillSpan: needs at most 2^32 - 1024 spans; beyond that the source's loop does not end.
- Gem2d.Batches.WaitBatch: waiting for a buffer is taken to succeed; the source ignores the result of the
  wait, and a failed one would let the CPU write a buffer that the GPU holds.
- QueueCommands.RingBuffer.Put: space accounting and the TAIL update of the legacy ring are not modelled.
- HdmiPll.ComputeHdmiDpll: frequencies are whole MHz; 5 * freq must fit an int.
- Register lookups of bits per pixel and lanes in the DisplayPort variants of the link setup; retries and
  reply codes of AUX transfers.
- FDI training, panel power, cursor, overlay, mode tables, codec quirks, mixer controls, PCI setup, the
  emitters of single generations, the media pipeline and the test tools: register plumbing, tables or
  straight-line code.
