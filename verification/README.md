# Terminal replication, verified

These modules model how a terminal's screen travels from its native state to a remote viewport, and the parts around that path: the
frame protocol that carries bytes, the outbox that collects what a terminal answers, the identifiers of the runs that own terminals,
and the schedules of the replay corpus. Each part is modelled in the form its source has: objects that change are classes over real
arrays and fields, loops are loops, and everything computed from values is a function. Each method is tied by its `ensures` to a
function on values, and the properties of those functions are lemmas.

`dafny verify dfyconfig.toml` checks the whole project.

## How the modules fit together

| modules | what they are about |
|---|---|
| `Bytes`, `Options` | fixed-width numbers, big-endian bytes, optional values |
| `Utf8Text`, `Utf8Laws` | UTF-16 strings, their UTF-8 encoding (section 3 of RFC 3629) and lenient decoding |
| `RenderModel` | cells, rows, snapshots, and packed colors and styles |
| `PackedUpdate` | the packed update layout as a function of a snapshot, and its validator |
| `ViewportModel` | the receiving side as values: applying updates and reading rows back |
| `RetainedViewport` | the receiving class: flat arrays copied into in place, and caches of decoded texts and rows |
| `NativeTerminal`, `CellLaws` | the native render state, what it is assumed to guarantee, and what one visible cell shows of it |
| `CoreModel`, `ReplicaAgreement` | snapshot and frame stream as transitions, and theorems over whole runs of them |
| `UpdateContents` | which rows the updates of a run carry |
| `StolenReads` | what a consuming read outside the frame stream costs the replica |
| `CapacityPolicy` | buffer growth and the idle policy |
| `LeaseRing` | the lease protocol on its own, over every sequence of operations |
| `UpdateSlot`, `RenderUpdateBuilder` | slots of eight arrays filled in place, and the builder that leases, takes back and trims them |
| `RowCache`, `TerminalCore` | retained rows overwritten in place, and the core class that does what `CoreModel` says |
| `PtyAttachment` | the PTY reply callback, replay, atomic restore and disposal |
| `TerminalProtocol`, `ProtocolStream` | the frame codec, streams cut anywhere, byte ranges |
| `EffectOutbox`, `EffectLaws` | the bounded callback recorder, and what its success and its errors mean |
| `SortableIds`, `RunRepair` | the identifier generator, and the migration that relies on its order |
| `CorpusSchedule` | the check of a fixture's event schedule |

## Assumptions about the outside

- The native render state iterates exactly its `rows` rows; dirty flags stay until cleared; a resize, reset, theme change or new
  handle reports everything dirty (`NativeTerminal.Advances`). VT parsing, native allocation and the snapshot format are foreign.
- Only update requests consume dirty flags, although a direct `snapshot()` consumes them by default. What one such call costs is stated
  exactly: unless the next update has to carry every row anyway, each stale row stays as stale as it was
  (`StolenReads.StolenRowsStayStaleIff`, `TheftIsHarmlessIff`; `StolenLetter` is an input with two frames).
- A replica gives a lease back only after applying its update, and applies updates in the order they were delivered.
- The code checks neither whose storage a returned lease brings nor how large it is. After an accepted return the builder is in order
  if and only if the eight blocks are different ones and no other slot's, and its byte accounting stays exact if and only if they are
  as large as the slot's own were; `Reclaim` says both. `Release` needs no such promise, since it returns the lease's own storage.
- Native allocation and attaching the PTY callback do not fail; a native constructor returns a handle not seen before.
- Times, random bytes, what parsing makes a terminal answer, and what native getters return are parameters.

## Where the code does less than is said of it

- A cell whose text starts with U+FEFF loses that character in the viewport, because each cell is decoded as a text of its own and a
  leading byte order mark is dropped; unpaired surrogates become U+FFFD. `Utf8Text.SeenIsIdentityIff` and
  `RenderModel.SeenCellIsIdentityIff` say exactly which cells survive.
- The frame header keeps the low 32 bits of the payload length, whatever payload limit the codec was given.
  `TerminalProtocol.RoundTripIff` has the exact condition and `LongPayloadIsLost` an input.
- The identifier counter starts at a random value and starts over after 1 to 4096 identifiers in one timestamp; identifiers then go
  down. `SortableIds.LaterIsGreaterIff` says for any two calls when the later identifier is the greater, `RunRepair.KeptIffIssued`
  and `KeptIsLastIssuedIff` when the migration keeps the newest run, and `WrapKeepsTheOlder` shows it keeping the older of two.

## Model

| member | source | states |
|---|---|---|
| Utf8Text.Utf8AtMostThreePerUnit | packages/ghostty-core/src/render-update.ts:254-257 | UTF-8 needs at most three bytes for each UTF-16 code unit, for every text, well-formed or not |
| Utf8Text.EncodeIntoIsComplete | packages/ghostty-core/src/render-update.ts:303-308 | encoding into a room of three bytes a unit writes the whole text |
| Utf8Text.EncodeIntoIsPrefix | packages/ghostty-core/src/render-update.ts:303-305 | with any room, what is written is whole characters from the front, and the first one left out would not have fitted |
| Utf8Text.TextReadsBack | packages/ghostty-core/src/viewport-model.ts:77-94 | decoding the encoded text gives the text with unpaired surrogates replaced and one leading mark dropped |
| Utf8Text.SeenIsIdentityIff | packages/ghostty-core/src/viewport-model.ts:90 | a text survives encoding and decoding exactly if it is well-formed and does not start with U+FEFF |
| Utf8Text.LeadingMarkIsLost | packages/ghostty-core/src/viewport-model.ts:16-16 | a concrete text that does not survive |
| Utf8Laws.Utf8KeepsOrder | packages/ghostty-core/src/render-update.ts:305 | the encodings of two scalar values differ first in a byte that is greater for the greater value, so neither begins the other |
| Utf8Laws.DecodeHeadIsMaximal | packages/ghostty-core/src/viewport-model.ts:90 | the decoder reads a whole encoding where the bytes begin with one; else it replaces the longest part that begins one, or one byte |
| RenderModel.ColorReadsBack | packages/ghostty-core/src/render-update.ts:61-71 | packing and unpacking a color keeps the low byte of each channel, so all of it exactly for channels in 0..255 |
| RenderModel.CellReadsBack | packages/ghostty-core/src/render-update.ts:73-84 | the style word, both colors and the bytes of any cell unpack to the cell as seen through the packed form |
| RenderModel.SeenCellIsIdentityIff | packages/ghostty-core/src/render-update.ts:11-25 | a cell survives packing exactly if text, channels, width 0..3 and underline 0..7 are representable |
| RenderModel.SeenRowIsIdentityIff | packages/ghostty-core/src/viewport-model.ts:247-279 | a row survives, trimmed text included, exactly if all its cells do |
| PackedUpdate.SortRowsSorts | packages/ghostty-core/src/render-update.ts:245-247 | the included rows list the dirty set once each, strictly increasing |
| PackedUpdate.PayloadSlice | packages/ghostty-core/src/render-update.ts:300-308 | offset and length of every cell address exactly its own bytes in the joined payload |
| PackedUpdate.FlatSlab | packages/ghostty-core/src/render-update.ts:293-314 | included row k takes up the k-th run of `cols` packed cells |
| PackedUpdate.ValidateRenderUpdate | packages/ghostty-core/src/render-update.ts:473-525 | the validator's loops accept exactly the well-formed updates: header, lengths, ascending rows, payload bounds, colors |
| PackedUpdate.WellFormedIff | packages/ghostty-core/src/render-update.ts:473-525 | well-formed are exactly the updates of a grid of 1 to 65535 rows and columns with safe positive counters, ascending flagged rows of that grid, all of them if full, and cells whose bytes and colors can be read |
| PackedUpdate.PackValidatesIff | packages/ghostty-core/src/render-update.ts:316-339 | the packed form of a snapshot validates exactly under the caller's conditions on sizes, ids and dirty rows |
| ViewportModel.ApplyIsSound | packages/ghostty-core/src/viewport-model.ts:129-142 | an update is accepted exactly if valid, newer, and full where the generation or the size is new; a refusal changes nothing |
| ViewportModel.TakesIff | packages/ghostty-core/src/viewport-model.ts:129-137 | taken are exactly the well-formed updates of a later generation, or a later frame of the same, that are full or leave generation and size |
| ViewportModel.TakenOnce | packages/ghostty-core/src/viewport-model.ts:131-132 | after an update is taken, neither it nor any older one is, and offering one changes nothing |
| ViewportModel.EmptyTakesFull | packages/ghostty-core/src/viewport-model.ts:28-39 | a new viewport takes every well-formed full update and no other |
| ViewportModel.AppliedHeader | packages/ghostty-core/src/viewport-model.ts:138-149 | an accepted update sets frame, generation and size, and leaves a valid viewport |
| ViewportModel.PackedRowReadsBack | packages/ghostty-core/src/viewport-model.ts:151-188 | an included row of a packed snapshot, copied into the retained arrays and materialized, is the snapshot's row as seen |
| ViewportModel.PackedRowIsPadded | packages/ghostty-core/src/render-update.ts:293-313 | for any snapshot, rows and cells it lacks read back as blanks in its default colors without flags, and cells beyond its width are cut |
| ViewportModel.DeliveredLine | packages/ghostty-core/src/viewport-model.ts:151-190 | an accepted update replaces exactly the rows it includes and keeps all others |
| ViewportModel.DeliveryAgrees | packages/ghostty-core/src/viewport-model.ts:129-191 | a viewport that shows all rows not dirty shows the whole snapshot after applying its update |
| RetainedViewport.CopyTexts | packages/ghostty-core/src/viewport-model.ts:162-182 | the two column loops copy a row's texts side by side with their offsets and lengths, touch no other entry, and never meet the refusal between them |
| RetainedViewport.TakeRow | packages/ghostty-core/src/viewport-model.ts:153-187 | one row is copied to its place in the flat arrays; every other row keeps its line and its caches |
| RetainedViewport.GhosttyViewportModel.Apply | packages/ghostty-core/src/viewport-model.ts:129-191 | applying in place does what the function on values says, for any update; both refusals in the middle are unreachable; the dirty set is the rows included |
| RetainedViewport.GhosttyViewportModel.TextAt | packages/ghostty-core/src/viewport-model.ts:77-94 | whatever was cached and applied before, a cell's text is the one its row holds now, and none outside the grid |
| RetainedViewport.GhosttyViewportModel.MaterializeRow | packages/ghostty-core/src/viewport-model.ts:247-279 | a materialized row, cached or not, is the one the arrays hold now |
| RetainedViewport.GhosttyViewportModel.Snapshot | packages/ghostty-core/src/viewport-model.ts:194-212 | every row of a snapshot is the one the arrays hold now, in order |
| CoreModel.SnapshotKeepsTexts | packages/ghostty-core/src/core.ts:1415-1426 | over reads, resizes and rows left alone, every cached row's text is the right-trimmed join of its cells |
| CoreModel.SnapshotFrame | packages/ghostty-core/src/core.ts:940-954 | size and default colors are read anew exactly if everything is dirty or nothing has been read; else they are those of the last time |
| NativeTerminal.TextDecodes | packages/ghostty-core/src/core.ts:1305-1323 | decoding the text of a cell gives all its code points back, in order, for every sequence of scalar values |
| NativeTerminal.TextOfJoins | packages/ghostty-core/src/core.ts:1320-1322 | texts join as their code points do, surrogates among them included |
| CellLaws.WidthsAreNativeIff | packages/ghostty-core/src/core.ts:1373-1401 | all shown widths are the stored ones if and only if the cells whose width is not asked for (one printable ASCII character, or nothing away from a text and the edge) are stored as narrow |
| CellLaws.ShownColors | packages/ghostty-core/src/core.ts:1327-1372 | an unstyled cell has the defaults; inverse exchanges the two colors, and faint puts the foreground midway to the background it then has, which is never blended |
| CellLaws.SelectedColumns | packages/ghostty-core/src/core.ts:1414 | selected are exactly the columns from the first to the last of the selection, both included |
| CellLaws.ShownCursor | packages/ghostty-core/src/core.ts:955-959 | no cursor out of the viewport; in it, on the first half of a wide character and otherwise where the terminal has it |
| CellLaws.TextsJoin | packages/ghostty-core/src/core.ts:1415-1424 | the joined text of a row is that of its parts, an empty cell standing for one blank |
| ReplicaAgreement.SnapshotReadsGrid | packages/ghostty-core/src/core.ts:934-1019 | a snapshot returns the visible grid although it reads only flagged rows, and clears flags only when consuming |
| ReplicaAgreement.StepKeeps | packages/ghostty-core/src/core.ts:1033-1055 | every step (mutation, reset, inspection, request, late application, returned or bogus lease) keeps cache, updates, leases, flags, counters and replica in agreement |
| ReplicaAgreement.QueueFits | packages/ghostty-react/src/worker/worker-terminal-core.ts:273-277 | updates that wait hold slots of their own, so at most as many wait as are in flight |
| ReplicaAgreement.WaitingLosesNothing | packages/ghostty-core/src/core.ts:1034-1035 | over any stretch of refused requests, inspections, late applications and returns, the next request builds the very update it would have built before |
| ReplicaAgreement.ReplicaShowsWhatItTook | packages/ghostty-core/src/core.ts:934-1055 | at any point of any run, however far the replica lags: it shows the grid of the last update it took; frame ids are 1, 2, 3, ...; generations start at 1 and go up by one exactly where the size differs from the update before; no more updates wait than slots are in flight; once caught up on a clean terminal it shows every row |
| ReplicaAgreement.ReplicaShowsTheRequestedGrid | packages/ghostty-react/src/worker/worker-terminal-core.ts:266-279 | a replica that has applied the update of a request and no later one shows the grid at that request, whatever happened since |
| ReplicaAgreement.ShownRowIsExactIff | packages/ghostty-core/src/core.ts:934-1055 | a shown row equals the visible row exactly if its cells are representable |
| ReplicaAgreement.ReturnMakesRoom | packages/ghostty-core/src/core.ts:1034-1035 | in any state of a run, once a current lease of an applied update is back, the next request delivers |
| UpdateContents.RequestCarries | packages/ghostty-core/src/core.ts:1037-1054 | over any run, a delivering request sends exactly the rows reported dirty, in ascending order; it is full, with every row, if and only if that was asked for, nothing was sent before, the size differs from the last update sent, or every row is dirty |
| StolenReads.StolenRowsStayStaleIff | packages/ghostty-core/src/core.ts:928-934 | after a direct consuming snapshot, at any level of dirtiness, an update that is neither the first nor of a new size nor asked to be full leaves each row's line as it was: shown if and only if it was shown before |
| StolenReads.RestartShowsAll | packages/ghostty-core/src/core.ts:1037-1054 | where it is one of these three, the update carries every row and the whole grid is shown |
| StolenReads.TheftIsHarmlessIff | packages/ghostty-core/src/core.ts:928-934 | so the replica shows every row after the next delivery if and only if that update is one of these three or no row was stale at the theft |
| StolenReads.StolenLetter | packages/ghostty-core/src/core.ts:934 | a concrete terminal of one cell whose second frame, after a direct snapshot, still shows the blank where an `a` was written |
| CapacityPolicy.GrowCapacity | packages/ghostty-core/src/core.ts:1224-1228 | the doubling loop computes the capacity function, from one or from 64 |
| CapacityPolicy.DoublingIsLeast | packages/ghostty-core/src/core.ts:1224-1228 | the capacity is the start times the least sufficient power of two |
| CapacityPolicy.NextCapacityIsLeast | packages/ghostty-core/src/render-update.ts:137-141 | the capacity is a power of two, at most any sufficient one, and less than twice what is required |
| CapacityPolicy.ReclaimsIff | packages/ghostty-core/src/idle-reclaim.ts:18-35 | capacity goes back exactly if nothing is in flight or queued, half a minute has passed without activity and a minute without a capacity change, a mebibyte or more is freed, and at most a quarter stays |
| LeaseRing.CountsKept | packages/ghostty-core/src/render-update.ts:341-346 | leases built are leases reclaimed plus leases in flight, before and after every operation |
| LeaseRing.LeasesAreLinear | packages/ghostty-core/src/render-update.ts:261-391 | over every sequence of leases and returns: counts balance, no ticket is issued twice or accepted twice, only issued ones are accepted |
| LeaseRing.SpentIsRefused | packages/ghostty-core/src/render-update.ts:376-380 | a ticket once returned or superseded is refused from then on, and a refusal changes no slot |
| LeaseRing.LeasesFirstFree | packages/ghostty-core/src/render-update.ts:239-262 | a lease is refused exactly if every slot is in flight; else the first free slot goes out under its next token and no other changes |
| LeaseRing.ReturnsCurrent | packages/ghostty-core/src/render-update.ts:375-391 | a return is accepted exactly for a slot in flight under that token with usable storage, and frees that slot alone |
| LeaseRing.CallsAreCounted | packages/ghostty-core/src/render-update.ts:239-391 | over any operations, every request is counted as a lease or a refusal and every return as taken or rejected |
| LeaseRing.PeakIsReached | packages/ghostty-core/src/render-update.ts:344-345 | over any operations, the peak counter is the most that were in flight at any time, and was reached |
| UpdateSlot.ReserveGraphemes | packages/ghostty-core/src/render-update.ts:249-259 | the nested loops reserve three bytes for every code unit of the included rows |
| UpdateSlot.ReservesForText | packages/ghostty-core/src/render-update.ts:249-259 | for ASCII text what is reserved is exactly three times the payload |
| UpdateSlot.EnsureBuffer | packages/ghostty-core/src/render-update.ts:143-159 | a buffer is kept if long enough, else replaced by one of the next capacity |
| UpdateSlot.Slot.WriteText | packages/ghostty-core/src/render-update.ts:302-308 | one cell's bytes are written in full behind the payload so far, and nothing else moves |
| UpdateSlot.Slot.Fill | packages/ghostty-core/src/render-update.ts:291-314 | the filling loops leave every row number, flag, offset, length, color, style and byte of the packed snapshot in the arrays |
| UpdateSlot.Slot.Build | packages/ghostty-core/src/render-update.ts:261-340 | building hands out views whose contents are the packed snapshot, advances the token by one, keeps each buffer that is long enough and not empty and replaces each other one by the next capacity, and notes what it used |
| UpdateSlot.Slot.TargetBytes | packages/ghostty-core/src/render-update.ts:399-408 | the target size is never below what the last build used |
| UpdateSlot.Slot.TargetIsTight | packages/ghostty-core/src/render-update.ts:399-408 | trimming leaves room for twice what the last build used and less than four times |
| UpdateSlot.Slot.Trim | packages/ghostty-core/src/render-update.ts:410-422 | trimming replaces all eight arrays by new ones of exactly the target size |
| RenderUpdateBuilder.GhosttyRenderUpdateBuilder.constructor | packages/ghostty-core/src/render-update.ts:200-209 | one to three slots with arrays of their own, nothing in flight, exact byte count |
| RenderUpdateBuilder.FindFreeIsFirst | packages/ghostty-core/src/render-update.ts:239 | the search finds the slot the lease protocol says |
| RenderUpdateBuilder.CountIsRings | packages/ghostty-core/src/render-update.ts:344 | the slots counted in flight are those of the lease protocol |
| RenderUpdateBuilder.BuffersApart | packages/ghostty-core/src/render-update.ts:143-159 | slots in order share no array, within one or between two |
| RenderUpdateBuilder.GhosttyRenderUpdateBuilder.HeldApart | packages/ghostty-core/src/render-update.ts:331-338 | updates in flight share no array, within one or between two, and none has an array that a build may write |
| RenderUpdateBuilder.GhosttyRenderUpdateBuilder.TryBuild | packages/ghostty-core/src/render-update.ts:233-347 | builds the packed snapshot in the first free slot under its next token, or counts a refusal; updates in flight keep their contents; accounting stays exact; growth is counted, ends the time after a trim, and keeps the idle policy from trimming for a minute |
| RenderUpdateBuilder.GhosttyRenderUpdateBuilder.Reclaim | packages/ghostty-core/src/render-update.ts:375-392 | accepts exactly the current lease of a slot in flight with storage of the right shape, from any caller; anything else changes no slot; no array is written; after an accepted return the builder is in order if and only if the blocks are different and no other slot's, and the accounting exact if and only if they are as large as the slot's were |
| RenderUpdateBuilder.GhosttyRenderUpdateBuilder.OwnStorage | packages/ghostty-core/src/render-update.ts:368-372 | the storage of a current lease is the slot's own, so returning it meets every condition of an accepted return, unless one of its blocks has been transferred away |
| RenderUpdateBuilder.ReturnedBuffers.ValidIff | packages/ghostty-core/src/render-update.ts:456-462 | returned storage is accepted exactly if none of the eight blocks is empty and each divides into elements of its own array's size |
| RenderUpdateBuilder.GhosttyRenderUpdateBuilder.UsableIff | packages/ghostty-core/src/render-update.ts:443-462 | the storage of an update is accepted exactly if none of its blocks has been transferred away |
| RenderUpdateBuilder.GhosttyRenderUpdateBuilder.Release | packages/ghostty-core/src/render-update.ts:368-373 | drops the ownership record once and returns the lease: the slot comes back exactly if the lease is current and none of its blocks was transferred; without a record nothing changes; after a reclaim it is refused |
| RenderUpdateBuilder.TotalShifts | packages/ghostty-core/src/render-update.ts:279-280 | counting one slot's growth keeps the counter equal to the sum of all capacities |
| RenderUpdateBuilder.GhosttyRenderUpdateBuilder.UsedIsBacked | packages/ghostty-core/src/render-update.ts:215-220 | the allocated byte count bounds the used byte count |
| RenderUpdateBuilder.GhosttyRenderUpdateBuilder.NobodyHolds | packages/ghostty-core/src/render-update.ts:352-356 | a count of none in flight means no update is held, so trimming cannot touch one |
| RenderUpdateBuilder.GhosttyRenderUpdateBuilder.TrimIdle | packages/ghostty-core/src/render-update.ts:349-366 | trims exactly when the policy says so; then nothing is in flight, the total is the sum of targets, at least a mebibyte is freed and at most a quarter stays, and the counters say so; no array is written |
| RenderUpdateBuilder.TrimmedStaysTrimmed | packages/ghostty-core/src/idle-reclaim.ts:25-35 | slots at their targets are never trimmed again, however long idle |
| RowCache.CellBox.PaintColors | packages/ghostty-core/src/core.ts:1327-1372 | defaults, own colors, inverse swap and faint blend give the visible colors; the cell keeps the same two color objects |
| RowCache.CellBox.Reset | packages/ghostty-core/src/core.ts:1620-1640 | a reset cell is blank and keeps its color objects |
| RowCache.ReadCell | packages/ghostty-core/src/core.ts:1290-1416 | reading a column overwrites that cell with what is visible there, a text that decodes to the cell's code points, and changes no other cell |
| RowCache.RowBox.Read | packages/ghostty-core/src/core.ts:1230-1427 | reading a row in place leaves exactly the visible row: cells, right-trimmed text, wrap flags, blanks past the native cells |
| TerminalCore.ColorsApart | packages/ghostty-core/src/core.ts:961-969 | at any time a cell's two color objects differ, and two cells of the cache are different objects that share neither |
| TerminalCore.ReadRow | packages/ghostty-core/src/core.ts:991 | reading one retained row changes no other row |
| TerminalCore.ReadDirtyRows | packages/ghostty-core/src/core.ts:984-1003 | the row loop reads exactly the rows reported dirty and clears exactly their flags when consuming |
| TerminalCore.GhosttyTerminalCore.SizeCache | packages/ghostty-core/src/core.ts:940-969 | default colors and cache size are refreshed as the model says; a cache of another size is made of new objects |
| TerminalCore.GhosttyTerminalCore.Snapshot | packages/ghostty-core/src/core.ts:934-1019 | the method's result, cache and native flags are those of the model's snapshot transition |
| TerminalCore.GhosttyTerminalCore.CountFrame | packages/ghostty-core/src/core.ts:1037-1054 | frame and generation counters and the full flag are those of the model's transition, whose counting is `ReplicaShowsWhatItTook` |
| TerminalCore.GhosttyTerminalCore.TryRenderUpdate | packages/ghostty-core/src/core.ts:1033-1055 | with a free slot, the update's contents, the cache and the native flags are those of the model's update transition, and updates in flight keep their contents; with none, nothing changes |
| PtyAttachment.RepliesAreRouted | packages/ghostty-core/src/runtime.ts:127-147 | over any attachments, detachments and inputs of any terminals, each input's deliveries are its non-empty replies, every one of them once and in order, to the writer last attached to its terminal and not detached since; with no such writer, none |
| PtyAttachment.Runtime.WritePty | packages/ghostty-core/src/runtime.ts:225-229 | the callback hands a non-empty reply to the writer of its id, and does nothing where the reply is empty or no writer is there |
| PtyAttachment.GhosttyTerminalCore.constructor | packages/ghostty-core/src/core.ts:325-329 | a new core has the default cursor, then is attached to the host's writer exactly if its policy is authoritative |
| PtyAttachment.GhosttyTerminalCore.Write | packages/ghostty-core/src/core.ts:402-409 | every non-empty live reply reaches the host's writer once and in order if the core is authoritative, and no one otherwise |
| PtyAttachment.GhosttyTerminalCore.WriteReplay | packages/ghostty-core/src/core.ts:525-540 | the chunks before the first that throws are parsed in order, no reply to them reaches anyone, and the attachment is back however the writes end |
| PtyAttachment.InputsAreGiven | packages/ghostty-core/src/core.ts:525-540 | the terminal is given exactly the non-empty chunks of a replay, in order |
| PtyAttachment.GhosttyTerminalCore.ResetAndWrite | packages/ghostty-core/src/core.ts:542-551 | the terminal is given the reset, the default cursor and the bytes, in this order and nothing else; no reply reaches anyone; the rows are dropped |
| PtyAttachment.GhosttyTerminalCore.RestoreBinarySnapshot | packages/ghostty-core/src/core.ts:457-518 | a failed decoding step leaves terminal, attachment, rows and live handles as they were; success frees the old terminal once and moves the attachment; temporary memory and the decoder are freed either way |
| PtyAttachment.GhosttyTerminalCore.Dispose | packages/ghostty-core/src/core.ts:1136-1158 | frees terminal and attachment once; a second call does nothing |
| PtyAttachment.Open | packages/ghostty-core/src/runtime.ts:260-267 | one more core on the shared runtime leaves any live one in order and attached as it was |
| PtyAttachment.Act | packages/ghostty-core/src/runtime.ts:127-147 | whatever is done with one core, every other live core on the same runtime stays in order on a terminal of its own, and only the acting core's own writer is given anything, if it is authoritative |
| TerminalProtocol.FrameTypeOf | crates/terminal-protocol/src/lib.rs:70-97 | a code is accepted exactly in 1..19 and gives the frame type with that code |
| TerminalProtocol.CodesCountUp | crates/terminal-protocol/src/lib.rs:29-97 | the nineteen frame types have the codes 1 to 19 in their order |
| TerminalProtocol.FrameIsAcceptedIff | crates/terminal-protocol/src/lib.rs:263-290 | a frame is accepted exactly with flags 0 and a snapshot or input that is not empty, 1 to `sequence` bytes of data, a resize of 4 bytes, or anything else with any payload, empty ones included; each refusal has its own error |
| TerminalProtocol.EncodesIff | crates/terminal-protocol/src/lib.rs:188-195 | encoding succeeds exactly for accepted frames within the codec's limit, and names the limit first |
| TerminalProtocol.Encode | crates/terminal-protocol/src/lib.rs:188-210 | the header built field by field is the specified 36 bytes; too long or invalid frames are refused with the right error |
| TerminalProtocol.Decode | crates/terminal-protocol/src/lib.rs:213-260 | result and remaining buffer are those of the decoding function |
| TerminalProtocol.DecodeAnswers | crates/terminal-protocol/src/lib.rs:212-260 | byte by byte: which header is refused with which error, when more input is needed, and which payload makes a frame |
| TerminalProtocol.RoundTripIff | crates/terminal-protocol/src/lib.rs:188-260 | decoding an encoded frame with any suffix gives the frame and leaves the suffix, exactly if the payload is shorter than 2^32 bytes |
| TerminalProtocol.LongPayloadIsLost | crates/terminal-protocol/src/lib.rs:205 | a 2^32-byte payload comes back empty with its bytes left in the buffer |
| TerminalProtocol.ReencodesIdentically | crates/terminal-protocol/src/lib.rs:188-260 | encoding a decoded frame gives exactly the bytes consumed |
| TerminalProtocol.EncodingsArePrefixFree | crates/terminal-protocol/src/lib.rs:188-260 | no encoding is a prefix of another frame's |
| TerminalProtocol.DecodeConsumes | crates/terminal-protocol/src/lib.rs:212-260 | incomplete input and refused headers leave the buffer; anything else takes exactly header and payload |
| TerminalProtocol.RefusalIsInTheHeader | crates/terminal-protocol/src/lib.rs:213-243 | a header-level refusal is the same for any input with the same first 36 bytes |
| TerminalProtocol.AnswersAreStable | crates/terminal-protocol/src/lib.rs:212-260 | more input behind never changes an answer or what it consumes |
| ProtocolStream.DrainAppend | crates/terminal-protocol/src/lib.rs:350-374 | draining a longer input is draining the shorter one and feeding the rest |
| ProtocolStream.CutsDoNotMatter | crates/terminal-protocol/src/lib.rs:350-374 | for any byte stream, valid or not, any way of cutting it gives the same frames, failure and remainder |
| ProtocolStream.FramesArrive | crates/terminal-protocol/src/lib.rs:188-260 | encoded frames arrive whole, in order and with nothing left over, however their bytes are cut |
| ProtocolStream.RangeOfAnyFrame | crates/terminal-protocol/src/lib.rs:142-149 | the range subtraction underflows exactly on frames the constructor refuses for their position; otherwise the range has the payload's length and ends at the sequence |
| ProtocolStream.RangeIsPlace | crates/terminal-protocol/src/lib.rs:3-7 | in a run of data frames each range is its payload's place in the joined payload |
| ProtocolStream.RangesTile | crates/terminal-protocol/src/lib.rs:3-7 | the ranges of a run partition 1..=N, and the covering frame holds that byte of the joined payload |
| EffectOutbox.CallbackState.RecordPty | crates/ghostty-vt/src/effects.rs:399-427 | a response is appended whole or a bound is marked as broken, never part of it |
| EffectOutbox.CallbackState.WithState | crates/ghostty-vt/src/effects.rs:655-671 | one callback with all that arrives during it does what the delivery function says |
| EffectOutbox.PtyResponses.Next | crates/ghostty-vt/src/effects.rs:557-564 | the iterator hands out the recorded slices in order, then none |
| EffectOutbox.AllInBounds | crates/ghostty-vt/src/effects.rs:424-426 | every recorded range lies within the recorded bytes |
| EffectOutbox.Terminal.Write | crates/ghostty-vt/src/terminal.rs:468-475 | the outcome is that of this write alone, whatever an earlier one left |
| EffectLaws.InnerIsRefused | crates/ghostty-vt/src/effects.rs:376-387 | callbacks that arrive during another change nothing but the two flags |
| EffectLaws.CallEffect | crates/ghostty-vt/src/effects.rs:655-671 | for any tree of callbacks, the outer one records what it would alone, and no busy flag is left |
| EffectLaws.BrokenIffOverLimits | crates/ghostty-vt/src/effects.rs:399-467 | a bound is broken exactly when a total of the callbacks exceeds its limit |
| EffectLaws.Summary | crates/ghostty-vt/src/effects.rs:304-467 | flags, first broken bound, responses, bells and queries after any callbacks, in terms of those callbacks |
| EffectLaws.StorageSuffices | crates/ghostty-vt/src/effects.rs:269-274 | from the first callback to the copied title and directory, no size exceeds the limit its storage was allocated for |
| EffectLaws.BoundsOfStorage | crates/ghostty-vt/src/effects.rs:13-21 | under valid limits that is at most a mebibyte in 4096 responses, 64 KiB of text, 65536 bells and as many queries of a kind |
| EffectLaws.ErrorPriority | crates/ghostty-vt/src/terminal.rs:726-738 | for any callbacks and texts: the error is that of the first changed text that cannot be read, else a contract violation, else reentrancy, else the first bound broken; with none of these the write succeeds |
| EffectLaws.SucceedsIff | crates/ghostty-vt/src/terminal.rs:726-738 | a write succeeds exactly if every callback kept the contract, none was nested, all totals fit, and changed texts could be read and fit |
| EffectLaws.SuccessLosesNothing | crates/ghostty-vt/src/effects.rs:499-536 | on success responses are the non-empty payloads in order and separate, bells and queries are the callbacks made, changed texts are the texts read |
| SortableIds.IdGenerator.CreateId | packages/database/src/ids.ts:7-29 | the generator's state and the text it returns are those of the functions, for any time and random bytes |
| SortableIds.IdShape | packages/database/src/ids.ts:22-28 | every identifier has version digit 7, a variant digit of 8, 9, a or b, and its hyphens in place |
| SortableIds.IdSpells | packages/database/src/ids.ts:27-28 | each of the sixteen bytes is spelt by two small hexadecimal digits at its place between the hyphens |
| SortableIds.StampHolds | packages/database/src/ids.ts:15-25 | the bytes hold 48 bits of time, version 7, the counter, the variant and the random bits, each unchanged |
| SortableIds.IdsAscend | packages/database/src/ids.ts:15-28 | a smaller timestamp and counter make a smaller text, whatever the random bits |
| SortableIds.NextIsGreaterIff | packages/database/src/ids.ts:8-13 | the next identifier is greater, even if the clock went back, exactly unless the counter starts over |
| SortableIds.CounterAdvances | packages/database/src/ids.ts:8-13 | over any run, timestamps never go back, and within one the counter counts the calls and wraps exactly where they no longer fit |
| SortableIds.TimestampIsLatest | packages/database/src/ids.ts:8 | the generator's timestamp is the latest time it was ever given |
| SortableIds.LaterIsGreaterIff | packages/database/src/ids.ts:7-29 | of any two calls of any run, the later identifier is the greater exactly if its timestamp is later, or the counter has come up to it without starting over, or it has gone around exactly and the random bits say so |
| SortableIds.InOrderIffNoWrap | packages/database/src/ids.ts:9-10 | for calls fewer than 4096 apart in one timestamp, that is: exactly if no call in between starts the counter over |
| RunRepair.GroupMaxima | packages/database/migrations/010_supervisor_run_admission_and_profiles.ts:31-36 | the grouped maximum of each agent is an active run's identifier and none is greater |
| RunRepair.InMaximaIffNewest | packages/database/migrations/010_supervisor_run_admission_and_profiles.ts:30-36 | an active run is in the subquery's result exactly if no active run of its agent has a greater identifier |
| RunRepair.Database.RepairDuplicates | packages/database/migrations/010_supervisor_run_admission_and_profiles.ts:24-37 | the row-by-row update yields the table of which `RepairedRow` says each row |
| RunRepair.RepairKeepsNewest | packages/database/migrations/010_supervisor_run_admission_and_profiles.ts:6-11 | exactly the newest active run of each agent stays active, the index condition holds, and every row is kept or recorded as failed as `RepairedRow` says |
| RunRepair.RepairedRow | packages/database/migrations/010_supervisor_run_admission_and_profiles.ts:24-37 | a row changes only if it is active and its agent has a newer active run; then it is failed, with the migration's code and message and its own completion time or else the current time, and every other column is kept |
| RunRepair.RepairIsIdleIff | packages/database/migrations/010_supervisor_run_admission_and_profiles.ts:24-37 | the repair changes nothing exactly where no agent has two active runs, so repairing again never does |
| RunRepair.Database.Up | packages/database/migrations/010_supervisor_run_admission_and_profiles.ts:13-65 | adds the column unless it is there, repairs, cannot fail at the unique index, touches no event row, and changes nothing a second time |
| RunRepair.AdmittedIffSound | packages/database/migrations/010_supervisor_run_admission_and_profiles.ts:42-44 | a new run or a new status is refused exactly where taking it would repeat a key, split the error columns, or give an agent two active runs |
| RunRepair.Database.InsertRun | packages/database/migrations/010_supervisor_run_admission_and_profiles.ts:42-44 | searching the table for the key and for another active run decides as the rules say, with or without the index |
| RunRepair.Database.InsertEvent | packages/database/migrations/010_supervisor_run_admission_and_profiles.ts:53-62 | looking the run up by its key and comparing agents decides as the trigger's existence test does |
| RunRepair.Database.UpdateStatus | packages/database/migrations/010_supervisor_run_admission_and_profiles.ts:42-44 | a status is set for the one row with the key, or refused exactly as the index demands |
| RunRepair.WritesStayLinked | packages/database/migrations/010_supervisor_run_admission_and_profiles.ts:42-62 | after the migration no sequence of writes gives an agent two active runs or adds an event whose run its agent does not have; earlier events stay |
| RunRepair.KeptIffIssued | packages/database/migrations/010_supervisor_run_admission_and_profiles.ts:8-10 | exactly when a run stays active, in terms of when and in what order the identifiers of its agent's active runs were issued |
| RunRepair.KeptIsLastIssuedIff | packages/database/migrations/010_supervisor_run_admission_and_profiles.ts:8-10 | the last issued run is kept exactly if each other active run has an earlier timestamp or no wrap lies between the two |
| RunRepair.WrapKeepsTheOlder | packages/database/src/ids.ts:9-10 | where the counter starts over, the repair keeps the older of two runs |
| CorpusSchedule.IdentifierIff | packages/ghostty-core/src/corpus.ts:280 | identifiers are small letters, digits and hyphens, with no hyphen at an end or beside another |
| CorpusSchedule.NumbersIff | packages/ghostty-core/src/corpus.ts:430-447 | an event's numbers are taken exactly if they are whole and within their own limits: columns and rows within those of the corpus, cells to 4096, writes within the file, color channels within a byte |
| CorpusSchedule.ValidateSchedule | packages/ghostty-core/src/corpus.ts:426-461 | the loop accepts exactly the schedules that go on where they ended, cover the file, and observe well; otherwise it names the first event at fault |
| CorpusSchedule.ScheduleCovers | packages/ghostty-core/src/corpus.ts:430-460 | the slices of an accepted schedule, joined, are the payload, whatever its bytes |
| CorpusSchedule.WritesPartition | packages/ghostty-core/src/corpus.ts:430-439 | each byte of the file is in exactly one write |
| CorpusSchedule.ObservationsFollowWrites | packages/ghostty-core/src/corpus.ts:448-454 | observations have distinct names and each comes after a write |
| CorpusSchedule.FewObservations | packages/ghostty-core/src/corpus.ts:448-461 | an accepted schedule has 1 to 128 observations |

## Left out

- ReplicaShowsWhatItTook: assumes each update's payload is below 2^32 bytes, the range of its offset arrays, and at most 2^53 - 1 events, the range of its counters; rows are compared as the packed form shows them, with the exact difference in `ShownRowIsExactIff`; the lemmas of `StolenReads` assume the same, and `RequestCarries` the bound on events.
- ViewportModel: works on the receiver's arrays as one value split by rows; `RetainedViewport` does the same in place.
- RetainedViewport: an update is a value there, so that its buffers may be transferred back afterwards is not modelled; nor are row versions, which only ever change together with the caches they guard.
- TryBuild: the snapshot is a value, so that its rows and dirty set are the core's own retained objects is not modelled.
- Snapshot: returns a copy of the retained rows where the program hands out the rows themselves.
- Reclaim: a typed array and its storage are one Dafny array; that a transferred block is detached from its old views is only a set of blocks given to `Release`.
- WriteReplay: a host writer that calls back into the core during a live write is not modelled; a replay delivers to no writer.
- Write: a writer is given the bytes themselves, where the program passes them through a lenient text decoder first (`runtime.ts:128`).
- RestoreBinarySnapshot: native frees and detaching do not throw, so the release of a restored terminal that was never installed is not modelled.
- WritesStayLinked: rows are added and change status; deleting agents, which deletes their runs, is not modelled.
- RunRepair: identifiers are compared by code unit; other text than ASCII may sort differently as bytes.
- KeptIffIssued: identifiers come from one generator; several processes writing one database are not modelled.
- CorpusSchedule: one fixture's bytes and events; base64, hashes, paths and the rest of the manifest are library calls or simple bounds.
- The count of backing buffers allocated (`backingBuffersAllocated`) and the throwing `build` and `renderUpdate` wrappers.
- Native errors of single getters inside a row read, which abort the snapshot with an exception.
- Answers handed back to native query callbacks, configured limits' validation, and callbacks without a state pointer.
- The bounded snapshot writer, a smaller recorder of the same kind as the outbox, and terminal modes and dimensions.
- Key, mouse and paste encoding, selection, hyperlinks, scrolling: foreign calls and table lookups.
- Initialization of a core beyond its terminal handle and PTY attachment; memory of failed native calls.
- Schemas, routing, user interface, build scripts and all other migrations.
