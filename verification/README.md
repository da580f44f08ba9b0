# Kernel mode setting and its companions, modelled and verified

This project models the parts of the illumos DRM module whose state is hardest to keep right, and proves what
they promise. `dafny verify dfyconfig.toml` checks all of it.

What is modelled, file by file:

- `Errno`: error numbers.
- `KmsObjects`: CRTCs, encoders, connectors, planes, framebuffers and the record of driver callbacks, which also notes
  that there was no memory to begin a mode.
- `Routing`, `CrtcHelper`, `SetModeTrace`, `ModeSetTransaction`: the helper library that turns a requested
  configuration into routes and a programmed mode, and takes everything back when a step fails
  (`usr/src/uts/common/io/drm/drm_crtc_helper.c`).
- `FbTable`, `Framebuffers`: references to framebuffers. `FbTable` states the accounts on values, for any
  interleaving of steps; `Framebuffers` has the operations on objects, each proved to be such steps
  (`usr/src/uts/common/io/drm/drm_crtc.c`).
- `FramebufferCheck`: the check of a request to add a framebuffer, and where its pixels lie.
- `LinuxList`, `ConnectorList`: intrusive circular lists as linked heads in memory, and the move of the panels to
  the front of the connector list.
- `Dpms`: power levels of encoders and CRTCs.
- `Edid`, `Cea`, `Bits`: reading an EDID from an unreliable display, the data blocks of its CEA extension
  (section 7.5 of CEA-861-D), and the two parsers of its audio descriptors.
- `MagicNumbers`, `Masters`: authentication by magic numbers, masters and open files.
- `DmaBuffers`, `FreezeProtocol`: the pool of DMA buffers and the two counters that freeze it.
- `Events`: event space and reading of events.

Several modules have a class for an open file (`DrmFile`, `AuthFile`, `EventFile`) or a connector (`Connector`,
`ListedConnector`). Each holds the fields of the one C structure that the module is about.

How the environment appears: driver callbacks, memory allocation and copies to user space have any result, either as
a nondeterministic choice or as a parameter. Callbacks are framed: `page_flip` sets the framebuffer of the CRTC
exactly on success, `update_plane` and `disable_plane` leave `plane->fb` alone, fixup and prepare hooks do not re-
route, `dpms` changes at most the level of its connector, `fb_create` makes what was asked for, `best_encoder` is a
map that does not change during a call. A display is a function from block and attempt to an answer or a failed
transfer. `held` in `Framebuffers` is the collection of lookups in flight; `Uses` in `FbTable` are those and what
CRTCs and planes show.

Where the code does less than one would expect, the model follows the code and the condition is exact:

- A connector outside a request that shares an encoder with it takes that encoder off the CRTC again, and the
  request succeeds (`Routing.ExactlyTheRequestIffUnshared`, `Routing.SharedEncoderIsUnrouted`).
- A failed configuration restores links, framebuffers, modes and positions, but after a full mode set programming the
  old mode again sets `enabled` of that CRTC to whether it is in use and, if it is, may change its hardware mode; in
  all other cases both are kept. Where `enabled` says what is in use, which this call keeps, only the hardware mode is
  left (`ModeSetTransaction.SetConfig`).
- The buffer of an EDID has room for four extensions, however many a display announces. The loop reads beyond it
  exactly if it comes to another extension after four that validated (`Edid.ReadsStayInsideIff`,
  `Edid.FiveExtensionsOverrun`).
- The counter of magic numbers wraps to 0, which is also the mark of a file without number. The entry of such a
  file stays behind when it is closed (`Masters.ClosedIsForgottenIffNotZero`, `Masters.WrapLeavesAnEntry`).
- The ELD describes the last audio block, `drm_edid_to_sad` the first (`Cea.ParsersAgree`,
  `Cea.TwoAudioBlocksDisagree`).
- The byte count of one addition of DMA buffers is a signed int. From 2 GiB on the total is not the sum any more, and
  never again (`DmaBuffers.AddKeepsSumIff`, `DmaBuffers.Pool.AddAll`). Buffers then lie outside the total, unless it
  wraps to near 2^64 (`DmaBuffers.AddKeepsPlacedIff`, `DmaBuffers.FourGigabytesFallOutside`,
  `DmaBuffers.TwoGigabytesWrap`).
- The older request to add a framebuffer does not run the check (`FramebufferCheck.LegacyAcceptableIff`,
  `Framebuffers.Device.Run`).
- Formats without a known pixel size pass the check of the pitch whatever it is (`FramebufferCheck.SizedIff`,
  `FramebufferCheck.BigEndianPitchUnchecked`).
- An event whose copy to user space fails is lost, although the read reports 0 bytes (`Events.EventQueues.Read`).
- `drm_framebuffer_init` reports success even when no id could be allocated; in the model the allocation of an id
  succeeds.

## Model

| member | source | states |
|---|---|---|
| KmsObjects.ModeConfig.InUseIffReached | usr/src/uts/common/io/drm/drm_crtc_helper.c:242-251 | a CRTC is in use if and only if some connector reaches it through its encoder |
| KmsObjects.MaskHasBits | usr/src/uts/common/io/drm/drm_crtc_helper.c:315-336 | a mask made of a set of positions has exactly the bits of these positions |
| KmsObjects.ModeConfig.CrtcOkIffAt | usr/src/uts/common/io/drm/drm_crtc_helper.c:315-336 | an encoder with such a mask can be driven by exactly the CRTCs at these positions |
| KmsObjects.ModeEqualMeans | usr/src/uts/common/io/drm/drm_modes.c:834-877 | modes are equal if and only if they differ in nothing but their name, timings being compared as a whole |
| Routing.RouteByLastHolder | usr/src/uts/common/io/drm/drm_crtc_helper.c:703-727 | after pass b each encoder is where the last connector that holds it put it; one that nobody holds keeps its CRTC; a CRTC it got is allowed by its mask |
| Routing.RefusedIffMaskForbids | usr/src/uts/common/io/drm/drm_crtc_helper.c:315-336 | routing is refused if and only if a connector of the request holds an encoder whose mask excludes the CRTC; otherwise every encoder is on a CRTC of its mask |
| Routing.ExactlyTheRequestIffUnshared | usr/src/uts/common/io/drm/drm_crtc_helper.c:703-727 | exactly the connectors of the request end up on the CRTC if and only if none of their encoders is held by a connector outside the request |
| Routing.SharedEncoderIsUnrouted | usr/src/uts/common/io/drm/drm_crtc_helper.c:703-715 | the case where that fails: a later connector outside the request that holds the same encoder takes it off the CRTC again, with success reported |
| SetModeTrace.DoneFollowsProtocol | usr/src/uts/common/io/drm/drm_crtc_helper.c:384-505 | a mode that was set made its callbacks in the order of the phases, none refused, each for that CRTC, mode and position; every encoder phase addressed exactly the attached encoders, in list order, and the CRTC had each of its four callbacks once |
| SetModeTrace.RefusalEndsTrace | usr/src/uts/common/io/drm/drm_crtc_helper.c:414-438 | a refusal is the last callback made, and all were for that CRTC, mode and position: after a refused fixup nothing was prepared, set or committed; after a failed mode_set all encoders had agreed and were prepared, and none was set or committed |
| SetModeTrace.OffsInTrace | usr/src/uts/common/io/drm/drm_crtc_helper.c:343-360 | the encoders switched off on the way are exactly those given |
| SetModeTrace.TraceAppends | usr/src/uts/common/io/drm/drm_crtc_helper.c:384-505 | the callbacks of one mode set are appended to those made before, unchanged |
| CrtcHelper.EncoderInUse | usr/src/uts/common/io/drm/drm_crtc_helper.c:220-232 | true if and only if some connector holds the encoder |
| CrtcHelper.CrtcInUse | usr/src/uts/common/io/drm/drm_crtc_helper.c:242-251 | true if and only if an encoder in use is on the CRTC |
| CrtcHelper.EncoderCrtcOk | usr/src/uts/common/io/drm/drm_crtc_helper.c:315-336 | true if and only if the mask of the encoder has the bit of the position of the CRTC |
| CrtcHelper.DisableUnused | usr/src/uts/common/io/drm/drm_crtc_helper.c:273-304 | disconnected connectors lose their encoder, encoders not in use their CRTC, every CRTC is enabled exactly if in use, and one that is not shows nothing; the driver is told to switch off exactly the encoders and CRTCs not in use, encoders first |
| CrtcHelper.Disable | usr/src/uts/common/io/drm/drm_crtc_helper.c:507-529 | afterwards nothing reaches the CRTC and it shows nothing; connectors that did not reach it and are not disconnected keep their encoder |
| CrtcHelper.SetMode | usr/src/uts/common/io/drm/drm_crtc_helper.c:384-505 | enabled follows use; success stores mode and position; every other outcome leaves mode, hardware mode and position as they were; the callbacks made are exactly the trace of the outcome |
| CrtcHelper.CallsFollowProtocol | usr/src/uts/common/io/drm/drm_crtc_helper.c:384-505 | whatever was called before, the calls that one mode set records come after it; if the mode was set they follow the protocol with the attached encoders, and switch off exactly the idle and misplaced ones; otherwise the refusal is the last of them |
| ModeSetTransaction.TryMode | usr/src/uts/common/io/drm/drm_crtc_helper.c:384-505 | one attempt: nothing for a CRTC not in use; else a programmed mode, or a refusal or lack of memory that leaves mode, hardware mode and position; on the way exactly the encoders without CRTC and those that the hardware has on another CRTC are switched off |
| ModeSetTransaction.AssignEncoders | usr/src/uts/common/io/drm/drm_crtc_helper.c:661-695 | pass a: every connector of the request gets its best encoder and others keep theirs; encoders that are given up lose their CRTC; a connector of the request without encoder makes it fail |
| ModeSetTransaction.AssignCrtcs | usr/src/uts/common/io/drm/drm_crtc_helper.c:703-736 | pass b yields exactly the routes of the specification, or fails exactly when routing is refused |
| ModeSetTransaction.Save | usr/src/uts/common/io/drm/drm_crtc_helper.c:614-627 | the snapshot describes every CRTC, encoder and connector |
| ModeSetTransaction.Restore | usr/src/uts/common/io/drm/drm_crtc_helper.c:787-802 | every CRTC, encoder and connector is again as the snapshot says |
| ModeSetTransaction.SwitchOn | usr/src/uts/common/io/drm/drm_crtc_helper.c:758-762 | the callbacks set levels of connectors of the request to ON or leave them, and touch no others |
| ModeSetTransaction.Program | usr/src/uts/common/io/drm/drm_crtc_helper.c:741-763 | a CRTC in use gets the framebuffer, the mode is programmed and then each connector of the request is switched on, in order; a failure leaves its framebuffer; nothing is called for a CRTC not in use |
| ModeSetTransaction.RollBack | usr/src/uts/common/io/drm/drm_crtc_helper.c:785-808 | after restoring and programming the old mode again, successful or not, all links, framebuffers, modes and positions are those of the snapshot; only the enabled flag of the CRTC of the request may differ, and its hardware mode if it is in use; the driver is called for one attempt at the old mode if the CRTC is in use; without a full mode set nothing differs and nothing is called |
| ModeSetTransaction.SetConfig | usr/src/uts/common/io/drm/drm_crtc_helper.c:547-814 | on any failure every link and every framebuffer, mode, position and power level is as before, the hardware mode of other CRTCs too; that of the CRTC of the request also, unless a full mode set failed and the CRTC was in use; `enabled` also, wherever it said what is in use before; on success the routing is the granted one, after a full mode set every CRTC is enabled exactly if in use and shows the framebuffer it had or the requested one, nothing if not in use; without a full mode set only the CRTC of the request changes. A full mode set is made exactly if framebuffer or mode demand it, a link or route moves, or the base cannot just be moved. The driver is called for exactly that: program the encoders that the routing put on the CRTC, switch on the connectors, switch off what is unused; or move the base; or, after a failed attempt, try the old mode once |
| ModeSetTransaction.GrantedReaches | usr/src/uts/common/io/drm/drm_crtc_helper.c:661-766 | which connectors reach the CRTC after a granted request, exactly; every attached encoder is on a CRTC of its mask |
| ModeSetTransaction.ExactlyTheRequestReachesIff | usr/src/uts/common/io/drm/drm_crtc_helper.c:661-766 | in the state that a granted request leaves, exactly its connectors reach the CRTC if and only if each connector with an encoder is named exactly if the last holder of that encoder is and the clean-up does not take it away; connected connectors that share no encoder meet this, and among connected holders only they do |
| ModeSetTransaction.ShowOnConnectors | usr/src/uts/common/io/drm/drm_crtc_helper.c:547-814 | the same from what is known before the call; and when exactly the connectors of the request reach the CRTC, it shows the requested framebuffer at the requested position in the requested mode, and is enabled if `enabled` was right before |
| ModeSetTransaction.FullTells | usr/src/uts/common/io/drm/drm_crtc_helper.c:748-762 | a full mode set of a CRTC in use told the driver that mode and position, and to switch on every connector of the request |
| ModeSetTransaction.CarriedOut | usr/src/uts/common/io/drm/drm_crtc_helper.c:547-814 | what a granted request leaves if the CRTC shows something: the framebuffer, position and mode asked for, and the driver was told so |
| FbTable.GotKeeps | usr/src/uts/common/io/drm/drm_crtc.c:445-449 | a further reference keeps the accounts: every count is the number of references |
| FbTable.DroppedKeeps | usr/src/uts/common/io/drm/drm_crtc.c:436-442 | dropping a reference keeps the accounts, destroying the framebuffer exactly when it was the last |
| FbTable.IdentifiedKeeps | usr/src/uts/common/io/drm/drm_crtc.c:357-380 | entering the id table takes one reference |
| FbTable.EnteredKeeps | usr/src/uts/common/io/drm/drm_crtc.c:2489-2492 | the list of a file takes over the reference of the creator |
| FbTable.ReapedKeeps | usr/src/uts/common/io/drm/drm_crtc.c:457-480 | leaving the id table and the list of the file: the reference of the table is gone, that of the list passes to the caller |
| FbTable.LastHolder | usr/src/uts/common/io/drm/drm_crtc.c:557-578 | who holds a reference sees a count of one exactly if it is the only one: no id, no list, no other use |
| FbTable.RunKeeps | usr/src/uts/common/io/drm/drm_crtc.c:357-492 | every interleaving of the steps of any number of operations keeps all accounts; a destroyed framebuffer is never touched again and was destroyed once |
| FbTable.LastHolderStaysLast | usr/src/uts/common/io/drm/drm_crtc.c:532-578 | while somebody holds the only reference, no run of the steps of others touches the framebuffer |
| Framebuffers.Device.Lookup | usr/src/uts/common/io/drm/drm_crtc.c:390-429 | finds exactly the ids of the table and takes a reference |
| Framebuffers.Device.AddFb | usr/src/uts/common/io/drm/drm_crtc.c:2452-2495 | success means that flags, size and check were passed, and adds one new framebuffer for that request under a fresh id to the table and to the list of the file; failure changes nothing; no reference leaks |
| Framebuffers.Device.AddLegacyFb | usr/src/uts/common/io/drm/drm_crtc.c:2274-2314 | the same for the older request, which is refused for its size only |
| Framebuffers.Device.SetConfigInternal | usr/src/uts/common/io/drm/drm_crtc.c:1945-1976 | a mode set may take the framebuffer from any CRTC; afterwards all counts are right again; success carries the request out; failure leaves what CRTCs show, and mode and position of all; other CRTCs keep mode and position always |
| Framebuffers.Device.PutNotLast | usr/src/uts/common/io/drm/drm_crtc.c:452-461 | the unreference whose callback is a bug report: every use of it proves that another reference remains |
| Framebuffers.Device.ForceDisable | usr/src/uts/common/io/drm/drm_crtc.c:890-904 | the plane shows nothing and its reference is dropped, which is never the last one |
| Framebuffers.Device.SoleHolder | usr/src/uts/common/io/drm/drm_crtc.c:557-578 | the shortcut is sound: at count one no CRTC and no plane shows the framebuffer |
| Framebuffers.Device.Remove | usr/src/uts/common/io/drm/drm_crtc.c:532-579 | afterwards no CRTC and no plane shows the framebuffer, what is left of its count are lookups in flight, and it is destroyed exactly if there are none |
| Framebuffers.Device.RmFb | usr/src/uts/common/io/drm/drm_crtc.c:2511-2549 | succeeds exactly for framebuffers on the list of the file; then id and list entry are gone, it is shown nowhere, and it is destroyed unless a lookup is in flight |
| Framebuffers.Device.GetFb | usr/src/uts/common/io/drm/drm_crtc.c:2565-2591 | -EINVAL exactly for ids that do not exist, else size and bits per pixel of the framebuffer and the answer of the driver, -ENODEV if it has none; leaves no reference behind |
| Framebuffers.Device.FbRelease | usr/src/uts/common/io/drm/drm_crtc.c:2676-2695 | every framebuffer of the closing file loses id, list and screens, what is left of its count are lookups in flight, and it is destroyed exactly if there are none; the id table loses exactly those framebuffers |
| Framebuffers.Device.SetPlane | usr/src/uts/common/io/drm/drm_crtc.c:1816-1936 | the error of the first check that fails, else what the driver says; success shows the named framebuffer on the plane, on the named CRTC, or nothing if none was named; failure changes no plane; all counts stay right |
| Framebuffers.Device.SourceInsideMeans | usr/src/uts/common/io/drm/drm_crtc.c:1881-1904 | an accepted source rectangle ends inside the framebuffer; below 65536 pixels each way every rectangle inside is accepted |
| Framebuffers.ViewportMeans | usr/src/uts/common/io/drm/drm_crtc.c:2062-2083 | the view fits if and only if every pixel of the picture, turned if the CRTC is, comes from inside the framebuffer |
| Framebuffers.Device.PageFlip | usr/src/uts/common/io/drm/drm_crtc.c:3464-3582 | success exchanges the framebuffer of that CRTC for one of the same format that covers its view; failure changes no CRTC; all counts stay right |
| Framebuffers.Device.SetCrtc | usr/src/uts/common/io/drm/drm_crtc.c:1994-2153 | success means that the framebuffer of the request covers the view and the connectors exist; then the CRTC shows it at the requested position in the requested mode, and the driver was told that and to switch on these connectors, or the clean-up switched the CRTC off, or it shows nothing if no mode was given; exactly the named connectors reach it if they are connected and no other connector holds an encoder chosen for them, and in general if and only if each holder is named exactly if it keeps its encoder; failure changes no framebuffer, mode or position; all counts stay right |
| Framebuffers.Device.Do | usr/src/uts/common/io/drm/drm_crtc.c:357-579 | each operation, by any file, keeps the invariant and leaves no lookup in flight |
| Framebuffers.Device.Run | usr/src/uts/common/io/drm/drm_crtc.c:357-579 | after any sequence of operations every framebuffer ever made, those before it included, has a count equal to its references (id table, list, CRTCs, planes, lookups in flight) and was destroyed exactly if that is zero; all that were added are for requests that pass the check, if the older requests among them do |
| LinuxList.AddTail | usr/src/uts/common/drm/drm_linux_list.h:92-101 | list_add_tail: the ring gets the new head at its end, which points to its entry |
| LinuxList.Add | usr/src/uts/common/drm/drm_linux_list.h:81-90 | list_add: the ring gets the new head right after the list head |
| LinuxList.Del | usr/src/uts/common/drm/drm_linux_list.h:103-111 | list_del: the ring without the k-th head, whose links are null |
| LinuxList.MoveTail | usr/src/uts/common/drm/drm_linux_list.h:126-130 | list_move_tail: from one ring to the end of another |
| LinuxList.Splice | usr/src/uts/common/drm/drm_linux_list.h:132-142 | list_splice: all heads of one list, in order, between two neighbours of another ring; nothing for an empty list |
| LinuxList.RingWithOne | usr/src/uts/common/drm/drm_linux_list.h:81-101 | the four assignments of an insertion make one ring |
| LinuxList.RingWithoutOne | usr/src/uts/common/drm/drm_linux_list.h:103-111 | the two assignments of a removal close the ring |
| LinuxList.RingWithMany | usr/src/uts/common/drm/drm_linux_list.h:132-142 | the four assignments of a splice make one ring |
| ConnectorList.MovePanelsToHead | usr/src/uts/common/io/drm/drm_crtc_helper.c:54-70 | the ring ends up holding all panels in their order, then all other connectors in theirs; the walk visits every connector once although heads leave the list on the way |
| ConnectorList.StablePartition | usr/src/uts/common/io/drm/drm_crtc_helper.c:44-53 | that order is the stable partition and the only one: a rearrangement with panels first that keeps the order of both kinds |
| ConnectorList.PanelTypes | usr/src/uts/common/io/drm/drm_crtc_helper.c:62-64 | panels are the connectors of type LVDS (7) and eDP (14) |
| ConnectorList.FiveInOrder | usr/src/uts/common/io/drm/drm_crtc_helper.c:44-70 | VGA, LVDS, HDMI, eDP, DisplayPort become LVDS, eDP, VGA, HDMI, DisplayPort |
| Edid.HeaderScore | usr/src/uts/common/io/drm/drm_edid.c:881-890 | counts the header bytes that are right |
| Edid.CheckBlock | usr/src/uts/common/io/drm/drm_edid.c:897-958 | repairs a nearly right header of the base block and reports exactly the acceptable blocks |
| Edid.BaseAcceptedIff | usr/src/uts/common/io/drm/drm_edid.c:873-958 | a base block is accepted if and only if at most two of its first eight bytes differ from 00 ff ff ff ff ff ff 00, the sum is zero modulo 256 with these mended, and the major version is 1; those bytes are mended and nothing else changes |
| Edid.GoodBaseIsKept | usr/src/uts/common/io/drm/drm_edid.c:897-958 | a base block with that header, sum and version is accepted as it is |
| Edid.ExtensionAcceptedIff | usr/src/uts/common/io/drm/drm_edid.c:920-945 | an extension is accepted if and only if its sum is zero or it is a CEA extension, with the version checked for tag 0; it is never changed |
| Edid.SumCountsEachByte | usr/src/uts/common/io/drm/drm_edid.c:920-921 | a sum counts each byte once |
| Edid.CheckEdid | usr/src/uts/common/io/drm/drm_edid.c:966-979 | true exactly if the base block and every announced extension are acceptable; only the header is changed |
| Edid.GoodWithinFourReads | usr/src/uts/common/io/drm/drm_edid.c:1085-1098 | a block is kept exactly if one of at most four answers is valid and all before it were invalid; it is the first such answer, repaired |
| Edid.FourthAnswerCounts | usr/src/uts/common/io/drm/drm_edid.c:1067-1096 | if three answers are invalid the fourth still counts |
| Edid.FourBadAnswersEnd | usr/src/uts/common/io/drm/drm_edid.c:1067-1096 | after four invalid answers the block is given up |
| Edid.PatchKeepsBase | usr/src/uts/common/io/drm/drm_edid.c:1099-1102 | lowering the extension count and raising the checksum by the same amount keeps the base block acceptable, its sum zero modulo 256 |
| Edid.ExtensionMoves | usr/src/uts/common/io/drm/drm_edid.c:1085-1096 | an extension stays acceptable at any other extension position |
| Edid.ReturnedEdidIsValid | usr/src/uts/common/io/drm/drm_edid.c:1054-1106 | whatever the display answers, a returned EDID passes the check, its base block sums to zero, it announces as many extensions as follow, and those are in order the ones that validated |
| Edid.ReturnedBytes | usr/src/uts/common/io/drm/drm_edid.c:1054-1106 | every EDID returned begins 00 ff ff ff ff ff ff 00, has major version 1, and byte 126 counts the blocks of 128 bytes after the first |
| Edid.ReturnedFirstBlock | usr/src/uts/common/io/drm/drm_edid.c:1099-1102 | its first block is the one of the display but for bytes 126 and 127, whose sum modulo 256 is kept |
| Edid.GetEdid | usr/src/uts/common/io/drm/drm_edid.c:1054-1116 | for every channel and allocation: comes to a read outside the buffer exactly if the next rows say so; else returns exactly that EDID at the start of a buffer of five blocks, or nothing exactly when there is no memory, a transfer failed or the base block never validated; counts bad and all-zero answers; its reads are those of the next rows, up to the first outside |
| Edid.ReadsStayInsideIff | usr/src/uts/common/io/drm/drm_edid.c:1085-1096 | every read of an extension stays inside the five blocks if and only if, whenever another extension is read, at most three validated before it |
| Edid.FourAlwaysFit | usr/src/uts/common/io/drm/drm_edid.c:1076-1096 | that is so for every display that announces at most four extensions |
| Edid.FewValidFit | usr/src/uts/common/io/drm/drm_edid.c:1076-1096 | and for one that announces more exactly if at most three of the blocks before the last validate, as long as no transfer fails |
| Edid.FifthHasNoRoom | usr/src/uts/common/io/drm/drm_edid.c:1076-1096 | it is not so for any display that announces more than four and answers the first read of each of the first five with a valid block |
| Edid.FiveExtensionsOverrun | usr/src/uts/common/io/drm/drm_edid.c:1076-1096 | a concrete display of that kind |
| Cea.WalkOfSerialised | usr/src/uts/common/io/drm/drm_edid.c:2420-2421 | any list of data blocks written out over the whole collection is read back as it was |
| Cea.WalkStaysInside | usr/src/uts/common/io/drm/drm_edid.c:2420-2421 | for arbitrary bytes the visited blocks, written out again, are the beginning of the collection; what is left is shorter than the block it would start; nothing at or beyond the end is read |
| Cea.EndMeans | usr/src/uts/common/io/drm/drm_edid.c:2408-2418 | offset 0 means the whole block up to byte 127, 4 to 127 mean themselves, all others are errors |
| Cea.HeaderByteMeans | usr/src/uts/common/io/drm/drm_edid.c:2389-2400 | the tag is the upper three bits (1 audio, 3 vendor, 4 speakers), the length the lower five |
| Cea.HdmiMeans | usr/src/uts/common/io/drm/drm_edid.c:2494-2507 | the vendor block of HDMI begins 03 0c 00 |
| Cea.SadReadsBack | usr/src/uts/common/io/drm/drm_edid.c:2633-2640 | a descriptor packed into three bytes is read back field by field, whatever the reserved bits |
| Cea.FindCeaExtension | usr/src/uts/common/io/drm/drm_edid.c:2224-2244 | the first extension tagged as one, or none if there is none |
| Cea.EdidToSad | usr/src/uts/common/io/drm/drm_edid.c:2605-2651 | the descriptors of the first audio block, or the error for a missing extension, an old revision, bad offsets or no memory |
| Cea.EdidToEld | usr/src/uts/common/io/drm/drm_edid.c:2520-2593 | the buffer holds exactly the ELD of the specification |
| Cea.HeaderFields | usr/src/uts/common/io/drm/drm_edid.c:2538-2554 | version, manufacturer, product and name bytes are where they belong, reserved bytes and everything from byte 64 on are zero |
| Cea.PackedFields | usr/src/uts/common/io/drm/drm_edid.c:2552-2591 | byte 2 is the size in 4-byte words rounded up; byte 4 holds name length and revision; byte 5 holds descriptor count and the AI bit; byte 7 is the last speaker allocation |
| Cea.AudioField | usr/src/uts/common/io/drm/drm_edid.c:2571-2576 | the payload of the last audio block lies right behind the name and ends inside the buffer |
| Cea.EldNameReadsBack | usr/src/uts/common/io/drm/drm_edid.c:2546-2552 | decoding the name length recovers the monitor name |
| Cea.EldSadsReadBack | usr/src/uts/common/io/drm/drm_edid.c:2571-2590 | decoding name length and descriptor count recovers the descriptors of the last audio block |
| Cea.ParsersAgree | usr/src/uts/common/io/drm/drm_edid.c:2573-2640 | ELD and drm_edid_to_sad agree if and only if first and last audio block hold the same descriptors; with one audio block they do |
| Cea.TwoAudioBlocksDisagree | usr/src/uts/common/io/drm/drm_edid.c:2571-2645 | a collection with two audio blocks on which they disagree |
| Bits.OrOfFields | usr/src/uts/common/io/drm/drm_edid.c:2552 | or of fields that share no bit is their sum |
| Bits.OneBit | usr/src/uts/common/io/drm/drm_bufs.c:1206 | n and n-1 share no bit exactly if n is a power of two |
| MagicNumbers.MagicTable.Find | usr/src/uts/common/io/drm/drm_auth.c:70-86 | finds exactly what the map holds |
| MagicNumbers.MagicTable.Add | usr/src/uts/common/io/drm/drm_auth.c:99-128 | the map with one more entry, or the same map when there is no memory; heads, tails and chains of all buckets stay right |
| MagicNumbers.MagicTable.Remove | usr/src/uts/common/io/drm/drm_auth.c:139-169 | the map without the number, reporting whether it was there; removing a head, a tail or a middle entry keeps the bucket right |
| Masters.Minor.FindNumber | usr/src/uts/common/io/drm/drm_auth.c:192-199 | ends whenever fewer than 2^32 numbers are in use, with the first number after the counter that is not |
| Masters.Minor.GetMagic | usr/src/uts/common/io/drm/drm_auth.c:187-209 | a file keeps the number it has; otherwise it gets the first free one after the counter and, memory permitting, an entry under it in the table of its master |
| Masters.Minor.Elsewhere | usr/src/uts/common/io/drm/drm_auth.c:187-201 | a number taken on another minor moves the counter and nothing else |
| Masters.Minor.AuthMagic | usr/src/uts/common/io/drm/drm_auth.c:225-237 | only an authenticated master file may authenticate; the file behind the number is authenticated and the number used up, or nothing changes |
| Masters.Minor.OpenFile | usr/src/uts/common/io/drm/drm_fops.c:168-270 | joins the current master or founds one; a file that founds is master and authenticated, one that joins is authenticated exactly if root opens it; a master that the driver refuses leaves no trace |
| Masters.Minor.Release | usr/src/uts/common/io/drm/drm_fops.c:336-409 | exactly the release step: the entry of the file goes, a master file deauthenticates all others on its master and frees the minor, the reference and the file go |
| Masters.UnfoundedIsBothPuts | usr/src/uts/common/io/drm/drm_fops.c:233-256 | dropping both references of a refused master leaves the state as it was |
| Masters.JoinedKeeps | usr/src/uts/common/io/drm/drm_fops.c:258-262 | joining keeps counts, the single master and the registration of numbers |
| Masters.FoundedKeeps | usr/src/uts/common/io/drm/drm_fops.c:215-232 | founding keeps them, with the two references of minor and file |
| Masters.ReleasedKeeps | usr/src/uts/common/io/drm/drm_fops.c:336-409 | closing keeps them; closing the master file leaves the minor without master |
| Masters.NumberedKeeps | usr/src/uts/common/io/drm/drm_auth.c:187-209 | handing out an unused number keeps them |
| Masters.VouchedKeeps | usr/src/uts/common/io/drm/drm_auth.c:225-237 | authenticating keeps them |
| Masters.NumberWorksOnce | usr/src/uts/common/io/drm/drm_auth.c:225-237 | a number authenticates the file that has it; presenting it again at once changes nothing |
| Masters.NumberWorksOncePerHandingOut | usr/src/uts/common/io/drm/drm_auth.c:187-237 | over any run: after a number authenticated a file, presenting it on that master changes nothing until some file of that master is handed the number again |
| Masters.RunKeeps | usr/src/uts/common/io/drm/drm_fops.c:168-409 | in every reachable state, also while other minors use up numbers of the common counter, each master counts the minor plus its attached files, at most one file is master and that exactly if the minor has one, and only files of the current master are authenticated |
| Masters.StartKeeps | usr/src/uts/common/io/drm/drm_stub.c:308-336 | no master and no file: the state that runs start from meets all that |
| Masters.StepChanges | usr/src/uts/common/io/drm/drm_fops.c:336-409 | each open file keeps its number unless given one, its master status, and its rights unless the master file of its master is closed; rights are given only to the entitled; only the closed file goes |
| Masters.OpenedRights | usr/src/uts/common/io/drm/drm_fops.c:185-262 | the rights that a new file starts with |
| Masters.AuthenticatedWereEntitled | usr/src/uts/common/io/drm/drm_fops.c:168-409 | over any run: who is authenticated at its end was so before or became entitled during it |
| Masters.OnlyTheEntitledAreAuthenticated | usr/src/uts/common/io/drm/drm_fops.c:168-409 | from the start: every authenticated file was opened by root, founded its master, or an authenticated master file vouched for its number |
| Masters.DethronedForGood | usr/src/uts/common/io/drm/drm_fops.c:366-379 | no file left on a master that is not current is ever authenticated or master again, in any run |
| Masters.ClosingTheMasterFileDethrones | usr/src/uts/common/io/drm/drm_fops.c:366-392 | closing the master file does that to its master |
| Masters.EntriesAreOpenFiles | usr/src/uts/common/io/drm/drm_fops.c:336-339 | while 0 is not in use, every entry belongs to an open file of that master which has that number |
| Masters.NoZeroStays | usr/src/uts/common/io/drm/drm_auth.c:192-201 | 0 stays out of use unless it is handed out |
| Masters.EntriesStayOpenFiles | usr/src/uts/common/io/drm/drm_auth.c:192-201 | over any run in which nobody gets number 0: 0 stays out of use, and every entry belongs to an open file of that master which has that number |
| Masters.ClosedIsForgottenIffNotZero | usr/src/uts/common/io/drm/drm_fops.c:336-339 | closing leaves no entry of the file if and only if it was not given number 0 under a master that outlives it |
| Masters.WrapLeavesAnEntry | usr/src/uts/common/io/drm/drm_auth.c:192-201 | after 0xFFFFFFFF the counter gives 0, and a file with that number leaves its entry behind when it is closed |
| Masters.WrapIsReachable | usr/src/uts/common/io/drm/drm_auth.c:192-201 | a run from the start to such an entry |
| DmaBuffers.Order | usr/src/uts/common/io/drm/drm_bufs.c:1199-1210 | the exponent of the least power of two that is not below the size, 0 for size 0 |
| DmaBuffers.LeastOrderIsLeast | usr/src/uts/common/io/drm/drm_bufs.c:1199-1210 | no smaller power of two holds the size |
| DmaBuffers.OrderRange | usr/src/uts/common/io/drm/drm_bufs.c:735-736 | the orders admitted are those of 17 bytes to 4 MiB |
| DmaBuffers.AppendKeepsLayout | usr/src/uts/common/io/drm/drm_bufs.c:774-805 | appending buffers of one order below the limit of an unsigned long: indices continue, ranges follow one another and end within the new byte count |
| DmaBuffers.BuffersAreDisjoint | usr/src/uts/common/io/drm/drm_bufs.c:774-828 | different buffers share no byte, and every byte lies below the byte count |
| DmaBuffers.AlignmentFits | usr/src/uts/common/io/drm/drm_bufs.c:717-722 | each buffer has at least its size and at most what it adds to the byte count |
| DmaBuffers.AlignmentMeans | usr/src/uts/common/io/drm/drm_bufs.c:717-721 | with page alignment the distance is the least number of whole pages that holds a buffer, without it exactly its size |
| DmaBuffers.AddedAreAligned | usr/src/uts/common/io/drm/drm_bufs.c:774-805 | with page alignment every added buffer starts at a page boundary, without it they lie exactly their size apart; the first starts at the byte count |
| DmaBuffers.AddKeepsPlacedIff | usr/src/uts/common/io/drm/drm_bufs.c:774-828 | an addition leaves indices right, ranges disjoint and all of them inside the byte count if and only if its bytes fit a signed 32-bit int, or their signed count makes the unsigned byte count wrap to near its limit |
| DmaBuffers.AddKeepsSumIff | usr/src/uts/common/io/drm/drm_bufs.c:774-828 | it leaves the byte count the sum of what the buffers span if and only if its bytes fit a signed 32-bit int |
| DmaBuffers.FourGigabytesFallOutside | usr/src/uts/common/io/drm/drm_bufs.c:701-828 | 1024 buffers of 4 MiB in a new pool: the byte count stays 0 and every buffer ends beyond it |
| DmaBuffers.TwoGigabytesWrap | usr/src/uts/common/io/drm/drm_bufs.c:701-828 | 512 of them, the least number that does not fit: the byte count wraps to 2^64 - 2^31, every buffer lies inside, but the sum is lost |
| DmaBuffers.Pool.AddBufsSg | usr/src/uts/common/io/drm/drm_bufs.c:689-842 | each error in its order with the pool unchanged, and on success exactly the appended buffers; what was counted in is counted out on every path |
| DmaBuffers.Pool.AddAll | usr/src/uts/common/io/drm/drm_bufs.c:689-842 | after any sequence of requests the byte count is the sum of the spans if and only if every one that succeeded spans less than 2 GiB, whatever came later; and then all buffers are where they should be; buffers once in the list stay there |
| DmaBuffers.Pool.AddAsSteps | usr/src/uts/common/io/drm/drm_bufs.c:738-841 | an addition is a run of the steps of its thread in the protocol of the two counters, is refused as busy exactly if the pool is frozen, extends the pool if it succeeds and fits, and leaves it alone if it fails |
| DmaBuffers.Pool.LookAsStep | usr/src/uts/common/io/drm/drm_bufs.c:907-913 | a look is the look of that protocol |
| DmaBuffers.InterleavedAdditionsKeepSound | usr/src/uts/common/io/drm/drm_bufs.c:738-841 | in every interleaving of additions and looks the pool stays laid out, and buffers once in the list stay there until the next setup |
| DmaBuffers.Pool.FreeBufs | usr/src/uts/common/io/drm/drm_bufs.c:1017-1050 | gives back exactly the buffers named before the first index that cannot be copied, is out of range, not owned, or named twice, with the error for which of these it was |
| DmaBuffers.Pool.Reclaim | usr/src/uts/common/io/drm/drm_dma.c:147-171 | returns what the closing file owns and no list holds, marks what waits, touches nothing else |
| DmaBuffers.Pool.Freeze | usr/src/uts/common/io/drm/drm_bufs.c:907-913 | refused while an addition is counted, else the use count rises |
| FreezeProtocol.RunKeeps | usr/src/uts/common/io/drm/drm_bufs.c:738-841 | in every interleaving the allocation count is the number of additions in progress, never together with a use |
| FreezeProtocol.FrozenForGood | usr/src/uts/common/io/drm/drm_bufs.c:907-913 | after the first successful look the pool never changes until the next setup |
| FreezeProtocol.DoneMeansUncounted | usr/src/uts/common/io/drm/drm_bufs.c:789-841 | once all additions are done nothing is counted any more |
| FreezeProtocol.AdditionIsRun | usr/src/uts/common/io/drm/drm_bufs.c:738-841 | an addition that nobody comes between is possible and leaves both counters as they were; the pool changes only if it was not frozen |
| FramebufferCheck.Check | usr/src/uts/common/io/drm/drm_crtc.c:2388-2436 | accepts exactly the acceptable requests, and otherwise gives the error of the first check that fails |
| FramebufferCheck.LegacyAcceptableIff | usr/src/uts/common/io/drm/drm_crtc.c:2225-2314 | the older request is not checked; the framebuffer is nevertheless one that the check accepts if and only if it has a size, a handle, rows of at least its width and an end within 32 bits |
| FramebufferCheck.PlanesDivideExactly | usr/src/uts/common/io/drm/drm_crtc.c:3791-3839 | subsampled sizes times the subsampling are the full sizes |
| FramebufferCheck.PictureSize | usr/src/uts/common/io/drm/drm_crtc.c:3640-3839 | a picture with luma and chroma takes 12 bits per pixel for NV12 and YUV420, 16 for YUV422, 24 for YUV444, 9 for YUV410, and so on: planes, bytes and subsampling fit together |
| FramebufferCheck.PixelHoldsComponents | usr/src/uts/common/io/drm/drm_crtc.c:3640-3710 | a pixel of an RGB format holds exactly the components that its name lists, in one plane without subsampling |
| FramebufferCheck.PixelInside | usr/src/uts/common/io/drm/drm_crtc.c:2405-2433 | every pixel of an accepted plane ends within its row and within 32 bits |
| FramebufferCheck.PixelsAreDisjoint | usr/src/uts/common/io/drm/drm_crtc.c:2405-2433 | different pixels of an accepted plane share no byte |
| FramebufferCheck.SizedIff | usr/src/uts/common/io/drm/drm_crtc.c:3640-3788 | pixels of a known format have a size if and only if the format is not a 4-bit one, AYUV or marked big-endian |
| FramebufferCheck.BigEndianPitchUnchecked | usr/src/uts/common/io/drm/drm_crtc.c:2388-2436 | such a picture of any width is accepted with a pitch of zero |
| Dpms.EncoderChoiceIsLeast | usr/src/uts/common/io/drm/drm_crtc_helper.c:817-828 | the level of an encoder is the least its connectors ask for, OFF without any |
| Dpms.CrtcChoiceIsLeast | usr/src/uts/common/io/drm/drm_crtc_helper.c:830-841 | the level of a CRTC is the least its connectors ask for, OFF without any |
| Dpms.ChoiceIsAskedFor | usr/src/uts/common/io/drm/drm_crtc_helper.c:817-841 | with levels 0 to 3, encoders and CRTCs get a level that one of their connectors asks for, and 3 without any |
| Dpms.ChooseEncoderDpms | usr/src/uts/common/io/drm/drm_crtc_helper.c:817-828 | computes that level |
| Dpms.ChooseCrtcDpms | usr/src/uts/common/io/drm/drm_crtc_helper.c:830-841 | computes that level |
| Dpms.EncoderMoves | usr/src/uts/common/io/drm/drm_crtc_helper.c:853-898 | a changed request moves only the encoder of its connector, and in the same direction |
| Dpms.CrtcUpFirst | usr/src/uts/common/io/drm/drm_crtc_helper.c:866-879 | commanding the CRTC first when powering up never leaves an encoder more powered than its CRTC |
| Dpms.EncoderDownFirst | usr/src/uts/common/io/drm/drm_crtc_helper.c:881-895 | nor does commanding the encoder first when powering down |
| Dpms.NobodyElseMoves | usr/src/uts/common/io/drm/drm_crtc_helper.c:853-898 | commanding that encoder and that CRTC is enough for all levels to be right again |
| Dpms.ConnectorDpms | usr/src/uts/common/io/drm/drm_crtc_helper.c:853-898 | all levels are right afterwards, no state in between has an encoder above its CRTC, and an unchanged request commands nothing |
| Dpms.Run | usr/src/uts/common/io/drm/drm_crtc_helper.c:853-898 | the same over any sequence of requests with fixed routing |
| Events.EventQueues.Open | usr/src/uts/common/io/drm/drm_fops.c:203 | a new file has all its event space |
| Events.EventQueues.PageFlip | usr/src/uts/common/io/drm/drm_crtc.c:3524-3559 | space is reserved exactly if the flip goes ahead; every failure gives it back |
| Events.EventQueues.FlipDone | usr/src/uts/common/io/drm/drm_irq.c:966-975 | a finished flip queues its event at the end, the space staying taken |
| Events.EventQueues.QueueVblank | usr/src/uts/common/io/drm/drm_irq.c:1256-1321 | refused without space or memory, else the event is queued at the end of the file with the present sequence if due, or kept waiting last for the requested blank or, if asked to, the next; free, queued and reserved bytes always make 4096 |
| Events.DueMeans | usr/src/uts/common/io/drm/drm_irq.c:1436-1442 | a blank is due if and only if the 32-bit counter passed it 0 to 2^23 blanks ago |
| Events.DueFromTheFirst | usr/src/uts/common/io/drm/drm_irq.c:1436-1442 | it is due at itself and at the next blank, not at the one before |
| Events.EventQueues.SendVblank | usr/src/uts/common/io/drm/drm_irq.c:1426-1454 | exactly the due events of the pipe leave the list for the end of their files, with the present sequence, among them every one that waits for this blank; the others go on waiting unchanged |
| Events.SentInOrder | usr/src/uts/common/io/drm/drm_irq.c:1426-1454 | what a file is sent are the due events of that pipe and file, in the order in which they waited |
| Events.EventQueues.Dequeue | usr/src/uts/common/io/drm/drm_fops.c:437-464 | the first event, exactly if it still fits, and its space |
| Events.EventQueues.Read | usr/src/uts/common/io/drm/drm_fops.c:466-491 | what leaves the queue is a prefix of whole events no longer than the buffer and as long as possible; a failed copy reports 0 and loses the event it was for |
| Events.EventQueues.Release | usr/src/uts/common/io/drm/drm_fops.c:285-307 | nothing that waits refers to the closed file any more, all other files keep their events; completing the flips that the driver still holds stays safe if and only if none is of that file |
| Events.EventQueues.Close | usr/src/uts/common/io/drm/drm_fops.c:321-409 | with a driver that drops the flips of the file first, no event refers to the closed file any more |
| Events.EventQueues.Run | usr/src/uts/common/io/drm/drm_fops.c:203-491 | after any sequence of operations on any files the free space of each open file is 4096 less 32 for each of its events in its queue, waiting or in a flip, never more than 128 of them |

## Left out

- ModeSetTransaction.SwitchOn: what the callback does besides the level of the connector is in Dpms or left to the driver.
- ModeSetTransaction.SetConfig: requires a valid request (the CRTC and connectors belong to the device, a mode comes with a framebuffer), which the callers in drm_crtc.c establish; the C code stops the kernel otherwise.
- Framebuffers.Device.GetFb: the handle that the driver creates is not modelled, nor the depth and pitch that are reported.
- Framebuffers.Device.AddFb: the list of all framebuffers of the device and its counter are not modelled, only the id table and the list of the file.
- Framebuffers.Device.SetCrtc: modes are values; conversion of the user's mode is a nondeterministic result.
- Framebuffers.Device.PageFlip: what happens to the event of the flip is in Events.EventQueues.PageFlip.
- Edid.GetEdid: what happens once a read starts outside the buffer is not modelled; the method ends there and says so.
- Cea.EdidToEld: the monitor name is a parameter, the walk over detailed timings that finds it is not modelled; latencies, dual-link and clock fields that the HDMI block sets on the connector are not modelled.
- Cea.EdidToSad: numbers of errors are those of illumos.
- Masters.Minor.GetMagic: sequential, as the global mutex that its comment names makes it; the retry of the compare-and-set is not modelled.
- Masters.Minor.OpenFile: one minor; SET_MASTER and DROP_MASTER are outside, since the single-master invariant does not hold with them.
- Masters.Minor.Release: the hardware lock, contexts and buffers of the closing file are not modelled here.
- DmaBuffers.Pool.AddBufsSg: bus and kernel addresses of buffers are not modelled, nor who relies on the byte count after it was lost.
- DmaBuffers.Pool.Freeze: the use count is unbounded; in C it is an int.
- FreezeProtocol.RunKeeps: setup happens while no addition is in progress.
- FramebufferCheck.Check: formats are names; their four-character codes are not modelled.
- Dpms.ConnectorDpms: every driver has the dpms callbacks; levels start out right.
- Events.EventQueues.FlipDone: only for flips of open files; a driver that keeps a flip of a closed file is outside.
- Events.EventQueues.Run: files are closed by a driver whose preclose callback drops their flips.
- LinuxList.Splice: the list that was spliced is not initialised again, so nothing is said about it afterwards, as in C.
- `drm_helper_resume_force_mode`, which clears framebuffers outside the accounts of references.
- Copying the old buffer vector when AGP buffers are added; its counters follow the same protocol.
- Cursors, gamma, properties, encoder and connector registration, mode lists and hotplug polling: bookkeeping without these interactions.
- The internals of idr and kref (a map and a counter here), locks other than those that the interleaving modules name, and reference counts beyond the C int range.
- Mode tables, CVT and GTF generation, EDID quirks and detailed timings.
- GEM, mmap, AGP, interrupt set-up, ioctl argument copying and 32-bit layouts.
