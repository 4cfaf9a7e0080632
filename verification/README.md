# LineXinBar's compositor: a verified model

LineXinBar is a Wayland compositor for a console-like session. Around its rendering sit state
machines, a binary parser and a few in-place algorithms, each with promises that have to hold over
whole runs: what is committed to a display and who owns the memory behind it, fades that may be turned
round at any instant, a picture painted by one thread and shown by another, a child that keeps the
display lit between two compositors, a keyboard that must always find its way home. This project states
those promises in Dafny and proves them.

What the compositor does step by step is modelled step by step: a class for an object whose methods
update it, an array for the sorted descriptors, loops where it loops. Each such method is proved against
functions on values, and the promises are lemmas about those functions over every run, every clock and
every answer the kernel, the driver or the other thread may give. Durations are whole nanoseconds,
f32 and f64 are exact reals, and integer widths are written out where they matter.

| file | models |
|---|---|
| `hdr_pipeline.dfy`, `hdr_device.dfy` | the colour pipeline of one connector: the abstract step, and the code that stages, tests, commits and frees |
| `hdr_picture.dfy` | what that makes of a picture: every grey that leaves, and what the display is told |
| `hdr_manager.dfy`, `hdr_session.dfy` | what every display was asked for, and its whole life from plug to frame |
| `edid.dfy` | the EDID and CTA-861 data block reader, with an encoder to read back |
| `tone_curves.dfy` | sRGB, PQ, the HDR ramp and the night light's |
| `fades.dfy`, `blackout.dfy`, `curtain.dfy` | the two sheets |
| `spring.dfy`, `overview.dfy` | the window overview and the spring its cards ride |
| `backdrop.dfy` | the wallpaper's two threads |
| `handover.dfy` | the keeper of the picture |
| `mode_text.dfy`, `displays.dfy`, `remembered.dfy` | mode text, the per-key merge, the crash-safe write |
| `key_bindings.dfy`, `key_order.dfy` | the table of key chords, and when the order of its entries shows |
| `key_automata.dfy`, `pointer.dfy`, `focus.dfy` | the rest of input policy |
| `colour_management.dfy` | the colour-management protocol objects |
| `cursor.dfy` | the cursor cache and its animation |
| `wrappers.dfy` | the optional value |

The kernel is whatever it may be: it may refuse any blob, any test and any commit. The exponential of the
spring and the powers of the curves are any functions with the laws stated beside them. The names of keys
are the keyboard library's: how a chord is read is a parameter.

## Where the code parts from what is said of it

Each is a property that turned out not to hold everywhere, with the exact condition under which it does.

- A display can be reported in HDR and never have been told so: a blob that cannot be created leaves its
  stage out of the request. `HdrPipeline.SignalledIsDescribedExactly`, `HdrPipeline.HdrWithoutAnInfoframe`. Left
  out a second time, it leaves the connector showing a blob that has been freed.
  `HdrPipeline.CommitAnchorsExactly`, `HdrPipeline.ACommitStrands`.
- A commit the driver refuses is not tried again: recording the outcome ends the wait, refused or not, and a
  display already in HDR is then said to be out of it; one committed without its infoframe is said to be in it.
  `HdrSession.StatusIsTruthfulExactly`, `HdrSession.ARefusedChangeUnderstates`,
  `HdrSession.ARefusedInfoframeOverstates`.
- Greys do not come through the gamut matrix quite untouched: the row for green sums to one and a hundred-millionth,
  until the colours are stretched all the way. `HdrPicture.GreysComeThrough`.
- Encoding to sRGB steps back at its break, by less than one of the levels it is written in, and a sliver of codes
  does not survive the round trip. `ToneCurves.LinearToSrgbDipsExactly`, `ToneCurves.EncodedLevelsRise`,
  `ToneCurves.CodesSurviveExactly`.
- The blackout's count is in milliseconds, so inside one the picture moves and the count does not; and a display
  can be fully black, bound for black, and not said to be. `Blackout.AlikeExactly`, `Blackout.BlackIsSaidExactly`,
  `Blackout.BlackCanGoUnsaid`.
- The curtain's count starts again with each leg, so it does not tell two legs apart. `Curtain.OneLegCounts`,
  `Curtain.AcrossATurnExactly`, `Curtain.TheCountRestarts`.
- A wallpaper whose clock could not be set back does not start from zero: it stands still until a clock from
  zero has caught up with its first picture. `Backdrop.FrozenUntilTheClockArrives`.
- The configuration file does not always win: what it says on the wildcard is lost behind a remembered entry for
  the display, so a wildcard never overrules a switch at the next login, though it is said to pin it.
  `Displays.TheFileWinsExactly`, `Remembered.TheNextLogin`, `Remembered.APinTellsTheTruthExactly`.
- A remembered file that cannot be read is said to be left alone, and is replaced by the next change that lands.
  `Remembered.OthersSurviveExactly`.
- The bindings come in no order, and the order can show: one chord spelled for two things; a chord for a whole key
  beside another of that key, where the user's own is dropped like a built-in one; or a chord given to the guide and
  to something else, which may or may not take a built-in one with it. `KeyOrder.OrderMattersExactly`,
  `KeyBindings.TheLastSpellingWins`, `KeyBindings.AWholeKeyIsLostByOrder`,
  `KeyBindings.AShadowedEntryTakesAWholeKeyByOrder`.
- A volume key bound with a modifier goes on stepping when the modifier is let go of first.
  `KeyAutomata.LettingGoEndsItExactly`.
- The check on who has the keyboard is not the policy that gives it away, and is not meant to be: a clicked layer
  keeps it, but so do a window that is not the topmost and one that has floated or stopped taking input.
  `Focus.ComesApartExactly`, `Focus.AClickedLayerKeepsIt`, `Focus.AnUnwillingWindowKeepsItExactly`.
- PQ's range tops out ten thousand candelas above its floor only for a floor that is a whole number of them, and the
  mastering luminances are not checked at all. `ColourManagement.TheTopOfPqExactly`,
  `ColourManagement.TheTargetIsARangeExactly`, `ColourManagement.AnInvertedTargetIsReady`.

## Model

| member | source | states |
|---|---|---|
| HdrPipeline.StepAccounts | crates/lxb-compositor/src/hdr.rs:902-1117 | whatever the kernel answers, one call leaves the device with other clients' blobs and exactly the ones the pipeline keeps, and the two stay apart |
| HdrPipeline.CompleteStepInstalls | crates/lxb-compositor/src/hdr.rs:925-1066 | a commit whose blobs were all created installs the table of what every property should be, whatever was there before, and every blob shown is one that is kept |
| HdrPipeline.CommitAnchorsExactly | crates/lxb-compositor/src/hdr.rs:1199-1249 | a commit leaves a property behind a freed blob exactly when a stage left out for want of a blob was showing one |
| HdrPipeline.LackingTheInfoframeStrands | crates/lxb-compositor/src/hdr.rs:1199-1249 | a connector put in HDR whole and then again without an infoframe blob shows a blob that has been freed, from any state in order and whatever else was refused |
| HdrPipeline.ACommitStrands | crates/lxb-compositor/src/hdr.rs:1199-1249 | such a run of two calls from a clean connector |
| HdrPipeline.SignalledIsDescribedExactly | crates/lxb-compositor/src/hdr.rs:1018-1066 | from the first HDR commit on, a committed state carries an infoframe exactly when its blob was created this time or one was in force |
| HdrPipeline.HdrWithoutAnInfoframe | crates/lxb-compositor/src/hdr.rs:1205-1218 | a reachable commit that is reported as HDR and carries no infoframe, one refused blob being enough |
| HdrPipeline.RunAccounts | crates/lxb-compositor/src/hdr.rs:902-1117 | conservation over every run of apply and reset with arbitrary answers: created and not destroyed is exactly held |
| HdrPipeline.RunSignalled | crates/lxb-compositor/src/hdr.rs:1018-1066 | whether the display has ever been told about HDR is a property of the history of committed HDR calls alone |
| HdrPipeline.RejectedRunChangesNothing | crates/lxb-compositor/src/hdr.rs:1236-1249 | any run of calls whose test or commit was refused leaves the device, the books and the picture as they were |
| HdrPipeline.LastCommitDecides | crates/lxb-compositor/src/hdr.rs:902-1117 | over every run, the committed state is what the last committed call and the HDR history ask for of every property, nothing inherited, all of it behind blobs still held |
| HdrPipeline.DescribedForGood | crates/lxb-compositor/src/hdr.rs:1143-1196 | once an infoframe is in force after HDR, no later call, however it fails, leaves the property without one |
| HdrPicture.AWholeCallSendsWhatItShould | crates/lxb-compositor/src/hdr.rs:902-1117 | whatever stages the hardware has: a call committed whole tells the display the right peak, white, black and colour space, or that it is in SDR, and sends every grey as PQ, warmed sRGB or untouched, as the settings, the panel and the content ask |
| HdrPicture.TheLastCallIsSent | crates/lxb-compositor/src/hdr.rs:902-1117 | over every run the picture sent and what the display is told are those of the last committed call, and of earlier ones only whether the display had been in HDR |
| HdrPicture.AResetAsksForNoHdr | crates/lxb-compositor/src/hdr.rs:1098-1117 | a reset is, blob for blob, a call with HDR not asked for |
| HdrPicture.GreysComeThrough | crates/lxb-compositor/src/hdr.rs:1400-1433 | the gamut matrix at every intensity has no entry outside 0 and 1, and greys come through exactly in red and blue always and in green only with the colours stretched all the way |
| HdrDevice.Commit | crates/lxb-compositor/src/hdr.rs:1236-1249 | the driver is asked for a test, and for the commit only if the test passed; the answer is yes exactly when both were, and only then does anything change |
| HdrDevice.Pipeline.FreeBlobs | crates/lxb-compositor/src/hdr.rs:1220-1226 | every kept blob is destroyed once, none twice, and the list is empty |
| HdrDevice.Pipeline.StageReset | crates/lxb-compositor/src/hdr.rs:1143-1196 | the five stages of an SDR picture, staged one by one, make the request the table asks for |
| HdrDevice.Pipeline.StageHdr | crates/lxb-compositor/src/hdr.rs:925-1066 | the five stages of an HDR picture, staged one by one, make the request the table asks for |
| HdrDevice.Pipeline.Finish | crates/lxb-compositor/src/hdr.rs:1068-1097 | after the test and the commit exactly one generation of blobs is destroyed: the old one if it landed, the new one if not |
| HdrDevice.Pipeline.Apply | crates/lxb-compositor/src/hdr.rs:902-1097 | one step of the machine for some possible answers of the kernel, destroying nothing twice; it reports HDR exactly when it was asked for, the panel claims PQ, connector and driver can, and the call was committed, and warmth exactly when the light tints, no encoded HDR is passing and it was committed |
| HdrDevice.Pipeline.Reset | crates/lxb-compositor/src/hdr.rs:1098-1117 | the same for a reset |
| HdrManager.Manager.Register | crates/lxb-compositor/src/hdr.rs:348-376 | a display met again keeps what it was asked for, is given its new capabilities and is pending; every other entry is untouched |
| HdrManager.Manager.ReapplyAll | crates/lxb-compositor/src/hdr.rs:379-392 | every display becomes pending, is no longer said to be in HDR or warmed, and keeps what it was asked for |
| HdrManager.Manager.Disconnected | crates/lxb-compositor/src/hdr.rs:404-411 | a departed display keeps its request, is said to support and show nothing, and has nothing pending |
| HdrManager.Manager.Request | crates/lxb-compositor/src/hdr.rs:413-474 | of the three things a display can be asked, the one asked is recorded and the others stay; it is pending if anything changed or was; the answer says whether anything did |
| HdrManager.Manager.TakePending | crates/lxb-compositor/src/hdr.rs:476-481 | what a display waits for, all three parts together, and without forgetting it |
| HdrManager.Manager.Applied | crates/lxb-compositor/src/hdr.rs:500-512 | the outcome is recorded, nothing is pending any more, and the answer says whether it was news |
| HdrSession.OneEvent | crates/lxb-compositor/src/backend/udev.rs:2235-2350 | one plug, unplug, modeset, request or frame keeps: nothing pending means what was asked was attempted, and neither HDR nor warmth is claimed that was reset away |
| HdrSession.EveryRun | crates/lxb-compositor/src/backend/udev.rs:2235-2350 | the same over every run of events on one display |
| HdrSession.QuietDisplaysShowTheirEntry | crates/lxb-compositor/src/hdr.rs:476-512 | a display with nothing pending, whose last attempt was committed whole, sends and is told exactly what its entry asks for, and its status says HDR and warmth exactly when they are shown |
| HdrSession.TheLastWordStands | crates/lxb-compositor/src/hdr.rs:348-474 | however often a display is unplugged, met again, reset and refused, its entry is what was last asked of it, each of the three by itself, or what it was first met with |
| HdrSession.StatusIsTruthfulExactly | crates/lxb-compositor/src/hdr.rs:500-512 | after any frame at all the status agrees with the connector exactly when: refused, the connector was not in HDR; taken, the infoframe stage got into the request or was not needed to, or what was in force already said as much |
| HdrSession.ARefusedChangeUnderstates | crates/lxb-compositor/src/hdr.rs:500-512 | a run that ends with nothing pending, an HDR picture, and a status that says there is none |
| HdrSession.ARefusedInfoframeOverstates | crates/lxb-compositor/src/hdr.rs:500-512 | every HDR call committed without an infoframe blob on a connector not in HDR leaves it said to be, with nothing pending |
| HdrSession.TheFirstFrameCanOverstate | crates/lxb-compositor/src/hdr.rs:500-512 | a plug and one frame that end so |
| Edid.FromEdid | crates/lxb-compositor/src/hdr.rs:590-611 | total on every byte string, reading no byte out of range; PQ is claimed exactly by a block of tag 7 that starts with 6 and has bit two set in its next byte, BT.2020 by one that starts with 5 and has the top bit set, and the luminances are the codes of the last such block that has them |
| Edid.Reader.ReadCtaBlock | crates/lxb-compositor/src/hdr.rs:613-644 | one extension's nested length-driven walk adds exactly the blocks its bytes spell |
| Edid.Reader.ReadExtension | crates/lxb-compositor/src/hdr.rs:596-611 | an extension is read when it is a CTA one and is there in full, and not otherwise |
| Edid.ClaimedIsUnique | crates/lxb-compositor/src/hdr.rs:590-677 | what a list of blocks claims is settled by the list: last luminance stated wins, any block may say PQ or BT.2020 |
| Edid.ClaimedInNumbers | crates/lxb-compositor/src/hdr.rs:613-677 | what a list of blocks claims, in the numbers of CTA-861 and with no bit test or tag of the reader's |
| Edid.AddingAllIsClaimed | crates/lxb-compositor/src/hdr.rs:646-677 | adding blocks one at a time arrives at what the whole list claims |
| Edid.SpelledIsClaimed | crates/lxb-compositor/src/hdr.rs:590-677 | whatever the bytes, the display's claims are those of the blocks they spell |
| Edid.ExtensionRoundTrip | crates/lxb-compositor/src/hdr.rs:613-644 | any list of well-formed blocks that fits an extension of any revision is read back block for block, whatever timings and padding follow, and nothing is read of an extension of another kind |
| Edid.EdidRoundTrip | crates/lxb-compositor/src/hdr.rs:590-644 | any lists of blocks written into any extensions of an EDID are spelled by it in order, extensions of other kinds between them, and more bytes or fewer extensions than it counts included |
| Edid.WhatIsWrittenIsClaimed | crates/lxb-compositor/src/hdr.rs:590-677 | so of any such EDID the reader claims what the standard's numbers say of the blocks written into it |
| Edid.TooShortClaimsNothing | crates/lxb-compositor/src/hdr.rs:590-599 | fewer bytes than a base block claim nothing |
| Edid.TruncationHidesTheRest | crates/lxb-compositor/src/hdr.rs:619-631 | a block that runs off its extension hides itself and what follows it there, and nothing before it |
| ToneCurves.SrgbToLinearRises | crates/lxb-compositor/src/hdr.rs:1529-1541 | decoding rises strictly over the whole range, through its break |
| ToneCurves.DecodesInNumbers | crates/lxb-compositor/src/hdr.rs:1529-1541 | the decoder by its defining equations and its own break |
| ToneCurves.EncodesInNumbers | crates/lxb-compositor/src/hdr.rs:1543-1554 | the encoder by its own, whose break is another |
| ToneCurves.LinearToSrgbDipsExactly | crates/lxb-compositor/src/hdr.rs:1543-1554 | encoding steps back between two lights exactly when they straddle its break and the power branch is still below the linear one |
| ToneCurves.TheDip | crates/lxb-compositor/src/hdr.rs:1543-1554 | two lights where it does step back |
| ToneCurves.OneLevelAtTheBreak | crates/lxb-compositor/src/hdr.rs:1543-1554 | the encoder at its break is level 2651, and no light past it is written lower |
| ToneCurves.EncodedLevelsRise | crates/lxb-compositor/src/hdr.rs:1543-1554 | written in sixteen bits, encoding never steps back: the dip is narrower than a level |
| ToneCurves.WarmRampRises | crates/lxb-compositor/src/hdr.rs:1172-1190 | no night light ramp written on an SDR display goes backwards, for every gain from 0 up, table size and pair of entries |
| ToneCurves.CodesSurviveExactly | crates/lxb-compositor/src/hdr.rs:1529-1554 | a code decoded and encoded again comes back exactly when it is not in the sliver between the two breaks |
| ToneCurves.PqInNumbers | crates/lxb-compositor/src/hdr.rs:1556-1568 | PQ with the constants of SMPTE ST 2084, clamped to its range |
| ToneCurves.PqEncodeRises | crates/lxb-compositor/src/hdr.rs:1556-1568 | the PQ encoding rises with luminance up to ten thousand cd/m2, where it is 1 |
| ToneCurves.PqEncodeCompares | crates/lxb-compositor/src/hdr.rs:1556-1568 | two luminances of any size encode apart exactly when they differ and the lower is below ten thousand |
| ToneCurves.EvenSteps | crates/lxb-compositor/src/hdr.rs:988-1032 | the entries of a ramp stand a step apart from 0 to 1, both ends among them |
| ToneCurves.LevelIsNearest | crates/lxb-compositor/src/hdr.rs:1366-1384 | an entry is the nearest of the sixteen-bit levels |
| ToneCurves.HdrRampRises | crates/lxb-compositor/src/hdr.rs:988-1032 | no HDR gamma ramp goes backwards, for every white level and gain from 0 up, warmth and table size; and it rises exactly where there is light to give and PQ has not run out |
| Fades.SmoothstepRises | crates/lxb-compositor/src/blackout.rs:348-351 | the easing rises strictly and stays between 0 and 1 |
| Fades.SmoothstepEases | crates/lxb-compositor/src/blackout.rs:348-351 | the easing sets out and arrives at no speed, and its halves mirror one another |
| Fades.TravelledEnds | crates/lxb-compositor/src/blackout.rs:343-346 | a leg starts where it was, ends exactly where it is going, and stays in range |
| Fades.SamePlaceSameMoment | crates/lxb-compositor/src/blackout.rs:343-346 | two looks at a leg that is going anywhere agree exactly when it had run equally long |
| Blackout.StepKeeps | crates/lxb-compositor/src/blackout.rs:173-306 | every cover, power and prune keeps: the target is the darkest thing wanted, and no sheet means nothing is wanted |
| Blackout.RequestsAreContinuous | crates/lxb-compositor/src/blackout.rs:207-243 | no request makes the display blacker or lighter at the instant it is made |
| Blackout.PruningIsInvisible | crates/lxb-compositor/src/blackout.rs:296-306 | a dropped sheet drew nothing, then and for as long as nothing is asked |
| Blackout.Arrives | crates/lxb-compositor/src/blackout.rs:310-346 | left alone for the longest leg, a sheet is exactly at its target |
| Blackout.BlackIsBlack | crates/lxb-compositor/src/blackout.rs:269-290 | saying black, or off, implies being fully black |
| Blackout.FullyBlackExactly | crates/lxb-compositor/src/blackout.rs:310-346 | a sheet is fully black exactly when bound for black and a whole descent old or black when it was turned, or black when turned and turned this instant |
| Blackout.BlackIsSaidExactly | crates/lxb-compositor/src/blackout.rs:269-281 | a fully black display does not say so exactly when its sheet was black when it was turned and has not descended again, or went up this instant |
| Blackout.OneTurn | crates/lxb-compositor/src/blackout.rs:207-243 | a sheet turned round keeps its element and carries its blackness and its count across |
| Blackout.RunSettles | crates/lxb-compositor/src/blackout.rs:173-306 | over every run the invariant holds, ids are never reused and legs start in order |
| Blackout.ASecondLaterItIsAsAsked | crates/lxb-compositor/src/blackout.rs:173-346 | over every run, whatever the sheet was turned through: a second after the last request the display is black exactly if last said to be covered or off, at 0.55 exactly if last said to be dim and not covered, clear otherwise; and says it is black, and off, exactly then |
| Blackout.KeptIsSaid | crates/lxb-compositor/src/blackout.rs:173-306 | what is kept of a display is what was last said of it since it was last found gone |
| Blackout.ALegTakesExactly | crates/lxb-compositor/src/blackout.rs:328-346 | a leg that goes anywhere is at its end exactly after a second on the way down, a quarter on the way up, and half way after half of that |
| Blackout.TheCountIsMilliseconds | crates/lxb-compositor/src/blackout.rs:319-326 | the count rises by one a whole millisecond and stops with the leg |
| Blackout.DroppedExactly | crates/lxb-compositor/src/blackout.rs:296-306 | a sheet is dropped exactly when bound for clear and there: a quarter of a second after it was sent, or at once if it was clear |
| Blackout.EverySample | crates/lxb-compositor/src/blackout.rs:246-326 | over every run at instants that never go back, one element's count never falls, and on whole milliseconds equal counts are equal blackness, across any reversals |
| Blackout.AlikeExactly | crates/lxb-compositor/src/blackout.rs:319-346 | inside a millisecond, two samples of a leg look alike exactly when it had run equally long |
| Blackout.CountIsCoarse | crates/lxb-compositor/src/blackout.rs:319-326 | two samples under one count that differ |
| Blackout.BlackCanGoUnsaid | crates/lxb-compositor/src/blackout.rs:269-290 | a run that ends fully black, bound for black, and not said to be black |
| Blackout.Blackouts.Black | crates/lxb-compositor/src/blackout.rs:246-262 | what is drawn over a display: nothing, or its element, blackness and count |
| Blackout.Blackouts.Aim | crates/lxb-compositor/src/blackout.rs:207-243 | the sheet turns to where the display is wanted unless it is going there, keeping element and count, with an id used by no other; no other display moves |
| Blackout.Blackouts.Cover | crates/lxb-compositor/src/blackout.rs:173-182 | one step of the machine for that display, and no other display touched; at most one sheet per display and one display per id |
| Blackout.Blackouts.SetPower | crates/lxb-compositor/src/blackout.rs:185-194 | the same for power |
| Blackout.Blackouts.IsBlack | crates/lxb-compositor/src/blackout.rs:269-281 | says black exactly when bound for black and a whole descent old |
| Blackout.Blackouts.IsOff | crates/lxb-compositor/src/blackout.rs:284-290 | says off exactly when off is asked for and black is said |
| Blackout.Blackouts.Prune | crates/lxb-compositor/src/blackout.rs:296-306 | one step of the machine for every display at once |
| Curtain.StepKeeps | crates/lxb-compositor/src/curtain.rs:101-212 | no call makes the black jump, and drawing or asking never changes it |
| Curtain.HalfASecondLaterItIsAsAsked | crates/lxb-compositor/src/curtain.rs:101-226 | half a second after the last request the screen is black if that was to lower the curtain and clear otherwise, whatever came before |
| Curtain.GoesWhereItIsAsked | crates/lxb-compositor/src/curtain.rs:101-124 | in every history the sheet is on its way down exactly when last asked to be |
| Curtain.SaidOncePerLowering | crates/lxb-compositor/src/curtain.rs:197-212 | between two times of saying the screen is black there is a lowering that took effect |
| Curtain.ListedExactly | crates/lxb-compositor/src/curtain.rs:172-190 | a display is listed exactly when it drew a frame begun behind a fully black sheet since the sheet last turned |
| Curtain.SaidExactlyWhenShown | crates/lxb-compositor/src/curtain.rs:197-212 | black is said exactly when the sheet is down, it has not been said, and every display asked about is listed so |
| Curtain.ToldExactly | crates/lxb-compositor/src/curtain.rs:197-212 | it counts as said exactly if it was said since the sheet last turned |
| Curtain.TheFirstToAskIsTold | crates/lxb-compositor/src/curtain.rs:172-212 | the first to ask is told, once every display has drawn a frame begun half a second after the lowering |
| Curtain.HoldsInputExactly | crates/lxb-compositor/src/curtain.rs:129-146 | input is held exactly from a lowering until a prune that finds the sheet fully up |
| Curtain.AWholeFadeFrees | crates/lxb-compositor/src/curtain.rs:136-146 | a prune a whole fade after the raise frees the input, an earlier one does not, and none does while the sheet is down |
| Curtain.InputComesBack | crates/lxb-compositor/src/curtain.rs:129-146 | input is held from the moment the curtain is asked down, and given back by the first prune half a second after it was last asked up, for good |
| Curtain.FullyBlackExactly | crates/lxb-compositor/src/curtain.rs:172-190 | a frame counts as black exactly when begun on the way down a whole fade after the lowering, or behind a sheet that was black when lowered |
| Curtain.OneLegAlike | crates/lxb-compositor/src/curtain.rs:150-162 | on one leg the picture is the same exactly when the leg had run equally long, and then so is the count |
| Curtain.OneLegCounts | crates/lxb-compositor/src/curtain.rs:150-162 | on one leg and on whole milliseconds an equal count is an equal picture |
| Curtain.AcrossATurnExactly | crates/lxb-compositor/src/curtain.rs:101-162 | across a turn, under one count on whole milliseconds, the picture is the same exactly when how far the sheet had gone is the odds of how far along the count is: never past half way |
| Curtain.TheCountRestarts | crates/lxb-compositor/src/curtain.rs:101-124 | one element, one count, two depths of black: the count starts again with each leg |
| Curtain.Curtain.CoverIt | crates/lxb-compositor/src/curtain.rs:101-124 | asking for what is happening is ignored; a turn keeps the element and starts from where it is |
| Curtain.Curtain.PruneIt | crates/lxb-compositor/src/curtain.rs:136-146 | drops the sheet exactly when it is going up and draws nothing |
| Curtain.Curtain.AFrameWasDrawn | crates/lxb-compositor/src/curtain.rs:172-190 | notes a display once, and only for a frame begun fully black |
| Curtain.Curtain.EverythingIsBlack | crates/lxb-compositor/src/curtain.rs:197-212 | answers as the specification does and marks it said |
| Spring.FlowsTogether | crates/lxb-protocol/src/overview.rs:88-99 | the flow law of the closed-form spring: two stretches of time are one |
| Spring.NeverCrosses | crates/lxb-protocol/src/overview.rs:88-99 | let go at rest, the spring closes on its target and never crosses it |
| Spring.IsCriticallyDamped | crates/lxb-protocol/src/overview.rs:88-99 | against the decay the offset moves along a straight line, and speed plus the rate's worth of offset stands still |
| Spring.Arrives | crates/lxb-protocol/src/overview.rs:88-99 | of the way to go, no more is left than four parts in the rate times the seconds |
| Overview.LinearInRange | crates/lxb-compositor/src/overview.rs:80-89 | progress is in [0,1], starts where it was turned, and is at its end after a whole flight |
| Overview.GoesAtOneSpeed | crates/lxb-compositor/src/overview.rs:80-89 | a flight goes the whole way in three tenths of a second at one speed, and back as fast |
| Overview.SetKeeps | crates/lxb-compositor/src/overview.rs:109-147 | entering or leaving does what was asked on that display, keeps at most one open, and moves no window at that instant |
| Overview.ProgressInRange | crates/lxb-compositor/src/overview.rs:275-284 | eased progress is in [0,1] |
| Overview.ProgressIsEased | crates/lxb-compositor/src/overview.rs:275-284 | drawn progress is the eased share of the flight, and none without one |
| Overview.EveryRun | crates/lxb-compositor/src/overview.rs:109-147 | over every sequence of requests at any instants: never two open, and no jump at any request |
| Overview.OpenExactly | crates/lxb-compositor/src/overview.rs:109-147 | over every run, an overview is open exactly when it was asked for and neither it was closed nor another asked for since |
| Overview.ThreeTenthsLaterItIsAsAsked | crates/lxb-compositor/src/overview.rs:80-147 | three tenths of a second after the last request every window is in its card on the display asked for and in its place on every other |
| Overview.SmoothFramesFlow | crates/lxb-compositor/src/overview.rs:206-232 | stepping a card in any frames no longer than a step is carrying it over the whole time |
| Overview.LookingAheadIsDrawing | crates/lxb-compositor/src/overview.rs:249-272 | for every way of dividing the time into such frames, looking ahead says what drawing will |
| Overview.NoLookGoesFurther | crates/lxb-compositor/src/overview.rs:249-272 | past a quarter of a second a look sees what it would at a quarter |
| Overview.AStallIsNotReplayed | crates/lxb-protocol/src/overview.rs:67-91 | a frame longer in coming than a tenth of a second moves a card as far as one of a tenth |
| Overview.ACardClosesIn | crates/lxb-compositor/src/overview.rs:48-58 | a card that is still when its slot moves closes in with each edge on its own, crosses none, and has at most four nineteenths of its way left after a second |
| Overview.Overviews.Set | crates/lxb-compositor/src/overview.rs:109-147 | the whole call on the stored flights, and cards kept only for displays still in flight |
| Overview.Overviews.CloseAll | crates/lxb-compositor/src/overview.rs:155-166 | the one display that is open is left, every flight kept or dropped as leaving it does; nothing is touched if none is; none is open afterwards and none has jumped |
| Overview.Overviews.Tick | crates/lxb-compositor/src/overview.rs:206-212 | the time since the display's cards last moved, and that they move now |
| Overview.Overviews.GlideOn | crates/lxb-compositor/src/overview.rs:217-232 | a card met for the first time is at its slot; any other takes one step |
| Overview.Overviews.GlideAt | crates/lxb-compositor/src/overview.rs:249-272 | moves nothing, and its loop of short steps arrives where one long stretch does |
| Backdrop.OpensGood | crates/lxb-compositor/src/backdrop.rs:154-184 | the opening state satisfies everything kept below |
| Backdrop.MoveIsTimely | crates/lxb-compositor/src/backdrop.rs:212-251 | no move of either thread takes the frame on screen back, shows a picture of another moment than it is labelled with, or one ahead of a clock that could be set back |
| Backdrop.MoveAttends | crates/lxb-compositor/src/backdrop.rs:325-341 | no wake-up is lost: the painter sleeps with something to do only while a notification is on its way |
| Backdrop.MoveIsFresh | crates/lxb-compositor/src/backdrop.rs:212-233 | a call that found the painter stopped comes back less than the limit behind its own sample of the clock |
| Backdrop.MoveIsPaced | crates/lxb-compositor/src/backdrop.rs:345-396 | of the time its rounds took the painter drew at most half, and at most one frame to the interval |
| Backdrop.ARoundTakes | crates/lxb-compositor/src/backdrop.rs:384-396 | a round lasts a thirtieth of a second or so, a fifth of one after ten seconds, or twice its drawing, whichever is longer |
| Backdrop.EveryInterleaving | crates/lxb-compositor/src/backdrop.rs:212-396 | all four at every moment of every interleaving, and clock and frame only ever go forward |
| Backdrop.AskedItPaintsExactly | crates/lxb-compositor/src/backdrop.rs:325-357 | in every interleaving: looking less than a tenth of a second after the wallpaper was last asked for the painter goes on to draw, and looking later it goes to sleep |
| Backdrop.AskedItIsAwake | crates/lxb-compositor/src/backdrop.rs:325-367 | and for as long it is not asleep once it has been told |
| Backdrop.WasPaintingExactly | crates/lxb-compositor/src/backdrop.rs:325-332 | asking answers that it was being painted exactly if it had been asked for less than a tenth of a second before |
| Backdrop.AskedItPublishes | crates/lxb-compositor/src/backdrop.rs:325-382 | so asking brings a frame: looked at in time, five moves of the painter later a picture no older than its look is published |
| Backdrop.AStretchIsEasedOff | crates/lxb-compositor/src/backdrop.rs:348-396 | of a stretch unbroken by sleep, in every interleaving: rounds paced in its first ten seconds go at the full rate and those after at the eased one |
| Backdrop.OnTimeExactly | crates/lxb-compositor/src/backdrop.rs:287-296 | the frame on screen is never ahead of the clock, exactly when the clock could be set back at the start |
| Backdrop.FrozenUntilTheClockArrives | crates/lxb-compositor/src/backdrop.rs:287-296 | when it could not, nothing but the opening picture is ever shown until the clock from zero has reached it |
| Backdrop.ComesBackFreshExactly | crates/lxb-compositor/src/backdrop.rs:212-233 | what goes on screen: a newer frame that is fresh, one drawn here only for a stopped painter, and an old one left up exactly when the painter was painting and had neither |
| Backdrop.StoppedWindsDown | crates/lxb-compositor/src/backdrop.rs:338-396 | once stopped, in every interleaving nothing more is published and the thread ends within five moves of its own |
| Backdrop.EveryRoundPublishes | crates/lxb-compositor/src/backdrop.rs:345-382 | a painter cleared to draw publishes by its fifth move in every interleaving that does not stop it, a picture no older than its clearance |
| Backdrop.LeftAloneItSleeps | crates/lxb-compositor/src/backdrop.rs:325-367 | unasked for a tenth of a second, the painter's next look at its work puts it to sleep |
| Backdrop.Screen.Take | crates/lxb-compositor/src/backdrop.rs:212-251 | the painter's finished frame goes on screen exactly if it is newer than what is there and less than a quarter of a second old, is taken away either way, and a frame is to be drawn here exactly if the painter was stopped and what is there is older than that |
| Backdrop.Screen.CatchUp | crates/lxb-compositor/src/backdrop.rs:212-233 | every run of the call, with the painter moving between any two of its steps, is a run of the two threads and keeps all of the above |
| Backdrop.Screen.Stop | crates/lxb-compositor/src/backdrop.rs:338-341 | stopping is a run of the two threads that ends with the loop done and the painter told |
| Handover.WatchingInOrder | crates/lxb-compositor/src/handover.rs:103-122 | the displays watched are exactly those with something on them, each once and in the order given |
| Handover.Hold | crates/lxb-compositor/src/handover.rs:103-127 | a fixed array filled with the watched ones among the first thirty-two, never overrun |
| Handover.Place | crates/lxb-compositor/src/handover.rs:284-294 | where a descriptor goes among those kept, or that it is there already |
| Handover.KeptDescriptors | crates/lxb-compositor/src/handover.rs:280-303 | in place: strictly ascending, without repeats, and exactly the descriptors of the first thirty-two displays |
| Handover.CloseBetween | crates/lxb-compositor/src/handover.rs:310-322 | closes exactly the range, to the ceiling where it must be walked by hand |
| Handover.LetGo | crates/lxb-compositor/src/handover.rs:251-272 | closes exactly the complement of the first thirty-two held descriptors, each once, up to 4294967295 or to 4096 where it must be walked, with no arithmetic going round |
| Handover.CountTaken | crates/lxb-compositor/src/handover.rs:191-200 | the count is full exactly when every display shows something that is not what it showed |
| Handover.Keep | crates/lxb-compositor/src/handover.rs:172-207 | never asks a descriptor it closed, leaves at the first poll where all are taken, and after at most 625 naps |
| ModeText.AsConfigString | crates/lxb-compositor/src/config.rs:216-233 | the popping loops write the mode as specified |
| ModeText.Trimmed | crates/lxb-compositor/src/config.rs:221-228 | popping zeros and then a point leaves the rate without them |
| ModeText.RateReadsBack | crates/lxb-compositor/src/config.rs:216-253 | a printed rate is read back as exactly that many thousandths |
| ModeText.AnyRateAfterASize | crates/lxb-compositor/src/config.rs:244-258 | whatever follows the sign, the size survives and the rate is that text's alone |
| ModeText.RoundTrip | crates/lxb-compositor/src/config.rs:216-259 | a mode printed, with any white space around its numbers and any number of units, is the mode read back |
| ModeText.SpelledRoundTrip | crates/lxb-compositor/src/config.rs:216-259 | printing and reading back is the identity on every width, height and optional rate |
| ModeText.SpelledAsAPersonWould | crates/lxb-compositor/src/config.rs:218-231 | a rate has a point exactly when it has a fraction of a hertz, and nothing idle after it |
| ModeText.DigitsAreDecimal | crates/lxb-compositor/src/config.rs:216-233 | the digits of a number are its decimal ones, with none idle in front |
| ModeText.InTheFile | crates/lxb-compositor/src/config.rs:216-233 | two modes as they stand in the file, letter by letter |
| ModeText.PreferredIsNoMode | crates/lxb-compositor/src/config.rs:239-243 | the word for no mode, in any mixture of letters, and no text at all ask for none |
| ModeText.NoSizeNoMode | crates/lxb-compositor/src/config.rs:244-258 | text without a size before its rate asks for none |
| ModeText.RoundedIsNearest | crates/lxb-compositor/src/config.rs:249-253 | a rate is the nearest thousandth, halves away from nought, and stops at the ends of 32 bits |
| ModeText.SignsAreRead | crates/lxb-compositor/src/config.rs:254-258 | a number may have a plus or a minus in front of it, and not both |
| ModeText.ARateMayBeSigned | crates/lxb-compositor/src/config.rs:249-253 | and so may a rate |
| ModeText.WhiteSpaceIsPassedOver | crates/lxb-compositor/src/config.rs:239-259 | whatever Unicode calls white space may stand around the numbers, code point by code point |
| Displays.Filled | crates/lxb-compositor/src/config.rs:282-313 | every key the entry states is kept and every other is taken |
| Displays.Config.RememberDisplays | crates/lxb-compositor/src/config.rs:356-383 | the fold of everything remembered under the file, and a note of what the file said before it |
| Displays.Config.FoldIn | crates/lxb-compositor/src/config.rs:359-362 | the first entry of the name is filled where it stands, or the entry is added at the end |
| Displays.Config.EnabledIsPinned | crates/lxb-compositor/src/config.rs:384-399 | however much has been merged since, exactly what the file itself stated: some entry of the name, or some wildcard, has the key |
| Displays.MergedStates | crates/lxb-compositor/src/config.rs:356-364 | for each key the file's entry comes first and then the earliest thing remembered |
| Displays.TheFileWinsExactly | crates/lxb-compositor/src/config.rs:346-364 | what the file answers is what comes up, exactly when it answers by the display's own entry, nothing was remembered of it, or what was remembered agrees |
| Displays.AWildcardIsShadowed | crates/lxb-compositor/src/config.rs:429-434 | a wildcard's answer lost behind a remembered entry that does not even mention the key |
| Displays.AnOwnPinHolds | crates/lxb-compositor/src/config.rs:384-399 | an answer in the display's own entry holds whatever was remembered |
| Displays.FirstExactly | crates/lxb-compositor/src/config.rs:429-434 | of several entries of a name the first is the display's |
| Displays.ComesUpExactly | crates/lxb-compositor/src/config.rs:429-434 | the display's own entry answers alone if there is one, even by saying nothing, and the wildcard's if not |
| Displays.SaidExactly | crates/lxb-compositor/src/config.rs:356-364 | of several sayings of a key about a display the first counts |
| Remembered.Edit | crates/lxb-compositor/src/remembered.rs:98-109 | changes the display's entry where it stands or adds one |
| Remembered.Disk.Remember | crates/lxb-compositor/src/remembered.rs:94-140 | the file is changed exactly when the text was made, the directory was there, the write finished and the rename was not refused or cut short before it; then it is the whole new answer, and otherwise the whole old one |
| Remembered.UpdatedSays | crates/lxb-compositor/src/remembered.rs:89-109 | the one entry is changed and every other is exactly what it was |
| Remembered.WhatIsReadBack | crates/lxb-compositor/src/remembered.rs:51-140 | after any history of such calls the next session reads exactly what the ones that landed add up to |
| Remembered.OthersSurviveExactly | crates/lxb-compositor/src/remembered.rs:51-74 | a change that lands keeps every other entry exactly when the file could be read or had no other |
| Remembered.TheNextLogin | crates/lxb-compositor/src/config.rs:384-399 | a setting written down comes up at the next login exactly unless the display's own entry in the file states the key |
| Remembered.OverruledExactly | crates/lxb-compositor/src/config.rs:384-399 | what is set makes no difference at the next login exactly when the first entry of the display's own name in the file states the key |
| Remembered.APinTellsTheTruthExactly | crates/lxb-compositor/src/config.rs:384-399 | a switch that is left holds at the next login; one that is taken away would have been undone exactly when the first entry of the display's own name states the key |
| Remembered.AWildcardPinIsNotKept | crates/lxb-compositor/src/config.rs:384-399 | a wildcard that turns every display off takes the switch from each, and a press on it would have held |
| KeyBindings.Build | crates/lxb-compositor/src/input.rs:526-622 | the table built by pushing and retaining is the specified one, for any order of the entries |
| KeyBindings.Enter | crates/lxb-compositor/src/input.rs:592-618 | what one entry does to the table |
| KeyBindings.TheFirstSpellingDecides | crates/lxb-compositor/src/input.rs:640-662 | the guide is asked about every spelling first; then the first spelling any binding takes decides, by the first binding that takes it, and with none nothing does |
| KeyBindings.CapitalsLookUpAlike | crates/lxb-compositor/src/input.rs:272-287 | a letter is looked up alike whether shift has made a capital of it or not |
| KeyBindings.AloneItAnswersExactly | crates/lxb-compositor/src/input.rs:246-263 | a chord answers exactly the presses of its key with its modifiers, or with any |
| KeyBindings.WhereABindingComesFrom | crates/lxb-compositor/src/input.rs:580-622 | whatever is bound was said by the file, or is a default whose spelling the file leaves alone, or a virtual terminal's |
| KeyBindings.AnUntouchedDefaultStays | crates/lxb-compositor/src/input.rs:580-622 | a default of whose spelling and key the file says nothing is bound |
| KeyBindings.EveryTable | crates/lxb-compositor/src/input.rs:592-622 | in any order: guide chords are those it had and those given, no chord is in two places, nothing else summons it |
| KeyBindings.TheGuideIsKept | crates/lxb-compositor/src/input.rs:526-662 | for every configuration in every order: the guide's chords exactly, no sharing, and the guide is answered exactly when any spelling matches one of its chords |
| KeyBindings.BoundExactly | crates/lxb-compositor/src/input.rs:592-622 | which bindings are left: those nothing later put out, the built-in ones first |
| KeyBindings.TheLastSpellingWins | crates/lxb-compositor/src/input.rs:592-618 | one chord spelled twice does what the last entry says, so the order shows |
| KeyBindings.AWholeKeyIsLostByOrder | crates/lxb-compositor/src/input.rs:608-615 | a user's whole-key chord is lost to, or kept beside, another chord of the key by order alone |
| KeyBindings.AShadowedEntryTakesAWholeKeyByOrder | crates/lxb-compositor/src/input.rs:592-615 | a chord given to the guide and to something else is the guide's, but by order alone the other entry takes a built-in whole-key chord with it |
| KeyOrder.APressWaversExactly | crates/lxb-compositor/src/input.rs:526-662 | two orders of a configuration can be told apart by a press exactly when the press wavers: a condition on what the entries say and in no order |
| KeyOrder.OrderMattersExactly | crates/lxb-compositor/src/input.rs:526-662 | for every configuration and built-in table, some two orders answer some press differently exactly when some press wavers |
| KeyOrder.AlikeUnlessOneWavers | crates/lxb-compositor/src/input.rs:640-662 | a key of any number of spellings none of which wavers is answered alike in every order |
| KeyOrder.OrderNeverMatters | crates/lxb-compositor/src/input.rs:526-662 | with no chord spelled for two things and no key having a whole-key chord beside another, every press does the same in every order |
| KeyAutomata.HomeTap.Note | crates/lxb-compositor/src/input.rs:337-347 | one step of the watcher |
| KeyAutomata.ArmedExactly | crates/lxb-compositor/src/input.rs:335-363 | armed exactly while the key is down and has been pressed on its own |
| KeyAutomata.FiresExactly | crates/lxb-compositor/src/input.rs:335-363 | fires exactly on the release of a key pressed on its own, over every history |
| KeyAutomata.WindowSwitch.Note | crates/lxb-compositor/src/input.rs:400-406 | one step of the watcher |
| KeyAutomata.WalkingExactly | crates/lxb-compositor/src/input.rs:398-426 | walking exactly from a beginning that has been neither abandoned nor let go of |
| KeyAutomata.EndsExactly | crates/lxb-compositor/src/input.rs:398-426 | a walk ends exactly at the first moment after it began that the modifier is up |
| KeyAutomata.OneEndToAWalk | crates/lxb-compositor/src/input.rs:398-426 | between two ends there is a beginning |
| KeyAutomata.VolumeKey.Note | crates/lxb-compositor/src/input.rs:904-944 | which edges step, which book a repeat and which let go; a rate of nothing books none and takes the repeat from nobody |
| KeyAutomata.BooksExactly | crates/lxb-compositor/src/input.rs:904-944 | a repeat is booked exactly by a press that turns the volume up or down where keys repeat at all |
| KeyAutomata.LetsGoExactly | crates/lxb-compositor/src/input.rs:904-908 | and ended exactly by its own key coming up while it means some change of volume, or by all keys being lost |
| KeyAutomata.HeldExactly | crates/lxb-compositor/src/input.rs:453-485 | the repeat belongs to exactly the last stepping press whose key is still down |
| KeyAutomata.WantedExactly | crates/lxb-compositor/src/input.rs:453-485 | a booked timer is wanted exactly while a key holds the repeat and the number matches, the counter's going round included |
| KeyAutomata.OnlyTheLastIsWanted | crates/lxb-compositor/src/input.rs:922-944 | short of a whole round of the counter, exactly while that press's own key is held: at most one timer |
| KeyAutomata.LettingGoEndsItExactly | crates/lxb-compositor/src/input.rs:904-908 | letting go ends the repeat exactly when the key then still looks up to a volume change |
| KeyAutomata.AModifierLetGoOfFirst | crates/lxb-compositor/src/input.rs:827-846 | a chord bound with a modifier that no longer looks up once the modifier is up |
| Pointer.HeldInsideIsNearest | crates/lxb-compositor/src/input.rs:4091-4098 | the nearest place on one display, and the identity on places already there |
| Pointer.ClampPointer | crates/lxb-compositor/src/input.rs:2461-2493 | left alone on any display, otherwise put on the first nearest one |
| Pointer.ClampsExactly | crates/lxb-compositor/src/input.rs:2461-2493 | in coordinates: over a display it stays; otherwise it is on the display with the nearest inset point, the first of those as near, and at that point |
| Pointer.ComesBackToTheNearest | crates/lxb-compositor/src/input.rs:2471-2492 | no point of any display's inset is nearer to where it was |
| Pointer.ClampsOnce | crates/lxb-compositor/src/input.rs:2461-2493 | where it goes is settled by the layout and where it was |
| Pointer.ClampedStays | crates/lxb-compositor/src/input.rs:2461-2493 | clamping again changes nothing, and displays with a size have it on one of them |
| Focus.WalkLayers | crates/lxb-compositor/src/handlers.rs:367-383 | one display's layers: a shell claim ends the walk, another is noted once |
| Focus.Seat.RefreshExclusiveFocus | crates/lxb-compositor/src/handlers.rs:365-386 | where any display has an exclusive layer of the shell's, the first of those in display and then layer order; otherwise the first exclusive layer of anybody's; none exactly when there is none |
| Focus.ClaimExactly | crates/lxb-compositor/src/handlers.rs:365-386 | the same of the claim as a function of the displays, by positions |
| Focus.Seat.SetTarget | crates/lxb-compositor/src/input.rs:2802-2822 | an exclusive claim has the keyboard whatever is asked for, and nobody while the host has not |
| Focus.Seat.FocusTopmostWindow | crates/lxb-compositor/src/input.rs:3201-3253 | the claim, else the topmost window of the driven display, else of the session, else the topmost interactive layer |
| Focus.RaisedIsLast | crates/lxb-compositor/src/input.rs:3201-3253 | the window raised goes to the top and the others keep their order |
| Focus.RefreshedExactly | crates/lxb-compositor/src/input.rs:3051-3111 | after the policy the check asks for nothing, exactly unless there is nobody to give the keyboard to |
| Focus.GivenInOrder | crates/lxb-compositor/src/input.rs:3188-3253 | who is given the keyboard, without the search: nothing above the window chosen would take it, on the driven display first, and a layer only when no window will |
| Focus.GivenExactly | crates/lxb-compositor/src/input.rs:3188-3253 | the search gives the keyboard to the one described without it, and to nobody else |
| Focus.KeptExactly | crates/lxb-compositor/src/input.rs:3051-3111 | the check is satisfied by exactly those described without its search: on the claim's surface; or leading to a window in sight, or to no window and a layer that takes the keyboard |
| Focus.ComesApartExactly | crates/lxb-compositor/src/input.rs:3051-3111 | for every desk, claim and target: the check keeps it and the policy would choose another, exactly when it is one of those who may keep it and not the one it should go to |
| Focus.AClickedLayerKeepsIt | crates/lxb-compositor/src/input.rs:3051-3111 | a layer that takes the keyboard keeps it while a willing window stands open |
| Focus.AnUnwillingWindowKeepsItExactly | crates/lxb-compositor/src/input.rs:3076-3104 | a window that would never be given the keyboard keeps it exactly when it is in sight and has floated or stopped taking input |
| Focus.AskedTwice | crates/lxb-compositor/src/input.rs:3201-3253 | applied a second time the policy gives the keyboard to the same one |
| ColourManagement.Creator.Request | crates/lxb-compositor/src/colour_management.rs:820-989 | one request on a creator, all nine kinds: the answer and the state after it, every error case included |
| ColourManagement.AFreshCreatorTakesExactly | crates/lxb-compositor/src/colour_management.rs:820-955 | what a fresh creator takes, in the protocol's numbers: sRGB and PQ, sRGB's and BT.2020's primaries, ranges with their tops above their floor, any mastering request, and nothing else |
| ColourManagement.TheLeastDescriptionExactly | crates/lxb-compositor/src/colour_management.rs:956-984 | a curve and primaries make a description of just those exactly when both are advertised |
| ColourManagement.HeldExactly | crates/lxb-compositor/src/colour_management.rs:835-955 | each field holds what the one request accepted for it said, and none is accepted twice |
| ColourManagement.OneDescription | crates/lxb-compositor/src/colour_management.rs:829-835 | whatever is asked of one creator, at most one description comes of it and everything after is refused |
| ColourManagement.DescriptionSays | crates/lxb-compositor/src/colour_management.rs:956-984 | every field of a description is the one thing said, the PQ top apart, and what it reports has its tops above its floor |
| ColourManagement.TheTopOfPqExactly | crates/lxb-compositor/src/colour_management.rs:966-976 | a PQ range is ten thousand candelas tall exactly when its floor is a whole number of them |
| ColourManagement.TheTargetIsARangeExactly | crates/lxb-compositor/src/colour_management.rs:256-261 | over every sequence of requests that ends in a description, the target range reported is one exactly when every mastering range accepted on the way was |
| ColourManagement.AnInvertedTargetIsReady | crates/lxb-compositor/src/colour_management.rs:926-933 | a sequence of requests that carries any inverted mastering range into a description |
| ColourManagement.Registry.Prune | crates/lxb-compositor/src/colour_management.rs:386-395 | those whose client has gone leave all three lists, in order, and nobody else does |
| ColourManagement.IdentityExactly | crates/lxb-compositor/src/colour_management.rs:263-270 | never zero, inside 32 bits, and shared exactly by descriptions of one curve and one set of primaries |
| ColourManagement.ToldInNumbers | crates/lxb-compositor/src/colour_management.rs:213-270 | a display in HDR, or a surface on one, is told PQ, BT.2020 and 203 of ten thousand; any other sRGB and 80 |
| ColourManagement.Registry.GetSurface | crates/lxb-compositor/src/colour_management.rs:581-609 | all lists pruned first; a second object for a surface is refused exactly while a first one lives, and at most one is kept |
| ColourManagement.Registry.GetSurfaceFeedback | crates/lxb-compositor/src/colour_management.rs:611-623 | a new feedback object counts as told what its surface should be now |
| ColourManagement.Registry.AskOutput | crates/lxb-compositor/src/colour_management.rs:673-685 | the answer is what the display is driven as now, and counts as told |
| ColourManagement.Registry.Tell | crates/lxb-compositor/src/colour_management.rs:456-488 | exactly those whose answer has moved since they were last told hear it |
| ColourManagement.Registry.DisplaysChanged | crates/lxb-compositor/src/colour_management.rs:446-488 | of those whose client is still there, exactly those whose answer has moved since they were last told hear it, over displays and over surfaces wherever each surface is now |
| ColourManagement.Registry.FinishInformation | crates/lxb-compositor/src/colour_management.rs:422-432 | each pending answer still alive is ended and none is left to end again |
| ColourManagement.HeardExactlyWhenChanged | crates/lxb-compositor/src/colour_management.rs:446-488 | over any run of walks and questions, an object is told exactly when its own answer has moved since the event before, by its display changing or by its surface moving |
| Cursor.Nearest | crates/lxb-compositor/src/cursor.rs:80-84 | the first of the sizes nearest to the one desired |
| Cursor.InPlaybackOrder | crates/lxb-compositor/src/cursor.rs:86-101 | an animation is every picture of its size, each once and in the file's order |
| Cursor.BuildsExactly | crates/lxb-compositor/src/cursor.rs:79-113 | a cursor comes of any file with a picture in it, made of all those nearest the size and no others |
| Cursor.BuildsInNumbers | crates/lxb-compositor/src/cursor.rs:79-113 | the size wanted, scaled and stopped at 32 bits; the size of the first picture nearest to it; and the delays added in 32 bits |
| Cursor.FrameAt | crates/lxb-compositor/src/cursor.rs:117-129 | the frame whose stretch of the cycle the moment falls in, and the subtraction never goes below zero |
| Cursor.OneFrameAtATime | crates/lxb-compositor/src/cursor.rs:117-129 | there is one such frame |
| Cursor.CursorState.SetSize | crates/lxb-compositor/src/cursor.rs:172-179 | nought is ignored, and a new size leaves nothing decoded for the old one |
| Cursor.CursorState.Themed | crates/lxb-compositor/src/cursor.rs:251-260 | every look-up, cached or not, misses included, is what decoding with nothing cached gives |
| Cursor.CursorState.Decode | crates/lxb-compositor/src/cursor.rs:262-292 | the shape's names in turn, then the theme's arrow, then the embedded one; and it ends |
| Cursor.DrawsTheFirstExactly | crates/lxb-compositor/src/cursor.rs:262-292 | of the shape, its other names, the arrow and the arrow's other names the first with a picture is drawn, and where there is none the embedded one |
| Cursor.NoPointerExactly | crates/lxb-compositor/src/cursor.rs:262-292 | no pointer exactly when shape, arrow and embedded arrow all have no picture, whatever the size |

## Left out

- Smithay, Wayland dispatch, DRM ioctls, EGL, XWayland and libinput: their answers are parameters or free choices.
- Pixels: wallpaper evaluation, cursor decoding, capture; a frame is the moment it is a picture of, an image its size and delay.
- Rounding of f32 and f64 everywhere: reals are exact, so a property may fail by a rounding the model does not have.
- Edid.FromEdid: luminances are kept as the codes in the bytes; turning them into cd/m2 is an exponential that is not modelled.
- HdrPipeline.LastCommitDecides: a ramp or matrix is the description it is computed from, not its table of numbers; the night light's Planckian gains are not modelled.
- HdrPicture.AWholeCallSendsWhatItShould: greys only; the matrix's cross terms on colours, and the primaries and white point in the infoframe, which are constants there.
- HdrSession.EveryRun: take, apply and applied of one frame are one event, as they are one call in the backend; a display switched off, which skips the event, is the absence of it.
- Overview.Overviews.Set: the selected card and the focus half, which nothing else reads here, and the shell's layout of slots.
- Backdrop.EveryInterleaving: each lock-protected stretch is one move; a poisoned lock, an instant past the end of the clock's range, and an upload of the wrong size are not modelled. The painter's loop is the moves of the machine rather than a method, since the loop's other half runs between any two of its statements.
- Handover.Hold: the fork itself and the signals the child ignores; the child's exit is the end of `Handover.Keep`. Closing by range either exists in the kernel or does not.
- ModeText.RoundTrip: rates written with an exponent, and infinities, which a parser of f64 accepts and the file has no use for, read as no rate; a decimal that f64 would round is exact.
- Displays.MergedStates: the twelve optional keys are a map from key to setting, so that each is taken from the same key is by construction.
- Remembered.Disk.Remember: serialising a list and reading it back is taken to give the list; a change is a function on one entry's keys and leaves its name alone.
- KeyBindings.TheGuideIsKept: KeyPattern::parse and Action::parse are parameters, under the one assumption that the built-in spellings name different chords.
- KeyOrder.OrderMattersExactly: the built-in table is taken to have at most one binding for any press, as the one in the source does.
- KeyAutomata.OnlyTheLastIsWanted: the event loop's timers themselves; what is modelled is the question each asks before it steps.
- Pointer.ClampPointer: displays without a place in the layout are not listed.
- Focus.RefreshedExactly: surfaces are taken to belong to one window or layer each, and the seat to have a keyboard; raising keeps the set of windows.
- ColourManagement.Creator.Request: a refused request ends the client's connection, which the model leaves to whatever is asked next; attaching a description to a surface is not modelled.
- Cursor.CursorState.Themed: the theme on disk is taken not to change under the session; uploads and hotspots are not modelled.
- The floating window's drag, touch routing and shell protocol plumbing, and `always_on.rs`, `flash.rs`, `tearing.rs`, `idle.rs`, `focus.rs`, `colour.rs`: thin maps and one-flag machines that would add easy members.
- Build scripts, probe examples, the site's tools and packaging.
