# Sonica eNB: a verified model

Sonica is a software base station (eNB) for NB-IoT. This project models its hard core in Dafny and proves
what the parts promise each other: the MAC scheduler with its two reservation rings, the byte allocator of
a user, the streaming and grid code of the PHY, the user tables of the stack, the S1AP contexts and the
hyperframe counter.

Check it with `dafny verify dfyconfig.toml` (Dafny 4.11).

## How it is built

Code that changes state is modelled as classes whose methods work in place (`SchedUe`, `BcSched`,
`SfSched`, `RaSched`, `CarrierSched`, `Detector`, `Receiver`, `Transmitter`, `Transceiver`, `Mac`, `Rrc`,
`Entity`). Each method's postcondition equates the new state with a function of the old one, and the
promises are proved about that function, mostly over whole runs.

| file | what it is |
|---|---|
| `Timing`, `Search`, `Table`, `Options` | TTI arithmetic and the subframe calendar; counting and finding; the reservation table as a value |
| `DlSpec`, `UlSpec`, `CellSpec` | the downlink pass and the uplink pass as functions, and what connects the two |
| `DlRuns`, `DownlinkSafety`, `Sharing` | runs of downlink passes: the invariant, what follows from it, and exactly who shares a subframe |
| `RarRuns`, `Liveness`, `Msg3Runs` | the RAR queue, how long it can keep a response, and the slots that park Msg3, over runs |
| `UserGrants` | over runs of downlink passes: exactly when and to whom a user grant goes, how soon, and how RARs can prevent it |
| `CellRuns` | runs of the whole carrier, and the runs of downlink passes and slots inside them |
| `UlRuns`, `Msg3Fate`, `UplinkSafety`, `UplinkBlocks` | over runs of the carrier: the hold-off of users, what becomes of a Msg3, the uplink ring, overlapping blocks |
| `UplinkGrants`, `CellResults` | exactly what an uplink pass does and how long a wait lasts; whom the round robin leaves out; what a TTI leaves behind |
| `Npdcch`, `NpdcchRuns` | one DCI per subframe, in one TTI and over runs |
| `Scenes`, `CellScenes`, `UplinkScenes` | concrete runs that reach what goes wrong |
| `Packing`, `Estimate`, `SchedulerUe` | the byte allocator: greedy packing, the request estimate, the class |
| `Grid`, `Carrier`, `CellDriver` | the scheduler's objects, down to the two passes in place, and a driver for any events |
| `Nprach` | hopping, the detector as a function of the sample stream, and the class |
| `Npusch`, `EnbUl` | resource elements of one subframe; transmitter, receiver and their round trip |
| `TxRx` | the hyperframe and TTI loop |
| `Lifecycle`, `EnbStack` | the user tables as values and as objects |
| `S1ap`, `Teardown` | S1AP contexts as a transition system and as a class; S1AP and RRC together |

A run of the carrier is any sequence of events: a detection, the configuration or removal of a user, a buffer
report or another change of its record, and a TTI, which is a downlink pass followed by an uplink pass. The
first TTI is the one four subframes before the first transmission. Every such run contains a run of downlink
passes (`CellRuns.CellIsRun`), in which the visited users may ask for anything, and a run of the slot ring
(`CellRuns.CellIsSlotRun`), so what is proved about those holds in it. `CellDriver.Drive` runs the events on the
objects: `CarrierSched` shows the state of the run after each of them, and the preconditions of its passes (an
empty slot, a response in the oldest RAR, room in the table) are met every time (`CellDriver.EveryPassReady`).

Two things are simpler than in the code. A report can only set a user's wait to 30, the one value that the code passes to
`ul_wait_timer` (`sonica_enb/stack/mac/ue.cc:275`). And a record is served, which empties its queues, after a TTI
and not inside its two passes, as the code does when it generates the results; the uplink pass cannot tell the
difference (`CellRuns.ServeKeepsUplink`).

Parameters: cell identity 99 with 16 SIB1 repetitions as hard-wired in the code, so SIB1 uses subframe 4 of
odd frames; downlink delay 4, uplink delay 13, Msg3 delay 9, 40 slots, 6 logical channels, 8 responses per RAR.
In the models of samples and resource elements the values are of any type, and the product, the FFT and the
threshold are arbitrary functions.

## What turned out false of the code

Each of these is kept as the code has it. The exact condition is proved, and a run or an input that meets it is given.

- A Msg3 is lost when its RAR's DCI is in subframe 2 or 3 of a hyperframe, because `tti_rx + 9` is not reduced
  (`Msg3Fate.Msg3Exactly`, `Msg3Fate.LostExactly`). That takes user data on the start of SIB2 in subframe 1
  (`Sharing.LateRarNeedsBlockedSib2`); `CellScenes.Msg3IsLost` is such a run.
- The data of two RARs falls on one subframe when the DCIs come two subframes apart, the first in subframe 4 of an
  even frame (`Sharing.RarsShareExactly`, `Scenes.RarsMeet`).
- RAR data is put on user data without a look (`Sharing.RarDataTakenExactly`, `Scenes.RarMeetsUser`), and SIB2 on
  RAR data when the DCI was sent two to four subframes before SIB2's start (`Sharing.RarUnderSib2Exactly`,
  `Scenes.Sib2MeetsRar`).
- A SIB2 transmission is dropped when user data, or the data of a RAR sent five subframes before, holds its start
  (`Sharing.Sib2BlockedExactly`, `Sharing.Sib2CompleteExactly`, `Scenes.UserTakesStart`, `Scenes.RarTakesStart`).
- A grant for new data tests and marks the first of its four subframes only. Two such blocks overlap when they are
  granted in consecutive TTIs (`UplinkBlocks.NewDataOverlapsExactly`, `UplinkScenes.NewDataOverlaps`), and one overlaps
  a Msg3 when it is granted soon after the RAR (`UplinkBlocks.Msg3OverlapsExactly`, `UplinkScenes.NewDataOverlapsMsg3`).
- The comment at `sonica_enb/stack/mac/scheduler_grid.cc:507` says that the DCI of an uplink grant is marked in the
  downlink table; the code marks the uplink table. The mark falls on the start of another block when that one was
  granted nine passes before, or into a Msg3 (`UplinkBlocks.UplinkSharesExactly`, `UplinkBlocks.DciMarkInMsg3Exactly`,
  `UplinkScenes.MarkOnStart`, `UplinkScenes.MarkInMsg3`), but it never refuses anyone
  (`UplinkBlocks.StartTakenExactly`, `UplinkBlocks.Msg3TakenExactly`).
- A RAR with several responses blocks nothing when it sends one of them, so its DCI can meet another one in the
  same subframe, unless the subframe is outside the users' search space (`Npdcch.OneNpdcchExactly`,
  `NpdcchRuns.TwoDcisExactly`, `NpdcchRuns.TwoDcisReached`). Two detections of one opportunity arise at MAC's `rach_detected` and the
  scheduler's `dl_rach_info`, which take several; the NPRACH worker of this repository reports at most one.
- Users can be kept waiting for ever: a pass that completes a RAR grants no user, and a RAR with one response at the
  front of the queue in every pass, which one detection of a new opportunity before each pass is enough for, leaves
  the users no subframe at all (`UserGrants.FloodStarves`, `UserGrants.FloodIsFlooded`). When a pass grants is given
  exactly by `UserGrants.GrantsExactly`; as long as no RAR is completed, a user is granted in each 50 passes
  (`UserGrants.GrantedSoon`). The NPRACH worker of this repository does not detect that often: it reports at most one
  preamble for each opportunity, and a preamble lasts several subframes.
- The comment at `sonica_enb/stack/mac/scheduler_carrier.cc:409` promises round robin in time. The walk starts at TTI
  mod n, but users are granted only in the first two subframes of eight (`UplinkGrants.TurnExactly`), so with a
  multiple of four or eight users that all ask, the rest of each four or eight behind the first three is never
  granted (`UplinkGrants.OthersAreLeftOut`, `UplinkGrants.FourthStarves`).
- A single byte left on SRB0 is never sent when the table has a block one byte larger than the request
  (`Estimate.ServedByOneGrant`, `Estimate.OneByteIsNeverSent`).
- An NPRACH chunk that does not complete the carried symbol overwrites the carried samples
  (`Nprach.NoSampleLostExactly`, `Nprach.ShortChunksDiffer`).
- A grant with repetitions is never decoded (`EnbUl.NextReply`).
- Reusing an RNTI that is still in use breaks the agreement of the user tables (`Lifecycle.RachAgreesExactly`);
  55903 detections whose users stay lead there (`Lifecycle.ReuseReached`).
- A context with MME identifier 0 blocks all new contexts, since a new one carries that value
  (`S1ap.AdmittedExactly`, `S1ap.ZeroBlocks`, `S1ap.ZeroReached`).
- The comment at `sonica_enb/stack/mac/scheduler_ue.cc:442` says that the lowest channel has the lowest priority;
  in the code it comes first (`Packing.PackOrder`).

## Model

| member | source | states |
|---|---|---|
| `DownlinkSafety.RingIsExact` | sonica_enb/stack/mac/scheduler_carrier.cc:345-380 | In every run of consecutive passes, at every time ahead within one turn, the table entry is set if and only if a reservation for exactly that time has been made; all reservations are less than 20 subframes ahead, so the lazy clearing loses none and no two times share an entry. |
| `DownlinkSafety.MarksAreNear` | sonica_enb/stack/mac/scheduler_grid.cc:386-401 | No pass of any run reserves more than 16 subframes beyond the one it schedules. |
| `DownlinkSafety.NoDoubleBooking` | sonica_enb/stack/mac/scheduler_carrier.cc:104-254 | Two reservations of a run share a subframe in three ways only: SIB2, but not its first subframe, is put on RAR data; RAR data is put on user data; RAR data is put on RAR data. |
| `Sharing.RarsShareExactly` | sonica_enb/stack/mac/scheduler_carrier.cc:230-250 | The data of two RARs of a run share a subframe if and only if the first DCI is in subframe 4 of an even frame and the second comes two subframes later. |
| `Sharing.RarsMeetExactly` | sonica_enb/stack/mac/scheduler_carrier.cc:237-241 | The same of any two subframes that may carry a RAR's DCI, whatever the state. |
| `Sharing.RarDataTakenExactly` | sonica_enb/stack/mac/scheduler_carrier.cc:237-241 | In every run, the data subframe of a RAR that can be sent is found taken if and only if user data holds it, or the data of a RAR whose DCI came two subframes before. |
| `Sharing.Sib2BlockedExactly` | sonica_enb/stack/mac/scheduler_carrier.cc:147-151 | In every run a start of SIB2 is found taken if and only if user data holds it, or the data of a RAR whose DCI came five subframes before. |
| `Sharing.Sib2CompleteExactly` | sonica_enb/stack/mac/scheduler_carrier.cc:143-172 | Every start of SIB2 that has gone by carried SIB2 in all its eight subframes, if and only if the start was not taken in this way. |
| `Sharing.RarUnderSib2Exactly` | sonica_enb/stack/mac/scheduler_carrier.cc:155-164 | SIB2 lies on the data of a RAR if and only if the RAR's DCI was sent two to four subframes before the start of SIB2. |
| `Sharing.LateRarNeedsBlockedSib2` | sonica_enb/stack/mac/scheduler_carrier.cc:199-254 | A RAR completed in one of the last nine passes of a hyperframe has its DCI in subframe 2 or 3 of the next one, and only because user data holds the start of SIB2 in subframe 1. |
| `Scenes.RarsMeet` | sonica_enb/stack/mac/scheduler_carrier.cc:230-250 | A run in which the data of two RARs is in the same subframe. |
| `Scenes.Sib2MeetsRar` | sonica_enb/stack/mac/scheduler_carrier.cc:155-164 | A run in which SIB2 is put on the data of a RAR. |
| `Scenes.RarMeetsUser` | sonica_enb/stack/mac/scheduler_carrier.cc:237-241 | A run in which the data of a RAR is put on the data of a user. |
| `Scenes.RarTakesStart` | sonica_enb/stack/mac/scheduler_carrier.cc:147-151 | A run in which a start of SIB2 is found taken by the data of a RAR. |
| `Scenes.UserTakesStart` | sonica_enb/stack/mac/scheduler_carrier.cc:147-151 | A run in which a start of SIB2 is found taken by user data. |
| `DownlinkSafety.UserSubframesExclusive` | sonica_enb/stack/mac/scheduler_grid.cc:346-401 | A user grant (its DCI and each data subframe) never takes a subframe that anything reserved before, so no two users share one. |
| `DownlinkSafety.ControlSubframesExclusive` | sonica_enb/stack/mac/scheduler_carrier.cc:199-254 | A subframe with SIB1, a RAR DCI or a user DCI carries nothing else, whatever comes before or after. |
| `DownlinkSafety.UserGrantsApart` | sonica_enb/stack/mac/scheduler_carrier.cc:424-461 | Any two user grants of a run are at least 26 subframes apart, also across the end of a hyperframe. |
| `DownlinkSafety.Sib1Exclusive` | sonica_enb/stack/mac/scheduler_carrier.cc:104-141 | A reservation is on a SIB1 subframe if and only if it is SIB1's; its new-SIB flag is set if and only if it is the first of a period of 256 frames. |
| `DownlinkSafety.Sib1NeverBlocked` | sonica_enb/stack/mac/scheduler_carrier.cc:111-118 | The branch "SIB1's TTI has been allocated" is unreachable in every run. |
| `DownlinkSafety.Sib1Complete` | sonica_enb/stack/mac/scheduler_carrier.cc:86-141 | Every SIB1 subframe since the start has carried SIB1. |
| `DownlinkSafety.Sib1PerPeriod` | sonica_enb/stack/mac/scheduler_carrier.cc:45-63 | Each completed period of 256 frames carried exactly 128 (8 times 16 repetitions) SIB1 subframes. |
| `DownlinkSafety.RoomInEveryPass` | sonica_enb/stack/mac/scheduler_grid.cc:390-401 | In every run at least 14 eligible subframes are free before a pass, so the unbounded search for a block ends. |
| `DownlinkSafety.FitBound` | sonica_enb/stack/mac/scheduler_grid.cc:388-401 | For every table: a block of n subframes is found within 20m subframes if the 14m user subframes in them exceed the taken ones by n. |
| `DownlinkSafety.FitIsUnique` | sonica_enb/stack/mac/scheduler_grid.cc:388-401 | The block is the only choice of that many eligible subframes in which the k-th has exactly k eligible ones before it: the earliest fit. |
| `DownlinkSafety.FitLeavesNoGap` | sonica_enb/stack/mac/scheduler_grid.cc:388-401 | No eligible subframe before the last one of a block is left out of it. |
| `DownlinkSafety.ReachedExactly` | sonica_enb/stack/mac/scheduler_carrier.cc:345-380 | The reached states of the theorems are exactly the outcomes of all runs of consecutive passes. |
| `DlRuns.RunInv` | sonica_enb/stack/mac/scheduler_carrier.cc:345-380 | The invariant behind these results holds after every run, whatever is detected and asked for. |
| `DlRuns.StepKeepsInv` | sonica_enb/stack/mac/scheduler_carrier.cc:354-373 | One downlink pass keeps the invariant from any state that satisfies it. |
| `DlSpec.Sib2Span` | sonica_enb/stack/mac/scheduler_carrier.cc:155-164 | From its start SIB2 occupies offsets 0, 1, 2, 3, 5, 6, 7 and 10. |
| `DlSpec.RarDataPlace` | sonica_enb/stack/mac/scheduler_carrier.cc:237-241 | RAR data comes 5 to 7 subframes after its DCI, in a valid subframe that is never SIB1's. |
| `DlSpec.OneUserPerPass` | sonica_enb/stack/mac/scheduler_carrier.cc:445-461 | A pass over any list of users grants none or exactly one of those visited, who asked for something and found the throttle open. |
| `DlSpec.UserFitFree` | sonica_enb/stack/mac/scheduler_grid.cc:391-396 | Each data subframe of a grant was valid, free, not SIB1's and not the DCI's. |
| `DownlinkSafety.RarsAreConserved` | sonica_enb/stack/mac/scheduler_carrier.cc:186-289 | For every NPRACH opportunity, what was detected equals what has been answered followed by what is pending, in order; pending RARs have distinct opportunities and at least one response each. |
| `DownlinkSafety.FrontInEveryPass` | sonica_enb/stack/mac/scheduler_carrier.cc:193-226 | In every run the loop over pending RARs cannot spin: the oldest has a response to send. |
| `Liveness.OldestIsAnswered` | sonica_enb/stack/mac/scheduler_carrier.cc:186-254 | In every run, whatever is detected and asked for meanwhile, the oldest pending response is sent by one of the next 66 passes. |
| `Liveness.SentIfFree` | sonica_enb/stack/mac/scheduler_carrier.cc:193-250 | A pass that finds a pending response sends one whenever its subframe may carry the DCI and is free. |
| `RarRuns.SentUnderRaRnti` | sonica_enb/stack/mac/scheduler_carrier.cc:258-289 | In every run a response goes out under RA-RNTI 1 + tti / 40 of the opportunity in which its preamble was detected. |
| `RarRuns.RaRntiExactly` | sonica_enb/stack/mac/scheduler_carrier.cc:264-270 | RA-RNTIs lie between 1 and 256, and four frames share one (section 5.1.4 of TS 36.321). |
| `UserGrants.GrantsExactly` | sonica_enb/stack/mac/scheduler_carrier.cc:424-461 | In every run a pass grants a user if and only if its subframe may carry a user DCI, nobody has reserved it, the pass completes no RAR, the throttle is open or more than 25 subframes have gone since the last grant, and somebody asks; the block goes to the first that asks, the first visited user left out while the throttle is closed. |
| `UserGrants.BlockExactly` | sonica_enb/stack/mac/scheduler_grid.cc:376-401 | The block of such a grant is the DCI and the earliest free user subframes from five on, three for more than 20 bytes and otherwise one, and the pass reserves nothing else. |
| `UserGrants.ThrottleExactly` | sonica_enb/stack/mac/scheduler_carrier.cc:445-450 | In every run the throttle is closed if and only if a user has been granted and no pass since has visited a user more than 25 subframes after it. |
| `UserGrants.CompletesExactly` | sonica_enb/stack/mac/scheduler_carrier.cc:193-250 | A pass completes a RAR if and only if the oldest pending one owes one response and the subframe may carry its DCI and is free. |
| `UserGrants.GrantedSoon` | sonica_enb/stack/mac/scheduler_carrier.cc:403-461 | In every run: of any 50 consecutive passes in each of which a visited user asks, one grants a user or completes a RAR. |
| `UserGrants.FloodStarves` | sonica_enb/stack/mac/scheduler_carrier.cc:354-373 | In every run in which each pass finds a RAR that owes one response at the front, no user is ever granted, whatever the users ask for. |
| `UserGrants.FloodIsFlooded` | sonica_enb/stack/mac/scheduler_carrier.cc:256-289 | One detection of a new opportunity before each pass makes such a run, of any length. |
| `UplinkGrants.AskerIs` | sonica_enb/stack/mac/scheduler_carrier.cc:403-422 | The k-th user that a pass visits is the one at index TTI + k mod n of the table, and it asks for what its record requests. |
| `UplinkGrants.TurnExactly` | sonica_enb/stack/mac/scheduler_carrier.cc:403-422 | In every run of the carrier, with everybody asking: a pass that grants a user grants the one at index TTI mod n, or the next one while the throttle is closed, and nobody else. |
| `UplinkGrants.OthersAreLeftOut` | sonica_enb/stack/mac/scheduler_carrier.cc:409-421 | So with n a multiple of four, or eight, no pass grants a user whose index is 3 or more mod four, or eight. |
| `UplinkGrants.FourthStarves` | sonica_enb/stack/mac/scheduler_carrier.cc:409-421 | A run of four users that always have ten bytes to send, each served when it is granted, in which no pass ever grants the fourth. |
| `Npdcch.OneNpdcchExactly` | sonica_enb/stack/mac/scheduler_carrier.cc:230-250 | In every state: a TTI sends at most one DCI over RAR, user grants and uplink grants, whatever the users do, if and only if its subframe is outside the users' search space or no RAR is answered in part: the oldest owes at most one response, or the subframe is invalid, taken, SIB1's, a SIB2 start, or outside the RAR's search space. |
| `NpdcchRuns.TwoDcisExactly` | sonica_enb/stack/mac/scheduler_carrier.cc:354-375 | In every run of the carrier a TTI sends at most two DCIs, and two if and only if it answers a RAR in part within the users' search space and grants a user a block in either direction. |
| `NpdcchRuns.TwoDcisReached` | sonica_enb/stack/mac/scheduler_carrier.cc:243-249 | A run of the carrier in which a TTI sends one response of a RAR that owes two, and an uplink grant, in the same subframe. |
| `Npdcch.OneUlGrantPerPass` | sonica_enb/stack/mac/scheduler_grid.cc:480-508 | An uplink pass sends at most one grant for new data, and only in a free, valid subframe of the search space. |
| `UlSpec.Msg3FollowsRar` | sonica_enb/stack/mac/scheduler_grid.cc:433-453 | The slot parked nine TTIs later recomputes the very data subframe its RAR reserved, at every time including the end of a hyperframe, and its Msg3 block is the four subframes starting 13 later. |
| `UlRuns.HoldOff` | sonica_enb/stack/mac/scheduler_grid.cc:472-477 | In every run of the carrier: between a pass that grants a user a downlink block and a pass that grants it an uplink block for new data, the user was refused in at least 30 passes, whatever is detected, configured, reported or granted in between, as long as the user is not removed. |
| `UlRuns.PassTimer` | sonica_enb/stack/mac/scheduler_carrier.cc:488-552 | A pass refuses a user at most once, takes at most one off its wait, and serves it only when nothing of the wait is left. |
| `UplinkGrants.UlTurnIs` | sonica_enb/stack/mac/scheduler_carrier.cc:497-524 | The k-th user that an uplink pass visits is the one at index t + k mod n of the table, t being the TTI of the uplink subframe, 13 after the reception. |
| `UplinkGrants.UlPassExactly` | sonica_enb/stack/mac/scheduler_carrier.cc:488-552 | An uplink pass serves the first of its order that has something to send, is not in the slot and need not wait, if the DCI subframe is open and the block start free: four subframes at MCS 12 from 125 bytes on and 9 below, and its reports of channels 0 and 3 become 0; each other user that tries has one attempt less to wait; nothing else changes. |
| `UplinkGrants.RefusedExactly` | sonica_enb/stack/mac/scheduler_grid.cc:424-508 | Why an attempt for new data is refused: an error for a user in the slot, a DCI collision while it waits or its subframe is not open, a block collision when the start is taken; a refusal changes neither slot nor table. |
| `UplinkGrants.Msg3RefusedExactly` | sonica_enb/stack/mac/scheduler_grid.cc:433-453 | A Msg3 gets its four subframes, 13 after the data subframe of its RAR, unless the user is in the slot or one of them is taken; a refusal changes nothing. |
| `UplinkGrants.UplinkPassExactly` | sonica_enb/stack/mac/scheduler_carrier.cc:370-375 | The uplink pass of every TTI does exactly this to what its downlink pass has left. |
| `UplinkGrants.UlOpenMeans` | sonica_enb/stack/mac/scheduler_grid.cc:479-490 | In every run the DCI subframe of an uplink grant is open if and only if it is valid, in the search space, and reserved by nobody up to and including the downlink pass of its TTI. |
| `UplinkGrants.WaitCountsDown` | sonica_enb/stack/mac/scheduler_grid.cc:472-477 | In every run: from a downlink grant, or a report that sets a wait, on, while the user stays configured and no wait is set anew, what is left of its wait and the passes that found it trying and waiting make up 30, exactly. |
| `UplinkGrants.WaitEndsExactly` | sonica_enb/stack/mac/scheduler_grid.cc:472-477 | So the wait is over if and only if 30 such passes have been. |
| `CellResults.MidRecord` | sonica_enb/stack/mac/scheduler_grid.cc:410-414 | The uplink pass finds the record of a granted user with 70 bytes more on channel 3 and a wait of 30, and every other record as it was. |
| `CellResults.ResultExactly` | sonica_enb/stack/mac/scheduler_carrier.cc:345-380 | In every run the result of a TTI is what its two passes allocated, with nothing left from the TTI that used the slot before. |
| `CellResults.BroadcastExactly` | sonica_enb/stack/mac/scheduler_carrier.cc:104-172 | A pass announces SIB1 in its subframes, as new in the first of each 256 frames, SIB2 in each free start, and nothing otherwise. |
| `UlSpec.RoundRobinIsFair` | sonica_enb/stack/mac/scheduler_carrier.cc:497-524 | A pass visits every user exactly once, starting at the index that the TTI selects and wrapping. |
| `Msg3Fate.Msg3Exactly` | sonica_enb/stack/mac/scheduler_carrier.cc:345-380 | In every run of the carrier the Msg3s of an uplink result are exactly the one that the downlink pass nine TTIs before owed, if and only if that TTI plus nine is below 10240; otherwise it is lost. |
| `Msg3Fate.ParkedExactly` | sonica_enb/stack/mac/scheduler_carrier.cc:292-310 | In every run a pass parks the Msg3 of the RAR it completed, if and only if the user is known and the four subframes that start 13 after the RAR's data are free. |
| `Msg3Fate.LostExactly` | sonica_enb/stack/mac/scheduler_carrier.cc:364-368 | For a completed RAR this loss happens if and only if its DCI is in subframe 2 or 3 of a hyperframe, and in every run only when user data has taken the start of SIB2 in subframe 1. |
| `Msg3Fate.NoEarlyMsg3` | sonica_enb/stack/mac/scheduler_carrier.cc:364-368 | The first nine uplink results of a run carry no Msg3. |
| `CellScenes.Msg3IsLost` | sonica_enb/stack/mac/scheduler_carrier.cc:364-368 | A run in which a Msg3 is owed to a known user whose subframes are free, and is in no uplink result. |
| `UplinkSafety.UplinkRingIsExact` | sonica_enb/stack/mac/scheduler_carrier.cc:370-375 | In every run of the carrier the uplink entry of a time ahead within one turn is set if and only if a reservation for exactly that time has been made; all are less than 28 subframes ahead, so clearing loses none. |
| `UplinkSafety.NoUplinkDoubleBooking` | sonica_enb/stack/mac/scheduler_grid.cc:433-509 | Two uplink reservations of a run share a subframe only if the later one is the mark that a grant for new data leaves at the time of its DCI: Msg3 blocks are disjoint, and no start of new data lies on a Msg3 or another start. |
| `UplinkBlocks.UplinkSharesExactly` | sonica_enb/stack/mac/scheduler_grid.cc:433-509 | They share it if and only if the later one is such a mark and the earlier one is the start that was granted nine passes before, or a Msg3 subframe at that time. |
| `UplinkBlocks.DciMarkInMsg3Exactly` | sonica_enb/stack/mac/scheduler_grid.cc:507-508 | The mark of a grant falls into a Msg3 block if and only if its pass comes 13 to 16 subframes later than the RAR's data offset after the RAR's pass. |
| `UplinkBlocks.StartTakenExactly` | sonica_enb/stack/mac/scheduler_grid.cc:496-500 | The mark refuses no grant: in every run the uplink pass finds the start of a grant taken if and only if a Msg3 or the start of another grant holds it. |
| `UplinkBlocks.Msg3TakenExactly` | sonica_enb/stack/mac/scheduler_grid.cc:442-447 | Nor a Msg3: in every run one of its four subframes is taken if and only if another Msg3 or the start of a grant holds one. |
| `UplinkScenes.MarkOnStart` | sonica_enb/stack/mac/scheduler_grid.cc:507-508 | A run in which the mark of a grant falls on the start of another block: DCIs in subframes 24 and 33. |
| `UplinkScenes.MarkInMsg3` | sonica_enb/stack/mac/scheduler_grid.cc:507-508 | A run in which the mark of a grant falls into a Msg3 block: the RAR's DCI in subframe 37, the grant's in 56. |
| `UplinkBlocks.NewDataOverlapsExactly` | sonica_enb/stack/mac/scheduler_grid.cc:496-505 | The four subframes of two grants for new data of a run overlap if and only if they were granted in consecutive TTIs. |
| `UplinkBlocks.Msg3OverlapsExactly` | sonica_enb/stack/mac/scheduler_grid.cc:433-505 | A Msg3 block and the four subframes of a grant for new data of a run overlap if and only if the grant's pass comes one to three subframes later than the RAR's data offset after the RAR's pass. |
| `UplinkScenes.NewDataOverlaps` | sonica_enb/stack/mac/scheduler_grid.cc:496-505 | A run in which two users are granted overlapping blocks, in subframes 16 and 17. |
| `UplinkScenes.NewDataOverlapsMsg3` | sonica_enb/stack/mac/scheduler_grid.cc:433-505 | A run in which a Msg3 and a block of new data overlap: the RAR's DCI is in subframe 64, the grant's in 72. |
| `Msg3Runs.KeyMatches` | sonica_enb/stack/mac/scheduler_carrier.cc:366 | The unreduced key matches the TTI exactly when the parking pass is not among the last nine of a hyperframe. |
| `Msg3Runs.PassStartsEmpty` | sonica_enb/stack/mac/scheduler_carrier.cc:553-563 | In every run a downlink pass finds no allocations in its slot. |
| `Carrier.CarrierSched.constructor` | sonica_enb/stack/mac/scheduler_carrier.cc:321-343 | All tables are clear, no slot is bound, nothing is pending. |
| `Carrier.CarrierSched.DlTti` | sonica_enb/stack/mac/scheduler_carrier.cc:345-370 | The downlink pass in place: tables, SIB1 counter, RAR queue, throttle, slots and user records afterwards are those of the functional pass that the run theorems are about. |
| `Carrier.CarrierSched.UlTti` | sonica_enb/stack/mac/scheduler_carrier.cc:371-375 | The uplink pass in place: the entry of the received TTI is cleared, then every user is visited once; the new uplink table, slot and records are given exactly. |
| `Carrier.CarrierSched.GetSfSched` | sonica_enb/stack/mac/scheduler_carrier.cc:553-563 | The slot for a TTI is kept if it is bound to that TTI and emptied otherwise; no other slot changes. |
| `Carrier.CarrierSched.ParkMsg3` | sonica_enb/stack/mac/scheduler_carrier.cc:364-368 | Only the slot nine TTIs later and the uplink table change, by the Msg3s of known users that were not yet served there and found four free subframes. |
| `Carrier.CarrierSched.SchedUsersDl` | sonica_enb/stack/mac/scheduler_carrier.cc:403-420 | Visits all users in round-robin order; the outcome is that of the visits one after the other, and granted users' records change. |
| `Carrier.CarrierSched.AllocateUser` | sonica_enb/stack/mac/scheduler_carrier.cc:427-467 | One visit in place is the visit of the pass that `UserGrants.GrantsExactly` and `UserGrants.ThrottleExactly` characterise. |
| `Carrier.CarrierSched.SchedUsersUl` | sonica_enb/stack/mac/scheduler_carrier.cc:488-524 | Visits all users in round-robin order; the outcome is that of the visits one after the other. |
| `Carrier.CarrierSched.AllocateUserNewTx` | sonica_enb/stack/mac/scheduler_carrier.cc:526-552 | A user with reported data that is not yet served tries for a grant; success resets the reports of channels 0 and 3. |
| `Carrier.CarrierSched.DlRachInfo` | sonica_enb/stack/mac/scheduler_carrier.cc:256-289 | A detection joins the pending RAR of its opportunity or opens a new one at the end of the queue. |
| `Carrier.CarrierSched.UeCfg` | sonica_enb/stack/mac/scheduler.cc:105-118 | Adds a user in key order unless known and sets the directions of its bearers; its queues, reports, control elements and wait, and all other users, stay as they were. |
| `Carrier.CarrierSched.UeRem` | sonica_enb/stack/mac/scheduler.cc:120-130 | Removes exactly that user from the table and its order, or reports that it is unknown. |
| `Carrier.RaSched.DlSched` | sonica_enb/stack/mac/scheduler_carrier.cc:186-254 | RAR part of a pass in place: the answered response, the queue without it, and the two marks when the RAR is complete. |
| `Carrier.RaSched.UlSched` | sonica_enb/stack/mac/scheduler_carrier.cc:292-310 | Parks one Msg3 for each answered response whose user is known. |
| `Carrier.RaSched.DlRachInfo` | sonica_enb/stack/mac/scheduler_carrier.cc:256-289 | Search by opportunity and RA-RNTI over the queue equals the recursive description. |
| `Carrier.AddRachAt` | sonica_enb/stack/mac/scheduler_carrier.cc:271-286 | A detection goes to the first RAR of its opportunity, or to a new last one. |
| `CellSpec.TwoPassesAreOneTti` | sonica_enb/stack/mac/scheduler_carrier.cc:354-375 | The slots after both passes are one step of the slot ring. |
| `CellRuns.CellIsRun` | sonica_enb/stack/mac/scheduler_carrier.cc:345-380 | Every run of the carrier (detections, configuration, removal, reports, TTIs) contains a run of downlink passes that ends in its downlink state. |
| `CellRuns.CellIsSlotRun` | sonica_enb/stack/mac/scheduler_carrier.cc:345-380 | And a run of the slot ring that ends in its slots. |
| `CellDriver.EveryPassReady` | sonica_enb/stack/mac/scheduler_carrier.cc:345-380 | In every run of the carrier the next pass finds its slot empty, a response in the oldest RAR and room for a user block. |
| `CellDriver.GenerateTtiResult` | sonica_enb/stack/mac/scheduler_carrier.cc:345-380 | Both passes in place take the objects from one state of a run to the next. |
| `CellDriver.Drive` | sonica_enb/stack/mac/scheduler_carrier.cc:321-380 | A new carrier driven through any events shows the states of the run all along; every pass can run. Only a ninth pending detection of one opportunity is excluded. |
| `CellDriver.RoomWhileFew` | sonica_enb/stack/mac/scheduler_carrier.cc:256-289 | In every run a detection finds room in its RAR as long as its opportunity has had fewer than eight. |
| `CellDriver.NinthFindsNoRoom` | sonica_enb/stack/mac/scheduler_carrier.cc:256-289 | A run of eight detections of one opportunity after which a ninth finds none. |
| `CellRuns.ServeKeepsUplink` | sonica_enb/stack/mac/scheduler_ue.cc:308-461 | Generating a downlink result changes nothing that the uplink looks at. |
| `Carrier.PassInTwoParts` | sonica_enb/stack/mac/scheduler_carrier.cc:354-370 | A pass is the cell-wide part followed by the users on what it left, who still find room for a block. |
| `Carrier.RoomForUsers` | sonica_enb/stack/mac/scheduler_carrier.cc:155-241 | Broadcast and RAR together cannot use up the room a user block needs. |
| `CellSpec.InsertKeeps` | sonica_enb/stack/mac/scheduler.cc:108-113 | The user table stays in ascending key order when a user is added. |
| `CellSpec.WithoutKeeps` | sonica_enb/stack/mac/scheduler.cc:123-125 | The user table stays in ascending key order when a user is removed. |
| `Grid.BcSched.constructor` | sonica_enb/stack/mac/scheduler_carrier.cc:33-71 | The 64 window starts computed by the two loops are 1, 17, 33, ... without a gap. |
| `Grid.BcSched.IsSib1Sf` | sonica_enb/stack/mac/scheduler_carrier.cc:86-102 | The loop over the windows answers: subframe 4 of odd frames, at every frame number. |
| `Grid.BcSched.AllocSibs` | sonica_enb/stack/mac/scheduler_carrier.cc:104-172 | Table, SIB1 counter and broadcast allocations after the call are those of the functional broadcast part. |
| `Grid.BcSched.MarkSib2` | sonica_enb/stack/mac/scheduler_carrier.cc:155-164 | The loop over valid subframes marks the first eight of them and nothing else. |
| `Grid.SfSched.NewTti` | sonica_enb/stack/mac/scheduler_grid.cc:72-89 | The record is emptied and bound to the TTI. |
| `Grid.SfSched.IsDlAlloc` | sonica_enb/stack/mac/scheduler_grid.cc:91-99 | True if and only if the user has a downlink allocation in this TTI. |
| `Grid.SfSched.IsUlAlloc` | sonica_enb/stack/mac/scheduler_grid.cc:101-109 | True if and only if the user has an uplink allocation in this TTI. |
| `Grid.SfSched.AllocRar` | sonica_enb/stack/mac/scheduler_grid.cc:132-182 | One response is sent however many are owed; a RAR without responses is an error and changes nothing. |
| `Grid.SfSched.AllocDlUser` | sonica_enb/stack/mac/scheduler_grid.cc:323-416 | Refusal changes nothing; success sets the DCI subframe and the earliest fit of 1 or 3 subframes, appends the allocation and updates the user's report and timer. |
| `Grid.SfSched.AllocUl` | sonica_enb/stack/mac/scheduler_grid.cc:418-519 | All four outcomes of an uplink allocation with their effect on table, record and wait, as in the pass that `UplinkGrants.UlPassExactly` characterises. |
| `Grid.SfSched.ReserveMsg3` | sonica_enb/stack/mac/scheduler_grid.cc:433-453 | The four Msg3 subframes are reserved if all are free, and none otherwise. |
| `Packing.PackFillsBlock` | sonica_enb/stack/mac/scheduler_ue.cc:391-409 | SDUs with their subheaders and the bytes left add up to the block, also at the step from 2 to 3 byte subheaders: never an underflow or overrun. |
| `Packing.PackConserves` | sonica_enb/stack/mac/scheduler_ue.cc:440-461 | For every queue, what is left plus what is in the block is what was there. |
| `Packing.PackOrder` | sonica_enb/stack/mac/scheduler_ue.cc:440-461 | The SDUs are the non-empty queues in order of channel, retransmissions first, one SDU each, whole except possibly the last. |
| `Packing.PackStops` | sonica_enb/stack/mac/scheduler_ue.cc:398-406 | Packing ends only with fewer than five bytes left or nothing left to send. |
| `Packing.DrainsExactly` | sonica_enb/stack/mac/scheduler_ue.cc:391-409 | The packer empties all queues if and only if the block has the bytes that `Need` states. |
| `Packing.CesFit` | sonica_enb/stack/mac/scheduler_ue.cc:417-437 | Control elements leave in order while they fit; all leave if and only if they fit together. |
| `Packing.MaxSdu` | sonica_enb/stack/mac/scheduler_ue.cc:399 | With its subheader the largest SDU never exceeds the room and no larger one would fit. |
| `Estimate.GrantConserves` | sonica_enb/stack/mac/scheduler_ue.cc:308-461 | A grant carries the first control elements, as many as fit its block, and bytes of the queues: together with what it leaves with the user these are what there was, and they fit the block. |
| `Estimate.GrantDrainsExactly` | sonica_enb/stack/mac/scheduler_ue.cc:350-353 | A grant sends everything if and only if the block holds the control elements and what the packer needs. |
| `Estimate.EstimateIsSoundExactly` | sonica_enb/stack/mac/scheduler_ue.cc:496-566 | The estimate plus one byte covers the packer's need if and only if the last data is not a single SRB0 byte; it is never short by more than one more byte. |
| `Estimate.BlockExceedsRequest` | sonica_enb/stack/mac/scheduler_grid.cc:378-383 | For every request up to 84 bytes the MCS search finds a block larger than the request. |
| `Estimate.ServedByOneGrant` | sonica_enb/stack/mac/scheduler_ue.cc:308-380 | A request of at most 84 bytes is served by one grant if and only if it does not end in a single SRB0 byte while the table has a block exactly one byte larger than the request. |
| `Estimate.UsedBlocks` | sonica_enb/stack/mac/scheduler_ue.cc:242-256 | The blocks of one and three subframes in bytes, for each MCS (table 16.4.1.5.1-1 of TS 36.213). |
| `Estimate.PickedIsSmallest` | sonica_enb/stack/mac/scheduler_ue.cc:328-342 | For requests up to 84 bytes the chosen block is the smallest that is larger than the request. |
| `Estimate.TightBlock` | sonica_enb/stack/mac/scheduler_ue.cc:318-346 | The MCS search picks a block one byte larger than the request if and only if the column of the table has one. |
| `Estimate.OneByteIsNeverSent` | sonica_enb/stack/mac/scheduler_ue.cc:382-409 | One pending SRB0 byte asks for 3 bytes, is given a block of 4 and stays pending. |
| `Estimate.MinWhenAnything` | sonica_enb/stack/mac/scheduler_ue.cc:550-561 | The minimum is positive exactly when the maximum is. |
| `Estimate.RequestExactly` | sonica_enb/stack/mac/scheduler_ue.cc:496-566 | The request of every user in bytes: all control elements, all data of downlink channels with their subheaders, and what SDUs of one or two bytes above channel 0 lack to five; at least SRB0 with a leading contention resolution, else the first control element, else five. |
| `Estimate.TotalExactly` | sonica_enb/stack/mac/scheduler_ue.cc:60-64 | All queues as whole SDUs take their payload and two bytes of subheader each, three above 128. |
| `Estimate.CeTotalExactly` | sonica_enb/stack/mac/scheduler_ue.cc:529-535 | The control elements by kind: 7, 5, 2 and 1 bytes. |
| `Estimate.MinIsLeast` | sonica_enb/stack/mac/scheduler_ue.cc:550-562 | Without SRB0 data and a leading contention resolution, a block carries something if and only if it has the minimum. |
| `Estimate.PickMcs` | sonica_enb/stack/mac/scheduler_ue.cc:328-342 | The smallest MCS whose block exceeds the request, or the last one. |
| `SchedulerUe.SchedUe.GetRequestedDlBytes` | sonica_enb/stack/mac/scheduler_ue.cc:496-566 | The loops compute the request that `Estimate.RequestExactly` gives in bytes. |
| `SchedulerUe.SchedUe.AllocRlcPdu` | sonica_enb/stack/mac/scheduler_ue.cc:440-461 | Takes from the first queue that holds data, at most the room, and changes no other. |
| `SchedulerUe.SchedUe.AllocateMacSdus` | sonica_enb/stack/mac/scheduler_ue.cc:391-409 | Never uses more than the block; SDUs and queues afterwards are those of one sweep. |
| `SchedulerUe.RescanIsSweep` | sonica_enb/stack/mac/scheduler_ue.cc:398-406 | Rescanning all channels for each SDU does the same as one sweep over the queues. |
| `SchedulerUe.SchedUe.AllocateMacCes` | sonica_enb/stack/mac/scheduler_ue.cc:417-437 | Pops exactly the control elements that fit and reports their size. |
| `SchedulerUe.SchedUe.SearchMcs` | sonica_enb/stack/mac/scheduler_ue.cc:328-343 | The loop finds the first sufficient MCS, falling back to 12. |
| `SchedulerUe.SchedUe.GenerateFormatN1` | sonica_enb/stack/mac/scheduler_ue.cc:308-380 | The whole grant in place: MCS, block size, control elements, SDUs and the remaining user state. |
| `SchedulerUe.SchedUe.DlBufferState` | sonica_enb/stack/mac/scheduler_ue.cc:170-178 | Sets both queues of one channel, ignoring channels out of range. |
| `SchedulerUe.SchedUe.MacBufferState` | sonica_enb/stack/mac/scheduler_ue.cc:180-192 | Contention resolutions go to the front, other elements to the back, n times. |
| `SchedulerUe.SchedUe.UlBufferState` | sonica_enb/stack/mac/scheduler_ue.cc:194-205 | Sets or adds to the report of one channel, ignoring channels out of range. |
| `SchedulerUe.SchedUe.UlWaitTimer` | sonica_enb/stack/mac/scheduler_ue.cc:207-216 | Sets or extends the wait timer. |
| `CellResults.PendingExactly` | sonica_enb/stack/mac/scheduler_ue.cc:602-631 | What a user has for the uplink is the sum of the reports of its uplink channels, or 125 bytes for a bare scheduling request. |
| `CellResults.CfgExactly` | sonica_enb/stack/mac/scheduler.cc:105-118 | Configuring a user sets the directions of its bearers: a known user keeps the rest of its record, a new one starts blank, no other record changes. |
| `CellResults.RemExactly` | sonica_enb/stack/mac/scheduler.cc:120-130 | Removing a user takes its record and its turn, and changes nothing else. |
| `CellResults.DlReportExactly` | sonica_enb/stack/mac/scheduler_ue.cc:168-178 | A report of downlink queues replaces the two queues of its channel and nothing else. |
| `CellResults.UlReportExactly` | sonica_enb/stack/mac/scheduler_ue.cc:194-205 | An uplink report replaces, or adds to, what its channel counts for, and changes nothing else. |
| `CellResults.CeReportExactly` | sonica_enb/stack/mac/scheduler_ue.cc:180-192 | Contention resolutions join in front of the queue of control elements, all others behind. |
| `CellResults.SrExactly` | sonica_enb/stack/mac/scheduler_ue.cc:160-168 | A scheduling request counts for 125 bytes while it stands and nothing is reported. |
| `CellResults.ServeExactly` | sonica_enb/stack/mac/scheduler_ue.cc:308-461 | Serving a user takes from its record the control elements and bytes that its grant carries, and nothing else. |
| `SchedulerUe.SchedUe.GetPendingUlNewData` | sonica_enb/stack/mac/scheduler_ue.cc:602-631 | The loop computes what `CellResults.PendingExactly` gives as a sum. |
| `Nprach.HopWidths` | src/nbiot_phch/nprach.c:96-119 | From the starting tone the hops are 1, 6 and 1 tones wide, up from even tones and from the lower half, with the narrow ones in opposite directions (section 10.1.6 of TS 36.211), for every preamble. |
| `Nprach.HoppingIsBijective` | src/nbiot_phch/nprach.c:96-119 | In every symbol group each of the twelve tones belongs to exactly one preamble. |
| `Nprach.ChunksDoNotMatter` | src/nbiot_phch/nprach.c:130-218 | For any split in which each chunk starts on a symbol boundary or completes the carried symbol, the final state and all rows equal those of one call on the whole stream. |
| `Nprach.LongChunks` | src/nbiot_phch/nprach.c:142 | Chunks of at least 512 samples are such a split. |
| `Nprach.NoSampleLostExactly` | src/nbiot_phch/nprach.c:143-213 | A call accounts for all its samples if and only if nothing was carried or the carried symbol is completed, and the samples do not reach beyond the end of the preamble. |
| `Nprach.ShortChunksDiffer` | src/nbiot_phch/nprach.c:209-213 | Chunks of 300 and 200 samples leave a different state than one of 500. |
| `Nprach.RowIsItsWindow` | src/nbiot_phch/nprach.c:152-161 | However the stream is chunked, entry (5g + k - 1, sc) is FFT bin 232 + 36 + the hopping tone of preamble sc, of the 512 samples from 512 (6g + k) on, each multiplied by the frequency shift for its place. |
| `Nprach.CompleteAfter24` | src/nbiot_phch/nprach.c:167-176 | The preamble is complete if and only if its remaining symbols have all been received. |
| `Nprach.Detector.Detect` | src/nbiot_phch/nprach.c:130-218 | The streaming loop on the buffers: the new state is that of the functional detector, and a complete preamble is reported by the highest tone that is heard. |
| `Nprach.Detector.Decide` | src/nbiot_phch/nprach.c:179-205 | Found if and only if some tone is heard; the index is that of the highest one. |
| `Nprach.HeardMeans` | src/nbiot_phch/nprach.c:183-192 | A tone is heard if and only if no two of its twenty rows are at or below the threshold. |
| `Nprach.Detector.StoreDetectBuf` | src/nbiot_phch/nprach.c:122-128 | Files each preamble's hopping tone in its column of one row and changes no other row. |
| `Nprach.Detector.Reset` | src/nbiot_phch/nprach.c:88-94 | Starts over at the first symbol and keeps the carried samples. |
| `Npusch.GetAfterPut` | src/nbiot_phch/npusch.c:48-90 | What was put on a subframe is read back from it, for every block within the carrier. |
| `Npusch.PutNowhereElse` | src/nbiot_phch/npusch.c:57-65 | Putting changes nothing outside the block and no reference symbol. |
| `Npusch.PutInGrid` | src/nbiot_phch/npusch.c:57-65 | Putting changes nothing outside the subframe's grid. |
| `Npusch.Copy` | src/nbiot_phch/npusch.c:48-80 | The nested loops with moving pointers put or get all twelve data symbols, in order, and return the number of symbols. |
| `EnbUl.EndToEnd` | src/nbiot_enb/enb_ul_nbiot.c:304-322 | For every block position, number of subframes up to the buffer and prior content of the grids, transmitting and buffering each subframe gives back exactly the transmitted symbols at the last one, and "expect more" before. |
| `EnbUl.NextReply` | src/nbiot_enb/enb_ul_nbiot.c:288-322 | The receiver decodes only the last subframe of a grant without repetition; with any other repetition count it never decodes and refuses every subframe after the first pass. |
| `EnbUl.Receiver.DecodeNpusch` | src/nbiot_enb/enb_ul_nbiot.c:281-326 | Buffers, counters and outcome of one subframe in place are those of the functional receiver, and the gathered symbols and estimates are in the output buffers. |
| `EnbUl.Receiver.GatherAll` | src/nbiot_phch/npusch.c:286-301 | The loop over subframes gathers symbols and estimates of all of them, in order. |
| `EnbUl.Receiver.CfgGrant` | src/nbiot_enb/enb_ul_nbiot.c:166-176 | Any new grant starts with empty buffers and counters at zero. |
| `EnbUl.Transmitter.Encode` | src/nbiot_phch/npusch.c:229-268 | Encodes once per grant and puts the next slice of the buffer on the grid, also after the last subframe; errors leave everything as it was. |
| `TxRx.Transceiver.RunThread` | sonica_enb/phy/txrx.cc:108-149 | For any number of rounds, round k hands out hyperframe (k / 10240) mod 1024, TTI (k - 4) mod 10240 and worker counter k mod the number of workers. |
| `TxRx.OneCounter` | sonica_enb/phy/sf_worker.cc:158-171 | Hyperframe and transmission TTI together are the counter k, and both scheduler calls of a round run the pass of its reception TTI. |
| `TxRx.Advance` | sonica_enb/phy/txrx.cc:111-121 | The case distinctions of one round are one increment of the counter. |
| `Lifecycle.RunAgrees` | sonica_enb/stack/rrc/rrc.cc:115-136 | In every run without RNTI reuse, RRC, RLC, PDCP and scheduler know the same users, and MAC knows these and the ones with a queued random access task, each once. |
| `Lifecycle.RachAgreesExactly` | sonica_enb/stack/mac/mac.cc:313-334 | A detection keeps the tables in agreement if and only if its RNTI is not in use. |
| `Lifecycle.ReuseDisagrees` | sonica_enb/stack/mac/mac.cc:137-148 | The first reuse of a live RNTI in a run breaks the agreement. |
| `Lifecycle.ReuseReached` | sonica_enb/stack/mac/mac.cc:137-148 | It is reached: after 55903 detections whose users stay, the next one is given an RNTI in use and the tables disagree. |
| `Lifecycle.DrainReleasesExactly` | sonica_enb/stack/rrc/rrc.cc:529-568 | A clock tick empties the queue, including what handling adds, and removes exactly the users released in it. |
| `Lifecycle.ReleaseChain` | sonica_enb/stack/rrc/rrc.cc:624-663 | A released user is in none of the five tables after the tick, and every other user stays in all of them. |
| `Lifecycle.ConnectedIsTold` | sonica_enb/stack/rrc/rrc.cc:624-639 | A user that is not idle when it is released is sent a connection release by the tick that removes it. |
| `Lifecycle.JoinsIdle` | sonica_enb/stack/mac/mac.cc:336-371 | A user whose random access task has run is idle, and known to scheduler, RLC, PDCP and RRC. |
| `Lifecycle.MulticastJoins` | sonica_enb/stack/rrc/rrc.cc:115-136 | The multicast RNTI joins RLC and PDCP and gets no context in RRC. |
| `Lifecycle.RequestConfigures` | sonica_enb/stack/mac/mac.cc:178-212 | A connection request registers its user with the scheduler if and only if MAC knows it. |
| `Lifecycle.StateExactly` | sonica_enb/stack/rrc/rrc.cc:529-568 | An entry of the queue changes the state of a user if and only if it is its connection request or the completion of its set-up. |
| `Lifecycle.ToldExactly` | sonica_enb/stack/rrc/rrc.cc:624-636 | A user that one entry of the queue releases is sent a release message by the tick, once, if and only if it is not idle then: idle before the tick and not woken by an earlier entry. |
| `Lifecycle.RunPairs` | sonica_enb/stack/rrc/rrc.cc:630-633 | In every run each release message comes right after the clearing of its user buffer, and nothing else is sent. |
| `Lifecycle.HandleShrinks` | sonica_enb/stack/rrc/rrc.cc:624-636 | Although a release enqueues a removal, every entry handled brings the queue closer to its end. |
| `Lifecycle.DrainAgrees` | sonica_enb/stack/rrc/rrc.cc:529-568 | A clock tick keeps the tables in agreement. |
| `Lifecycle.TaskAgrees` | sonica_enb/stack/mac/mac.cc:336-371 | A random access task keeps the tables in agreement. |
| `Lifecycle.ReissueDistance` | sonica_enb/stack/mac/mac.cc:142-145 | Two detections get the same RNTI if and only if a multiple of 55903 allocations lies between them. |
| `Lifecycle.RunRnti` | sonica_enb/stack/mac/mac.cc:137-148 | After any run the next RNTI is determined by the number of detections. |
| `EnbStack.Mac.AllocateRnti` | sonica_enb/stack/mac/mac.cc:137-148 | Returns the counter and advances it, from 59999 back to 4097. |
| `EnbStack.Mac.RachDetected` | sonica_enb/stack/mac/mac.cc:313-334 | The user enters MAC's table and a task is queued with the same RNTI. |
| `EnbStack.Mac.UeCfg` | sonica_enb/stack/mac/mac.cc:178-212 | Registers the user with the scheduler only if MAC knows it. |
| `EnbStack.Mac.UeRem` | sonica_enb/stack/mac/mac.cc:215-239 | Removes a known user from scheduler and MAC, in that order; others are an error. |
| `EnbStack.SchedTable.UeRem` | sonica_enb/stack/mac/scheduler.cc:120-130 | Removes exactly that user or reports that it is unknown. |
| `EnbStack.UserTable.AddUser` | sonica_enb/stack/upper/rlc.cc:56-69 | The user is in the table afterwards; adding it twice does nothing. |
| `EnbStack.UserTable.RemUser` | sonica_enb/stack/upper/pdcp.cc:74-80 | The user is not in the table afterwards. |
| `EnbStack.Rrc.AddUser` | sonica_enb/stack/rrc/rrc.cc:115-136 | Adds an unknown user to RRC, RLC and PDCP, the multicast RNTI to RLC and PDCP only, and leaves a known one alone. |
| `EnbStack.Rrc.RunTask` | sonica_enb/stack/mac/mac.cc:336-371 | The oldest task registers its user with scheduler and RRC. |
| `EnbStack.Rrc.TtiClock` | sonica_enb/stack/rrc/rrc.cc:529-568 | The drain loop ends and leaves the tables as the functional drain does. |
| `EnbStack.Rrc.ProcessReleaseComplete` | sonica_enb/stack/rrc/rrc.cc:624-639 | A release of a known user clears its RLC buffer and sends it a release message unless it is idle, and enqueues exactly one removal. |
| `EnbStack.Rrc.RemUser` | sonica_enb/stack/rrc/rrc.cc:641-663 | Removes the user from MAC, scheduler, RLC, PDCP and RRC. |
| `EnbStack.Rrc.ReleaseComplete` | sonica_enb/stack/rrc/rrc.cc:343-347 | Enqueues one release. |
| `S1ap.IdsNeverReused` | sonica_enb/stack/upper/s1ap.cc:1098-1156 | In every run an identifier stays bound to one RNTI and is never used again once its context has gone. |
| `S1ap.DlNasReachesOwner` | sonica_enb/stack/upper/s1ap.cc:613-641 | A delivered downlink NAS message goes to the RNTI that was stored under its identifier at every earlier time since the identifier was taken. |
| `S1ap.DlNasExactly` | sonica_enb/stack/upper/s1ap.cc:613-641 | In every run a downlink NAS message is delivered, once and to the RNTI for which its identifier was taken, if and only if its buffer was there and a context is stored under the identifier; otherwise nothing is delivered. |
| `S1ap.UnknownIsDropped` | sonica_enb/stack/upper/s1ap.cc:613-623 | An identifier that has not been taken delivers nothing. |
| `S1ap.UlNasExactly` | sonica_enb/stack/upper/s1ap.cc:345-355 | An uplink NAS message is sent, once and under the identifiers of the context with its RNTI, if and only if there is one and the MME is connected; otherwise nothing changes. |
| `S1ap.OthersSendNothing` | sonica_enb/stack/upper/s1ap.cc:305-355 | No other event hands anything to RRC or sends NAS. |
| `S1ap.GoesExactly` | sonica_enb/stack/upper/s1ap.cc:357-380 | In every run a context goes with an event if and only if RRC reports its user inactive after its release has been requested, or a release command names it, or picks it by its MME identifier. |
| `S1ap.OneGoes` | sonica_enb/stack/upper/s1ap.cc:755-770 | A release command by MME identifier takes exactly one of the contexts that have it. |
| `S1ap.RequestedExactly` | sonica_enb/stack/upper/s1ap.cc:357-380 | A release is marked as requested if and only if it was before, or the MME is connected and RRC reports the user of a context with an MME identifier inactive, or the set-up asks for fallback. |
| `S1ap.MmeIdExactly` | sonica_enb/stack/upper/s1ap.cc:1212-1225 | The MME identifier of a context is the one in the last message that named it. |
| `S1ap.ConnectedExactly` | sonica_enb/stack/upper/s1ap.cc:345-380 | Whether the MME is connected is what the connection last reported. |
| `S1ap.ReleasesAreExact` | sonica_enb/stack/upper/s1ap.cc:357-380 | In every run RRC has been told to release exactly the UEs whose contexts have gone, once each and in that order. |
| `S1ap.RunInv` | sonica_enb/stack/upper/s1ap.cc:1098-1156 | In every run each key is its context's identifier and below the next one, and RNTIs are valid and distinct. |
| `S1ap.AdmittedExactly` | sonica_enb/stack/upper/s1ap.cc:1127-1146 | In every run a new context is stored, under the identifier taken for it, if and only if no context has its RNTI and none has been given the MME identifier 0. |
| `S1ap.ZeroBlocks` | sonica_enb/stack/upper/s1ap.cc:1114-1146 | Once a context has been given the MME identifier 0, no UE is let in until a message gives that context another one or ends it. |
| `S1ap.ZeroReached` | sonica_enb/stack/upper/s1ap.cc:613-641 | A run in which one downlink NAS message gives a context the MME identifier 0 and the next UE is turned away. |
| `Teardown.ErasedIsGone` | sonica_enb/stack/upper/s1ap.cc:357-380 | In every run of S1AP with RRC that is shorter than the identifier space, stores no RNTI 0 and gives no detection an RNTI in use: a context that S1AP gives up has its RNTI, after the next tick, in none of the tables of RRC, RLC, PDCP and the scheduler, and in MAC if and only if its random access is still queued. |
| `S1ap.InvalidRntiTwice` | sonica_enb/stack/upper/s1ap.cc:1098-1106 | RNTI 0 is never found by the search, so it can be stored twice. |
| `S1ap.StepShape` | sonica_enb/stack/upper/s1ap.cc:733-770 | Every event but a new UE keeps all contexts up to MME data, or erases one and signals its RNTI. |
| `S1ap.Entity.FindUeRnti` | sonica_enb/stack/upper/s1ap.cc:1098-1106 | Finds a context if and only if one has this RNTI, never for RNTI 0. |
| `S1ap.Entity.FindUeMmeid` | sonica_enb/stack/upper/s1ap.cc:1114-1120 | Finds a context if and only if one has been given this MME identifier. |
| `S1ap.Entity.AddUser` | sonica_enb/stack/upper/s1ap.cc:1127-1146 | Stores the context under its identifier if and only if RNTI, identifier and MME identifier are all unused. |
| `S1ap.Entity.EraseUser` | sonica_enb/stack/upper/s1ap.cc:1148-1156 | Erases exactly the context with this identifier. |
| `S1ap.Entity.InitialUeMessage` | sonica_enb/stack/upper/s1ap.cc:305-343 | Takes an identifier in every case; stores a context only if none has the RNTI. |
| `S1ap.Entity.ReleaseUser` | sonica_enb/stack/upper/s1ap.cc:357-380 | Requests a release, or gives up a context whose release was requested before and signals RRC. |
| `S1ap.Entity.FindS1apMsgUser` | sonica_enb/stack/upper/s1ap.cc:1212-1225 | Settles the MME identifier of the context named by the message, even if it changes. |
| `S1ap.Entity.HandleDlNasTransport` | sonica_enb/stack/upper/s1ap.cc:613-641 | One such message in place: delivers to the RNTI of the named context, or discards; `S1ap.DlNasExactly` says when over whole runs. |
| `S1ap.Entity.HandleInitialCtxtSetupRequest` | sonica_enb/stack/upper/s1ap.cc:643-670 | Settles the MME identifier and requests a release for circuit-switched fallback. |
| `S1ap.Entity.HandleReleaseCommandPair` | sonica_enb/stack/upper/s1ap.cc:733-770 | Erases the named context and signals RRC. |
| `S1ap.Entity.HandleReleaseCommandMme` | sonica_enb/stack/upper/s1ap.cc:755-770 | Erases a context with this MME identifier and signals RRC. |
| `S1ap.Entity.WritePdu` | sonica_enb/stack/upper/s1ap.cc:345-355 | Uplink NAS goes out under the identifiers of the context with this RNTI. |
| `Timing.Phase` | third_party/srslte/src/phy/phch/ra_nbiot.c:272-275 | Valid, SIB1 and SIB2-start subframes by their place in a pair of frames. |

## Left out

- `generate_sched_results` and the filling of DCI fields: a pass is modelled up to the allocations it records; `GenerateFormatN1` is modelled as a call of its own, since the uplink pass generates the downlink results again.
- The cache of results in `get_next_sf_result`: its "first time" test always succeeds, so every call recomputes.
- `sf_dl_mask`, which is never set, and paging.
- Carrier.CarrierSched.constructor: the throttle is a static variable in the code and is modelled as a field that starts open; `carrier_cfg`'s fresh objects are made at construction.
- Carrier.CarrierSched.DlRachInfo: asks for fewer than eight responses in the RAR, because the code writes past its array otherwise.
- Carrier.RaSched.DlRachInfo: the same.
- CellDriver.Drive: the same; the runs themselves have no such limit, and `CellDriver.RoomWhileFew` and `CellDriver.NinthFindsNoRoom` say when it is met.
- Grid.SfSched.AllocRar: the control channel grid always succeeds in the code, so the retry with fewer responses is never taken and is not modelled.
- Pointers to users in allocations are modelled by RNTI, which is unique in the user table.
- Packing.PackFillsBlock: byte counts are unbounded integers, so a wrap of 32-bit queue lengths is not modelled.
- SchedulerUe.SchedUe.UlBufferState: the sums of buffer reports do not wrap at 32 bits.
- Nprach.Detector.Decide: the average that is only printed is left out.
- FFT, channel estimation, noise, modulation, scrambling, turbo decoding and the OFDM receiver.
- EnbUl.Receiver.DecodeNpusch: whether the transport block checks is an input, because the decoder is numeric code; an active grant must fit carrier and buffers, which the code does not check.
- EnbUl.Transmitter.Encode: the coded symbols and the coder's success are inputs; a call is modelled as long as the subframe's symbols lie in the buffer, which the code does not check.
- Uplink blocks larger than ten subframes, which do not fit the buffers.
- Radio, sockets, SCTP, packet capture, logging, configuration and timers; `EnbStack` and `S1ap` take message contents and send results as inputs.
- ASN.1: an uplink message of RRC says what it turns out to be.
- RLC and PDCP entities themselves: only the membership of their tables and the calls of `clear_buffer` are modelled, and a bearer's buffers are not.
- EnbStack.Rrc.ProcessReleaseComplete: the wait of 50 ms after the release message is not modelled.
- Threads and locks: each entry point is one step, and TTIs come strictly in order.
- Handover, E-RAB messages, `max_tti`, `last_tti`, the timing advance state machine and the stubbed HARQ processes.
- S1ap.IdsNeverReused: runs are shorter than the 32-bit identifier space, since the counter wraps.
- S1AP stream identifiers and the S1 setup procedure: the connection to the MME is an input.
