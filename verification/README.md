# Verification model of the sovereign appliance

A Dafny model of the parts of the appliance that decide: the tool-admission gate in C, the doorbell
component that drives it over a shared 4 KB page, the gate emulated in Python on the guest side, the
agent that talks to either, the notarizer's signature block and its reader, the ingress ring with its
fixed-point shear test and phoneme filter, and the phase slider with its run loop.

Check everything with `dafny verify dfyconfig.toml`.

## How the model is built

Code that works by updating state is a class or a method with loops, proved equal to a specification
function; the theorems are about those functions. Values that come from outside (random nonces, what
the executor answers, file contents, what a volatile read finds) are parameters, so each theorem holds
for all of them. SHA-512 and Ed25519 are functions passed in; nothing is assumed of them except, where
stated, that a public key verifies what its private key signed.

| Part | Files |
|---|---|
| Arithmetic | `Bits`, `Words`, `Divisibility`, `Bytes`, `PythonBytes` |
| Gate | `SovereignProposal` (frames, layout, policy), `GateSpec`, `ToolGate` (the C code), `GateRuns` (every run) |
| Component | `ToolGateComponent` (the doorbell), `PageEffects` (what a ring writes, byte by byte, there and in the emulator), `SystemRuns` and `ExecutionRuns` (every run of guest writes and rings), `RulingReads` and `DoorbellFetches` (writes during a ring, access by access) |
| Emulator and agent | `UioTransport`, `Simulation`, `SimulationRuns` (every run of both gates), `SovrAgent`, `AgentLoop`, `Handshake` |
| Triad block | `Triad`, `ApprovalFormats` |
| Ingress | `IntegerSqrt`, `ShearGeometry`, `PhonemeEngine`, `StrawmanIngress` |
| Slider | `PhaseSlider`, `SovereignRuntime` |

## Main results

* **Every run of the gate.** Accepted ids increase strictly; an approval succeeds exactly when the most
  recent quorum request is still open and the approval is in order for that request
  (`ApprovalExactly`); approved ids increase strictly; three verified witness entries stand behind each.
* **Every run of the component**, under a guest that between rings writes any bytes anywhere. One
  call reaches the executor for each granted ring and none otherwise; a tool that the policy does not
  open is executed only under a quorum approval; a ring changes the verdict and result regions only; an
  untouched proposal region means that what is executed is, byte for byte, what was hashed.
* **Every run under a guest that also writes while a ring is handled**, so that each access of the handler
  and of the gate may find other bytes. Without any condition: a granted approval answers one earlier
  ring, still open, each ring is answered once, and the call handed over is that of the frame hashed
  there exactly when the fetches for the executor find its bytes (`DoorbellFetches.ApprovedCallExactly`).
  Under exact conditions on the repeated reads: three verified entries, and increasing ids. The results
  on runs of whole frames carry over to the runs in which the repeated reads of each ruling agree
  (`DoorbellFetches.CoherentRunsRefineGate`).
* **Simulation.** In every run of frames of any length, and of rings without a frame, the emulator and
  the C gate give the same status and decision up to the first ring that is not faithful, and differ at
  that one (`SimulationRuns.RepliesAgreeExactly`). With an approval on both pages, faithful means version
  1 and either a failure before the signatures or signatures that verify; with one that the emulator has
  already wiped, it means a wrong version on both frames; otherwise every ring is faithful.
* **Handshake.** For every argument of the agent's loop the outcome against the emulator is given; against
  the C gate a quorum call is executed exactly when the three signatures verify.
* **Geometry.** The restoring loop is the floor square root; the metric obeys the triangle law up to one
  unit, which is tight; k accepted steps stay below k * 150001.
* **Ingress.** Whatever the client writes between any two volatile reads, the tail and the expected
  sequence number count the admissions, and an admitted vector is the snapshot that was tested.
* **Slider.** The phase returns exactly at the multiples of 2^64 / gcd(step, 2^64).

## What the code does not do

Each is proved, with the exact condition.

* The approval branch of the doorbell executes what is on the page when the approval arrives, not what
  was challenged (`Handshake.OverwrittenProposalIsExecuted`, `SystemRuns.ExecutedVersusChallenged`).
* The rulings read fields of the shared frame more than once. The count of an approval is read at each
  test of the loop: read as 0 there, it lets an approval pass under which nothing verifies
  (`RulingReads.CountReadAgainAsZero`); three different entries are sure to verify exactly when the first
  three tests find more than 0, 1 and 2 (`RulingReads.DistinctEntriesExactly`). The id of a proposal is
  read again when it is stored and can set the last id back (`RulingReads.IdSetBackToThree`); the ids of
  a run increase exactly when each read for storing exceeds the last
  (`DoorbellFetches.IdsIncreaseExactly`). The frame hashed is a further read
  (`RulingReads.AnyFrameCanBeHashed`, `RulingReads.QuorumIsOfHashedExactly`).
* A ring hands over what the fetches for the executor find. On an allowed ring that is the call ruled on
  exactly when they find its bytes again (`DoorbellFetches.AllowedCallExactly`), so WRITE_FILE can run
  on a ring allowed for another tool (`DoorbellFetches.AllowedRingExecutesOther`); on an approved ring it
  is the call challenged exactly when they find the bytes that were hashed
  (`DoorbellFetches.ApprovedCallExactly`).
* The C handler leaves the approval frame in place and the emulator wipes its magic: after an approval
  that both judged alike, a second ring without a write gives different answers
  (`SimulationRuns.RingAgainDiffers`), and whenever only the C page still has the magic they are the
  same in two cases only, one of them a wrong version on both frames
  (`SimulationRuns.LeftoverApprovalExactly`).
* The gate accepts further proposals exactly while the id 2^64 - 1 has not been seen; one accepted
  proposal under that id closes it for ever (`GateRuns.OpenToProposalsExactly`,
  `GateRuns.OneProposalClosesTheGate`).
* The witnesses of an approval are counted as entries, not as signers: one valid entry listed in every
  place redeems (`GateRuns.OneSignerFillsTheEntries`).
* `VERIFICATION.md:27` places the 424-byte triad block at offset 0x400 of the dataport. The gate reads a
  440-byte frame with a magic there. No bytes are good in both formats
  (`ApprovalFormats.FormatsAreDisjoint`), so the block never redeems a challenge; the model follows the code.
* The ingress loop compares a 32-bit head with a tail reduced modulo 50: after k admissions a client with
  nothing new to say finds it idle exactly when k leaves the same remainder by 2^32 and by 50, so below
  2^32 only while k < 50 (`StrawmanIngress.QuietRing`); every k is reached by some run
  (`StrawmanIngress.EveryCountIsReached`).
* A vector so far away that its squared distance overflows can be accepted
  (`ShearGeometry.ShearAcceptsExactly`, `ShearGeometry.OverflowedVectorIsAccepted`). Signed overflow is
  undefined in C; the model takes it to wrap, and all geometric results exclude it.
* Two of the four tests of the phoneme filter can never fail (`PhonemeEngine.ValidWordExactly`).

## Model

| member | source | states |
|---|---|---|
| ToolGate.CountBits | src/toolgate.c:28-35 | counts the one bits of every byte, without overflow of its 8-bit counter |
| ToolGate.Gate.constructor | src/toolgate.c:37-39 | starts with no id seen and no challenge pending |
| ToolGate.Gate.LookupPolicy | src/toolgate.c:18-26 | the linear search finds the policy of a tool exactly when the table has one |
| ToolGate.Gate.BuildPreImage | src/toolgate.c:102-112 | the three copies fill the buffer of 15 + 1024 + 16 bytes exactly, with separator, frame and nonce |
| ToolGate.Gate.HandleProposal | src/toolgate.c:41-125 | new state and whole verdict are those of the specified step, for every proposal and state |
| ToolGate.Gate.VerifyApproval | src/toolgate.c:127-149 | new state and status are those of the specified step; the loop checks the first min(count, 4) witnesses |
| GateRuns.AdmissionExactly | src/toolgate.c:41-125 | not denied if and only if well formed with a fresh id; then the policy rules, and nothing else moves the state |
| GateRuns.DenialNamesFirstFailure | src/toolgate.c:46-85 | the error code of a denial belongs to the first failing check |
| GateRuns.StepEffect | src/toolgate.c:41-149 | what one event changes, told by its reply alone |
| GateRuns.LastSeenGrows | src/toolgate.c:56-87 | the last seen id never decreases along a run |
| GateRuns.AcceptedIdsIncrease | src/toolgate.c:56-87 | accepted ids strictly increase, in every run |
| GateRuns.PendingIsStable | src/toolgate.c:46-149 | denials, allowed proposals and failed approvals, in any number, leave the pending id, mask and challenge as they were |
| GateRuns.PendingHasOrigin | src/toolgate.c:116-119 | a challenge is pending only because of a quorum verdict that nothing has replaced or redeemed since |
| GateRuns.PendingIsUnique | src/toolgate.c:116-119 | there is only one such verdict |
| GateRuns.RedeemsExactly | src/toolgate.c:127-149 | with the challenge of an event pending, an approval is OK exactly when it is in order for that event |
| GateRuns.ApprovalStatusExactly | src/toolgate.c:127-149 | which code each failing check gives, in their order; the loop checks the first min(count, 4) entries; only the grant changes the state |
| GateRuns.OneRequestPerId | src/toolgate.c:56-119 | a run has at most one quorum verdict per id |
| GateRuns.ApprovalOrigin | src/toolgate.c:116-149 | an OK approval answers the most recent quorum verdict, still open, the only one under its id |
| GateRuns.ApprovalExactly | src/toolgate.c:116-149 | over every run an approval is OK if and only if the most recent request is open and the approval is in order for it |
| GateRuns.ApprovedIdsIncrease | src/toolgate.c:130-147 | approved ids strictly increase: single use, and no reaching back |
| GateRuns.ReplacedIdIsStale | src/toolgate.c:116-131 | an id whose request was replaced is never approved afterwards |
| GateRuns.ApprovalHasThreeWitnesses | src/toolgate.c:133-148 | an OK approval has three leading witness entries or more that verify against the challenge of its request |
| GateRuns.OneSignerFillsTheEntries | src/toolgate.c:133-148 | the entries need not be distinct: an approval that lists one entry in every place is in order if and only if that entry verifies |
| GateRuns.FreshRequestCanBeApproved | src/toolgate.c:41-149 | after every run a well-formed quorum call under an id above the last seen is asked for, and an approval in order for it succeeds |
| GateRuns.OpenToProposalsExactly | src/toolgate.c:56-87 | after a run some further proposal can be accepted if and only if the last id seen is below 2^64 - 1 |
| GateRuns.ClosedForEver | src/toolgate.c:56-60 | once 2^64 - 1 has been seen nothing is accepted any more, in every continuation |
| GateRuns.OneProposalClosesTheGate | src/toolgate.c:56-87 | the input that does it: one accepted READ_FILE call under that id, whatever follows |
| GateRuns.PreImageInjective | src/toolgate.c:102-112 | equal pre-images come from equal frames and equal nonces |
| GateRuns.ChallengeBinding | src/toolgate.c:100-119 | equal challenges mean the same proposal and nonce, or a collision of the hash |
| SovereignProposal.DecodeEncodeProposal | include/sovereign_proposal.h:66-76 | every record survives the packed little-endian layout |
| SovereignProposal.EncodeDecodeProposal | include/sovereign_proposal.h:66-76 | the record covers all 1024 bytes: re-encoding gives the frame back |
| SovereignProposal.DecodeEncodeVerdict | include/sovereign_proposal.h:78-86 | every verdict survives its 96-byte layout |
| SovereignProposal.PolicyShape | include/sovereign_proposal.h:128-133 | a policy allows with an empty mask or asks for the triad, with sane length bounds |
| SovereignProposal.PolicyTable | include/sovereign_proposal.h:128-133 | the policy of each of the four tools, and of no other |
| ToolGateComponent.Component.constructor | src/toolgate_component.c:18-20 | starts from a cleared gate and a page of zeros |
| ToolGateComponent.Component.Execute | src/toolgate_component.c:48-58 | the call is handed over with tool, length and args; five stores make up one result frame |
| ToolGateComponent.Component.PostDenial | src/toolgate_component.c:39-43 | three stores write magic, status and DENY, and leave the rest of the old verdict |
| ToolGateComponent.Component.PostGrant | src/toolgate_component.c:60-61 | status and decision are written, magic and the rest are not |
| ToolGateComponent.Component.ProposalReadyHandle | src/toolgate_component.c:28-90 | gate, page and calls afterwards are those of the specified ring, and the guest is notified once |
| ToolGateComponent.ResultInFiveStores | src/toolgate_component.c:53-58 | the five stores, in their order, tile the result frame |
| PageEffects.VerdictLayout | include/sovereign_proposal.h:78-86 | at which byte each field of a verdict lies |
| PageEffects.ResultLayout | include/sovereign_proposal.h:99-105 | at which byte each field of a result lies |
| PageEffects.RefusedApprovalPage | src/toolgate_component.c:38-45 | a refused approval writes verdict magic, status and DENY, seven bytes in all, and nothing else on the page |
| PageEffects.GrantedApprovalPage | src/toolgate_component.c:47-64 | a granted approval writes status and ALLOW and the whole result; the magic and the later fields of the old verdict stay |
| PageEffects.ProposalPage | src/toolgate_component.c:66-89 | a proposal writes the whole verdict, and the result exactly when allowed; nothing else |
| SystemRuns.ComponentRefinesGate | src/toolgate_component.c:28-90 | in every run of writes and rings the gate inside the component is in the state of the gate run on the frames rung |
| SystemRuns.DoorbellFrame | src/toolgate_component.c:28-90 | a ring writes the verdict and result regions and nothing else of the page |
| SystemRuns.ProposalKept | include/sovereign_proposal.h:123-126 | rings and writes elsewhere, in any number, leave the proposal region byte for byte |
| SystemRuns.GrantReadsBack | src/toolgate_component.c:48-61 | result frame, status and decision read back from the page as written |
| SystemRuns.ChallengeOrigin | src/toolgate_component.c:37-68 | behind an approved ring stands the ring whose proposal region was hashed into the challenge the witnesses signed |
| SystemRuns.ExecutedIsPresent | src/toolgate_component.c:47-61 | an approved ring executes the proposal region as it is then, once, under its sequence id |
| SystemRuns.ExecutedVersusChallenged | src/toolgate_component.c:47-61 | an approved ring executes the region as it then is; that is the call hashed if and only if the bytes of tool, length and arguments are unchanged, and the result carries the approved id if and only if the bytes of the id are |
| SystemRuns.UntouchedIsExecuted | src/toolgate_component.c:30-64 | without a write to the proposal region since the challenge, the bytes executed are the bytes hashed and the result carries the approved id |
| ExecutionRuns.CallsExactly | src/toolgate_component.c:46-86 | a step adds one executor call, the proposal on the page, when its ring is granted, and none otherwise |
| ExecutionRuns.OneCallPerGrant | src/toolgate_component.c:46-86 | over every run there are as many calls as granted rings |
| ExecutionRuns.GrantedCases | src/toolgate_component.c:37-86 | a ring is granted by an ALLOW verdict or by an OK approval, and in no other way |
| ExecutionRuns.ResultsExactly | src/toolgate_component.c:48-86 | a granted ring leaves the executor's answer under the id of its proposal; any other ring leaves the last result |
| ExecutionRuns.AllowedToolIsOpen | src/toolgate_component.c:74-86 | immediate execution is for well-formed proposals of tools that the policy allows |
| ExecutionRuns.PrivilegedCallsNeedQuorum | src/toolgate_component.c:37-86 | in every run, a tool that the policy does not open is executed only under an approval with three verified witness entries or more |
| RulingReads.VerifyApproval | src/toolgate.c:127-149 | status and state for whatever each access finds: bitmap twice, count once before the loop and at each of its tests |
| RulingReads.ApprovalReadAtOnce | src/toolgate.c:127-149 | in a frame that does not change it is the ruling of the whole-frame step |
| RulingReads.ThreeTurnsExactly | src/toolgate.c:140 | the loop looks at three entries if and only if its first three tests find more than 0, 1 and 2 |
| RulingReads.TurnsExactly | src/toolgate.c:140 | entry k is looked at if and only if every test up to it lets it pass; four at most |
| RulingReads.ApprovalReadsExactly | src/toolgate.c:127-149 | which read each check looks at, and its code |
| RulingReads.VerifiedEntriesExactly | src/toolgate.c:133-148 | a grant means three verified entries under every scheme if and only if each of the three is among those the loop looked at |
| RulingReads.DistinctEntriesExactly | src/toolgate.c:133-148 | for three different entries: if and only if the first three tests let them pass |
| RulingReads.CountReadAgainAsZero | src/toolgate.c:133-148 | the failing input: count 3, then 0, is granted under every scheme |
| RulingReads.HandleProposal | src/toolgate.c:41-125 | verdict and state for whatever each access finds: four reads of the id, four of the length, and the copy for the hash |
| RulingReads.ProposalReadAtOnce | src/toolgate.c:41-125 | in a frame that does not change it is the ruling of the whole-frame step |
| RulingReads.AcceptedReadsExactly | src/toolgate.c:41-121 | accepted if and only if each check passes on the read it makes; the verdict carries the id read first |
| RulingReads.DeniedReadsExactly | src/toolgate.c:46-85 | the code of a denial belongs to the first read that fails |
| RulingReads.StoredIdExactly | src/toolgate.c:56-87 | on acceptance the last id grows if and only if the read at line 87 exceeds it, and is the id checked if and only if the two reads agree |
| RulingReads.SecondReadSetsTheId | src/toolgate.c:56-87 | from every state but the last, any id at all can be stored by an accepted call |
| RulingReads.IdSetBackToThree | src/toolgate.c:56-87 | the failing input: with 10 seen last, reads 11 and 3 leave 3 |
| RulingReads.QuorumIsOfHashedExactly | src/toolgate.c:95-120 | a quorum ruling is that of the frame hashed if and only if that frame is in order and three reads of the id found its id |
| RulingReads.AnyFrameCanBeHashed | src/toolgate.c:67-114 | any frame can be hashed while the checks see a call of WRITE_FILE |
| RulingReads.AllowedIsAtomicExactly | src/toolgate.c:44-93 | an ALLOW ruling is one an unchanging frame would get if and only if the ids reported and stored are equal and fresh |
| RulingReads.DeniedIsAtomicExactly | src/toolgate.c:44-85 | the same for denials, by code and reported id |
| DoorbellFetches.ProposalReadyHandle | src/toolgate_component.c:28-90 | ruling, call and result id of one ring, access by access |
| DoorbellFetches.UndisturbedIsAtomic | src/toolgate_component.c:28-90 | with the same page at every access it is the ring of the component: gate, calls and result |
| DoorbellFetches.FetchedExactly | src/toolgate_component.c:48-57 | the call fetched is that of a given frame if and only if three byte ranges are its own; likewise the id |
| DoorbellFetches.CoherentRunsRefineGate | src/toolgate_component.c:37-71 | a run in which the repeated reads of each ruling agree is a run of the gate on whole frames |
| DoorbellFetches.RulingEffect | src/toolgate.c:41-149 | what one ring changes, whatever its accesses find |
| DoorbellFetches.OpenHasOrigin | src/toolgate.c:108-119 | under writes at any moment a pending challenge is the hash of the frame copied at the last quorum ring |
| DoorbellFetches.ApprovedCallExactly | src/toolgate_component.c:37-64 | a granted approval hands over the call of the frame hashed at its request if and only if the fetches find those bytes; likewise its id |
| DoorbellFetches.RedeemedOnce | src/toolgate.c:130-147 | under writes at any moment a request is redeemed at most once |
| DoorbellFetches.RedeemedEntries | src/toolgate.c:133-148 | in every run, three entries verify against the hash of the frame copied, provided the first three tests let them pass |
| DoorbellFetches.IdsIncreaseExactly | src/toolgate.c:56-87 | in every run the accepted ids increase if and only if each read at line 87 exceeds the last id |
| DoorbellFetches.AllowedCallExactly | src/toolgate_component.c:74-84 | ruled on a given frame, an allowed ring hands over its call if and only if the later fetches find its bytes; likewise its id |
| DoorbellFetches.ClosedToolExecuted | src/toolgate_component.c:46-86 | a tool that is not open is handed over only by a granted approval or by a fetch that found another tool than was looked up |
| DoorbellFetches.AllowedRingExecutesOther | src/toolgate_component.c:67-86 | the failing case: an allowed call, and WRITE_FILE in its place at the later fetches |
| UioTransport.SovereignGateUIO.constructor | guest_uio_transport.py:55-69 | the emulation starts from zeros |
| UioTransport.SovereignGateUIO.WriteProposal | guest_uio_transport.py:71-76 | clears the approval magic and writes the frame; a frame too long for the map raises after the clearing |
| UioTransport.SovereignGateUIO.WriteApproval | guest_uio_transport.py:78-81 | writes the frame at 0x400, or raises and writes nothing |
| UioTransport.SovereignGateUIO.RingWithApproval | guest_uio_transport.py:96-125 | fields and page afterwards are those of the specified ring with an approval |
| UioTransport.SovereignGateUIO.AnyNonZero | guest_uio_transport.py:142-143 | finds a non-zero byte exactly when there is one |
| UioTransport.SovereignGateUIO.RingWithProposal | guest_uio_transport.py:127-175 | fields and page afterwards are those of the specified ring with a proposal |
| UioTransport.SovereignGateUIO.Ring | guest_uio_transport.py:91-175 | the magic at 0x400 chooses the branch |
| UioTransport.SovereignGateUIO.WriteDeny | guest_uio_transport.py:177-180 | a whole verdict frame, unlike the three stores of the C handler |
| PageEffects.EmulatorResultLayout | guest_uio_transport.py:117-118 | at which byte each field of the emulator's result lies, with zeros after the message |
| PageEffects.EmulatorApprovalPage | guest_uio_transport.py:99-125 | the write message is put out, under the approval's id, exactly when it is granted; whole verdict, wiped magic, and not another byte or field |
| PageEffects.EmulatorProposalPage | guest_uio_transport.py:127-175 | the read message is put out exactly when a proposal is allowed, never on a quorum verdict or a denial; whole verdict, and not another byte |
| PageEffects.ProposalWrittenBytes | guest_uio_transport.py:71-76 | which byte of the page a write of a proposal of any length leaves where |
| PageEffects.ApprovalWrittenBytes | guest_uio_transport.py:78-81 | the same for an approval |
| Simulation.ProposalReadersAgree | guest_uio_transport.py:127-143 | the Python reader and the C record see the same version, tool, ids, length, arguments and padding in every page |
| Simulation.ApprovalReadersAgree | guest_uio_transport.py:100-102 | the same for the fields of an approval |
| Simulation.PoliciesAgree | guest_uio_transport.py:47-52 | the two policy tables are one |
| Simulation.PreImagesCoincide | guest_uio_transport.py:165-166 | the Python pre-image and the C one are the same bytes |
| Simulation.RulingsAgree | guest_uio_transport.py:127-175 | on the same proposal region the two give the same ruling, and the same new state |
| Simulation.ProposalRingsAgree | guest_uio_transport.py:127-175 | a proposal always gets the same status and decision, and with the same nonce the same 96 bytes |
| Simulation.ApprovalStatusesAgreeExactly | guest_uio_transport.py:99-109 | an approval gets the same status if and only if its version is 1 and it fails before the signatures or they verify |
| Simulation.ApprovalRingsAgreeExactly | guest_uio_transport.py:99-125 | the same for the whole ring, with the states staying related |
| SimulationRuns.LeftoverApprovalExactly | src/toolgate_component.c:37-45 | on any two pages, an approval that only the C handler finds gets the emulator's status if and only if both frames have a wrong version, or it is granted and the proposal allowed |
| SimulationRuns.JudgedProposalIsSpent | guest_uio_transport.py:138-151 | a proposal once judged is not accepted by the next ring |
| SimulationRuns.ExchangesAgreeExactly | guest_uio_transport.py:71-175 | after a frame of any length, or none: same status and decision if and only if the ring is faithful, and then the states stay related |
| SimulationRuns.FreshExchange | guest_uio_transport.py:71-81 | after a fresh frame the condition is the one on approvals alone |
| SimulationRuns.EmulatorSimulatesGate | guest_uio_transport.py:91-175 | forward simulation over every run; in particular the 0 that stands for "no challenge" is never the id of one |
| SimulationRuns.RepliesAgreeExactly | guest_uio_transport.py:71-175 | in every run of writes of any length and bare rings the replies first differ at the first ring that is not faithful, and do differ there |
| SimulationRuns.RingAgainDiffers | src/toolgate_component.c:37-45 | after every approval that both judged alike the magics differ, and a ring without a write gets different answers |
| SovrAgent.ProposalRoundTrip | guest_sovr_agent.py:42-61 | packing succeeds exactly within the field widths and 992 bytes; the 1024 bytes decode to the fields packed |
| SovrAgent.PackWitnessBytes | guest_sovr_agent.py:39-40 | a witness packs to index, padding, signature and key |
| SovrAgent.WitnessRoundTrip | guest_sovr_agent.py:75-79 | witness i is read back at its place in the frame |
| SovrAgent.ApprovalRoundTrip | guest_sovr_agent.py:63-79 | up to four witnesses pack to 440 bytes that decode to the same id, bitmap, count and witnesses |
| SovrAgent.ApprovalLayout | guest_sovr_agent.py:39-79 | at which byte each field and each witness of a packed approval lies, with zeros in the places left over |
| SovrAgent.ApprovalPacksExactly | guest_sovr_agent.py:63-79 | exactly which arguments pack and which raise |
| AgentLoop.FirstVerdict | guest_sovr_agent.py:83-95 | the verdict on a packed frame is decided by sequence number and policy alone |
| AgentLoop.SecondPhase | guest_sovr_agent.py:114-118 | the emulator grants the agent's approval for the pending id and clears it |
| AgentLoop.ResultText | guest_sovr_agent.py:98-100 | the text cut out of a result frame is the message put in |
| AgentLoop.AgentApproval | guest_sovr_agent.py:108-114 | the loop builds a frame with mask 7 and three witnesses of the bytes 0xA0 + i and 0x10 + i |
| AgentLoop.Propose | guest_sovr_agent.py:83-93 | writing, ringing and reading back give the expected verdict and the expected change of state |
| AgentLoop.Relay | guest_sovr_agent.py:116-131 | relaying the approval ends in ALLOW, OK and the write message |
| AgentLoop.ExecuteAgentLoop | guest_sovr_agent.py:81-131 | the outcome of the whole loop for every argument and every earlier history of the emulator |
| Handshake.RulingOnPacked | guest_sovr_agent.py:42-61 | the C gate rules on a packed frame by sequence number and policy alone |
| Handshake.GateFirstPhase | guest_sovr_agent.py:81-95 | first phase against the C gate, from every state of the system: verdict, execution, pending challenge |
| Handshake.GateSecondPhase | guest_sovr_agent.py:104-131 | the three-witness approval is granted if and only if the signatures verify; otherwise the challenge stays pending |
| Handshake.GateHandshake | guest_sovr_agent.py:81-131 | both phases for every quorum tool: executed once, with these arguments, exactly when the signatures verify against the challenge in the verdict |
| Handshake.OverwrittenProposalIsExecuted | src/toolgate_component.c:46-54 | a proposal written over the challenged one is executed under its approval |
| Triad.SignSlots | notarizer_signer.py:77-86 | slot by slot the array becomes the signatures in key order, zeros after them; a key that cannot be used stops it there |
| Triad.SignChallenge | notarizer_signer.py:67-86 | succeeds exactly for a 32-byte nonce, a 32-bit id and usable keys, of which six are taken; names the exception otherwise |
| Triad.TriadBits | gate_dataport_reader.c:86-89 | the mask test asks for bits 0 to 2 and nothing of the others |
| Triad.RebuildMessage | gate_dataport_reader.c:95-102 | byte by byte, the message rebuilt is the one signed |
| Triad.ReadApproval | gate_dataport_reader.c:62-129 | each exit code if and only if its check is the first to fail: 1 below 424 bytes, 2 without mask bits 0 to 2, 3 unless three keys load and verify, 0 otherwise |
| Triad.SlotHolds | notarizer_signer.py:79-84 | slot i holds the signature of key i |
| Triad.SignedBlockParts | notarizer_signer.py:89-103 | what the reader takes for mask, message and signatures is what the notarizer put there |
| Triad.BlockAcceptedExactly | gate_dataport_reader.c:86-125 | a signed block is accepted if and only if the mask has bits 0 to 2 and the three keys on file verify |
| Triad.TriadRoundTrip | notarizer_signer.py:143-146 | for every id, nonce and triple of keys the block is 424 bytes and accepted |
| Triad.ReaderSeesOnly | gate_dataport_reader.c:82-128 | other mask bits, reserved bytes, slots 3 to 5 and trailing bytes make no difference |
| Triad.Notarize | notarizer_signer.py:143-146 | signing and packing under mask 7 yield that block, or raise exactly on a bad id or nonce |
| ApprovalFormats.FormatsAreDisjoint | gate_dataport_reader.c:10-16 | bytes that the dataport reader accepts are refused by the gate, by magic or version, in every state |
| ApprovalFormats.BlockDoesNotApprove | src/toolgate_component.c:37-45 | such a block on the page never redeems the pending challenge |
| IntegerSqrt.FloorSqrtMeaning | include/sovr_e8_math.h:12-29 | the reference root r has r*r <= v < (r+1)*(r+1) |
| IntegerSqrt.AllDigitsShiftedOut | include/sovr_e8_math.h:17-22 | the 32 rounds consume every digit of the argument |
| IntegerSqrt.RoundKeepsInvariant | include/sovr_e8_math.h:19-27 | a round on wrapping registers keeps root and remainder of the digits consumed; no register wraps |
| IntegerSqrt.Isqrt64 | include/sovr_e8_math.h:13-29 | the floor square root of every positive 64-bit number, 0 for the others |
| ShearGeometry.EvaluateShearInvariant | include/sovr_e8_math.h:43-59 | stored metric and answer, with wrap-around of every difference, square and sum |
| ShearGeometry.EightSquares | include/sovr_e8_math.h:48-53 | the squared distance is the sum of the eight squares written out |
| ShearGeometry.DistanceZeroExactly | include/sovr_e8_math.h:48-53 | only equal vectors are at distance 0 |
| ShearGeometry.OneCoordinate | include/sovr_e8_math.h:48-53 | a step in any single coordinate counts with its square |
| ShearGeometry.StrawmanAdmitProposal | include/sovr_e8_math.h:65-86 | each code if and only if its check is the first to fail: -1 for the number, -2 for the badge, -3 for the vector, 0 for none |
| ShearGeometry.ShearAcceptsExactly | include/sovr_e8_math.h:51-58 | accepted if and only if the squared distance is at most 150001^2 - 1, or overflows to a negative or small sum |
| ShearGeometry.MetricWithoutOverflow | include/sovr_e8_math.h:51-56 | without overflow the metric is the floor of the Euclidean distance |
| ShearGeometry.OverflowedVectorIsAccepted | include/sovr_e8_math.h:51-58 | a vector at distance 2^32 that is accepted |
| ShearGeometry.CauchySchwarz | include/sovr_e8_math.h:38-59 | Cauchy-Schwarz for the coordinate differences |
| ShearGeometry.QuasiTriangle | include/sovr_e8_math.h:43-59 | metric(a,c) <= metric(a,b) + metric(b,c) + 1 when no sum overflows |
| ShearGeometry.QuasiTriangleIsTight | include/sovr_e8_math.h:43-59 | the unit cannot be dropped |
| ShearGeometry.ChainBound | include/sovr_e8_math.h:43-59 | k accepted steps end at a squared distance below (k * 150001)^2 |
| PhonemeEngine.UnpackPack | include/sovr_phoneme_engine.h:80-102 | unpacking undoes packing if and only if every field is in range |
| PhonemeEngine.PackUnpack | include/sovr_phoneme_engine.h:80-102 | packing undoes unpacking for every 32-bit word |
| PhonemeEngine.FieldPositions | include/sovr_phoneme_engine.h:19-41 | which bits of the word each field takes |
| PhonemeEngine.FieldsAreIndependent | include/sovr_phoneme_engine.h:80-91 | two words differ in just the bits of the fields in which the descriptors differ |
| PhonemeEngine.ToneFlip | include/sovr_phoneme_engine.h:80-91 | changing the tone changes bits 19 and 20 only |
| PhonemeEngine.ValidWordExactly | src/boot/strawman_ingress.c:9-17 | legal exactly for onset at most 51 and coda at most 31 or 63 |
| Coordinate.NonNegativeChannel | src/boot/strawman_ingress.c:36-41 | every value from 0 to 150000 is a legal word |
| Coordinate.NegativeChannel | src/boot/strawman_ingress.c:36-41 | every value from -150000 to -1 is rejected |
| Coordinate.PhonemeRejectsNegatives | src/boot/strawman_ingress.c:36-41 | within the shear bound the phoneme test rejects exactly the negative values of channel 4 |
| StrawmanIngress.StrawmanIngress.constructor | src/boot/strawman_ingress.c:23-25 | starts at tail 0, expecting number 1 |
| StrawmanIngress.StrawmanIngress.PollOnce | src/boot/strawman_ingress.c:27-61 | one turn of the loop on whatever its eleven volatile reads find |
| StrawmanIngress.StateCountsAdmissions | src/boot/strawman_ingress.c:24-57 | after k admissions tail is k mod 50 and the expected number 1 + k mod 2^32, under any interleaved writes |
| StrawmanIngress.AdmissionsAreFiltered | src/boot/strawman_ingress.c:28-60 | each admission takes slot k mod 50 and number 1 + k, and its eight words are those the ring held in that slot when each was read; they passed both tests; idle if and only if head equals tail; otherwise nothing moves |
| StrawmanIngress.CoordinateWithinBound | src/boot/strawman_ingress.c:36-52 | a vector within the shear bound has channel 4 within 150000 |
| StrawmanIngress.FilterExactly | src/boot/strawman_ingress.c:36-57 | with number and badge right, and no overflow: the words in the slot at the tail are admitted if and only if their squared distance is <= 22500300000 and channel 4 >= 0, and trapped otherwise |
| StrawmanIngress.QuietRing | src/boot/strawman_ingress.c:28-58 | a client that has published k vectors and rests finds the loop idle if and only if k mod 2^32 == k mod 50, below 2^32 exactly for k < 50; otherwise it is trapped |
| StrawmanIngress.NumberIsNotTheTail | src/boot/strawman_ingress.c:28-58 | the number expected next never equals the tail, after any count of admissions |
| StrawmanIngress.NextIsAdmitted | src/boot/strawman_ingress.c:23-61 | after any run the prior, published under the next number, is admitted: the ring never deadlocks |
| StrawmanIngress.EveryCountIsReached | src/boot/strawman_ingress.c:23-61 | for every k there is a run with k admissions |
| PhaseSlider.SlideVector64.SlideInit | src/phase_slider.h:22-28 | phase and counter zero, the rest as given |
| PhaseSlider.SlideVector64.SlideForward | src/phase_slider.h:30-34 | phase and counter advance modulo 2^64, the rest stays |
| PhaseSlider.SlideVector64.SlideEmitReceipt | src/phase_slider.h:36-41 | phase, counter and radius as they stand; of the sliders that n more slides can make of this one, the receipt fits exactly those with n a multiple of 2^64 |
| PhaseSlider.ReceiptIdentifiesSlides | src/phase_slider.h:30-41 | two receipts of a run are equal if and only if a multiple of 2^64 slides lies between them |
| PhaseSlider.SlidesClosedForm | src/phase_slider.h:30-34 | closed form of n slides, for every n |
| PhaseSlider.PhaseIsCounterTimesStep | src/phase_slider.h:22-34 | phase is counter times step modulo 2^64, also after the counter has wrapped |
| PhaseSlider.WholeTurns | src/phase_slider.h:30-34 | n steps make whole turns if and only if 2^64 / gcd(step, 2^64) divides n |
| PhaseSlider.PhaseRepeatsExactly | src/phase_slider.h:22-34 | two points of a run show the same phase if and only if that period divides their distance |
| PhaseSlider.VisitedPhases | src/phase_slider.h:22-34 | every multiple of gcd(step, 2^64) is visited within one period |
| PhaseSlider.OddStepVisitsEveryPhase | src/phase_slider.h:22-34 | an odd step visits every phase exactly once in 2^64 slides |
| PhaseSlider.LongPeriod | src/phase_slider.h:30-34 | the period exceeds 2^24 if and only if the step is not a multiple of 2^40 |
| SovereignRuntime.ExecuteSovereignRuntime | src/sovereign_core.c:9-27 | phase, counter and tick advance by n steps modulo 2^64 with n = min(cycles, 2^24) when the self-check passes; slider and tick untouched when it fails |
| SovereignRuntime.DistinctPhasesExactly | src/sovereign_core.c:18-26 | n slides show no phase twice if and only if n is below the period |
| SovereignRuntime.NoPhaseRepeatsInOneCall | src/sovereign_core.c:18-26 | a call at its limit shows no phase twice if and only if the step is not a multiple of 2^40 |

## Left out

- SHA-512 (section 6.4 of FIPS 180-4) and Ed25519 (section 5.1 of RFC 8032): functions passed in, never computed.
- Who holds which key: the gate takes public keys from the frame, so only "the listed entries verify" is stated.
- ToolGateComponent.Component.ProposalReadyHandle: a ring is one step on the page; the verdict written on an approval keeps stale bytes in the fields it does not store, as in the C code.
- DoorbellFetches.ProposalReadyHandle: what the guest writes over the verdict and result regions during a ring is not followed. Each access of the C text is one read; a compiler may merge reads, which is the case of equal values, but reads it might add are not modelled.
- ToolGateComponent.Component.Execute: what the executor does (`src/toolexecutor.c`) is a parameter; only what it is handed and where its answer goes is modelled, so result payloads of the C gate and of the emulator are not compared.
- ToolGate.Gate.HandleProposal: the last branch, for a policy that neither allows nor asks for a quorum (lines 123-124), cannot be reached with the table given and is proved dead.
- UioTransport.SovereignGateUIO.constructor: the branch that opens a device; only the emulation is modelled.
- UioTransport.SovereignGateUIO.Ring: the branch that notifies a device, lines 92-94.
- StrawmanIngress.StrawmanIngress.PollOnce: the client may write head, state and vectors between any two reads, but not the tail, which the loop owns.
- ShearGeometry.EvaluateShearInvariant: signed overflow, undefined in C, is taken as two's-complement wrap-around.
- SovereignRuntime.ExecuteSovereignRuntime: the self-check suite is a parameter, its return value.
- Triad.ReadApproval: a key path longer than its 256-byte buffer and failing OpenSSL allocations.
- AgentLoop.ExecuteAgentLoop: printing, the UTF-8 decoding of the result text, the time-out of the wait and the real device; the emulation never waits.
- `/dev/uio0`, `select`, command lines, key generation and all printing.
- `diff_abs`: not called by the code modelled.
- The relayer, the FIFO hooks, the regular-expression firewall, the floating-point coherence and audit tools, the hash chain of the audit log, assembly, device tree and build scripts: nothing of the properties above depends on them.
