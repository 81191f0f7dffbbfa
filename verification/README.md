# PicoBridge: a verified model

PicoBridge is a USB keyboard dongle. A host program seals a text in a Noise IK session, sends it
over BLE or TCP, and after a separate confirmation the firmware types it on the machine the dongle
is plugged into. This project models that path in Dafny and proves what its parts promise, each on
all inputs, all runs, or all points at which power may fail.

How the files fit together, main results first in each line:

- **Typing core.** `BridgeCore` is the C object with its buffers updated in place; every method is
  proved to be a step of `CoreSpec`. `CoreRuns` proves exactly-once emission, wiping, and the replay
  ledger over every sequence of calls; `CoreClock` the job lifetime across clock wrap.
  `Compiler`, `Keymap` and `Utf8` prove that a compiled text, typed into an independent model of a
  US or German machine with dead keys, gives back exactly the text. `CoreAnswers`
  states every call's answer in every case.
- **Trust store.** `FlashCommit` proves old-or-new atomicity of a commit cut anywhere, at any subset
  of the bits of a program step. `NorFlash`, `ControllerRoster` and `Startup` are the C code, proved
  to issue exactly that plan and to compute exactly `ControllerStore`. `Enrolment` joins flash,
  memory and session over every run of power cycles, handshakes and commands. `FlashFaults` spells out
  that the fault model leaves out no step and no bit. `StoreRules` and
  `EnrolmentRules` say who may change a roster, and the record's bytes.
- **Noise session.** `NoiseIK` is the handshake and transport of both parties over any cryptographic
  suite that obeys a short list of laws; `NoiseParties` is both programs as objects. `NoiseAgreement`
  proves that the two sides agree whenever both finish, whatever reached either of them, and `ToySuite`
  that what this rests on is consistent and needed. `Transport` proves in-order delivery over a hostile
  network, handshakes of other parties included. `NoiseWire` gives the key schedule and every frame in
  explicit terms of the primitives.
- **Framing.** `BleFraming`, `TcpFraming`, `NetEndpoint` and `TcpPeer` prove the reassemblers against
  a meaning of the whole byte stream, independent of how it was cut.
- **Radio record and checksum.** `RadioRecord` and `RadioConfig` prove the codec a bijection; `Crc`
  proves the burst detection that both flash records rely on.
- **The whole.** `Packets` is the command codec, `Firmware` the command core over all of the above,
  `FirmwareRules` its promises in the bytes that travel,
  and `EndToEnd` follows one text from the host's packets to the target's screen in one theorem.

Check everything with `dafny verify dfyconfig.toml` (Dafny 4.11).

## What the model found

- **The trust store can be exhausted.** The generation counter is 32 bits and a commit is only
  believed when its generation is larger. A command that commits succeeds if and only if the generation
  is below 2^32 - 1 (`Enrolment.CommandSucceedsIff`); from there on no run of events changes what a
  reboot loads (`Enrolment.ExhaustedForever`), and such a device exists (`Enrolment.ExhaustedExists`).
- **Anyone can end a session, and the nonces show it.** Any 81-byte frame that starts with the
  handshake code resets the device's session, answered or not. Executed commands and accepted receipts
  stay in order regardless, but the order of the four nonces survives such a frame exactly when the host
  has accepted no receipt yet (`Transport.TakeoverKeepsChainIff`); `Transport.ChainBroken` is the
  failing run.
- **The job lifetime depends on the main loop.** The device clock is a residue modulo 2^32, so the
  expiry check is right exactly while the true age is below a full turn or its residue is past the
  lifetime anyway (`CoreClock.CheckRightIff`); `CoreClock.FullTurnDefeatsLifetime` is the failing
  case, reached from initialisation. The main loop checks on every pass, which is what `CoreClock.Paced` asks for.
- **The TCP reassembler leans on the segment size.** After an illegal length its inner loop keeps
  storing bytes until the segment ends. The receive index stays inside the 2048-byte buffer for
  every segment and every state a segment can find exactly when segments have at most 2045 bytes
  (`TcpFraming.SegmentBoundExact`); the configured maximum segment size is 1460.
- **A 16-bit sum wraps in the stage handler**, harmlessly: a packet that slips through the wrapped
  comparison claims more bytes than the core's limit and is refused before any byte past the packet
  is read (`Packets.StageNeverOverreads`, `Packets.WrappedClaimIsRefused`).

## Conventions and assumptions

- Bytes are integers from 0 to 255; C integers are unbounded integers, and every wrap-around or
  truncation that can matter is written out (`% 0x1_0000_0000`, `% 0x1_0000`). The handlers' shift
  `p[4]<<24` is read as the intended 32-bit little-endian value.
- A controller record is laid out as the compiler lays out `controller_store_record_t`: 177 bytes of
  fields, three alignment bytes left at 0xff and covered by the checksum, the checksum at 180, the
  commit word at 184, 188 bytes in all.
- Flash programming only clears bits. A program step that loses power may have cleared any subset of
  the bits it was to clear. A torn erase is assumed to leave either no valid record or the record
  that was there.
- The cryptographic laws are those the real primitives have without exception: output sizes, a
  commuting exchange (section 6.1 of RFC 7748) that may fail, and a cipher whose opening inverts its
  sealing, both ways, under each key, nonce and associated data. Key derivation is computed, not
  assumed: the firmware's library call is HKDF of section 2 of RFC 5869 and is proved equal to the
  host's hand-written one.
- That a ciphertext opens under no other key, nonce or data, and that hashes do not collide, cannot be
  laws of functions whose outputs are shorter than their inputs; assumed of all values they would be
  contradictory. They are trusted only of the values that one run computes: `NoiseAgreement.Integrity`
  for the handshake, `Transport.Deliverable` for the session. `ToySuite.IntegrityCanHold` shows a run
  that has integrity, `ToySuite.AlteredResponse` a suite within the laws where agreement fails without
  it.
- A flash driver call that reports failure is taken not to have run; one that loses power is covered
  by the cuts above.
- The host's absent handshake cipher key is modelled by 32 zero bytes, as on the device.
- Randomness, clock readings, the flash driver's verdict, what the radio sector holds once its driver
  has run, diagnostic read-outs, USB presence, and the socket's room are parameters or arbitrary choices.
- `hide` statements in proof bodies only keep definitions away from the solver.

## Model

| member | source | states |
|---|---|---|
| Crc.Update | firmware/controller_store.c:24-34 | the bitwise checksum loop computes the register's meaning over the data, from any start value |
| Crc.TableCrcAgrees | tools/radio_provision.py:38 | the table-driven checksum of section 8 of RFC 1952, which the host's library uses, equals the firmware's bitwise one on every byte string |
| Crc.StepInjective | firmware/radio/radio_config.c:27-31 | the bit step of the checksum is injective on 32-bit registers |
| Crc.FeedAsWord | firmware/radio/radio_config.c:27-31 | absorbing four bytes is xoring one little-endian word and stepping 32 times |
| Crc.DetectsFourByteBurst | firmware/controller_store.c:24-34 | two different byte strings of equal length that agree outside four consecutive bytes never have the same checksum |
| Crc.IeeePolynomial | firmware/controller_store.c:24-34 | the polynomial constant is the IEEE 802.3 polynomial in reflected bit order, exponent by exponent |
| Crc.TableEntryOne | tools/radio_provision.py:38 | entry 1 of the table is 0x77073096, as in every implementation of section 8 of RFC 1952 |
| Crc.CheckValue | firmware/controller_store.c:24-34 | the checksum of four bytes 0xff is 0xffffffff, which fixes the initial register and the final complement |
| Utf8.DecodeUtf8 | firmware/core/bridge_core.c:24-47 | the decoder loop returns the character and new offset of the decoding function, or fails exactly when that does |
| Utf8.DecodeSound | firmware/core/bridge_core.c:24-47 | whatever is decoded is a Unicode scalar value whose encoding (section 3 of RFC 3629) is exactly the bytes consumed |
| Utf8.DecodeComplete | firmware/core/bridge_core.c:24-47 | every scalar value's encoding, followed by anything, decodes to it |
| Utf8.DecodeMatchesGrammar | firmware/core/bridge_core.c:24-47 | the decoder accepts exactly the byte sequences of the grammar in section 4 of RFC 3629 |
| Keymap.MapAscii | firmware/core/bridge_core.c:49-78 | the US mapper, table loop included, finds exactly the stroke of the US map or reports that there is none |
| Keymap.MapDe | firmware/core/bridge_core.c:80-106 | the German mapper, both table loops and the Y/Z swap, finds exactly the stroke of the German map |
| Keymap.UsFaithful | firmware/core/bridge_core.c:49-78 | the US map is defined on exactly printable ASCII, and a machine set to US types that character for the chosen key |
| Keymap.DeFaithful | firmware/core/bridge_core.c:80-106 | the German map is defined on exactly printable ASCII plus nine characters; a German machine types that character, or arms it as a dead accent for exactly the four accents |
| Keymap.UsageRange | firmware/usb_descriptors.c:57-58 | every key that types anything lies in usages 4..100, inside the declared 0..0x65; only Enter and Tab type line feed and tab |
| Keymap.KnownStrokes | firmware/core/bridge_core.c:49-106 | a dozen strokes of both layouts in HID numbers |
| Keymap.ModifierBits | firmware/core/bridge_core.h:17-18 | every stroke presses no modifier, left shift (2) alone or right alt (64) alone; capitals shift, small letters do not |
| Keymap.ControlUsages | firmware/core/bridge_core.c:154-160 | no key but Enter and Tab has usage 0x28 or 0x2b |
| Compiler.AcceptsExactly | firmware/core/bridge_core.c:144-169 | a text compiles if and only if it is UTF-8 whose characters, CR LF read as LF, are of the layout, or in mode 2 LF under flag bit 0 or Tab under flag bit 1 |
| Compiler.MeaningPreserved | firmware/core/bridge_core.c:144-169 | typing the compiled strokes into the target's layout automaton yields exactly the decoded characters with CR LF as LF, no accent left pending, for every compose table |
| Compiler.UniquelyDecodable | firmware/core/bridge_core.c:144-169 | equal strokes come only from texts with equal meaning, on either layout |
| Compiler.DecodeAllSound | firmware/core/bridge_core.c:24-47 | a whole decoded text consists of scalar values whose encoding is the text |
| Compiler.DecodeAllComplete | firmware/core/bridge_core.c:24-47 | every encoded sequence of scalar values decodes to itself |
| Compiler.StrokeBound | firmware/core/bridge_core.c:144-169 | never more than two strokes a byte, so 1024 bytes fit the 2048-stroke buffer |
| Compiler.StrokesAreSafe | firmware/core/bridge_core.c:144-169 | every compiled stroke is within the descriptor's usages; usage 0x28 occurs only in mode 2 under flag bit 0, usage 0x2b only in mode 2 under flag bit 1, so neither in a password |
| Compiler.FlagBits | firmware/core/bridge_core.h:15-16 | LF and CR LF compile to Enter exactly in mode 2 with flags 1 or 3, Tab exactly in mode 2 with flags 2 or 3; otherwise the policy error |
| Compiler.RejectionNamesOffender | firmware/core/bridge_core.c:146-165 | the error of a refused text names its first offence: bytes that are no UTF-8, a control character the policy does not allow, or a character the layout does not have |
| BridgeCore.Core.constructor | firmware/core/bridge_core.c:108-111 | initialisation yields the empty core with all strokes zero |
| BridgeCore.Core.Terminate | firmware/core/bridge_core.c:10-16 | every job field and stroke is zeroed, the ledger survives, the named state is entered |
| BridgeCore.Core.CheckRequest | firmware/core/bridge_core.c:119-136 | the field checks give the specified verdict in the specified order, the replay search included |
| BridgeCore.Core.EmitChar | firmware/core/bridge_core.c:154-168 | one character's strokes are appended in place with later cells still zero, or the right error is returned |
| BridgeCore.Core.CompileText | firmware/core/bridge_core.c:144-169 | the in-place text loop leaves exactly the compiled strokes in the buffer, or returns the compiler's error |
| BridgeCore.Core.Stage | firmware/core/bridge_core.c:113-175 | staging in place is the specified step: refused untouched when busy, wiped to rejected with the verdict's error, or staged with the compiled strokes and one new ledger entry |
| BridgeCore.Core.Cancel | firmware/core/bridge_core.c:183-192 | cancelling in place is the specified step, with its three errors |
| BridgeCore.Core.Tick | firmware/core/bridge_core.c:194-203 | ticking in place is the specified step: expiry by 32-bit age |
| BridgeCore.Core.Confirm | firmware/core/bridge_core.c:205-215 | confirming in place is the specified step: state, owner, id, then expiry |
| BridgeCore.Core.Next | firmware/core/bridge_core.c:222-237 | taking a stroke in place is the specified step: it is returned, zeroed, and the cursor advanced; completion wipes |
| BridgeCore.Core.Abort | firmware/core/bridge_core.c:177-181 | aborting wipes and enters cancelled |
| CoreRuns.EveryRunIsSafe | firmware/core/bridge_core.c:108-237 | over every run: a job's emitted strokes are a prefix of its compiled strokes, none before a confirm naming it, completion only after all; everything is wiped outside a job, behind the cursor and past the count; the ledger is the list of accepted jobs, pairwise distinct, at most 64 |
| CoreRuns.StepKeeps | firmware/core/bridge_core.c:113-237 | each single call keeps the run invariant that ties the core to the observer's log |
| CoreRuns.EmittedStrokesAreTypeable | firmware/usb_descriptors.c:57-58 | over every run, every typed stroke is within the descriptor, and password jobs type neither Enter nor Tab |
| CoreRuns.Refusals | firmware/core/bridge_core.c:113-237 | calls answering busy, state, owner or id errors change nothing; the ledger is only appended to, and only by an accepted stage |
| CoreRuns.StageAcceptsExactly | firmware/core/bridge_core.c:113-175 | staging succeeds if and only if no job is held, every field is in its range, the job is new, the ledger has room, and the text is UTF-8 of the layout's characters, plus LF in mode 2 under flags 1 or 3 and Tab in mode 2 under flags 2 or 3 |
| CoreRuns.NeverAcceptedTwice | firmware/core/bridge_core.c:132-136 | after any run, an (owner, id) pair accepted before is refused |
| CoreRuns.AtMostSixtyFour | firmware/core/bridge_core.c:132-136 | after 64 accepted jobs no further one is accepted |
| CoreAnswers.StageRefusals | firmware/core/bridge_core.c:119-169 | every refusal of a stage call with its error, in the order of the checks; a refused call leaves everything zero but the ledger |
| CoreAnswers.StageAccepts | firmware/core/bridge_core.c:137-174 | an accepted job is held exactly as asked, at its first stroke, and entered in the ledger |
| CoreAnswers.TickAnswers | firmware/core/bridge_core.c:194-203 | an overdue staged job is wiped and answered as expired; anything else is untouched |
| CoreAnswers.ConfirmAnswers | firmware/core/bridge_core.c:205-215 | the four refusals of a confirm and their order; success changes the state and nothing else |
| CoreAnswers.CancelAnswers | firmware/core/bridge_core.c:183-192 | a cancel naming the held job, staged or executing, succeeds and wipes it; any other changes nothing, with its error |
| CoreAnswers.AbortAnswers | firmware/core/bridge_core.c:177-181 | an abort ends and wipes whatever there was |
| CoreAnswers.NextAnswers | firmware/core/bridge_core.c:222-237 | the four answers of a stroke request and what each leaves |
| CoreAnswers.SilentUntilConfirm | firmware/core/bridge_core.c:205-237 | from any state but executing, no stroke comes out until the next confirm, whatever else is called |
| CoreAnswers.EndedIsSilent | firmware/core/bridge_core.c:177-192 | in particular after a cancel that names the held job and after an abort |
| CoreClock.ConfirmInTime | firmware/core/bridge_core.c:194-215 | after every paced run, controller ticks included, a matching confirm succeeds if and only if the job's true age is below its lifetime of at most 15 s |
| CoreClock.CheckExact | firmware/core/bridge_core.c:194-203 | the expiry check passes exactly when the true age modulo 2^32 is below the lifetime |
| CoreClock.CheckRightIff | firmware/core/bridge_core.c:194-203 | the check answers as true time would if and only if the age is below 2^32 ms or its residue is past the lifetime |
| CoreClock.FullTurnDefeatsLifetime | firmware/core/bridge_core.c:205-215 | the failing case: after initialisation, any job staged and left alone for a full clock turn is still confirmed, although its true age is past its lifetime |
| CoreClock.FullTurnPossible | firmware/core/bridge_core.c:113-175 | there is such a job |
| CoreRuns.TickNeverExtends | firmware/bridge_main.c:224-228 | a tick of any value, inserted anywhere into any run, never turns a later confirm of the job held then from refused to accepted |
| ControllerStore.EncodeThenRead | firmware/controller_store.c:40-110 | validating an encoded store gives back exactly that store, or nothing if it breaks a rule |
| ControllerStore.BurstRejected | firmware/controller_store.c:24-68 | a valid record changed only within four consecutive checksummed bytes is no record |
| ControllerStore.AddKeepsRules | firmware/controller_store.c:133-150 | a successful add keeps every rule, bumps the generation, fills one empty slot other than 0, and leaves every other key's search result alone |
| ControllerStore.RevokeKeepsRules | firmware/controller_store.c:152-161 | a successful revoke keeps every rule, empties exactly the target, never slot 0, and the key is no longer found |
| ControllerStore.RevokeUndoesAdd | firmware/controller_store.c:133-161 | revoking the slot that an add filled restores the roster |
| ControllerStore.FindExact | firmware/controller_store.c:112-125 | in a store that obeys the rules, searching an enrolled key finds its one slot |
| StoreRules.AddAnswers | firmware/controller_store.c:133-150 | adding in every case: roles 2 and 3 alone may add, roles 1 and 2 alone may be added, the first free slot after 0 is taken, the generation goes up by one or wraps to 0; each refusal with its error and no change |
| StoreRules.RevokeAnswers | firmware/controller_store.c:152-161 | revoking in every case: roles 2 and 3 alone may revoke, never slot 0; each refusal with its error and no change |
| StoreRules.InitialiseAnswers | firmware/controller_store.c:85-93 | generation 1 with role 3 in slot 0 and nothing else, refused exactly for a zero key |
| StoreRules.LegalRosters | firmware/controller_store.c:40-68 | a roster is legal if and only if empty slots hold zero keys, enrolled keys are non-zero and pairwise different, roles are 0 to 3, and role 3 is in slot 0 and no other |
| StoreRules.RecordBytes | firmware/controller_store.h:43-51 | the encoded sector byte by byte |
| StoreRules.RecordRead | firmware/controller_store.c:40-68 | a sector is a record of a store if and only if its bytes are laid out like that, checksum and commit word included, and the store is legal |
| ControllerRoster.KeyIsZero | firmware/controller_store.c:12-16 | the accumulating loop decides whether a key is all zero |
| ControllerRoster.KeysEqual | firmware/controller_store.c:18-22 | the loop without early exit decides equality |
| ControllerRoster.SlotsValid | firmware/controller_store.c:47-62 | the slot loops accept exactly well-formed slots: legal roles, no key twice, the one recovery administrator in slot 0 |
| ControllerRoster.RecordValid | firmware/controller_store.c:40-68 | the record validator returns exactly the store a sector holds |
| ControllerRoster.Roster.Initialise | firmware/controller_store.c:85-93 | generation 1 with the recovery key in slot 0, or an error that changes nothing |
| ControllerRoster.Roster.Encode | firmware/controller_store.c:95-110 | the buffer becomes the record followed by erased bytes, or is untouched when too small |
| ControllerRoster.Roster.Find | firmware/controller_store.c:112-125 | the first enrolled slot with the key |
| ControllerRoster.Roster.Add | firmware/controller_store.c:133-150 | adding in place is the specified operation, with its error order |
| ControllerRoster.Roster.Revoke | firmware/controller_store.c:152-161 | revoking in place is the specified operation, with its error order |
| FlashCommit.OldOrNew | firmware/controller_store_flash.c:31-90 | from any flash that boots, a commit refused, failed, cut at any step or bit subset, or complete leaves a flash that boots to exactly the old store or exactly the new one |
| FlashCommit.CommitOutcome | firmware/controller_store_flash.c:59-90 | a commit that runs reports success if and only if the store obeys the rules and its generation is larger; then boot yields it, otherwise boot is unchanged |
| FlashCommit.CompleteIsPossible | firmware/controller_store_flash.c:59-90 | the uncut commit is one of the outcomes the atomicity result covers |
| FlashCommit.CutSector | firmware/controller_store_flash.c:31-47 | wherever programming stops, the sector holds no record, the new image's, or, only before the erase is done, its old one |
| FlashCommit.TornMark | firmware/controller_store_flash.c:34-45 | a torn last program leaves the complete image or no record |
| FlashCommit.PlanWritesImage | firmware/controller_store_flash.c:31-47 | run to its end, the plan leaves exactly the image whatever the sector held |
| FlashCommit.TargetIsNotSelected | firmware/controller_store_flash.c:64-74 | the overwritten sector is never the one boot selects |
| FlashCommit.SeedAllOrNothing | firmware/controller_store_flash.c:100-111 | a first seed cut anywhere leaves a flash that boots to nothing or to the seeded store |
| FlashFaults.TornBits | firmware/controller_store_flash.c:31-47 | programming a byte clears exactly the bits it is told to; cut short it may have cleared any subset of them and no other |
| FlashFaults.PlanSteps | firmware/controller_store_flash.c:31-47 | the eighteen steps of a commit in their order, page by page |
| FlashFaults.CutAnywhere | firmware/controller_store_flash.c:31-90 | no cut is left out: stopping inside any step with any torn result, or after the last, is among what a commit may leave and what a power loss may leave behind a command |
| FlashFaults.TornSteps | firmware/controller_store_flash.c:31-47 | what a torn step may leave of the whole sector |
| FlashFaults.BootRule | firmware/controller_store.c:70-83 | boot takes the valid record with the larger generation, the first on a tie |
| NorFlash.Chip.ProgramRange | firmware/controller_store_flash.c:31-47 | programming clears bits only, in the named range only |
| NorFlash.Chip.ProgramSector | firmware/controller_store_flash.c:31-47 | the page loop issues exactly the analysed plan, the commit word last, and leaves the image |
| NorFlash.Chip.BootExisting | firmware/controller_store.c:70-83 | the valid record with the larger generation, the first on a tie |
| NorFlash.Chip.Commit | firmware/controller_store_flash.c:59-90 | refusal, target choice, programming and verification together are the specified commit, and the operations issued are none or the plan |
| NorFlash.Chip.SectorsErased | firmware/controller_store_flash.c:92-98 | true exactly when both sectors are blank |
| Startup.LoadOrSeed | firmware/controller_store_flash.c:100-111 | load the store, or seed only two blank sectors, as the enrolment model's start-up |
| Startup.ImportFirst | firmware/bridge_main.c:600-611 | import only into generation 1 with all daily slots empty, as the enrolment model says |
| Startup.ControllerSetup | firmware/bridge_main.c:596-612 | every run is a power-on step of the enrolment model with an outcome its commits can have |
| Enrolment.EveryReachableState | firmware/bridge_main.c:230-255 | through any power cuts, handshakes and commands: memory equals what a reboot would load, a ready session's slot still holds the key and role that matched, slot 0 never changes |
| Enrolment.StepKeeps | firmware/bridge_main.c:230-255 | each event keeps that invariant, failed and cut commits included |
| Enrolment.CommitEnds | firmware/controller_store_flash.c:59-90 | what each way a commit can end leaves behind, and that a change is always to a larger generation |
| Enrolment.FirstBoot | firmware/bridge_main.c:596-612 | every first boot of a blank device whose two commits succeed comes up with the recovery administrator in slot 0 and the imported one in slot 1, in memory and in flash |
| Enrolment.FirstBootPossible | firmware/bridge_main.c:596-612 | such a boot is among the possible ones |
| Enrolment.EveryRunBootsOldOrTried | firmware/controller_store_flash.c:31-90 | through any run of commits, cuts and reboots, boot yields the store it yielded at the start or one that was tried since, with a larger generation; a flash that boots keeps booting |
| Enrolment.ImportsAtMostOnce | firmware/bridge_main.c:596-612 | the first-boot import takes effect at most once in the life of a device |
| Enrolment.CommandSucceedsIff | firmware/controller_store_flash.c:59-90 | an add or revoke whose commit runs succeeds if and only if the generation is below 2^32 - 1 |
| Enrolment.ExhaustedForever | firmware/controller_store_flash.c:59-90 | from generation 2^32 - 1 on, no run of events changes what a reboot loads |
| Enrolment.ExhaustedExists | firmware/bridge_main.c:230-240 | the failing case: a device with a connected administrator and four free slots whose add fails for good |
| Enrolment.RevokedStaysOut | firmware/bridge_main.c:242-255 | after a successful revoke, through every run in which the key is not added again, reboots included, no roster holds it, no handshake with it succeeds and no session is its own |
| EnrolmentRules.OthersArePowerless | firmware/bridge_main.c:231-243 | an add or revoke from an operator's session, or from none, changes nothing |
| EnrolmentRules.OperatorsChangeNothing | firmware/bridge_main.c:230-255 | once a device is set up, any run in which operators alone connect, through power cycles and handshakes, changes not a byte of its flash |
| EnrolmentRules.StartUpSpares | firmware/controller_store_flash.c:100-111 | start-up leaves a store alone unless it is generation 1 with empty daily slots, and never seeds a flash that is not erased |
| EnrolmentRules.StartUpImports | firmware/bridge_main.c:596-612 | the import in every case: a zero or enrolled key halts the device, any other becomes administrator in slot 1 at generation 2, or the device halts or loses power |
| EnrolmentRules.StartUpSeeds | firmware/controller_store_flash.c:100-111 | the seed in every case, and that only a successful seed goes on to the import |
| EnrolmentRules.CommitAnswers | firmware/controller_store_flash.c:59-90 | the commit's answer and the sector it writes, in every case |
| NoiseIK.KdfsAgree | tools/pico_bridge_ctl.py:176-181 | the firmware's library key derivation and the host's hand-written one give the same two keys |
| NoiseAgreement.HandshakeAgreement | firmware/noise_ik.c:249-312 | for all key pairs, every message that reached the device and every response that reached the host: the host completes if and only if the device it pinned answered its own message and it got that very answer; then transcript hash, chaining key and crossed keys agree, all four nonces are 0, and the authenticated slot holds the host's key |
| NoiseAgreement.HonestHandshake | tools/pico_bridge_ctl.py:216-239 | over the bare laws, with nothing altered on the way, a host whose message is answered completes and both agree |
| NoiseAgreement.AnsweredMeansHosted | firmware/noise_ik.c:249-270 | the device's side alone: if the static key it opened was sealed by this host, it is the pinned device and got this host's message |
| NoiseWire.DeviceRun | firmware/noise_ik.c:249-312 | for every 80-byte message: the device answers if and only if the static key opens under the key derived from es, is enrolled, and all exchanges succeed; response, transport keys, chaining key and transcript as explicit HMAC and hash terms that chain es, ss, ee, se from the protocol name |
| NoiseWire.HostFirst | tools/pico_bridge_ctl.py:216-225 | the host's first message as explicit terms |
| NoiseWire.HostRun | tools/pico_bridge_ctl.py:227-239 | the host accepts exactly the responses whose acknowledgement opens under the key derived from all four secrets, and its transport keys as the same explicit terms |
| NoiseWire.Names | firmware/noise_ik.c:24-25 | protocol name and acknowledgement texts, character by character |
| NoiseWire.OpensExactly | firmware/noise_ik.c:314-343 | a frame opens if and only if there is a session and the frame is the sealing of at most 1038 bytes under the receiving key and exactly the next nonce |
| NoiseWire.SealsExactly | firmware/noise_ik.c:345-371 | the receipt's bytes, and that only a session seals one |
| NoiseWire.SendsExactly | tools/pico_bridge_ctl.py:244-252 | the bytes of a host frame |
| NoiseWire.HandshakeFrames | firmware/bridge_main.c:355-372 | which frames are handshakes, and the bytes of their answers |
| NoiseWire.TakesExactly | tools/pico_bridge_ctl.py:254-270 | a receipt opens at the host if and only if it is six bytes sealed under its receiving key and exactly the next nonce |
| NoiseWire.NoSession | firmware/noise_ik.c:314-320 | without a session nothing but a handshake has any effect on the device: no frame opens, none is answered |
| NoiseWire.NothingBeforeHandshake | firmware/noise_ik.c:239-247 | from initialisation, whatever arrives, no command is opened before a handshake has been answered |
| NoiseWire.NetworkMayDeliver | firmware/bridge_main.c:355-391 | the network model rules out no delivery but bytes that would open under the session's keys although nobody sealed them |
| NoiseWire.IntegrityAsks | firmware/noise_ik.c:249-312 | what integrity of a handshake asks, in explicit terms: no collision among eight hash inputs, and an acknowledgement that opens is the device's, under the same key and transcript |
| NoiseAgreement.AnswersExactlyTheEnrolled | firmware/noise_ik.c:249-312 | the device answers an honest host if and only if its key is enrolled and the two exchanges with the fresh ephemeral succeed |
| NoiseAgreement.AnsweredMeansEnrolled | firmware/noise_ik.c:249-312 | any message that is answered carried the sealed static key of an enrolled slot, and that slot and role are authenticated |
| NoiseAgreement.FailureLeavesNoSession | firmware/noise_ik.c:224-312 | a failure after the length check leaves no session, no slot and zeroed keys; a wrong length changes nothing |
| ToySuite.LawsCanHold | firmware/noise_ik.c:63-204 | the laws are consistent, whatever the cipher's tags depend on |
| ToySuite.IntegrityCanHold | firmware/noise_ik.c:159-204 | laws and integrity together are consistent: a complete run that has both |
| ToySuite.AlteredResponse | tools/pico_bridge_ctl.py:227-239 | integrity is needed: a suite within the laws where an altered response is accepted and the transcripts differ |
| NoiseParties.Responder.constructor | firmware/noise_ik.c:239-247 | initialisation leaves the reset state for the device's key pair |
| NoiseParties.Responder.MixKey | firmware/noise_ik.c:76-88 | in place, the specified key mixing through the library derivation |
| NoiseParties.Responder.CipherDecryptAndHash | firmware/noise_ik.c:182-204 | in place, the specified decrypt-and-hash |
| NoiseParties.Responder.SplitTransport | firmware/noise_ik.c:206-222 | receive key first, send key second, nonces 0, handshake key wiped |
| NoiseParties.Responder.ResetHandshakeState | firmware/noise_ik.c:224-237 | the session is gone and the transcript restarted |
| NoiseParties.Responder.MatchSlot | firmware/noise_ik.c:271-281 | the loop over all slots keeps the first enrolled match |
| NoiseParties.Responder.HandshakeRespond | firmware/noise_ik.c:249-312 | the whole responder run, step by step in place, is the specified one |
| NoiseParties.Responder.DecryptPacket | firmware/noise_ik.c:314-343 | only the next nonce opens, and only then is it used up |
| NoiseParties.Responder.EncryptTransportAck | firmware/noise_ik.c:345-371 | the receipt is sealed under the next send nonce, which is used up |
| NoiseParties.Initiator.constructor | tools/pico_bridge_ctl.py:148-165 | the host starts from the same transcript as the device |
| NoiseParties.Initiator.MixKey | tools/pico_bridge_ctl.py:176-181 | in place, the specified key mixing |
| NoiseParties.Initiator.BeginHandshake | tools/pico_bridge_ctl.py:216-225 | the first message of the specification, and the object's exact state whether it returns or raises |
| NoiseParties.Initiator.CompleteHandshake | tools/pico_bridge_ctl.py:227-239 | returns exactly when the specification succeeds, with the object's exact state whether it returns or raises |
| NoiseParties.Initiator.Split | tools/pico_bridge_ctl.py:205-214 | send key first, receive key second, nonces 0 |
| NoiseParties.Initiator.EncryptPacket | tools/pico_bridge_ctl.py:244-252 | one frame under the next send nonce |
| NoiseParties.Initiator.VerifyTransportAck | tools/pico_bridge_ctl.py:254-276 | only the next receipt opens, and only then is its nonce used up; it returns, rather than raises, exactly on the acknowledgement text with status 0 |
| Transport.EverySessionIsInOrder | firmware/noise_ik.c:249-371 | from the moment the device has answered a host, over a network that drops, duplicates, reorders or alters and delivers other parties' handshakes: executed commands are a prefix of those sealed, accepted receipts a prefix of those sealed, and neither party is ahead; while no handshake frame has been delivered since, host.receive <= device.send <= device.receive <= host.send |
| Transport.TakeoverKeepsChainIff | firmware/bridge_main.c:358-372 | a handshake frame, answered or not, leaves the nonces in that order if and only if the host has accepted no receipt |
| Transport.ChainBroken | firmware/noise_ik.c:224-237 | the failing run: handshake, one command, its receipt, then any handshake frame |
| Transport.AcceptedInTurn | tools/pico_bridge_ctl.py:254-276 | what the host accepts is the receipt of the command it has counted up to, and it returns exactly when that command's status was 0 |
| Transport.CommandCarried | firmware/bridge_main.c:373-386 | over an undisturbed network a command of at most 1038 bytes is executed, answered, and its receipt accepted, and the session is ready for the next |
| Transport.PlayKeeps | tools/pico_bridge_ctl.py:227-276 | completing, sending and every delivery, handshake frames included, keep the two parties' counters tied to what each sealed and accepted |
| Transport.NextFrameIsExecuted | firmware/bridge_main.c:373-386 | a next command of at most 1038 bytes that arrives is executed |
| BleFraming.Reassembler.Write | firmware/bridge_main.c:437-483 | one characteristic write, in place, is the specified reassembly step |
| BleFraming.FragmentPacket | tools/pico_bridge_ctl.py:364-385 | the fragmenting loop produces the specified fragments, or raises when a header no longer fits |
| BleFraming.FragmentRoundTrip | tools/pico_bridge_ctl.py:364-385 | from any reassembler state, the fragments of 1..1102 bytes deliver exactly that packet once; 1103..2432 deliver nothing; both end idle; fragments exist exactly up to 2432 bytes |
| BleFraming.AnyWritesStayInBounds | firmware/bridge_main.c:437-483 | arbitrary writes never take the position past the buffer |
| BleFraming.FragmentBytes | tools/pico_bridge_ctl.py:364-385 | fragment k carries bytes 19k to 19k + 18 behind a byte with k in its upper seven bits and the more flag in its lowest |
| BleFraming.WriteRule | firmware/bridge_main.c:437-483 | what one write does, by its first byte and the room left of 1102 bytes |
| TcpFraming.ParseContinues | firmware/net_endpoint.c:117-152 | parsing a longer stream continues from what the shorter one left, so the cutting is irrelevant |
| TcpFraming.FramesParseBack | tools/pico_tcp_send.py:52-53 | any frames of legal length, sent one after another, parse back to exactly themselves |
| TcpFraming.FrameBytes | tools/pico_tcp_send.py:52-53 | a frame is its length in four big-endian bytes and its payload |
| TcpFraming.LengthRule | firmware/net_endpoint.c:130-141 | a length below 1 or above 2044 makes the stream bad; any other waits for exactly that many bytes |
| TcpFraming.SegmentBoundExact | firmware/lwipopts.h:43 | the receive index stays within 2048 for every segment of a given size and every state it can find if and only if the size is at most 2045 |
| NetEndpoint.BadByte | firmware/net_endpoint.c:130-145 | after an illegal length no further byte completes a frame, not even by wrap-around of the comparison |
| NetEndpoint.WireSplits | firmware/net_endpoint.c:93-115 | what is owed to the peer is the framed answers in the order of their commands |
| NetEndpoint.Endpoint.Receive | firmware/net_endpoint.c:117-152 | frames delivered are exactly the parse of the stream received, the index never leaves the buffer, written plus pending is exactly the framed answers of the command core to those frames; a session is closed only by the peer, an illegal length, or a second answer while one is pending |
| NetEndpoint.Endpoint.TakeSegment | firmware/net_endpoint.c:128-145 | the byte loop over one segment keeps this, through and past an illegal length |
| NetEndpoint.Endpoint.TakeByte | firmware/net_endpoint.c:130-144 | one byte extends the stream and its parse by exactly that byte |
| NetEndpoint.Endpoint.ProcessFrame | firmware/net_endpoint.c:93-115 | exactly the buffered frame is handed over and the command core's answer to it queued behind the bytes already written, or the session closed because one is still pending |
| NetEndpoint.Endpoint.Sent | firmware/net_endpoint.c:75-91 | exactly the first pending bytes that fit are written, the rest moved down; nothing is lost or repeated |
| NetEndpoint.Endpoint.Close | firmware/net_endpoint.c:64-73 | a closed session has empty buffers |
| NetEndpoint.Endpoint.Accept | firmware/net_endpoint.c:161-177 | one session at a time; a new one starts with empty buffers |
| TcpPeer.Socket.SendFrame | tools/pico_tcp_send.py:52-53 | appends exactly one frame |
| TcpPeer.Socket.RecvExact | tools/pico_tcp_send.py:55-62 | returns exactly the next n bytes however the socket chunks them, or fails exactly when there are fewer |
| TcpPeer.Socket.RecvFrame | tools/pico_tcp_send.py:64-69 | succeeds exactly when the stream starts with a frame of 1..65535 bytes, and takes exactly that frame |
| Packets.BuildStagePacket | tools/pico_bridge_ctl.py:279-301 | the builder's byte layout, absent exactly when a number does not fit its field |
| Packets.BuildJobPacket | tools/pico_bridge_ctl.py:304-317 | the confirm and cancel layout |
| Packets.StageCodec | firmware/bridge_main.c:197-208 | reading a built stage packet recovers owner, id, layout, mode, flags and payload, for every payload |
| Packets.JobCodec | firmware/bridge_main.c:210-222 | reading a built confirm or cancel packet recovers the job |
| Packets.StageBytes | tools/pico_bridge_ctl.py:279-301 | a stage packet byte by byte |
| Packets.StagePacksIff | tools/pico_bridge_ctl.py:293-300 | packing succeeds if and only if every number fits its field |
| Packets.JobBytes | tools/pico_bridge_ctl.py:304-317 | a confirm or cancel packet byte by byte, the command first |
| Packets.StageRead | firmware/bridge_main.c:197-208 | what the device reads from the bytes of any stage packet, and which it refuses unread |
| Packets.JobRead | firmware/bridge_main.c:210-222 | the same for confirm and cancel |
| Packets.StageNeverOverreads | firmware/bridge_main.c:205-207 | for every packet, a request that passes the 16-bit comparison has its bytes or exceeds the core's limit |
| Packets.WrappedClaimIsRefused | firmware/core/bridge_core.c:119-120 | the comparison does wrap for a 14-byte packet claiming 65522 bytes, and the core refuses it unread |
| RadioRecord.Schema2Bijection | firmware/radio/radio_config.c:38-83 | parse2 of build2 returns the same name and key, and every certificate-free sector parse2 accepts is byte for byte build2 of what it parsed |
| RadioRecord.Schema1Bijection | tools/radio_provision.py:26-40 | the same for the host's packer and the schema 1 parser, for every sector |
| RadioRecord.PackSectorIsSchema1 | tools/radio_provision.py:26-40 | the host's packer accepts exactly the schema 1 configurations and writes exactly the layout the parser reads |
| RadioRecord.ParseInvertsPack | firmware/radio/radio_config.c:5-36 | parsing a packed configuration gives it back, for either schema |
| RadioRecord.PackInvertsParse | firmware/radio/radio_config.c:5-36 | every sector that parses is the packing of what it parsed to |
| RadioRecord.SchemasDisjoint | firmware/radio/radio_config.c:38-44 | no sector parses under both schemas |
| RadioRecord.BurstRejected | firmware/radio/radio_config.c:25-31 | a valid sector changed only within four consecutive checksummed bytes no longer parses |
| RadioRecord.ParseRule | firmware/radio/radio_config.c:5-44 | which sectors parse under either schema, byte by byte and limit by limit |
| RadioRecord.Build2Bytes | firmware/radio/radio_config.c:46-83 | what the builder accepts and the bytes it writes |
| RadioConfig.ParseCommon | firmware/radio/radio_config.c:5-36 | the parser's checks and loops accept exactly the specified sectors and return their fields |
| RadioConfig.ThreePassCrc | firmware/radio/radio_config.c:63-77 | the builder's three checksum passes equal the parser's single pass |
| RadioConfig.Build | firmware/radio/radio_config.c:46-83 | the in-place builder writes exactly the specified sector, or refuses and leaves the buffer alone |
| Firmware.FrameIsAMove | firmware/bridge_main.c:355-391 | every frame the firmware handles, handshakes included, is one move of the transport model: same session, same executed command, same response |
| Firmware.Bridge.HandleStage | firmware/bridge_main.c:197-208 | parses the packet as specified and stages it at the sampled clock |
| Firmware.Bridge.HandleTyping | firmware/bridge_main.c:210-228 | each typing command is one step of the core, or an argument error that changes nothing |
| Firmware.Bridge.CommitCandidate | firmware/bridge_main.c:237-239 | memory follows the candidate only after a commit that reported success |
| Firmware.Bridge.HandleControllerAdd | firmware/bridge_main.c:230-240 | an add is the enrolment model's step with the right status for every refusal, and keeps its invariant |
| Firmware.Bridge.HandleControllerRevoke | firmware/bridge_main.c:242-255 | the same for a revoke, which never touches the session's own slot |
| Firmware.Bridge.HandleSetRadio | firmware/bridge_main.c:257-279 | the sector afterwards and the answer, for every refusal and every outcome of the write; on success the sector parses to exactly the packet's name and key |
| Firmware.Bridge.WriteAndVerify | firmware/radio/radio_provision_flash.c:33-53 | true exactly when the driver ran and the sector reads back as the image |
| Firmware.Bridge.HandleClearRadio | firmware/bridge_main.c:281-285 | the sector afterwards and the answer; success exactly when the sector reads back erased |
| Firmware.Bridge.HandleAuthenticatedCommand | firmware/bridge_main.c:287-345 | dispatch, with and without the network build's diagnostics: typing commands touch only the core, enrolment commands only the trust state, radio commands only the radio record, diagnostics nothing; a receipt is due exactly for known commands, with the status or the read-out as its byte |
| Firmware.Bridge.HandleHandshakeFrame | firmware/bridge_main.c:358-372 | a handshake is the responder's run and the enrolment model's handshake; no answer means no session |
| Firmware.Bridge.HandleEncryptedFrame | firmware/bridge_main.c:373-386 | the command a frame opens to takes effect, and session and answer are the specified ones, with the status as receipt |
| Firmware.Bridge.CommandProcessFrame | firmware/bridge_main.c:355-391 | only handshake and encrypted frames have any effect, each exactly its own; session and response are the specified reaction; every call is one move of the transport model; answers have at most 54 bytes; the trust invariant holds after every frame |
| FirmwareRules.StatusBytes | firmware/core/bridge_core.h:22-36 | status bytes number the statuses in the header's order: 0 exactly for success, no two alike |
| FirmwareRules.CommandCodes | firmware/bridge_main.c:44-69 | which first bytes are typing commands and which earn a receipt, with and without the network build |
| FirmwareRules.TypingRule | firmware/bridge_main.c:197-228 | what each typing command asks of the core, from its bytes; short packets change nothing |
| FirmwareRules.AddCommandAnswers | firmware/bridge_main.c:230-240 | an add command in every case, by the byte its receipt carries; from an operator or no session it answers 9 and changes nothing |
| FirmwareRules.RevokeCommandAnswers | firmware/bridge_main.c:242-255 | a revoke command in every case, likewise |
| FirmwareRules.PhysicalPresence | firmware/bridge_main.c:257-285 | the radio record changes only under a radio command of an administrator's session while no USB host is present |
| FirmwareRules.SetRadioAnswers | firmware/bridge_main.c:257-279 | a set-radio command in every case, by its receipt's byte |
| FirmwareRules.ClearRadioAnswers | firmware/bridge_main.c:281-285 | a clear-radio command in every case |
| FirmwareRules.DiagnosticsAnswer | firmware/bridge_main.c:301-340 | a diagnostic answers its read-out and changes nothing |
| FirmwareRules.AddCommandIsEvent | firmware/bridge_main.c:230-240 | every add command is a possible add event of the enrolment model with the outcome it had, so what holds of all runs of events holds of all runs of commands |
| FirmwareRules.RevokeCommandIsEvent | firmware/bridge_main.c:242-255 | the same for a revoke command |
| EndToEnd.TextIsTyped | firmware/bridge_main.c:197-215 | from the host's sealed stage and confirm packets over BLE fragments or TCP frames, through the session and the core, to strokes the target reads as exactly the text; the receipts for the statuses the core returned are accepted by the host as status 0 |
| EndToEnd.PacketReachesCore | firmware/bridge_main.c:355-391 | a sealed stage packet of at most 1024 text bytes crosses either framing and reaches the core, whatever its state, as the request the host built |
| EndToEnd.ExchangeCarried | firmware/bridge_main.c:373-386 | any typing command over an undisturbed network is executed, and the host accepts a receipt with the byte of exactly the status the core returned |
| EndToEnd.CancelEndsJob | tools/pico_bridge_ctl.py:312-317 | a built cancel packet starts with command 3 and takes a core that holds the job, staged or executing, to a cancelled one with nothing left of it, which the host learns as status 0 |
| EndToEnd.ConfirmedJobTypesItsText | firmware/core/bridge_core.c:113-237 | an accepted, confirmed job hands out strokes that the target reads as exactly its text, and ends completed and wiped |
| EndToEnd.DrainEmitsAll | firmware/core/bridge_core.c:222-237 | taking strokes until none are left yields exactly those pending, in order, then completion |

## Left out

- Internals of X25519, ChaCha20-Poly1305, SHA-256 and HMAC, key-pair generation failing, and weak ephemeral keys beyond an exchange that may fail: library code; functions with stated laws.
- Constant-time behaviour of the key comparisons and compiler effects on wiping: not functional properties.
- `usb_hid_drain` and everything after the core's `next`: a stroke is consumed before its report is accepted and a guard aborts on total time, so no claim is made that every confirmed job is fully typed on a real bus.
- lwIP and cyw43 object lifetimes, association, scanning and retry: foreign calls. The diagnostics commands (codes 11 to 20) are dispatched and answered in the model of a network build, but the byte each reads out is a parameter.
- The erase and program steps of `radio_provision_flash.c`: a single slot with no atomicity to prove; what the sector holds once the driver has run is a parameter, and the read-back comparison is modelled.
- BTstack setup, advertising, GATT reads and notifications, LED and watchdog: hardware plumbing.
- `http_parser.c`, `dhcp_wire.c`, `entropy_fill.c`: compiled but not called by the firmware.
- Command-line tools apart from the modelled functions: argument parsing, files, prompts, scanning, key and certificate generation.
- Null core pointers: the firmware has one static core.
- NetEndpoint.Endpoint.Answer: seen from the socket the command core is an arbitrary answer to each frame handed over, of at most 54 bytes; `Firmware` has the real one.
- Enrolment.RevokedStaysOut: needs a generation of at least 1, which every store this firmware seeds has; a foreign record with generation 0 could still be due an import.
- CoreClock.ConfirmInTime: needs clock readings that do not run backwards while a job is staged and less than 2^32 - 15000 ms between checks; `CoreClock.CheckRightIff` is the exact condition without it.
- Transport.EverySessionIsInOrder: speaks of one session; what the device executes after another party's handshake belongs to that party's session, to which the same theorem applies.
- NoiseAgreement.HandshakeAgreement: needs the integrity of the run (no hash collision between the two transcripts, and an acknowledgement that opens was sealed in the run under the same key, nonce and transcript hash); `ToySuite.AlteredResponse` shows that the laws alone do not give it.
- FlashCommit.OldOrNew: assumes that a torn erase leaves no record or the old one.
- RadioRecord.PackSector: the original takes name and passphrase as text of code points 32 to 126, which are their own bytes; the model takes the bytes.
