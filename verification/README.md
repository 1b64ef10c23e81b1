# Verification of the R-Car boot firmware and demo kernels

This project models the stateful parts of the repository and proves what they keep, in Dafny 4.11.
`dafny verify dfyconfig.toml` checks everything.

- **Firmware update in BL1** (`FwuModel`, `FwuInvariant`, `FwuTheorems`, `FwuCalls`, `FwuContent`,
  `FwuWitness`, `FwuOverlap`, `Bl1Fwu`). The SMCs move images through reset, copying, copied,
  authenticated, executed and interrupted. `FwuModel` is the transition system: one step per SMC, `Halted`
  where a C assertion fails, the platform panics or the call never returns, and stores of the running
  world in between. `Bl1Fwu.Service` is the service itself, with descriptors, loaded-id array and byte
  memory changed in place; each of its handlers takes exactly one step. `FwuCalls` says for each SMC when
  it gives which answer and what it changes, byte by byte. The main results hold after every run: which
  calls halt, that the loaded-id table lists the images under way (unless a pre-load hook failed), that
  copies never overlap, and that only a verified image runs. In runs whose authentications in place by the
  secure world name free ranges, the bytes of a copied image handed to execution are its accepted blocks
  and are the bytes that were verified; if these calls also read their image at its base, every image is
  handed to execution with the bytes that were verified.
- **EL3 exception priorities** (`EhfBits`, `EhfModel`, `EhfTheorems`, `Ehf`). `active_pri_bits` is a stack of
  decreasing indices; the two stashed masks bring the normal world's mask back over every run.
- **Tables, lists and cursors**: device enumeration of the U-Boot API (`StorageEnum`), the hand-off list of
  BL2 (`HandOff`), the dispatch table of runtime services (`RuntimeSvc`), the interrupt distributor of the
  Cortex-R7 (`ArmGic`).
- **Kernels**: run-length decoding (`RleTexture`), the footer checksum (`FlashCrc`), the ranges of the DMA
  fill (`DmaFill`), formatted output (`Printf`), the simulated car (`CarModel`).
- `BitWords` and `WordFields` are C's bitwise operators on unsigned words, with the bits and bytes of their
  results.

Where a promise of the source does not hold, the project shows where it fails and states exactly when it
holds:

- `CA57-code/ipl/docs/components/exception-handling.rst:428-431` says that a deactivation restores the mask
  from before the activation, the comment at `CA57-code/ipl/bl31/ehf.c:201-204` that it programs the next
  active priority. Line 209 programs the priority just deactivated.
  `RestoresMaskExactlyWhenOutermost`: the mask comes back exactly when no other activation is outstanding;
  `NestedReactivationPanics` and `NestedReactivationExample` show the consequence.
- `CA57-code/ipl/docs/components/firmware-update.rst` gives return codes for resuming when no image is
  interrupted and for resetting an executed image; the code fails an assertion. `HaltsExactly` says when;
  `ResumeWithoutInterruptedImageStops` and `ResetOfRunningImageStops` show a run and a call for each.
- The assertion at `bl1_fwu.c:192` expects every listed image to be under way. A failed pre-load hook leaves
  an image listed although it is reset: `StepKeepsListedExactly` and `ListedExactlyWhenUnderway` say that the
  table is right exactly in the runs without such a failure, `FailedHookLeavesListedReset` when the assertion
  fails afterwards; `CopyAfterFailedHookStops` is a run in which it does.
- An authentication in place by the secure world checks no range, and reads its bytes where the caller says.
  `InPlaceIsSoundExactly`: afterwards every image owns its range and the verdict holds at the image's base, for
  every memory and every authentication module, exactly when the call reads at the base (alone, by
  `InPlaceVouchesExactly`, this is the condition for the memory right after the call) and names a free range
  (`InPlaceAuthKeepsHeldExactly`). `AlwaysSoundExactly` and `AlwaysHeldExactly` say the same of runs, and in a
  run of sound calls the bytes that are executed always are the verified ones
  (`SoundRunsExecuteVerifiedBytes`). Both conditions are needed: `InPlaceAuthenticationIsNotEnough` is a run
  that names free ranges only, `FreeRangeIsNeeded` one that reads at the base only.
- A run of one pixel is not charged for its pixel: `RoundTrip` says that the source is consumed exactly when
  there is none.
- The remainder at `CortexR7_Loader/common/dma_driver.c:234` is taken modulo one channel's share instead of
  all four: `FilledExactly` and `PathsAgreeExactly` list the lengths that are filled completely,
  `ShortFillExample` has one that is not.
- The loop of `locUpdateRpm` ends exactly on the states in `CanSettle`: `LoopEndsExactly`.
- A footer's checksum cannot tell a word of zeros from a word of ones: `FooterCheckNoticesChange`.
- A device of unknown type ends the enumeration of its group, and the group is met out of order later.
  `ListedExactly` says what is enumerated, `ListIsCompleteExactly` when that is everything, `EnumerateDevices`
  when the out-of-order branch is taken, as for the inventory of `InterruptedExample`.
- A priority with the same index as the activated one but above the mask panics on deactivation:
  `DeactivatingTopSucceeds` and `NonCanonicalDeactivationPanics`.

## Assumptions

- Firmware update: the boot image is non-secure; secure images lie in memory, so `image_base +
  image_max_size` does not wrap; `INVALID_IMAGE_ID` is no image. The normal world stores only outside the
  areas of secure images, a running secure image only to its own bytes. The platform's memory check maps only
  memory that exists. The answers of the platform's load hooks are arguments of the calls, `auth_mod_verify_img` is an
  arbitrary predicate on image id and bytes, and `bl1_prepare_next_image` contributes the state it sets
  (`CA57-code/ipl/bl1/aarch64/bl1_context_mgmt.c:91`).
- Exception priorities: 1 to 7 priority bits, at most 32 levels. Activated priorities are secure, below 0x80.
  The running priority that the interrupt controller reports is an argument. The controller ignores the
  normal world's writes to the mask while the mask is in the secure range.
- Enumeration: the existing devices are distinct, and the network device is no storage device. A group that is
  not configured has no device.
- Hand-off: the embedded links are null before the list is built.
- Interrupt distributor: the build for a non-secure master, listed ids below the number of interrupts, and
  the listed interrupts of the processor itself in group 0, as at reset and after an earlier set-up.
- Formatted output: the format does not end in a lone `%`, the arguments fit the conversions, and the buffer
  is long enough. The negation at `CortexR7_Loader/common/printf.c:54` and `:188` wraps around for the lowest
  32-bit integer, for which C leaves it undefined.
- DMA fill: at least 256 bytes for the DMA path, whose share is zero otherwise.
- Car: exact arithmetic in steps of 0.05 km/h.

## Model

| member | source | states |
|---|---|---|
| FwuModel.SlotOf | CA57-code/ipl/bl1/bl1_fwu.c:150-157 | the slot found is the first one that holds the id, and there is one exactly when the id is listed |
| FwuModel.CheckOverlaps | CA57-code/ipl/bl1/bl1_fwu.c:164-219 | the check is clear exactly when every slot is, and else gives the verdict of the first slot that is not |
| FwuInvariant.AddedKeeps | CA57-code/ipl/bl1/bl1_fwu.c:120-139 | listing an image keeps the table free of duplicates and adds this image only |
| FwuInvariant.RemovedKeeps | CA57-code/ipl/bl1/bl1_fwu.c:145-158 | removing an image leaves every other one listed, and no copy of it |
| FwuInvariant.ClearIsApart | CA57-code/ipl/bl1/bl1_fwu.c:164-219 | an accepted overlap check means that the new image shares no byte with any listed secure one |
| FwuInvariant.CopyKeeps | CA57-code/ipl/bl1/bl1_fwu.c:224-362 | IMAGE_COPY keeps the invariant, whatever its arguments |
| FwuInvariant.AuthKeeps | CA57-code/ipl/bl1/bl1_fwu.c:367-498 | IMAGE_AUTH keeps the invariant, whatever the verdict |
| FwuInvariant.ExecuteKeeps | CA57-code/ipl/bl1/bl1_fwu.c:503-546 | after IMAGE_EXECUTE the image is the only one executing and the secure world has control |
| FwuInvariant.ResumeKeeps | CA57-code/ipl/bl1/bl1_fwu.c:552-614 | control changes together with the state of the last executed image |
| FwuInvariant.DoneKeeps | CA57-code/ipl/bl1/bl1_fwu.c:619-671 | SEC_IMAGE_DONE leaves nothing executing and the table free of the image |
| FwuInvariant.ResetKeeps | CA57-code/ipl/bl1/bl1_fwu.c:692-745 | IMAGE_RESET keeps the invariant, for every state of the image |
| FwuInvariant.StepKeeps | CA57-code/ipl/bl1/bl1_fwu.c:58-100 | every SMC and every store of the running world keeps the invariant |
| FwuInvariant.RunKeepsInvariant | CA57-code/ipl/bl1/bl1_fwu.c:53-745 | after every run: no duplicate in the table, images under way are listed, copy progress is in range, copies are apart, and the secure world has control only through the one executing image |
| FwuTheorems.CopyHaltsExactly | CA57-code/ipl/bl1/bl1_fwu.c:164-319 | a copy call fails an assertion exactly when it is a well-formed first copy and the first slot that is not harmless holds a reset image or one whose last byte is not after its first |
| FwuTheorems.AuthHaltsExactly | CA57-code/ipl/bl1/bl1_fwu.c:382-486 | authentication panics exactly when the post-load hook fails and every guard passes: image state, source range, mapping, free slot and verdict |
| FwuTheorems.ResumeHaltsExactly | CA57-code/ipl/bl1/bl1_fwu.c:561-588 | only a normal-world caller can fail an assertion, exactly when the last executed image is not interrupted |
| FwuTheorems.ResetHaltsExactly | CA57-code/ipl/bl1/bl1_fwu.c:696-742 | a reset fails an assertion exactly when it names the boot image |
| FwuTheorems.DoneNeverHalts | CA57-code/ipl/bl1/bl1_fwu.c:632-640 | the assertions of SEC_IMAGE_DONE, the one on the table included, hold in every reachable state |
| FwuTheorems.HaltsExactly | CA57-code/ipl/bl1/bl1_fwu.c:58-745 | after every run a call halts if and only if `Halts` says so; the assertions on copy progress, on secure callers and on zeroing never fail |
| FwuTheorems.FailedHookLists | CA57-code/ipl/bl1/bl1_fwu.c:337-349 | all that a failed hook leaves behind: the image listed, its size recorded, its state still reset |
| FwuTheorems.StepKeepsListedExactly | CA57-code/ipl/bl1/bl1_fwu.c:337-348 | a step from a right table leads to a right table if and only if it meets no failing hook |
| FwuTheorems.ListedExactlyWhenUnderway | CA57-code/ipl/bl1/bl1_fwu.c:120-158 | the table has listed exactly the images that are not reset, without duplicates, at every point of a run if and only if no pre-load hook has failed in it |
| FwuTheorems.FailedHookLeavesListedReset | CA57-code/ipl/bl1/bl1_fwu.c:182-214 | after a failed hook, whatever the table holds, the next first copy of another image fails an assertion exactly when no earlier slot meets its area |
| FwuTheorems.SecureWorldRunsOneImage | CA57-code/ipl/bl1/bl1_fwu.c:518-538 | after every run the secure world has control exactly when a secure image is executing, and that image is unique and the one in sec_exec_image_id |
| FwuTheorems.PastAuthenticationComesFrom | CA57-code/ipl/bl1/bl1_fwu.c:441-474 | the only step that takes an image past authentication is an accepted IMAGE_AUTH on it with a good verdict |
| FwuTheorems.OnlyVerifiedImagesRun | CA57-code/ipl/bl1/bl1_fwu.c:382-474 | after every run an image that is authenticated, executing or interrupted passed verification since it was last reset |
| FwuTheorems.SecureWorldIsVerified | CA57-code/ipl/bl1/bl1_fwu.c:503-546 | whenever the secure world has control, the image that has it was verified since its last reset |
| FwuTheorems.CopiesNeverOverlap | CA57-code/ipl/bl1/bl1_fwu.c:164-319 | after every run two images being copied share no byte, sizes stay within the areas, and COPIED means complete |
| FwuTheorems.CopyAdvances | CA57-code/ipl/bl1/bl1_fwu.c:321-358 | each accepted block advances its image, and no other step changes an image being copied without ending that |
| FwuTheorems.FewBlocksComplete | CA57-code/ipl/bl1/bl1_fwu.c:321-358 | in every run at most as many accepted blocks as the image has bytes make it COPIED |
| FwuCalls.CopyAnswers | CA57-code/ipl/bl1/bl1_fwu.c:224-349 | IMAGE_COPY succeeds if and only if caller, image, state, source, size, area, mapping, slot and hook all allow it, and answers ENOMEM exactly for a bad source or size, an unmapped block or a full table |
| FwuCalls.NextBlockAnswers | CA57-code/ipl/bl1/bl1_fwu.c:262-340 | a continuing block is accepted if and only if its source can be named and what it adds is mapped |
| FwuCalls.CopyEffect | CA57-code/ipl/bl1/bl1_fwu.c:321-361 | an accepted block, first or continuing: its bytes go to the end of what was copied, clipped, no other byte changes, and the image is COPIED exactly when it is complete |
| FwuCalls.RefusedCopy | CA57-code/ipl/bl1/bl1_fwu.c:234-349 | a refused copy changes no byte, no other image, and nothing of an image that is begun |
| FwuCalls.BlocksLoad | CA57-code/ipl/bl1/bl1_fwu.c:224-362 | from any reachable state in which the area is clear, any number of fitting blocks leads to COPYING with their total as progress, or to COPIED |
| FwuCalls.CoveringBlocksComplete | CA57-code/ipl/bl1/bl1_fwu.c:351-358 | fitting blocks that cover the size lead from RESET to COPIED |
| FwuCalls.AuthAnswers | CA57-code/ipl/bl1/bl1_fwu.c:377-497 | IMAGE_AUTH: EPERM exactly for the wrong state, ENOMEM exactly for a source that does not fit, EAUTH exactly for bytes that fail verification, success exactly for bytes that pass |
| FwuCalls.RejectedEffect | CA57-code/ipl/bl1/bl1_fwu.c:445-471 | after EAUTH the image is reset and off the table, every byte of it is zero if it was copied, and no other byte changes |
| FwuCalls.AcceptedEffect | CA57-code/ipl/bl1/bl1_fwu.c:473-497 | after a success the image is authenticated and listed, with its size, and no byte changes |
| FwuCalls.ResetAnswers | CA57-code/ipl/bl1/bl1_fwu.c:694-744 | IMAGE_RESET is refused exactly for an unknown image or a secure caller, and changes something only of images under way |
| FwuCalls.ResetEffect | CA57-code/ipl/bl1/bl1_fwu.c:707-736 | of an image that is copying, copied, authenticated or interrupted every copied byte becomes zero and no other changes; size and progress are zero and it is off the table |
| FwuCalls.ExecuteAnswers | CA57-code/ipl/bl1/bl1_fwu.c:518-546 | IMAGE_EXECUTE gives control to exactly the authenticated executable secure images, for a normal-world caller |
| FwuCalls.ResumeAnswers | CA57-code/ipl/bl1/bl1_fwu.c:561-613 | IMAGE_RESUME moves control and state together in both directions and passes the parameter on |
| FwuCalls.DoneAnswers | CA57-code/ipl/bl1/bl1_fwu.c:623-670 | SEC_IMAGE_DONE resets the image, takes it off the table and returns control; its bytes stay |
| FwuContent.StepKeepsHeldExactly | CA57-code/ipl/bl1/bl1_fwu.c:224-498 | a step keeps the ownership of ranges if and only if an in-place authentication in it names a free range |
| FwuContent.AlwaysHeldExactly | CA57-code/ipl/bl1/bl1_fwu.c:224-498 | secure images under way own disjoint ranges all along a run if and only if every in-place authentication by the secure world that succeeded named a free range |
| FwuContent.InPlaceAuthKeepsHeldExactly | CA57-code/ipl/bl1/bl1_fwu.c:411-439 | a successful in-place authentication by the secure world keeps ownership exactly when its size covers what was copied before, fits the area, and no other image owns a byte of the range |
| FwuContent.CopyAppends | CA57-code/ipl/bl1/bl1_fwu.c:321-358 | an accepted block, clipped to what is missing, is appended to the bytes of its image |
| FwuContent.OthersKeepRange | CA57-code/ipl/bl1/bl1_fwu.c:351-731 | no other step, be it a copy, a zeroing after failed authentication, a reset, an authentication of another image or a store, touches the range of a loaded image, as long as images own their ranges |
| FwuContent.BytesAreTheBlocksReceived | CA57-code/ipl/bl1/bl1_fwu.c:224-362 | in runs whose in-place authentications name free ranges, the bytes at the base of a copied image are the concatenation of its accepted blocks, from its first block until it runs or is reset |
| FwuContent.AuthenticatedBytesVerify | CA57-code/ipl/bl1/bl1_fwu.c:404-474 | in runs whose in-place authentications name free ranges, what was verified at an image's base, copied or in place, still verifies there after everything other images underwent |
| FwuContent.CopiedIsVerifiedAtBase | CA57-code/ipl/bl1/bl1_fwu.c:404-410 | a copied image is always verified at its base |
| FwuContent.ExecutedBytesWereVerified | CA57-code/ipl/bl1/bl1_fwu.c:503-546 | in such runs the bytes handed to execution are those that verification accepted if it read them at the base; for a copied image it did, and they are its complete accepted blocks |
| FwuContent.SameBytesExactly | CA57-code/ipl/bl1/bl1_fwu.c:434-435 | two ranges hold the same bytes in every memory exactly when they are the same |
| FwuContent.InPlaceVouchesExactly | CA57-code/ipl/bl1/bl1_fwu.c:411-474 | for every memory and every authentication module, what an in-place authentication accepts is what lies at the image's base right after the call if and only if its source is that base |
| FwuContent.InPlaceIsSoundExactly | CA57-code/ipl/bl1/bl1_fwu.c:411-474 | after an accepted in-place authentication every image owns its range and the verdict holds at the base, if and only if the call read at the base and named a free range |
| FwuContent.AlwaysSoundExactly | CA57-code/ipl/bl1/bl1_fwu.c:224-498 | over a run, ownership has held at every point and every in-place verdict held at the base, if and only if every accepted in-place call was sound in this sense |
| FwuContent.SoundRunsExecuteVerifiedBytes | CA57-code/ipl/bl1/bl1_fwu.c:503-546 | in a run of sound calls the bytes handed to execution always are bytes that verification accepted, copied or not |
| FwuWitness.InPlaceAuthenticationIsNotEnough | CA57-code/ipl/bl1/bl1_fwu.c:411-439 | a concrete run in which all ranges are free and unverified bytes are executed |
| FwuOverlap.FreeRangeIsNeeded | CA57-code/ipl/bl1/bl1_fwu.c:411-439 | a concrete run in which an image is verified at its own base in a range that is not free, and other bytes are executed |
| FwuWitness.ResumeWithoutInterruptedImageStops | CA57-code/ipl/bl1/bl1_fwu.c:561-583 | a concrete run after which no image is interrupted and a resume of the normal world fails an assertion |
| FwuWitness.CopyAfterFailedHookStops | CA57-code/ipl/bl1/bl1_fwu.c:182-192 | a concrete run in which a pre-load hook fails and the next copy of another image fails an assertion |
| FwuWitness.ResetOfRunningImageStops | CA57-code/ipl/bl1/bl1_fwu.c:738-740 | at boot, a reset of the running image fails an assertion |
| Bl1Fwu.CallOf | CA57-code/ipl/bl1/bl1_fwu.c:68-97 | exactly the function ids from IMAGE_COPY to IMAGE_RESET stand for calls, each for the call of its own id |
| Bl1Fwu.CallsComeBack | CA57-code/ipl/bl1/bl1_fwu.c:68-92 | every call can be made, and the upper halves of the registers that are cast do not matter |
| Bl1Fwu.Service.constructor | CA57-code/ipl/bl1/bl1_fwu.c:112-114 | the service starts in the boot state, which satisfies the invariant |
| Bl1Fwu.Service.SmcHandler | CA57-code/ipl/bl1/bl1_fwu.c:58-100 | the handler takes exactly the step of the transition system that the registers stand for, and stays valid unless it halts |
| Bl1Fwu.Service.AddLoadedId | CA57-code/ipl/bl1/bl1_fwu.c:120-139 | succeeds exactly when the id is listed or a slot is free, and then the id is in the first free slot |
| Bl1Fwu.Service.RemoveLoadedId | CA57-code/ipl/bl1/bl1_fwu.c:145-158 | succeeds exactly when the id is listed, and frees its first slot |
| Bl1Fwu.Service.ImageCheckOverlaps | CA57-code/ipl/bl1/bl1_fwu.c:164-219 | the loop over the table gives the verdict of the first slot that is not clear |
| Bl1Fwu.Service.CopyMemory | CA57-code/ipl/bl1/bl1_fwu.c:351-354 | the destination holds the former source bytes, everything else is unchanged |
| Bl1Fwu.Service.ZeroMemory | CA57-code/ipl/bl1/bl1_fwu.c:717-726 | the range is zero, everything else is unchanged |
| Bl1Fwu.Service.HandleImageCopy | CA57-code/ipl/bl1/bl1_fwu.c:224-362 | answer, descriptors, table and memory after the call are those of the copy step |
| Bl1Fwu.Service.StartCopy | CA57-code/ipl/bl1/bl1_fwu.c:284-319 | a first copy records its size and resets its progress exactly when its area is clear |
| Bl1Fwu.Service.CopyOneBlock | CA57-code/ipl/bl1/bl1_fwu.c:321-361 | the rest of the copy, from clipping on, matches the transition system, error returns included |
| Bl1Fwu.Service.StoreBlock | CA57-code/ipl/bl1/bl1_fwu.c:351-358 | the block is stored and the image advances, to COPIED exactly when it is complete |
| Bl1Fwu.Service.HandleImageAuth | CA57-code/ipl/bl1/bl1_fwu.c:367-498 | answer and new state are those of the authentication step for every caller and image state |
| Bl1Fwu.Service.FinishAuth | CA57-code/ipl/bl1/bl1_fwu.c:441-497 | a copied image that fails is zeroed and reset, and any that fails is taken off the table |
| Bl1Fwu.Service.HandleImageExecute | CA57-code/ipl/bl1/bl1_fwu.c:503-546 | answer and new state are those of the execution step |
| Bl1Fwu.Service.HandleImageResume | CA57-code/ipl/bl1/bl1_fwu.c:552-614 | answer and new state are those of the resume step, for both worlds |
| Bl1Fwu.Service.HandleSecImageDone | CA57-code/ipl/bl1/bl1_fwu.c:619-671 | answer and new state are those of the completion step |
| Bl1Fwu.Service.HandleImageReset | CA57-code/ipl/bl1/bl1_fwu.c:692-745 | answer and new state are those of the reset step |
| Bl1Fwu.Service.ResetUnderway | CA57-code/ipl/bl1/bl1_fwu.c:712-736 | an image under way is taken off the table, its copied bytes are zeroed, and all progress is forgotten |
| EhfBits.ClearLowest | CA57-code/ipl/bl31/ehf.c:199 | clearing with `a & (a - 1)` removes exactly the bit that `ctz` names |
| EhfBits.StackAsBits | CA57-code/ipl/bl31/ehf.c:80-87 | the lowest set bit is the top of the stack, and clearing it pops the stack |
| EhfBits.PushSetsBit | CA57-code/ipl/bl31/ehf.c:131-132 | pushing a smaller index is setting its bit |
| EhfBits.BitsDetermineStack | CA57-code/ipl/bl31/ehf.c:80-87 | the word determines the stack |
| EhfTheorems.StepKeeps | CA57-code/ipl/bl31/ehf.c:99-359 | every event in order keeps the stack, the mask below its top and the stashed masks |
| EhfTheorems.RunKeeps | CA57-code/ipl/bl31/ehf.c:99-359 | the same after every run, with the mask that the normal world last ran with |
| EhfTheorems.EntryRestoresMask | CA57-code/ipl/bl31/ehf.c:274-313 | after every run entry to the normal world never panics, and without activations restores the mask the normal world last ran with |
| EhfTheorems.ExitNeverPanics | CA57-code/ipl/bl31/ehf.c:231-261 | after every run leaving the normal world finds no stale stashed mask and no secure mask |
| EhfTheorems.ExitMasks | CA57-code/ipl/bl31/ehf.c:231-261 | after every run, leaving the normal world without activations raises the mask to 0x80 and stashes the mask the normal world ran with; with activations, leaving and entering change nothing |
| EhfTheorems.StashedExactly | CA57-code/ipl/bl31/ehf.c:245-310 | after every run a mask is stashed exactly if the last exit or entry that found no activations was an exit and preemption has not been allowed since; it is the mask the normal world ran with |
| EhfTheorems.PreemptionExactly | CA57-code/ipl/bl31/ehf.c:326-388 | after every run preemption is reported as allowed exactly without activations and with nothing stashed, and allowing it succeeds exactly without activations and with a mask stashed, which is then in force |
| EhfTheorems.UnhinderedPreemption | CA57-code/ipl/bl31/ehf.c:326-388 | if no exit or entry finds activations, something is stashed outside the normal world exactly if preemption has not been allowed since the exit |
| EhfTheorems.PreemptionMeansMaskIsBack | CA57-code/ipl/bl31/ehf.c:326-388 | without activations, preemption is reported as allowed exactly while the normal world's mask is in force |
| EhfTheorems.IndexIsShift | CA57-code/ipl/bl31/ehf.c:54-63 | the index of a priority is the shift of its low seven bits |
| EhfTheorems.PriorityIsShift | CA57-code/ipl/bl31/ehf.c:40-41 | and the priority of an index the shift back |
| EhfTheorems.ActivationExactly | CA57-code/ipl/bl31/ehf.c:99-154 | after every run a declared secure priority above the running one can be activated exactly when it is below the mask and does not share its index with the most recent activation; stack and masks afterwards |
| EhfTheorems.ChangesKeepBaseMask | CA57-code/ipl/bl31/ehf.c:139-210 | no sequence of activations and deactivations changes the mask below the activations |
| EhfTheorems.BalancedChangesKeepMask | CA57-code/ipl/bl31/ehf.c:139-210 | from a processor without activations, that mask is stashed as long as there are any, and is in force again when there are none |
| EhfTheorems.DeactivatingTopSucceeds | CA57-code/ipl/bl31/ehf.c:189-215 | after every run a priority with the index of the most recent activation can be deactivated exactly when it is not above the mask; stack and masks afterwards; the activated priority itself never reaches the panic at 211-215 |
| EhfTheorems.NonCanonicalDeactivationPanics | CA57-code/ipl/bl31/ehf.c:211-215 | a run after which another priority with the same index does reach it |
| EhfTheorems.DeactivationPopsMostRecent | CA57-code/ipl/bl31/ehf.c:189-199 | a deactivation that succeeds removes the most recent activation |
| EhfTheorems.CanonicalDeactivation | CA57-code/ipl/bl31/ehf.c:166-215 | with canonical priorities a deactivation succeeds exactly when it names the most recent activation |
| EhfTheorems.RestoresMaskExactlyWhenOutermost | CA57-code/ipl/bl31/ehf.c:201-209 | an activation and its deactivation, whatever is activated and deactivated in between, leave the mask as it was exactly when no other activation is outstanding |
| EhfTheorems.NestedReactivationPanics | CA57-code/ipl/bl31/ehf.c:139-144 | after a nested activation was deactivated, whatever happened in between, the same priority cannot be activated again |
| EhfTheorems.NestedReactivationExample | CA57-code/ipl/bl31/ehf.c:201-209 | priorities 0x40, 0x20 and 0x20 again on a platform with three levels |
| Ehf.Processor.HighestActiveIdx | CA57-code/ipl/bl31/ehf.c:80-87 | the index found is that of the most recent activation, and the word fits 32 bits |
| Ehf.Processor.MarkActive | CA57-code/ipl/bl31/ehf.c:131-132 | the word now stands for the stack with the priority pushed |
| Ehf.Processor.UnmarkHighest | CA57-code/ipl/bl31/ehf.c:198-199 | the word now stands for the stack without its top |
| Ehf.Processor.RaiseMask | CA57-code/ipl/bl31/ehf.c:139-151 | the mask is raised, and the one before the first activation stashed, exactly when it is lower |
| Ehf.Processor.ActivatePriority | CA57-code/ipl/bl31/ehf.c:99-154 | on bits and masks, exactly a push on the stack with its panics |
| Ehf.Processor.DeactivatePriority | CA57-code/ipl/bl31/ehf.c:166-218 | on bits and masks, exactly a pop with its panics |
| Ehf.Processor.LeftNormalWorld | CA57-code/ipl/bl31/ehf.c:231-261 | the step that stashes the normal world's mask, or its panics |
| Ehf.Processor.EnterNormalWorld | CA57-code/ipl/bl31/ehf.c:274-313 | the step that restores the stashed mask, or its panic |
| Ehf.Processor.PermitNsPreemption | CA57-code/ipl/bl31/ehf.c:326-359 | the stashed mask is put in force and forgotten, or the call panics |
| Ehf.Processor.NsPreemptionPermitted | CA57-code/ipl/bl31/ehf.c:365-388 | the answer agrees with the stack, not just with the word |
| StorageEnum.ListHolds | CA57-code/u-boot/api/api_storage.c:98-154 | a device is listed from a position on exactly when it is there or later with no device of unknown type before it in its group |
| StorageEnum.ListedExactly | CA57-code/u-boot/api/api.c:198-228 | the list names, each once, the network device and of every group exactly the devices before its first one of unknown type |
| StorageEnum.ListOrdered | CA57-code/u-boot/api/api_storage.c:280-291 | the list is in the order of groups and, within a group, of indices |
| StorageEnum.ListIsCompleteExactly | CA57-code/u-boot/api/api_storage.c:138-148 | every existing device is listed if and only if none is of unknown type |
| StorageEnum.InterruptedExample | CA57-code/u-boot/api/api_storage.c:138-148 | an inventory of two devices of which only the second is enumerated, after a group was left unfinished |
| StorageEnum.SkipsEarlier | CA57-code/u-boot/api/api_storage.c:224-252 | a group that was left earlier returns nothing and counts as ended; if it is met out of order, it was left at a device of unknown type |
| StorageEnum.AskAdvances | CA57-code/u-boot/api/api_storage.c:98-154 | a group that is asked returns the next device, is finished, or is left at a device of unknown type, and what remains of the list is exactly what it leaves |
| StorageEnum.TurnAdvances | CA57-code/u-boot/api/api_storage.c:180-268 | at every point of an enumeration, one group's turn returns the first of what remains or leaves all of it to the later groups |
| StorageEnum.LastMeetsAll | CA57-code/u-boot/api/api_storage.c:224-252 | when nothing remains, every group that was left for a later one has been met out of order |
| StorageEnum.Enumerator.DevStorGet | CA57-code/u-boot/api/api_storage.c:98-154 | finds the first device of the group after the cookie, skipping holes, and tells an active one from one of unknown type |
| StorageEnum.Enumerator.DevStorType | CA57-code/u-boot/api/api_storage.c:159-169 | the first group that holds the device, or none |
| StorageEnum.Enumerator.DevIsStor | CA57-code/u-boot/api/api_storage.c:174-177 | whether the device is of the group, as devices are distinct |
| StorageEnum.Enumerator.DevEnumReset | CA57-code/u-boot/api/api_storage.c:270-278 | no group counts as started or ended |
| StorageEnum.Enumerator.DevEnumStor | CA57-code/u-boot/api/api_storage.c:180-268 | cookie and flags after the call for every cookie and all flags; the out-of-order branch exactly for a cookie of elsewhere and a group started but not ended |
| StorageEnum.Enumerator.DevEnumStorage | CA57-code/u-boot/api/api_storage.c:280-291 | in an enumeration the groups together return the first remaining storage device, or there is none |
| StorageEnum.Enumerator.ApiDevEnum | CA57-code/u-boot/api/api.c:198-228 | one call moves the cookie to the next device of the list, and to NULL after the last |
| StorageEnum.Enumerator.EnumerateDevices | CA57-code/u-boot/examples/api/glue.c:179-206 | feeding cookies back yields the whole list in order; the out-of-order branch is taken exactly when a group was left at a device of unknown type although a later group has a device to enumerate |
| HandOff.ChainUnique | CA57-code/ipl/common/desc_image_load.c:166-201 | there is at most one hand-off chain |
| HandOff.ChainAcyclic | CA57-code/ipl/common/desc_image_load.c:181-187 | a chain meets no image twice |
| HandOff.LoopMeansNoChain | CA57-code/ipl/common/desc_image_load.c:181-184 | hand-offs that meet an image twice never end |
| HandOff.LongPathMeansNoChain | CA57-code/ipl/common/desc_image_load.c:162-204 | more hand-offs than descriptors never end, so the bounded loop misses no chain |
| HandOff.BlParams.NodeIndex | CA57-code/ipl/common/desc_image_load.c:53-64 | the first descriptor with the id, or -1 exactly when there is none |
| HandOff.BlParams.FindHead | CA57-code/ipl/common/desc_image_load.c:143-157 | the first executable image marked as first, or none exactly when there is none |
| HandOff.BlParams.LinkNode | CA57-code/ipl/common/desc_image_load.c:173-190 | hanging a node in keeps an acyclic null-terminated list, or closes a loop that the next assertion detects |
| HandOff.BlParams.BuildHandOffList | CA57-code/ipl/common/desc_image_load.c:130-207 | every assertion passes exactly when a chain exists; the result is then that chain, in order, distinct and null-terminated |
| HandOff.BlParams.BuildLoadList | CA57-code/ipl/common/desc_image_load.c:90-121 | all images in table order, each node with its id and linked to the next |
| HandOff.BlParams.ParseParams | CA57-code/ipl/common/desc_image_load.c:353-362 | on a null-terminated list the entry points are those of the last BL32 and BL33 nodes, or none |
| HandOff.BlParams.UniqueIdsAreRecovered | CA57-code/ipl/common/desc_image_load.c:353-362 | with unique ids these are the images' own entry points |
| RuntimeSvc.FidParts | CA57-code/ipl/common/runtime_svc.c:17-22 | bit 31 of a function id is its call type, bits 29 to 24 are its owning entity, and no other bit matters |
| RuntimeSvc.AnswersAreOwners | CA57-code/ipl/common/runtime_svc.c:32-56 | the answer to such an id is the last accepted descriptor of that type whose entities include that one, and none exactly when there is none |
| RuntimeSvc.OneAnswer | CA57-code/ipl/common/runtime_svc.c:90-154 | for every function id a linear search has exactly one answer |
| RuntimeSvc.CoversBySlot | CA57-code/ipl/common/runtime_svc.c:139-152 | a well-formed descriptor covers a call exactly when it owns the call's slot |
| RuntimeSvc.AnswersBySlot | CA57-code/ipl/common/runtime_svc.c:32-56 | a slot filled with the last owner answers the call as the linear search does |
| RuntimeSvc.Dispatcher.RuntimeSvcInit | CA57-code/ipl/common/runtime_svc.c:90-154 | succeeds exactly when the count is in range and all descriptors are well-formed; every slot then holds its last accepted owner |
| RuntimeSvc.Dispatcher.Register | CA57-code/ipl/common/runtime_svc.c:139-152 | the table agrees with one descriptor more |
| RuntimeSvc.Dispatcher.HandleRuntimeSvc | CA57-code/ipl/common/runtime_svc.c:32-56 | the service called is the last accepted one of the type in bit 31 whose entities include the one in bits 29 to 24, and SMC_UNK is returned exactly when there is none |
| WordFields.BytesOfWord | CortexR7_Loader/common/gic_v2.c:238-268 | the four fields of a register are its bytes as numbers, the lowest interrupt in the lowest |
| WordFields.SetByteByte | CortexR7_Loader/common/gic_v2.c:238-260 | a byte of a packed register is set and its neighbours stay |
| WordFields.OrByteByte | CortexR7_Loader/common/gic_v2.c:262-268 | bits are added to one byte and its neighbours stay |
| WordFields.ClearBitBit | CortexR7_Loader/common/gic_v2.c:184-190 | one bit is cleared and all others stay |
| ArmGic.Distributor.ClrIgroupr | CortexR7_Loader/common/gic_v2.c:184-190 | exactly one interrupt leaves group 1 |
| ArmGic.Distributor.SetIsenabler | CortexR7_Loader/common/gic_v2.c:192-197 | exactly one interrupt becomes enabled |
| ArmGic.Distributor.SetIpriorityr | CortexR7_Loader/common/gic_v2.c:238-260 | exactly one interrupt's priority changes |
| ArmGic.Distributor.SetItargetsr | CortexR7_Loader/common/gic_v2.c:262-268 | exactly one interrupt gains targets |
| ArmGic.Distributor.NumInts | CortexR7_Loader/common/arm_gic.c:142-143 | 32 times one more than the lowest five bits of the type register |
| ArmGic.Distributor.CpuifId | CortexR7_Loader/common/arm_gic.c:113-119 | the lowest byte of the first target register |
| ArmGic.Distributor.DefaultSpiGroups | CortexR7_Loader/common/arm_gic.c:142-145 | 32 at a time, all shared interrupts and no others enter group 1 |
| ArmGic.Distributor.DefaultPriorities | CortexR7_Loader/common/arm_gic.c:147-151 | four at a time, all interrupts of the range and no others get priority 0x80 |
| ArmGic.Distributor.ConfigureSpis | CortexR7_Loader/common/arm_gic.c:158-170 | listed shared interrupts, in any order and however often, become secure, urgent, routed and enabled; all others keep every field |
| ArmGic.Distributor.PcpuDistifSetup | CortexR7_Loader/common/arm_gic.c:74-108 | the same for the processor's own interrupts, the inverted mask included |
| ArmGic.Distributor.TurnOff | CortexR7_Loader/common/arm_gic.c:133-135 | neither group is forwarded, and the other control bits stay |
| ArmGic.Distributor.TurnOnGroup0 | CortexR7_Loader/common/arm_gic.c:179 | group 0 alone is forwarded |
| ArmGic.Distributor.DistifSetup | CortexR7_Loader/common/arm_gic.c:126-180 | for any list of ids: listed ones end in group 0, priority 0, enabled and routed here, all others in group 1 with priority 0x80; forwarding is off until the last write |
| RleTexture.DecodePacket | 2d-wow-cluster-demo/src/misc/texture.c:129-155 | the decoder reads a packet back: its pixels, its end, and its charge, which a single-pixel run does not pay |
| RleTexture.DecodePackets | 2d-wow-cluster-demo/src/misc/texture.c:122-157 | a packetisation is decoded to its pixels, after which the decoder goes on with the bytes it left uncharged |
| RleTexture.DecodesExactly | 2d-wow-cluster-demo/src/misc/texture.c:122-157 | without single-pixel runs exactly the pixels are written and exactly the data is consumed |
| RleTexture.SinglesReadOn | 2d-wow-cluster-demo/src/misc/texture.c:147-154 | each single-pixel run makes the decoder read beyond the data |
| RleTexture.RoundTrip | 2d-wow-cluster-demo/src/misc/texture.c:122-157 | any packetisation decodes to the pixels it was made from, and consumes the source exactly when it has no single-pixel run |
| RleTexture.GatherPixel | 2d-wow-cluster-demo/src/misc/texture.c:77-93 | the bytes of the gathered word are the source bytes, lowest first |
| RleTexture.WritePixel | 2d-wow-cluster-demo/src/misc/texture.c:68-103 | every pixel size writes the source bytes unchanged |
| RleTexture.WritePacket | 2d-wow-cluster-demo/src/misc/texture.c:137-155 | the pixel loop writes the packet's pixels and charges them, but for a single-pixel run |
| RleTexture.DecompressRle | 2d-wow-cluster-demo/src/misc/texture.c:122-157 | for every input the loops end and write what the packet-wise decoder gives |
| FlashCrc.AddFolds | CA57-code/u-boot/cmd/armflash.c:50-53 | one addition with end-around carry is addition modulo 2^32 - 1 with the right representative of zero |
| FlashCrc.ComputeCrc | CA57-code/u-boot/cmd/armflash.c:37-56 | the loop computes the complement of the folded sum |
| FlashCrc.CrcIsComplement | CA57-code/u-boot/cmd/armflash.c:37-56 | the checksum is the complement of the sum reduced modulo 2^32 - 1, which is zero only for all-zero words |
| FlashCrc.CrcIgnoresOrder | CA57-code/u-boot/cmd/armflash.c:37-56 | the same words in another order have the same checksum |
| FlashCrc.CrcZeroMeans | CA57-code/u-boot/cmd/armflash.c:136-144 | the checksum is zero exactly when the words are not all zero and add up to a multiple of 2^32 - 1 |
| FlashCrc.FooterCheckAcceptsChecksum | CA57-code/u-boot/cmd/armflash.c:136-144 | wherever a word is inserted, the check passes exactly when it is the checksum of the others, or all ones if that is zero |
| FlashCrc.FooterCheckNoticesChange | CA57-code/u-boot/cmd/armflash.c:136-144 | changing one word of a sound footer is noticed, except between zeros and ones |
| DmaFill.MaskRoundsDown | CortexR7_Loader/common/dma_driver.c:232-236 | the mask rounds down to a whole number of units |
| DmaFill.FilledExactly | CortexR7_Loader/common/dma_driver.c:225-249 | the channels fill the length rounded up to units exactly for the lengths in `Covers`, all from 1 KB on among them |
| DmaFill.ShortFillExample | CortexR7_Loader/common/dma_driver.c:232-236 | of 384 bytes only 256 are filled |
| DmaFill.PathsAgreeExactly | CortexR7_Loader/common/dma_driver.c:252-270 | the processor's path and the channels clear the same range exactly for the sizes in `PathsAgree` |
| DmaFill.PowersOfTwoAreCleared | CortexR7_Loader/common/dma_driver.c:252-270 | every power of two from 4 KB on is cleared exactly, by either path |
| DmaFill.Sram.Partition | CortexR7_Loader/common/dma_driver.c:237-245 | four shares in a row, the last one longer |
| DmaFill.Sram.PlanFill | CortexR7_Loader/common/dma_driver.c:225-245 | the channels' ranges follow each other without gap or overlap, and the first three are the most whole units in a quarter of the length |
| DmaFill.Sram.ExecFillDma | CortexR7_Loader/common/dma_driver.c:225-249 | one contiguous range is zero and nothing else changed |
| DmaFill.Sram.FillByCpu | CortexR7_Loader/common/dma_driver.c:258-265 | the whole eight-byte words of the area are zero and nothing else changed |
| DmaFill.Sram.ExecFillSram | CortexR7_Loader/common/dma_driver.c:252-270 | what is cleared, whichever path is taken |
| Printf.DecimalIsTheNumeral | CortexR7_Loader/common/printf.c:17-43 | the decimal text is the only numeral without leading zeros that reads as the number |
| Printf.TenDigitsSuffice | CortexR7_Loader/common/printf.c:19-34 | a 32-bit number has at most the ten digits that num_buf holds |
| Printf.SignedRoundTrip | CortexR7_Loader/common/printf.c:46-62 | reading a rendered signed number gives it back, the lowest one included if its negation wraps around |
| Printf.HexIsTheNumeral | CortexR7_Loader/common/printf.c:65-86 | the eight digits are the only ones that read as the number |
| Printf.HexAt | CortexR7_Loader/common/printf.c:71-81 | shifting and masking yields the digits from the front |
| Printf.UnsignedMeans | CortexR7_Loader/common/printf.c:126-133 | `%u` prints the numeral of the argument and `%x` its eight digits |
| Printf.SignedMeans | CortexR7_Loader/common/printf.c:116-121 | `%d` and `%i` print the numeral, or for a set sign bit a minus and the numeral of the distance to 2^32 |
| Printf.StringMeans | CortexR7_Loader/common/printf.c:122-125 | `%s` prints the string |
| Printf.RenderPieces | CortexR7_Loader/common/printf.c:112-142 | a literal prints itself, a conversion its argument, and any other character after a `%` nothing |
| Printf.RenderConcat | CortexR7_Loader/common/printf.c:112-142 | formats after each other, with their arguments, print their renderings after each other |
| Printf.NullFormatPrints | CortexR7_Loader/common/printf.c:247-249 | a null format prints a note |
| Printf.NumbersAreRecoverable | CortexR7_Loader/common/printf.c:237-286 | if each decimal but the last is followed by a literal that is no digit, equal renderings come from equal arguments |
| Printf.AdjacentNumbersAreAmbiguous | CortexR7_Loader/common/printf.c:251-281 | without a separator they need not |
| Printf.FillDigits | CortexR7_Loader/common/printf.c:151-168 | the buffer holds the digits in reverse and no index exceeds it |
| Printf.HexDigitAt | CortexR7_Loader/common/printf.c:205-214 | each character is the digit of its place |
| Printf.Console.Uint32Print | CortexR7_Loader/common/printf.c:17-43 | the console receives exactly the decimal text |
| Printf.Console.Int32Print | CortexR7_Loader/common/printf.c:46-62 | the console receives exactly the signed text |
| Printf.Console.Uint32HexPrint | CortexR7_Loader/common/printf.c:65-86 | the console receives exactly the eight digits |
| Printf.Console.StrPrint | CortexR7_Loader/common/printf.c:89-100 | the console receives exactly the string |
| Printf.Console.TfPrintf | CortexR7_Loader/common/printf.c:103-144 | the console receives exactly the rendering of format and arguments |
| Printf.Uint32Sprint | CortexR7_Loader/common/printf.c:151-177 | the decimal text is written at the position and nothing else |
| Printf.Int32Sprint | CortexR7_Loader/common/printf.c:180-196 | the signed text is written at the position and nothing else |
| Printf.Uint32HexSprint | CortexR7_Loader/common/printf.c:199-220 | the eight digits are written at the position and nothing else |
| Printf.StrSprint | CortexR7_Loader/common/printf.c:223-234 | the string is written at the position and nothing else |
| Printf.SprintText | CortexR7_Loader/common/printf.c:251-281 | the loop over the format writes exactly the rendering |
| Printf.Sprintf | CortexR7_Loader/common/printf.c:237-286 | the buffer's C string is exactly the same rendering, its length is returned, and the rest of the buffer is untouched |
| CarModel.PassKeepsOutlook | 2d-wow-cluster-demo/src/app_cl_carmodel.c:109-122 | a pass that misses the range shifts a gear if the range can still be reached, and never changes whether it can |
| CarModel.LoopEndsExactly | 2d-wow-cluster-demo/src/app_cl_carmodel.c:107-124 | from every defined state, the loop ends if and only if shifting in the driving direction can reach the range |
| CarModel.BrakingTooFastLoops | 2d-wow-cluster-demo/src/app_cl_carmodel.c:107-124 | braking in first gear above 8000 rpm it never ends |
| CarModel.TickCruises | 2d-wow-cluster-demo/src/app_cl_carmodel.c:82-124 | over every tick the gear suits the speed, one pass is enough, and speed, gear and engine speed stay in range |
| CarModel.Ticks | 2d-wow-cluster-demo/src/app_cl_carmodel.c:312-345 | so after any number of ticks from InitCarModel |
| CarModel.TickMoves | 2d-wow-cluster-demo/src/app_cl_carmodel.c:82-104 | outside the pauses a tick moves the speed by 0.95 km/h, and the car turns at 240 and 10 km/h |
| CarModel.Pauses | 2d-wow-cluster-demo/src/app_cl_carmodel.c:86-95 | at 10, 50 and 240 km/h nothing but the counter changes for 99 ticks, and the hundredth moves or turns the car |
| CarModel.TickShifts | 2d-wow-cluster-demo/src/app_cl_carmodel.c:107-122 | gear and engine speed after a tick, with the thresholds of 5500 and 2700 rpm |
| CarModel.AlwaysTurns | 2d-wow-cluster-demo/src/app_cl_carmodel.c:82-104 | no pause lasts: within 27700 ticks the car turns around, at the end of its speed range |
| CarModel.CarData.InitCarModel | 2d-wow-cluster-demo/src/app_cl_carmodel.c:337-344 | the initial state, which keeps the static counter |
| CarModel.CarData.UpdateSpeed | 2d-wow-cluster-demo/src/app_cl_carmodel.c:82-104 | the speed step with its pauses and turns |
| CarModel.CarData.UpdateRpm | 2d-wow-cluster-demo/src/app_cl_carmodel.c:107-124 | the loop ends on every state of `CanSettle` and leaves the first state in range |
| CarModel.CarData.CarModelUpdate | 2d-wow-cluster-demo/src/app_cl_carmodel.c:312-315 | one tick, after which the car cruises |

## Left out

- SmcHandler: world contexts, cache maintenance, `auth_img_flags` and the return register's encoding are not modelled, because no branch depends on them; UPDATE_DONE is a call that never returns.
- DeactivatePriority: the state after a panic is not described, nor is it for the other functions of the framework.
- NumbersAreRecoverable: the condition on the format is sufficient; some formats in which hexadecimal numbers or digits separate two decimals are readable as well.
- Sprintf: the output is shorter than 2^31 characters, and string arguments do not lie in the buffer.
- PlanFill: 64-bit addresses do not wrap.
- DecompressRle: destination addresses do not wrap, and the video memory is the sequence of bytes written.
- HandleRuntimeSvc: which handler is called, not what it does; a descriptor whose handler is null is not told apart.
- ParseParams: parameters of version 2, with both outputs asked for.
- CarData.UpdateSpeed: floating-point rounding of the step 0.95 is not modelled.
- Interrupt handling and handler registration of the exception-handling framework: they rest on platform code that is not part of this model.
- The interrupt distributor in the build without a non-secure master, the CPU interface and the state at power-down: a few register writes.
- Opening, reading and writing devices in the U-Boot API, and everything in `api.c` besides enumeration.
- The other commands around `compute_crc`: parsing of flash banks.
- DMA register programming and polling in `dma_driver.c`: straight-line accesses to the device.
- Turn signals, lights and the other counters of `CarModelUpdate`: each is a counter on its own.
- Clocks, pin functions, quality-of-service tables, watchdog and all drawing: tables and device accesses without state to reason about.
