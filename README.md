# Ruuvi Air B0: factory firmware recovery

A Dafny model of the factory-firmware recovery of the Ruuvi Air first-stage
bootloader (B0). It also proves properties of that model.

At power-up, `soc_late_init_hook` reads the button and then does one of three things:
- Released: it starts normally.
- Pressed, then released before ten seconds: it writes the firmware-loader boot mode.
- Held for ten seconds: it runs `factory_fw_recovery`.

The recovery does the following, in order:
1. It checks that each of the four images kept in external flash has a firmware-info descriptor in its header.
2. It copies five external areas onto their internal twins. Each copy is erased and programmed by `btldr_img_op_copy`, then compared back by `btldr_img_op_cmp`.
3. It wipes the external user space and writes the factory-reset boot mode (0xAC).
4. It waits until the button is released, then reboots.

Any failure stops the recovery and hands over to `on_factory_fw_recovery_fail`. That function blinks the red LED (`b0_led_err_blink_red_led`) until the button is released and pressed again, and then reboots.

The project has four modules:

- `Platform` (platform.dfy) models the collaborators as one `Board` class:
  - flash areas that behave as NOR flash (programming can only clear bits);
  - the retained boot-mode register, the button, the 32-bit uptime clock, the LEDs, sleep and reboot.

  Each call is appended to a call trace (`log`). Whether a failable call fails is fixed by an environment:
  - a set of failing trace positions;
  - the driver's own bounds checks.

  The button and the clock are finite streams of samples.
- `ImgOp` (img_op.dfy) models `btldr_img_op.c`. The class `Engine` owns the two static 256-byte chunk buffers. Its methods are proved against the specification functions `ProcessOutcome` and `LoopFrom`, which give the status, the call trace and the new flash contents.
- `LedErr` (led_err.dfy) models `b0_led_err.c`. `Blink` is the specification of the never-ending blink loop over a stream of button samples.
- `B0Hook` (b0_hook.dfy) models `b0_hook.c`:
  - `PressOutcome` specifies the button decision;
  - `Recover`, `RecoveryRun` and `HookOutcome` specify the recovery and the hook;
  - the class `Hook` owns the header buffer, the `Engine`, and the plan: the images to check and the copies to make.

A never-returning failure inside `img_process` or its callbacks calls `on_factory_fw_recovery_fail`. The model returns the status `Fatal` instead. The caller then runs the same failure path, so the call trace is the same as in the C code.

## Model

| member | source | states |
|---|---|---|
| ImgOp.ChunkLen | src/btldr_img_op.c:78 | A chunk is at most 256 bytes and never more than what is left. It is non-empty while bytes remain, and shorter than 256 only when it is the whole remainder. |
| ImgOp.ChunksTile | src/btldr_img_op.c:73-99 | The chunks of the loop tile `[off, size)` exactly. Chunk k starts at `off + 256k`, every chunk but the last is 256 bytes, the last ends at `size`, and there are ceil((size-off)/256) of them. |
| ImgOp.ChunkFailFast | src/btldr_img_op.c:78-95 | One loop pass reads the source chunk first. It is fatal exactly when its last call failed. When it is not fatal it made exactly the read and the callback's call. |
| ImgOp.LoopCallsSucceed | src/btldr_img_op.c:76-99 | Every call of the chunk loop except possibly the last succeeded: the loop stops at its first failed call. |
| ImgOp.LoopFatalIffLastFails | src/btldr_img_op.c:76-99 | The loop ends fatally exactly when its last call failed. |
| ImgOp.LoopFollowsChunks | src/btldr_img_op.c:76-99 | The loop's calls are always a prefix of the full chunk-by-chunk trace: read chunk k of the source, then the callback's call on the same range. |
| ImgOp.LoopTraceComplete | src/btldr_img_op.c:76-99 | A loop that accepted every chunk made exactly the full chunk trace. |
| ImgOp.WriteLoopNeverMismatches | src/btldr_img_op.c:106-120 | `cb_img_write` never returns false, so the copy loop never stops with `is_success == false`. |
| ImgOp.LoopOnlyTouchesDst | src/btldr_img_op.c:76-99 | The loop changes no area other than the destination, and keeps every area's size. |
| ImgOp.LoopKeepsContents | src/btldr_img_op.c:122-146 | The compare loop writes no flash. |
| ImgOp.CompareLoopResult | src/btldr_img_op.c:122-146 | A compare loop that completes reports success exactly when the source and destination bytes from `off` on are equal. |
| ImgOp.CompareLoopStopsAtFirstDifference | src/btldr_img_op.c:91-95 | A compare loop that reports a mismatch stopped at the first chunk whose bytes differ. Every earlier chunk was equal, and it made two calls per chunk up to that one. |
| ImgOp.WriteLoopResult | src/btldr_img_op.c:76-120 | A copy loop that completes leaves the destination holding the source's bytes programmed over its old contents, and nothing else changed. |
| ImgOp.ChunkTraceCalls | src/btldr_img_op.c:80-131 | The chunk trace holds only reads, and, for the copy, writes to the destination. |
| ImgOp.SizeMismatchFailsBeforeTransfer | src/btldr_img_op.c:52-56 | Two areas of different sizes make `img_process` fail after the two opens, with no flash changed. |
| ImgOp.HeaderFacts | src/btldr_img_op.c:38-71 | The steps before the loop open the destination, then the source, then optionally erase the whole destination. They stop at the first failed call or a size mismatch. On success the sizes are equal and 2 or 3 calls were made. |
| ImgOp.ProcessFailFast | src/btldr_img_op.c:26-104 | `img_process` makes at least one call, and every call but the last succeeded. It is fatal exactly when the last call failed or the sizes differ. |
| ImgOp.ProcessLoopCalls | src/btldr_img_op.c:73-103 | After the opening steps, `img_process` only reads and, when copying, writes the destination. Its only closes are the final two, made when it returns. |
| ImgOp.ProcessErasesBeforeWriting | src/btldr_img_op.c:58-71 | Every write goes to the destination, only in the copy, and after the erase of the whole destination at call 2. The only erase is that one. The compare without erase makes no destructive call. |
| ImgOp.ProcessClosesOnReturn | src/btldr_img_op.c:101-103 | When `img_process` returns, its last two calls close the source and then the destination. No other close is made. |
| ImgOp.ProcessOnlyTouchesDst | src/btldr_img_op.c:26-104 | `img_process` changes no area but the destination. |
| ImgOp.CopyNeverStopsEarly | src/btldr_img_op.c:148-152 | `btldr_img_op_copy` either completes with success or fails fatally. It never reports a mismatch. |
| ImgOp.CopyResult | src/btldr_img_op.c:148-152 | A copy that returns leaves the destination holding exactly the source's bytes, because it was erased first. |
| ImgOp.CompareKeepsFlash | src/btldr_img_op.c:154-158 | `btldr_img_op_cmp` writes no flash. |
| ImgOp.CompareIffEqual | src/btldr_img_op.c:154-158 | `btldr_img_op_cmp`, when it returns, returns true exactly when the two areas hold the same bytes. |
| ImgOp.Engine.CbImgWrite | src/btldr_img_op.c:106-120 | Writes the chunk at the same offset of the destination. A failed write is fatal, and otherwise it returns true. |
| ImgOp.Engine.CbImgCmp | src/btldr_img_op.c:122-146 | Reads the destination chunk into `tmp_buf2`. A failed read is fatal, and otherwise it returns whether the chunk equals the source chunk. |
| ImgOp.Engine.ImgProcess | src/btldr_img_op.c:26-104 | Status, call trace and flash contents are those of `ProcessOutcome`. |
| ImgOp.Engine.OpenAreas | src/btldr_img_op.c:38-71 | The steps before the loop, as `Header`. On success the destination is erased if asked, and the size is returned. |
| ImgOp.Engine.ChunkStep | src/btldr_img_op.c:78-95 | One loop body: status and calls as `ChunkOutcome`, and the flash as `ChunkEffect`. |
| ImgOp.Engine.LoopPass | src/btldr_img_op.c:78-98 | One loop body ends the loop or leaves it where the loop from the next chunk starts. |
| ImgOp.Engine.ChunkLoop | src/btldr_img_op.c:73-99 | The `while (rem_len > 0)` loop ends as `LoopFrom` from offset 0: its status, calls and flash contents. |
| ImgOp.Engine.Copy | src/btldr_img_op.c:148-152 | As `ProcessOutcome` with erase and the write callback. It never reports a mismatch, changes only the destination, and on return the destination holds the source's bytes. |
| ImgOp.Engine.Compare | src/btldr_img_op.c:154-158 | As `ProcessOutcome` without erase and with the compare callback. The flash is unchanged, and when it returns it returns whether the areas are equal. |
| LedErr.NextPos | src/b0_led_err.c:53-78 | The check positions cycle: each cycle has 2·numRedBlinks + 9 checks. Every check but the last is followed by the next position, and the last one by the first. |
| LedErr.CheckNeedsRelease | src/b0_led_err.c:20-42 | Before the flag is set, a check only looks for a release and never asks for a reboot. After it is set, the flag stays set and a pressed sample asks for a reboot. |
| LedErr.ChecksFromRebootIff | src/b0_led_err.c:53-78 | The blink loop reboots exactly when some pressed sample follows a set flag. The flag may have been set at the start or by an earlier released sample. |
| LedErr.BlinkRebootIff | src/b0_led_err.c:44-79 | `b0_led_err_blink_red_led` reboots exactly when some sample shows the button released and a later one shows it pressed. |
| LedErr.ChecksFromExtends | src/b0_led_err.c:53-78 | The loop only appends calls to the trace, at least one. |
| LedErr.ChecksFromNoGreen | src/b0_led_err.c:53-78 | The loop never touches the green LED. |
| LedErr.ChecksFromRebootLast | src/b0_led_err.c:53-78 | The reboot is made at most once, as the loop's last call, exactly when the loop reboots. |
| LedErr.BlinkCallsShape | src/b0_led_err.c:44-79 | The blinking turns the green LED off first and never again. The reboot is its last call, made only when it reboots. |
| LedErr.PressReleasePressReboots | src/b0_led_err.c:44-79 | The samples pressed, released, pressed give exactly: green off, red on, 100 ms, red off, 100 ms, the 100 ms reboot delay, reboot. |
| LedErr.GapLeads | src/b0_led_err.c:70-77 | The pause after the red blinks is nine checks, each after a 100 ms sleep. |
| LedErr.RedBlinkLeads | src/b0_led_err.c:57-68 | In a red blink, the first check follows red on and 100 ms, and the second follows red off and 100 ms. |
| LedErr.RedLeads | src/b0_led_err.c:55-77 | From red blink i on, the cycle's calls are the remaining red on/off pairs followed by the nine gap sleeps. |
| LedErr.CycleLayout | src/b0_led_err.c:53-78 | One cycle is numRedBlinks red on/off pairs and then nine 100 ms sleeps, 4·numRedBlinks + 9 calls in all. |
| LedErr.QuietRestOfCycle | src/b0_led_err.c:53-78 | While the button stays released, the loop runs to the end of the cycle, makes exactly the cycle's calls, and leaves the flag set. |
| LedErr.CheckIfButtonReleasedAndPressed | src/b0_led_err.c:20-42 | Reads one sample. Before a release it only records one. After a release a press asks for a reboot, after the 100 ms delay. |
| LedErr.CheckAt | src/b0_led_err.c:59-76 | One check of the cycle ends the blinking as `Blink` says, or leaves it where the checks from the next position start. |
| LedErr.RedSetAndCheck | src/b0_led_err.c:57-68 | Red on or off, a sleep, then a check, as one step of `ChecksFrom`. |
| LedErr.RedBlink | src/b0_led_err.c:55-69 | One red blink: two steps of `ChecksFrom`. |
| LedErr.GapCheck | src/b0_led_err.c:70-77 | One gap check: one step of `ChecksFrom`. |
| LedErr.BlinkRedLed | src/b0_led_err.c:44-79 | The calls made and whether it rebooted are those of `Blink` over the button samples. Without a reboot every sample was used. |
| B0Hook.Delta | src/b0_hook.c:88 | The `uint32_t` subtraction is always below 2^32. |
| B0Hook.DeltaIsElapsed | src/b0_hook.c:88-90 | The wrapping subtraction gives the true elapsed time whenever less than 2^32 ms passed, so a wrap of the uptime counter does not cut the delay short. |
| B0Hook.HoldFrom | src/b0_hook.c:77-94 | The polling loop uses no more samples than it has. It reads the button and clock in step: at most one more button sample than clock samples, and never fewer. |
| B0Hook.PressOutcome | src/b0_hook.c:64-97 | The button decision uses no more samples than it has. |
| B0Hook.HoldLoaderIff | src/b0_hook.c:77-94 | The loop ends in the loader exactly when the button is seen released while the delay has not yet elapsed. It has then used the button samples up to and including that release. |
| B0Hook.HoldRecoveryIff | src/b0_hook.c:77-94 | The loop ends in the recovery exactly when the button is still pressed at a sample where the 10 s delay has elapsed. It has then used the button and clock samples up to and including that one. |
| B0Hook.HoldLeds | src/b0_hook.c:72-95 | Within the loop both LEDs are on, and they are turned off together when the loop decides. |
| B0Hook.PressNormalIff | src/b0_hook.c:68-71 | A normal start happens exactly when the button is released at power-up. |
| B0Hook.PressLoaderIff | src/b0_hook.c:64-97 | The loader flag is set exactly when the button, pressed at power-up, is released before the delay. The button samples after that release are left for the later waits. |
| B0Hook.PressRecoveryIff | src/b0_hook.c:64-97 | The function returns true exactly when the button, pressed at power-up, is still pressed once the delay has elapsed. The button samples after that one are left for the recovery's waits. |
| B0Hook.PressLeds | src/b0_hook.c:64-97 | The LEDs are untouched on a normal start. Otherwise both go on and, once the loop decides, both go off. |
| B0Hook.CheckAndHandleButtonPress | src/b0_hook.c:64-97 | Decision, calls and samples used are those of `PressOutcome`. |
| B0Hook.ImageCheck | src/b0_hook.c:99-130 | `check_img_in_ext_flash` makes the open, then the header read from offset 0. It succeeds exactly when both calls succeed, the area is long enough, and the header holds a firmware-info descriptor. |
| B0Hook.CheckCalls | src/b0_hook.c:132-152 | Checking n images makes 2n calls, all opens and reads. |
| B0Hook.ImagesCheckIff | src/b0_hook.c:132-152 | `check_images_in_ext_flash` succeeds exactly when every image is valid and every call succeeded. Its calls are a prefix of the open-and-read calls of every image, and all of them when it succeeds. |
| B0Hook.ProcessTransfersOnly | src/btldr_img_op.c:26-104 | `img_process` only opens, reads, writes, erases and closes areas. |
| B0Hook.CopyPairResult | src/b0_hook.c:154-178 | A verified copy changes no area but the destination. It succeeds exactly when the copy returns and the compare returns true. It then leaves the destination holding the source's bytes. |
| B0Hook.CopyPairTransfersOnly | src/b0_hook.c:154-178 | A verified copy only opens, reads, writes, erases and closes areas. |
| B0Hook.CopiesResult | src/b0_hook.c:222-253 | A run of copies that succeeds found every area. It leaves the flash as each copy applied in turn. |
| B0Hook.CopiesTransfersOnly | src/b0_hook.c:222-253 | A run of copies only opens, reads, writes, erases and closes areas. |
| B0Hook.ApplyRecoveryCopies | src/b0_hook.c:222-253 | For the five copies of the recovery, applying them in turn gives the closed form: each internal area holds its external twin's bytes. |
| B0Hook.EraseResult | src/b0_hook.c:180-211 | `flash_erase` succeeds exactly when the area exists and the open and flatten succeed, and then every byte of the area is erased. An area that was opened is closed on both paths. |
| B0Hook.FinishResult | src/b0_hook.c:254-265 | The boot-mode write is the last call exactly when the wipe succeeded. On success the user space is erased and the factory-reset boot mode was written successfully. |
| B0Hook.ChecksComeFirst | src/b0_hook.c:218-221 | The recovery starts with the image checks. If an image is invalid or a check call fails, it stops within those calls with no flash changed. |
| B0Hook.CopiesBeforeFinish | src/b0_hook.c:218-265 | The user space is wiped and the boot mode written only after every image was checked and every copy was verified. |
| B0Hook.RecoverEndsWithBootMode | src/b0_hook.c:259-265 | A successful recovery ends with the factory-reset boot-mode write as its last call, and that call succeeded. |
| B0Hook.RecoverResult | src/b0_hook.c:218-265 | A successful recovery found every image valid and every area present. It leaves exactly the copies applied and the user space erased. |
| B0Hook.RecoveryResult | src/b0_hook.c:218-265 | With the recovery's own images and copies: on success every internal area holds its external twin and the user space is erased. No other area changes. |
| B0Hook.WaitFrom | src/b0_hook.c:272-275 | The release wait never reads more samples than it has. |
| B0Hook.WaitFromResult | src/b0_hook.c:272-275 | The polling stops at the first released sample, after one 10 ms sleep for each pressed sample before it. Without a released sample it reads every sample. |
| B0Hook.ReleaseWait | src/b0_hook.c:269-278 | The wait before the reboot never reads more samples than it has. |
| B0Hook.ReleaseWaitResult | src/b0_hook.c:269-278 | The wait ends exactly when a released sample comes, at the first one. The LEDs go on only if the button was pressed at first, and are off again once it ends. |
| B0Hook.RebootCalls | src/b0_hook.c:267-282 | The end of a successful recovery starts by stopping the blinking. It ends with the reboot whenever the button was seen released. |
| B0Hook.RecoveryRun | src/b0_hook.c:213-283 | The recovery keeps every area at its configured size. |
| B0Hook.RecoveryRunResult | src/b0_hook.c:213-283 | `factory_fw_recovery` starts blinking. On success it leaves the copies applied, the user space erased and boot mode 0xAC, and reboots, as its last call, exactly when the button is seen released. On failure the boot mode is kept and it reboots exactly when the button is released and pressed again. |
| B0Hook.HookReturnsIff | src/b0_hook.c:285-330 | The hook returns 0 exactly when the button does not ask for the recovery. It then changed no flash, and only the recovery changes flash. |
| B0Hook.HookBootMode | src/b0_hook.c:285-330 | A new factory-reset boot mode only comes from a recovery that succeeded, with the copies applied and the user space erased. A new loader boot mode only comes from an early release. |
| B0Hook.Hook.constructor | src/b0_hook.c:99-102 | The hook owns a header buffer of the header size, distinct from the engine's buffers, and the recovery's plan. |
| B0Hook.Hook.CheckImgInExtFlash | src/b0_hook.c:99-130 | Result and calls as `ImageCheck`. |
| B0Hook.Hook.CheckNext | src/b0_hook.c:135-150 | One image check ends the run of checks, or leaves it where the checks of the remaining images start. |
| B0Hook.Hook.CheckImagesInExtFlash | src/b0_hook.c:132-152 | Result and calls as `ImagesCheck` of the four images. |
| B0Hook.Hook.CopyImgFromExtFlashToIntFlash | src/b0_hook.c:154-178 | Result, calls and flash as `CopyPairOutcome`. |
| B0Hook.Hook.FlashErase | src/b0_hook.c:180-211 | Result, calls and flash as `EraseOutcome`. |
| B0Hook.Hook.CopyNext | src/b0_hook.c:222-253 | One copy ends the run of copies, or leaves it where the remaining copies start. |
| B0Hook.Hook.CopyImages | src/b0_hook.c:222-253 | Result, calls and flash as `CopiesOutcome` of the five copies. |
| B0Hook.Hook.WipeUserspace | src/b0_hook.c:254-265 | Result, calls and flash as `FinishOutcome`. The boot mode becomes 0xAC exactly on success. |
| B0Hook.Hook.RecoverImages | src/b0_hook.c:218-265 | Result, calls and flash as `Recover`. The boot mode becomes 0xAC exactly on success. |
| B0Hook.Hook.OnFactoryFwRecoveryFail | src/b0_hook.c:54-62 | Stops the blinking, then the calls and the reboot are those of `Blink`. |
| B0Hook.Hook.WaitForRelease | src/b0_hook.c:272-275 | Calls, samples used and outcome as `WaitFrom`. |
| B0Hook.Hook.RebootWhenReleased | src/b0_hook.c:267-282 | Calls, samples used and the reboot as `ReleaseWait` and `RebootCalls`. |
| B0Hook.Hook.FactoryFwRecovery | src/b0_hook.c:213-283 | Calls, flash, boot mode and the reboot as `RecoveryRun`. |
| B0Hook.Hook.SocLateInitHook | src/b0_hook.c:285-330 | Calls, flash, boot mode and the end as `HookOutcome`. |

## Left out

- Logging (`LOG_*`), the version banners and the `CONFIG_USE_SEGGER_RTT` 500 ms sleep are not modelled, because they only produce output. The same goes for `arch_irq_lock`, `b0_button_init` and `b0_segger_rtt_check_data_location_and_size`.
- `fw_info_find` is not part of this model. An image header is modelled as valid when it is one of a given set of accepted headers (`ImageFormat.accepted`). The header size (`FW_INFO_OFFSET4 + sizeof(struct fw_info)`) is a parameter.
- `NUM_RED_LED_BLINKS_ON_FW_RECOVERY_FAIL` (from b0_led_err.h, not part of this model) is a parameter of the hook (`failBlinks`).
- The board never returns from the reboot or from the blink loop. The model ends these runs when the injected button or clock samples run out (`Stalled`, or a run with `rebooted == false`).
- A failure inside `img_process` or its callbacks calls the non-returning `on_factory_fw_recovery_fail`. The model returns `Fatal`, and the caller then runs the same failure path, so the call trace is identical.
- `flash_erase` tests `rc < 0`, while the other calls test `rc != 0`. The model has a single failure outcome for each call, so a positive return code is not distinguished.
- `check_img_in_ext_flash` never closes the area it opened. The model keeps it that way, and it does not model open-handle counting.
- A failed flash write, erase or flatten, and a failed boot-mode write, are modelled as changing nothing. Zephyr does not promise this: a failed `flash_area_flatten` may already have erased some sectors, and a failed write may leave a chunk partly programmed. So the flash contents in a `Fatal` or failed result, and the kept boot mode on the failure path of `RecoveryRunResult`, hold only under this abstraction.
- B0Hook.EraseResult: states that a failed `flash_erase` leaves the flash unchanged. This holds only because failed calls are modelled as changing nothing.
- B0Hook.RecoveryRunResult: states that the failure path keeps the boot mode. When the failure is the boot-mode write itself, this holds only because failed calls are modelled as changing nothing.
- The result of `btldr_img_op_copy` is ignored in the C code, and the model ignores it too. A copy that returns has always completed.
- The timing of sleeps, the LED blinking pattern driven by `b0_led_start_blinking_red_green_500ms`, and the busy polling of the button loop are modelled only as the calls made, not as elapsed time.
- B0Hook.Hook.FactoryFwRecovery: does not state the button samples left after the failure path reboots, because on the board nothing runs after the reboot.
- `CheckNext`, `CopyNext`, `CopyImages`, `WipeUserspace`, `RecoverImages`, `WaitForRelease` and `RebootWhenReleased` are parts of `factory_fw_recovery` and `check_images_in_ext_flash`. They are split into separate methods so that each proof stays small. They run the same calls in the same order.
