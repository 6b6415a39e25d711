/*
 * The boot hook of the B0 bootloader (b0_hook.c): at power-up it decides from
 * the button whether to start normally, to ask for the firmware loader, or to
 * run the factory firmware recovery, which checks the images kept in external
 * flash, copies them into internal flash verifying each copy, wipes the
 * external user space and sets the factory-reset boot mode.
 */
module B0Hook {
  import opened Platform
  import opened ImgOp
  import LedErr

  /** The boot mode asked for after a successful recovery. */
  const BOOT_MODE_TYPE_FACTORY_RESET: nat := 0xAC
  /** How long the button must be held for the recovery, in milliseconds. */
  const DELAY_ACTIVATE_FACTORY_RECOVERY_MS: nat := 10000
  /** The poll period while waiting for the button to be released before the reboot. */
  const RELEASE_POLL_MS: nat := 10
  /** The pause before the reboot that ends a successful recovery. */
  const DELAY_BEFORE_REBOOT_MS: nat := 500

  const U32_MODULUS: int := 0x1_0000_0000

  /** The two LEDs turned on together, and off together. */
  const LEDS_ON: seq<Event> := [RedSet(true), GreenSet(true)]
  const LEDS_OFF: seq<Event> := [RedSet(false), GreenSet(false)]

  // ---------------------------------------------------------------------
  // The button at power-up (check_and_handle_button_press)

  /**
   * What the button asks for: a normal start, the firmware loader (pressed,
   * then released early), the recovery (held long enough), or nothing because
   * the modelled samples ran out.
   */
  datatype Decision = Normal | Loader | Recovery | Stalled

  /** The decision, the calls made, and how many button and uptime samples were read. */
  datatype Press = Press(decision: Decision, events: seq<Event>, buttonUsed: nat, uptimeUsed: nat)

  /** `now - t0` computed in uint32_t, so it wraps around. */
  function Delta(t0: u32, now: u32): (d: nat)
    ensures d < U32_MODULUS
  {
    (now as int - t0 as int) % U32_MODULUS
  }

  /**
   * The wrapping subtraction gives the true elapsed time whenever less than
   * 2^32 ms passed, whatever the clock's 32-bit readings were: a wrap of the
   * uptime counter while the button is held does not cut the wait short.
   */
  lemma DeltaIsElapsed(start: nat, end: nat)
    requires start <= end < start + U32_MODULUS
    ensures Delta((start % U32_MODULUS) as u32, (end % U32_MODULUS) as u32) == end - start
  {
    var q0, r0 := start / U32_MODULUS, start % U32_MODULUS;
    var q1, r1 := end / U32_MODULUS, end % U32_MODULUS;
    assert start == q0 * U32_MODULUS + r0;
    assert end == q1 * U32_MODULUS + r1;
    if r0 <= r1 {
      assert (q1 - q0) * U32_MODULUS == (end - start) - (r1 - r0);
      assert q1 == q0;
    } else {
      assert (q1 - q0) * U32_MODULUS == (end - start) + (r0 - r1);
      assert q1 == q0 + 1;
      assert r1 - r0 + U32_MODULUS == end - start;
    }
  }

  /**
   * The `for (;;)` loop with the button held since sample 0 and timed from
   * uptime sample 0: sample i of the button comes next.
   */
  function HoldFrom(b: seq<bool>, u: seq<u32>, i: nat): (p: Press)
    requires 1 <= i <= |b| && i <= |u| && 0 < |u|
    ensures i <= p.buttonUsed <= |b| && p.uptimeUsed <= |u|
    ensures p.uptimeUsed <= p.buttonUsed <= p.uptimeUsed + 1
    decreases |b| - i
  {
    if i == |b| then Press(Stalled, LEDS_ON, i, i)
    else if !b[i] then Press(Loader, LEDS_ON + LEDS_OFF, i + 1, i)
    else if i == |u| then Press(Stalled, LEDS_ON, i + 1, i)
    else if Delta(u[0], u[i]) >= DELAY_ACTIVATE_FACTORY_RECOVERY_MS then Press(Recovery, LEDS_ON + LEDS_OFF, i + 1, i + 1)
    else HoldFrom(b, u, i + 1)
  }

  /** check_and_handle_button_press over the button samples `b` and the uptime samples `u`. */
  function PressOutcome(b: seq<bool>, u: seq<u32>): (p: Press)
    ensures p.buttonUsed <= |b| && p.uptimeUsed <= |u|
  {
    if b == [] then Press(Stalled, [], 0, 0)
    else if !b[0] then Press(Normal, [], 1, 0)
    else if u == [] then Press(Stalled, LEDS_ON, 1, 0)
    else HoldFrom(b, u, 1)
  }

  /** Samples i..k-1 of the button were all pressed, each before the delay had elapsed. */
  predicate HeldFrom(b: seq<bool>, u: seq<u32>, i: nat, k: nat) {
    && 0 < |u| && i <= k < |b| && k <= |u|
    && forall j :: i <= j < k ==> b[j] && Delta(u[0], u[j]) < DELAY_ACTIVATE_FACTORY_RECOVERY_MS
  }

  /** The loop ends in the loader exactly when the button is released before the delay has elapsed. */
  lemma {:induction false} HoldLoaderIff(b: seq<bool>, u: seq<u32>, i: nat)
    requires 1 <= i <= |b| && i <= |u| && 0 < |u|
    ensures HoldFrom(b, u, i).decision == Loader <==> exists k: nat :: HeldFrom(b, u, i, k) && !b[k]
    ensures forall k: nat :: HeldFrom(b, u, i, k) && !b[k] ==> HoldFrom(b, u, i).buttonUsed == k + 1
    decreases |b| - i
  {
    if i < |b| && b[i] && i < |u| && Delta(u[0], u[i]) < DELAY_ACTIVATE_FACTORY_RECOVERY_MS {
      HoldLoaderIff(b, u, i + 1);
      if exists k: nat :: HeldFrom(b, u, i, k) && !b[k] {
        var k: nat :| HeldFrom(b, u, i, k) && !b[k];
        assert k != i;
        assert HeldFrom(b, u, i + 1, k);
      }
      if exists k: nat :: HeldFrom(b, u, i + 1, k) && !b[k] {
        var k: nat :| HeldFrom(b, u, i + 1, k) && !b[k];
        assert HeldFrom(b, u, i, k);
      }
    } else if i < |b| && !b[i] {
      assert HeldFrom(b, u, i, i);
    }
  }

  /** The loop ends in the recovery exactly when the button is still pressed at a sample where the delay has elapsed. */
  lemma {:induction false} HoldRecoveryIff(b: seq<bool>, u: seq<u32>, i: nat)
    requires 1 <= i <= |b| && i <= |u| && 0 < |u|
    ensures HoldFrom(b, u, i).decision == Recovery <==>
      exists k: nat :: HeldFrom(b, u, i, k) && k < |u| && b[k] && Delta(u[0], u[k]) >= DELAY_ACTIVATE_FACTORY_RECOVERY_MS
    ensures forall k: nat :: HeldFrom(b, u, i, k) && k < |u| && b[k] && Delta(u[0], u[k]) >= DELAY_ACTIVATE_FACTORY_RECOVERY_MS ==>
      HoldFrom(b, u, i).buttonUsed == k + 1 && HoldFrom(b, u, i).uptimeUsed == k + 1
    decreases |b| - i
  {
    if i < |b| && b[i] && i < |u| && Delta(u[0], u[i]) < DELAY_ACTIVATE_FACTORY_RECOVERY_MS {
      HoldRecoveryIff(b, u, i + 1);
      if exists k: nat :: HeldFrom(b, u, i, k) && k < |u| && b[k] && Delta(u[0], u[k]) >= DELAY_ACTIVATE_FACTORY_RECOVERY_MS {
        var k: nat :| HeldFrom(b, u, i, k) && k < |u| && b[k] && Delta(u[0], u[k]) >= DELAY_ACTIVATE_FACTORY_RECOVERY_MS;
        assert k != i;
        assert HeldFrom(b, u, i + 1, k);
      }
      if exists k: nat :: HeldFrom(b, u, i + 1, k) && k < |u| && b[k] && Delta(u[0], u[k]) >= DELAY_ACTIVATE_FACTORY_RECOVERY_MS {
        var k: nat :| HeldFrom(b, u, i + 1, k) && k < |u| && b[k] && Delta(u[0], u[k]) >= DELAY_ACTIVATE_FACTORY_RECOVERY_MS;
        assert HeldFrom(b, u, i, k);
      }
    } else if i < |b| && b[i] && i < |u| {
      assert HeldFrom(b, u, i, i);
    }
  }

  /** The LEDs inside the loop: on from the start, off again exactly when the loop decides. */
  lemma {:induction false} HoldLeds(b: seq<bool>, u: seq<u32>, i: nat)
    requires 1 <= i <= |b| && i <= |u| && 0 < |u|
    ensures var p := HoldFrom(b, u, i);
      && p.decision != Normal
      && p.events == (if p.decision == Stalled then LEDS_ON else LEDS_ON + LEDS_OFF)
    decreases |b| - i
  {
    if i < |b| && b[i] && i < |u| && Delta(u[0], u[i]) < DELAY_ACTIVATE_FACTORY_RECOVERY_MS {
      HoldLeds(b, u, i + 1);
    }
  }

  /** A released button at power-up means a normal start, and nothing else does. */
  lemma PressNormalIff(b: seq<bool>, u: seq<u32>)
    ensures PressOutcome(b, u).decision == Normal <==> 0 < |b| && !b[0]
  {
    if 0 < |b| && b[0] && 0 < |u| {
      HoldLeds(b, u, 1);
    }
  }

  /** The loader is asked for exactly when the button, pressed at power-up, is released before the delay. */
  lemma PressLoaderIff(b: seq<bool>, u: seq<u32>)
    ensures PressOutcome(b, u).decision == Loader <==>
      0 < |b| && b[0] && exists k: nat :: HeldFrom(b, u, 1, k) && !b[k]
    ensures forall k: nat :: 0 < |b| && b[0] && HeldFrom(b, u, 1, k) && !b[k] ==> PressOutcome(b, u).buttonUsed == k + 1
  {
    if 0 < |b| && b[0] && 0 < |u| {
      HoldLoaderIff(b, u, 1);
    }
  }

  /** The recovery runs exactly when the button, pressed at power-up, is still pressed once the delay has elapsed. */
  lemma PressRecoveryIff(b: seq<bool>, u: seq<u32>)
    ensures PressOutcome(b, u).decision == Recovery <==>
      0 < |b| && b[0] &&
      exists k: nat :: HeldFrom(b, u, 1, k) && k < |u| && b[k] && Delta(u[0], u[k]) >= DELAY_ACTIVATE_FACTORY_RECOVERY_MS
    ensures forall k: nat :: 0 < |b| && b[0] && HeldFrom(b, u, 1, k) && k < |u| && b[k] && Delta(u[0], u[k]) >= DELAY_ACTIVATE_FACTORY_RECOVERY_MS ==>
      PressOutcome(b, u).buttonUsed == k + 1 && PressOutcome(b, u).uptimeUsed == k + 1
  {
    if 0 < |b| && b[0] && 0 < |u| {
      HoldRecoveryIff(b, u, 1);
    }
  }

  /**
   * The LEDs: untouched on a normal start, otherwise turned on together and,
   * once the loop decides, off together; the button check makes no other call.
   */
  lemma PressLeds(b: seq<bool>, u: seq<u32>)
    ensures var p := PressOutcome(b, u);
      && (p.decision == Normal ==> p.events == [])
      && (p.decision == Loader || p.decision == Recovery ==> p.events == LEDS_ON + LEDS_OFF)
      && (p.decision == Stalled ==> p.events == [] || p.events == LEDS_ON)
  {
    if 0 < |b| && b[0] && 0 < |u| {
      HoldLeds(b, u, 1);
    }
  }

  /**
   * check_and_handle_button_press: a released button means a normal start;
   * a pressed one turns both LEDs on and starts the clock, then the button is
   * polled until it is released (the loader) or, still pressed, the 32-bit
   * uptime delta reaches the delay (the recovery); both LEDs go off then.
   * The C function's result is `d == Recovery` and its flag `d == Loader`.
   */
  method CheckAndHandleButtonPress(board: Board) returns (d: Decision)
    modifies board`log, board`button, board`uptime
    ensures var p := PressOutcome(old(board.button), old(board.uptime));
      && d == p.decision && board.log == old(board.log) + p.events
      && board.button == old(board.button)[p.buttonUsed..] && board.uptime == old(board.uptime)[p.uptimeUsed..]
  {
    var s := board.ButtonGet();
    if s.None? {
      return Stalled;
    }
    if !s.value {
      return Normal;
    }
    board.LedRedAndGreen(true);
    var t := board.UptimeGet();
    if t.None? {
      return Stalled;
    }
    var timestamp := t.value;
    ghost var b, u := old(board.button), old(board.uptime);
    ghost var i: nat := 1;
    while true
      invariant 1 <= i <= |b| && i <= |u| && timestamp == u[0]
      invariant board.button == b[i..] && board.uptime == u[i..]
      invariant board.log == old(board.log) + LEDS_ON
      invariant PressOutcome(b, u) == HoldFrom(b, u, i)
      decreases |board.button|
    {
      var buttonState := board.ButtonGet();
      if buttonState.None? {
        return Stalled;
      }
      if !buttonState.value {
        board.LedRedAndGreen(false);
        return Loader;
      }
      var now := board.UptimeGet();
      if now.None? {
        return Stalled;
      }
      var delta := Delta(timestamp, now.value);
      if delta >= DELAY_ACTIVATE_FACTORY_RECOVERY_MS {
        break;
      }
      i := i + 1;
    }
    board.LedRedAndGreen(false);
    return Recovery;
  }

  // ---------------------------------------------------------------------
  // ---------------------------------------------------------------------
  // The steps of the recovery

  /**
   * What the recovery needs to know of the image format, which belongs to the
   * firmware-info library: how many bytes check_img_in_ext_flash reads from
   * the start of an area (FW_INFO_OFFSET4 + sizeof(struct fw_info)), and
   * the headers in which fw_info_find finds a firmware-info descriptor.
   */
  datatype ImageFormat = ImageFormat(headerLen: nat, accepted: set<seq<byte>>)

  /** A step that writes no flash: whether it succeeded, and the calls it made. */
  datatype Inspection = Inspection(ok: bool, events: seq<Event>)

  /** A step that may write flash: whether it succeeded, the calls it made, and the flash contents after it. */
  datatype Stage<M> = Step(ok: bool, events: seq<Event>, mem: M)
  type Step = Stage<map<AreaId, seq<byte>>>

  /** Every call in `evs`, made from log position `at` on, succeeded. */
  predicate CallsSucceed(env: Env, at: nat, evs: seq<Event>) {
    forall k :: 0 <= k < |evs| ==> !env.Fails(at + k, evs[k])
  }

  lemma CallsSucceedAppend(env: Env, at: nat, x: seq<Event>, y: seq<Event>)
    ensures CallsSucceed(env, at, x + y) <==> CallsSucceed(env, at, x) && CallsSucceed(env, at + |x|, y)
  {
    if CallsSucceed(env, at, x) && CallsSucceed(env, at + |x|, y) {
      forall k | 0 <= k < |x + y|
        ensures !env.Fails(at + k, (x + y)[k])
      {
        if k >= |x| {
          assert (x + y)[k] == y[k - |x|];
        }
      }
    }
    if CallsSucceed(env, at, x + y) {
      forall k | 0 <= k < |y|
        ensures !env.Fails(at + |x| + k, y[k])
      {
        assert (x + y)[|x| + k] == y[k];
      }
      forall k | 0 <= k < |x|
        ensures !env.Fails(at + k, x[k])
      {
        assert (x + y)[k] == x[k];
      }
    }
  }

  // ---------------------------------------------------------------------
  // Checking the external images (check_img_in_ext_flash, check_images_in_ext_flash)

  /** Area `a` is long enough for the header, and a firmware-info descriptor is found in its header. */
  predicate ImageValid(mem: map<AreaId, seq<byte>>, fmt: ImageFormat, a: AreaId) {
    a in mem && fmt.headerLen <= |mem[a]| && mem[a][..fmt.headerLen] in fmt.accepted
  }

  /**
   * check_img_in_ext_flash(a), first call at log position `at`: open the
   * area, read its header from offset 0, look for the firmware-info
   * descriptor. The area is never closed, and nothing is written.
   */
  function ImageCheck(env: Env, mem: map<AreaId, seq<byte>>, at: nat, fmt: ImageFormat, a: AreaId): (s: Inspection)
    requires env.Holds(mem)
    ensures s.events == [Open(a)] || s.events == [Open(a), Read(a, 0, fmt.headerLen)]
    ensures s.ok <==> ImageValid(mem, fmt, a) && !env.Fails(at, Open(a)) && !env.Fails(at + 1, Read(a, 0, fmt.headerLen))
    ensures s.ok ==> |s.events| == 2
  {
    if env.Fails(at, Open(a)) then Inspection(false, [Open(a)])
    else if env.Fails(at + 1, Read(a, 0, fmt.headerLen)) then Inspection(false, [Open(a), Read(a, 0, fmt.headerLen)])
    else Inspection(mem[a][..fmt.headerLen] in fmt.accepted, [Open(a), Read(a, 0, fmt.headerLen)])
  }

  /** The images check_images_in_ext_flash checks, in this order. */
  const EXT_IMAGES: seq<AreaId> := [S0Ext, S1Ext, McubootPrimaryExt, McubootSecondaryExt]

  /** Checking every image of `areas` in turn, first call at log position `at`; the first failure ends it. */
  function ImagesCheck(env: Env, mem: map<AreaId, seq<byte>>, at: nat, fmt: ImageFormat, areas: seq<AreaId>): (v: Inspection)
    requires env.Holds(mem)
    decreases |areas|
  {
    if areas == [] then Inspection(true, [])
    else
      var s := ImageCheck(env, mem, at, fmt, areas[0]);
      if !s.ok then s
      else
        var rest := ImagesCheck(env, mem, at + 2, fmt, areas[1..]);
        Inspection(rest.ok, s.events + rest.events)
  }

  /** The calls checking every image of `areas` makes: open the area, read its header. */
  function CheckCalls(areas: seq<AreaId>, headerLen: nat): (evs: seq<Event>)
    ensures |evs| == 2 * |areas|
    ensures forall k :: 0 <= k < |evs| ==> evs[k].Open? || evs[k].Read?
    decreases |areas|
  {
    if areas == [] then []
    else [Open(areas[0]), Read(areas[0], 0, headerLen)] + CheckCalls(areas[1..], headerLen)
  }

  /** Every image of `areas` is valid in `mem`. */
  predicate ImagesValid(mem: map<AreaId, seq<byte>>, fmt: ImageFormat, areas: seq<AreaId>) {
    forall i :: 0 <= i < |areas| ==> ImageValid(mem, fmt, areas[i])
  }

  /**
   * check_images_in_ext_flash: the calls made are a prefix of opening and
   * reading the header of each image in turn, and it succeeds exactly when
   * every image is valid and none of those calls fails, having then made
   * all of them.
   */
  lemma {:induction false} ImagesCheckIff(env: Env, mem: map<AreaId, seq<byte>>, at: nat, fmt: ImageFormat, areas: seq<AreaId>)
    requires env.Holds(mem)
    ensures var v := ImagesCheck(env, mem, at, fmt, areas);
      var calls := CheckCalls(areas, fmt.headerLen);
      && v.events <= calls
      && (v.ok <==> ImagesValid(mem, fmt, areas) && CallsSucceed(env, at, calls))
      && (v.ok ==> v.events == calls)
    decreases |areas|
  {
    if areas != [] {
      var a := areas[0];
      var h := fmt.headerLen;
      var s := ImageCheck(env, mem, at, fmt, a);
      var first := [Open(a), Read(a, 0, h)];
      var rest := CheckCalls(areas[1..], h);
      assert CheckCalls(areas, h) == first + rest;
      CallsSucceedAppend(env, at, first, rest);
      assert ImagesValid(mem, fmt, areas) <==> ImageValid(mem, fmt, a) && ImagesValid(mem, fmt, areas[1..]) by {
        if ImageValid(mem, fmt, a) && ImagesValid(mem, fmt, areas[1..]) {
          forall i | 0 <= i < |areas| ensures ImageValid(mem, fmt, areas[i]) {
            if i > 0 {
              assert areas[i] == areas[1..][i - 1];
            }
          }
        }
      }
      if s.ok {
        ImagesCheckIff(env, mem, at + 2, fmt, areas[1..]);
      } else if CallsSucceed(env, at, first) {
        assert !env.Fails(at + 0, first[0]) && !env.Fails(at + 1, first[1]);
      }
    }
  }

  // ---------------------------------------------------------------------
  // Copying an image (copy_img_from_ext_flash_to_int_flash)

  /** The calls img_process may make: opens, closes, reads, writes and erases, but no flatten and no boot-mode write. */
  predicate TransferCall(e: Event) {
    e.Open? || e.Close? || e.Read? || e.Write? || e.Erase?
  }

  predicate TransfersOnly(evs: seq<Event>) {
    forall k :: 0 <= k < |evs| ==> TransferCall(evs[k])
  }

  lemma TransfersOnlyAppend(x: seq<Event>, y: seq<Event>)
    requires TransfersOnly(x) && TransfersOnly(y)
    ensures TransfersOnly(x + y)
  {
    forall k | 0 <= k < |x + y| ensures TransferCall((x + y)[k]) {
      if k >= |x| {
        assert (x + y)[k] == y[k - |x|];
      }
    }
  }

  /** img_process only opens, reads, writes, erases and closes. */
  lemma ProcessTransfersOnly(env: Env, mem: map<AreaId, seq<byte>>, base: nat, dst: AreaId, src: AreaId,
                             eraseDst: bool, cb: Callback)
    requires env.Holds(mem)
    ensures TransfersOnly(ProcessOutcome(env, mem, base, dst, src, eraseDst, cb).events)
  {
    var h := Header(env, base, dst, src, eraseDst);
    HeaderFacts(env, base, dst, src, eraseDst);
    ProcessLoopCalls(env, mem, base, dst, src, eraseDst, cb);
    var o := ProcessOutcome(env, mem, base, dst, src, eraseDst, cb);
    if h.status == Done(true) {
      forall k | 0 <= k < |o.events| ensures TransferCall(o.events[k]) {
        if k < |h.events| {
          assert o.events[k] == o.events[..|h.events|][k];
        }
      }
    }
  }

  /** A copy from an external area to its internal twin. */
  datatype Transfer = Transfer(src: AreaId, dst: AreaId)

  /**
   * copy_img_from_ext_flash_to_int_flash(t), first call at log position
   * `at`: btldr_img_op_copy, whose result is ignored (it only ever returns
   * after a completed copy), then btldr_img_op_cmp, whose `false` fails the
   * step. A failing flash call inside either ends the step (Fatal).
   */
  function CopyPairOutcome(env: Env, mem: map<AreaId, seq<byte>>, at: nat, t: Transfer): (s: Step)
    requires env.Holds(mem)
    ensures env.Holds(s.mem)
  {
    ProcessOnlyTouchesDst(env, mem, at, t.dst, t.src, true, WriteChunk);
    var c := ProcessOutcome(env, mem, at, t.dst, t.src, true, WriteChunk);
    HoldsAfterDstChange(env, mem, c.mem, t.dst);
    if c.status == Fatal then Step(false, c.events, c.mem)
    else
      var k := ProcessOutcome(env, c.mem, at + |c.events|, t.dst, t.src, false, CompareChunk);
      Step(k.status == Done(true), c.events + k.events, c.mem)
  }

  /**
   * A verified copy changes no area but the destination; it succeeds exactly when neither btldr_img_op_copy nor
   * btldr_img_op_cmp hits a failing call (the compare never finds a
   * difference after a completed copy), and then the destination holds the
   * source's bytes.
   */
  lemma CopyPairResult(env: Env, mem: map<AreaId, seq<byte>>, at: nat, t: Transfer)
    requires env.Holds(mem) && t.src != t.dst
    ensures var s := CopyPairOutcome(env, mem, at, t);
      var c := ProcessOutcome(env, mem, at, t.dst, t.src, true, WriteChunk);
      && OnlyDstChanged(mem, s.mem, t.dst)
      && (s.ok <==> c.status.Done? && ProcessOutcome(env, c.mem, at + |c.events|, t.dst, t.src, false, CompareChunk).status.Done?)
      && (s.ok ==> t.src in mem && t.dst in mem && s.mem == mem[t.dst := mem[t.src]])
  {
    var c := ProcessOutcome(env, mem, at, t.dst, t.src, true, WriteChunk);
    HeaderFacts(env, at, t.dst, t.src, true);
    CopyNeverStopsEarly(env, mem, at, t.dst, t.src);
    CopyResult(env, mem, at, t.dst, t.src);
    ProcessOnlyTouchesDst(env, mem, at, t.dst, t.src, true, WriteChunk);
    if c.status.Done? {
      HoldsAfterDstChange(env, mem, c.mem, t.dst);
      var at1 := at + |c.events|;
      CompareIffEqual(env, c.mem, at1, t.dst, t.src);
    }
  }
  /** One verified copy only opens, reads, writes, erases and closes areas. */
  lemma CopyPairTransfersOnly(env: Env, mem: map<AreaId, seq<byte>>, at: nat, t: Transfer)
    requires env.Holds(mem)
    ensures TransfersOnly(CopyPairOutcome(env, mem, at, t).events)
  {
    var c := ProcessOutcome(env, mem, at, t.dst, t.src, true, WriteChunk);
    ProcessTransfersOnly(env, mem, at, t.dst, t.src, true, WriteChunk);
    if c.status != Fatal {
      ProcessOnlyTouchesDst(env, mem, at, t.dst, t.src, true, WriteChunk);
      HoldsAfterDstChange(env, mem, c.mem, t.dst);
      var at1 := at + |c.events|;
      ProcessTransfersOnly(env, c.mem, at1, t.dst, t.src, false, CompareChunk);
      TransfersOnlyAppend(c.events, ProcessOutcome(env, c.mem, at1, t.dst, t.src, false, CompareChunk).events);
    }
  }


  /** The five copies of factory_fw_recovery, in this order. */
  const COPY_PAIRS: seq<Transfer> := [
    Transfer(ProvisionExt, Provision),
    Transfer(S0Ext, S0),
    Transfer(S1Ext, S1),
    Transfer(McubootPrimaryExt, McubootPrimary),
    Transfer(McubootSecondaryExt, McubootSecondary)
  ]

  /** The copies `ts` in turn, first call at log position `at`; the first failure ends them. */
  function CopiesOutcome(env: Env, mem: map<AreaId, seq<byte>>, at: nat, ts: seq<Transfer>): (s: Step)
    requires env.Holds(mem)
    ensures env.Holds(s.mem)
    decreases |ts|, 1
  {
    if ts == [] then Step(true, [], mem) else CopyThenRest(env, mem, at, ts)
  }

  /** The first copy of `ts`, then, if it succeeded, the others. */
  function CopyThenRest(env: Env, mem: map<AreaId, seq<byte>>, at: nat, ts: seq<Transfer>): (s: Step)
    requires env.Holds(mem) && ts != []
    ensures env.Holds(s.mem)
    decreases |ts|, 0
  {
    var s := CopyPairOutcome(env, mem, at, ts[0]);
    if !s.ok then s
    else
      var rest := CopiesOutcome(env, s.mem, at + |s.events|, ts[1..]);
      Step(rest.ok, s.events + rest.events, rest.mem)
  }

  /** No copy of `ts` is from an area onto itself. */
  predicate Distinct(ts: seq<Transfer>) {
    forall i :: 0 <= i < |ts| ==> ts[i].src != ts[i].dst
  }

  predicate AreasPresent(mem: map<AreaId, seq<byte>>, ts: seq<Transfer>) {
    forall i :: 0 <= i < |ts| ==> ts[i].src in mem && ts[i].dst in mem
  }

  /** The flash contents after each copy of `ts` in turn has overwritten its destination with its source. */
  function ApplyCopies(mem: map<AreaId, seq<byte>>, ts: seq<Transfer>): map<AreaId, seq<byte>>
    requires AreasPresent(mem, ts)
    decreases |ts|
  {
    if ts == [] then mem
    else
      var m := mem[ts[0].dst := mem[ts[0].src]];
      assert AreasPresent(m, ts[1..]) by {
        forall i | 0 <= i < |ts| - 1 ensures ts[1..][i] == ts[i + 1] {}
      }
      ApplyCopies(m, ts[1..])
  }

  /**
   * A run of copies that succeeds found every area and left the contents of
   * copying each source onto its destination in turn.
   */
  lemma {:induction false} CopiesResult(env: Env, mem: map<AreaId, seq<byte>>, at: nat, ts: seq<Transfer>)
    requires env.Holds(mem) && Distinct(ts)
    ensures var c := CopiesOutcome(env, mem, at, ts);
      c.ok ==> AreasPresent(mem, ts) && c.mem == ApplyCopies(mem, ts)
    decreases |ts|
  {
    if ts != [] {
      var s := CopyPairOutcome(env, mem, at, ts[0]);
      CopyPairResult(env, mem, at, ts[0]);
      if s.ok {
        assert Distinct(ts[1..]) by {
          forall i | 0 <= i < |ts| - 1 ensures ts[1..][i] == ts[i + 1] {}
        }
        var at1 := at + |s.events|;
        CopiesResult(env, s.mem, at1, ts[1..]);
        var rest := CopiesOutcome(env, s.mem, at1, ts[1..]);
        if rest.ok {
          forall i | 0 <= i < |ts| ensures ts[i].src in mem && ts[i].dst in mem {
            if i > 0 {
              assert ts[i] == ts[1..][i - 1];
            }
          }
        }
      }
    }
  }

  /** A run of copies only opens, reads, writes, erases and closes areas. */
  lemma {:induction false} CopiesTransfersOnly(env: Env, mem: map<AreaId, seq<byte>>, at: nat, ts: seq<Transfer>)
    requires env.Holds(mem)
    ensures TransfersOnly(CopiesOutcome(env, mem, at, ts).events)
    decreases |ts|
  {
    if ts != [] {
      var s := CopyPairOutcome(env, mem, at, ts[0]);
      CopyPairTransfersOnly(env, mem, at, ts[0]);
      if s.ok {
        CopiesTransfersOnly(env, s.mem, at + |s.events|, ts[1..]);
        TransfersOnlyAppend(s.events, CopiesOutcome(env, s.mem, at + |s.events|, ts[1..]).events);
      }
    }
  }


  /** The ten areas of the five copies are all in `mem`. */
  predicate CopyAreasIn(mem: map<AreaId, seq<byte>>) {
    && ProvisionExt in mem && Provision in mem && S0Ext in mem && S0 in mem && S1Ext in mem && S1 in mem
    && McubootPrimaryExt in mem && McubootPrimary in mem && McubootSecondaryExt in mem && McubootSecondary in mem
  }

  /** The flash contents once every internal area holds its external twin's bytes. */
  function Copied(mem: map<AreaId, seq<byte>>): map<AreaId, seq<byte>>
    requires CopyAreasIn(mem)
  {
    mem[Provision := mem[ProvisionExt]][S0 := mem[S0Ext]][S1 := mem[S1Ext]]
       [McubootPrimary := mem[McubootPrimaryExt]][McubootSecondary := mem[McubootSecondaryExt]]
  }

  /** Copying the five pairs in turn gives the closed form: no copy overwrites a later copy's source. */
  lemma ApplyRecoveryCopies(mem: map<AreaId, seq<byte>>)
    requires AreasPresent(mem, COPY_PAIRS)
    ensures CopyAreasIn(mem) && ApplyCopies(mem, COPY_PAIRS) == Copied(mem)
  {
    assert COPY_PAIRS[0].src in mem && COPY_PAIRS[0].dst in mem;
    assert COPY_PAIRS[1].src in mem && COPY_PAIRS[1].dst in mem;
    assert COPY_PAIRS[2].src in mem && COPY_PAIRS[2].dst in mem;
    assert COPY_PAIRS[3].src in mem && COPY_PAIRS[3].dst in mem;
    assert COPY_PAIRS[4].src in mem && COPY_PAIRS[4].dst in mem;
    var m1 := mem[Provision := mem[ProvisionExt]];
    var m2 := m1[S0 := mem[S0Ext]];
    var m3 := m2[S1 := mem[S1Ext]];
    var m4 := m3[McubootPrimary := mem[McubootPrimaryExt]];
    var m5 := m4[McubootSecondary := mem[McubootSecondaryExt]];
    assert ApplyCopies(mem, COPY_PAIRS) == ApplyCopies(m1, COPY_PAIRS[1..]);
    assert ApplyCopies(m1, COPY_PAIRS[1..]) == ApplyCopies(m2, COPY_PAIRS[2..]);
    assert ApplyCopies(m2, COPY_PAIRS[2..]) == ApplyCopies(m3, COPY_PAIRS[3..]);
    assert ApplyCopies(m3, COPY_PAIRS[3..]) == ApplyCopies(m4, COPY_PAIRS[4..]);
    assert ApplyCopies(m4, COPY_PAIRS[4..]) == ApplyCopies(m5, COPY_PAIRS[5..]);
  }

  // ---------------------------------------------------------------------
  // Wiping the user space and asking for the factory reset (flash_erase, bootmode_set)

  /**
   * flash_erase(a): open the area (a failed open returns without a close),
   * flatten all of it, close it whether or not the flatten succeeded.
   */
  function EraseOutcome(env: Env, mem: map<AreaId, seq<byte>>, at: nat, a: AreaId): (s: Step)
    requires env.Holds(mem)
    ensures env.Holds(s.mem)
  {
    if env.Fails(at, Open(a)) then Step(false, [Open(a)], mem)
    else if env.Fails(at + 1, Flatten(a, 0, env.layout[a])) then
      Step(false, [Open(a), Flatten(a, 0, env.layout[a]), Close(a)], mem)
    else Step(true, [Open(a), Flatten(a, 0, env.layout[a]), Close(a)], mem[a := Erased(env.layout[a])])
  }

  /**
   * flash_erase succeeds exactly when the open and the flatten succeed, and
   * then every byte of the area is erased; a failed erase changes nothing;
   * an area that was opened is closed again whatever happened.
   */
  lemma EraseResult(env: Env, mem: map<AreaId, seq<byte>>, at: nat, a: AreaId)
    requires env.Holds(mem)
    ensures var s := EraseOutcome(env, mem, at, a);
      && (s.ok <==> a in mem && CallsSucceed(env, at, [Open(a), Flatten(a, 0, |mem[a]|)]))
      && (s.ok ==> s.mem == mem[a := Erased(|mem[a]|)] && (forall i :: 0 <= i < |mem[a]| ==> s.mem[a][i] == ERASED))
      && (!s.ok ==> s.mem == mem)
      && s.events[0] == Open(a)
      && (|s.events| > 1 <==> !env.Fails(at, Open(a)))
      && (|s.events| > 1 ==> s.events[|s.events| - 1] == Close(a))
  {
    if a in mem && CallsSucceed(env, at, [Open(a), Flatten(a, 0, |mem[a]|)]) {
      assert !env.Fails(at + 0, [Open(a), Flatten(a, 0, |mem[a]|)][0]);
      assert !env.Fails(at + 1, [Open(a), Flatten(a, 0, |mem[a]|)][1]);
    }
  }

  /**
   * The end of the recovery, first call at log position `at`: flash_erase of
   * the external user space, then bootmode_set(BOOT_MODE_TYPE_FACTORY_RESET);
   * either failing fails the step.
   */
  function FinishOutcome(env: Env, mem: map<AreaId, seq<byte>>, at: nat): (s: Step)
    requires env.Holds(mem)
    ensures env.Holds(s.mem)
  {
    var e := EraseOutcome(env, mem, at, ExtFlashUserspace);
    if !e.ok then e
    else
      var m := BootModeSet(BOOT_MODE_TYPE_FACTORY_RESET);
      Step(!env.Fails(at + |e.events|, m), e.events + [m], e.mem)
  }

  /**
   * When the end of the recovery succeeds the user space has been wiped and,
   * as the last call, the factory-reset boot mode written; a failed wipe
   * never writes the boot mode.
   */
  lemma FinishResult(env: Env, mem: map<AreaId, seq<byte>>, at: nat)
    requires env.Holds(mem)
    ensures var f := FinishOutcome(env, mem, at);
      var m := BootModeSet(BOOT_MODE_TYPE_FACTORY_RESET);
      && 0 < |f.events|
      && (f.events[|f.events| - 1] == m <==> EraseOutcome(env, mem, at, ExtFlashUserspace).ok)
      && (f.ok ==> ExtFlashUserspace in mem && f.mem == mem[ExtFlashUserspace := Erased(|mem[ExtFlashUserspace]|)])
      && (f.ok ==> f.events[|f.events| - 1] == m && !env.Fails(at + |f.events| - 1, m))
  {
    EraseResult(env, mem, at, ExtFlashUserspace);
  }

  // ---------------------------------------------------------------------
  // The recovery as a whole

  /**
   * The recovery proper, first call at log position `at`: check the images
   * `images`, then make the copies `ts`, then wipe the user space and write
   * the boot mode; the first failure ends it.
   */
  function Recover(env: Env, mem: map<AreaId, seq<byte>>, at: nat, fmt: ImageFormat,
                   images: seq<AreaId>, ts: seq<Transfer>): (r: Step)
    requires env.Holds(mem)
    ensures env.Holds(r.mem)
  {
    var v := ImagesCheck(env, mem, at, fmt, images);
    if !v.ok then Step(false, v.events, mem)
    else
      var c := CopiesOutcome(env, mem, at + |v.events|, ts);
      if !c.ok then Step(false, v.events + c.events, c.mem)
      else
        var f := FinishOutcome(env, c.mem, at + |v.events| + |c.events|);
        Step(f.ok, v.events + c.events + f.events, f.mem)
  }

  /** Lines 218-265 of factory_fw_recovery: the four image checks, the five copies, the wipe and the boot mode. */
  function RecoveryOutcome(env: Env, mem: map<AreaId, seq<byte>>, at: nat, fmt: ImageFormat): (r: Step)
    requires env.Holds(mem)
    ensures env.Holds(r.mem)
  {
    Recover(env, mem, at, fmt, EXT_IMAGES, COPY_PAIRS)
  }

  /** The three phases of the recovery, each starting where the one before it stopped. */
  lemma RecoverySplit(env: Env, mem: map<AreaId, seq<byte>>, at: nat, fmt: ImageFormat, images: seq<AreaId>, ts: seq<Transfer>,
                      at1: nat, at2: nat)
    requires env.Holds(mem)
    requires at1 == at + |ImagesCheck(env, mem, at, fmt, images).events|
    requires at2 == at1 + |CopiesOutcome(env, mem, at1, ts).events|
    ensures var r := Recover(env, mem, at, fmt, images, ts);
      var v := ImagesCheck(env, mem, at, fmt, images);
      var c := CopiesOutcome(env, mem, at1, ts);
      var f := FinishOutcome(env, c.mem, at2);
      && (!v.ok ==> !r.ok && r.events == v.events && r.mem == mem)
      && (v.ok && !c.ok ==> !r.ok && r.events == v.events + c.events && r.mem == c.mem)
      && (v.ok && c.ok ==> r.ok == f.ok && r.events == v.events + c.events + f.events && r.mem == f.mem)
  {
  }

  /**
   * The images are checked before anything else: the recovery starts with
   * the calls checking them, and when one is not valid (or one of those
   * calls fails) it stops within them, with no flash changed.
   */
  lemma ChecksComeFirst(env: Env, mem: map<AreaId, seq<byte>>, at: nat, fmt: ImageFormat,
                        images: seq<AreaId>, ts: seq<Transfer>)
    requires env.Holds(mem)
    ensures var r := Recover(env, mem, at, fmt, images, ts);
      var calls := CheckCalls(images, fmt.headerLen);
      var passed := ImagesValid(mem, fmt, images) && CallsSucceed(env, at, calls);
      && (passed ==> calls <= r.events)
      && (!passed ==> !r.ok && r.events <= calls && r.mem == mem)
  {
    ImagesCheckIff(env, mem, at, fmt, images);
  }

  /**
   * The user space is wiped and the boot mode written only once every image
   * has been checked and every copy verified: a recovery that does more than
   * open, close, read, write and erase has passed the checks and all the
   * copies first, which made only those calls.
   */
  lemma CopiesBeforeFinish(env: Env, mem: map<AreaId, seq<byte>>, at: nat, fmt: ImageFormat,
                           images: seq<AreaId>, ts: seq<Transfer>)
    requires env.Holds(mem)
    ensures var r := Recover(env, mem, at, fmt, images, ts);
      var calls := CheckCalls(images, fmt.headerLen);
      var c := CopiesOutcome(env, mem, at + |calls|, ts);
      !TransfersOnly(r.events) ==>
        && ImagesValid(mem, fmt, images) && CallsSucceed(env, at, calls)
        && c.ok && calls + c.events <= r.events && TransfersOnly(calls + c.events)
  {
    var v := ImagesCheck(env, mem, at, fmt, images);
    var calls := CheckCalls(images, fmt.headerLen);
    ImagesCheckIff(env, mem, at, fmt, images);
    assert TransfersOnly(v.events) by {
      forall k | 0 <= k < |v.events| ensures TransferCall(v.events[k]) {
        assert v.events[k] == calls[k];
      }
    }
    if v.ok {
      var c := CopiesOutcome(env, mem, at + |calls|, ts);
      CopiesTransfersOnly(env, mem, at + |calls|, ts);
      TransfersOnlyAppend(calls, c.events);
    }
  }


  lemma LastOfAppend(x: seq<Event>, y: seq<Event>)
    requires 0 < |y|
    ensures (x + y)[|x + y| - 1] == y[|y| - 1]
  {
  }

  /**
   * A recovery that succeeds ends with the factory-reset boot mode written,
   * as its last call, and that call succeeded.
   */
  lemma RecoverEndsWithBootMode(env: Env, mem: map<AreaId, seq<byte>>, at: nat, fmt: ImageFormat,
                                images: seq<AreaId>, ts: seq<Transfer>)
    requires env.Holds(mem)
    ensures var r := Recover(env, mem, at, fmt, images, ts);
      r.ok ==>
        && 0 < |r.events| && r.events[|r.events| - 1] == BootModeSet(BOOT_MODE_TYPE_FACTORY_RESET)
        && !env.Fails(at + |r.events| - 1, BootModeSet(BOOT_MODE_TYPE_FACTORY_RESET))
  {
    var v := ImagesCheck(env, mem, at, fmt, images);
    var c := CopiesOutcome(env, mem, at + |v.events|, ts);
    var at2 := at + |v.events| + |c.events|;
    FinishResult(env, c.mem, at2);
    var f := FinishOutcome(env, c.mem, at2);
    LastOfAppend(v.events + c.events, f.events);
  }

  /**
   * A recovery that succeeds found every image valid, copied every pair in
   * turn and wiped the user space, and changed nothing else.
   */
  lemma RecoverResult(env: Env, mem: map<AreaId, seq<byte>>, at: nat, fmt: ImageFormat,
                      images: seq<AreaId>, ts: seq<Transfer>)
    requires env.Holds(mem) && Distinct(ts)
    ensures var r := Recover(env, mem, at, fmt, images, ts);
      r.ok ==>
        && ImagesValid(mem, fmt, images) && AreasPresent(mem, ts) && ExtFlashUserspace in mem
        && r.mem == ApplyCopies(mem, ts)[ExtFlashUserspace := Erased(|mem[ExtFlashUserspace]|)]
  {
    ImagesCheckIff(env, mem, at, fmt, images);
    var v := ImagesCheck(env, mem, at, fmt, images);
    CopiesResult(env, mem, at + |v.events|, ts);
    var c := CopiesOutcome(env, mem, at + |v.events|, ts);
    FinishResult(env, c.mem, at + |v.events| + |c.events|);
  }

  /**
   * factory_fw_recovery, when it succeeds, leaves every internal area
   * holding the bytes of its external twin and the user space wiped, and
   * changes no other area.
   */
  lemma RecoveryResult(env: Env, mem: map<AreaId, seq<byte>>, at: nat, fmt: ImageFormat)
    requires env.Holds(mem)
    ensures var r := RecoveryOutcome(env, mem, at, fmt);
      r.ok ==>
        && ImagesValid(mem, fmt, EXT_IMAGES) && CopyAreasIn(mem) && ExtFlashUserspace in mem
        && r.mem == Copied(mem)[ExtFlashUserspace := Erased(|mem[ExtFlashUserspace]|)]
  {
    assert Distinct(COPY_PAIRS);
    RecoverResult(env, mem, at, fmt, EXT_IMAGES, COPY_PAIRS);
    if RecoveryOutcome(env, mem, at, fmt).ok {
      ApplyRecoveryCopies(mem);
    }
  }

  // ---------------------------------------------------------------------
  // Waiting for the button's release before the reboot

  /** The calls made, how many button samples were read, and whether a release was seen. */
  datatype Wait = Wait(events: seq<Event>, used: nat, released: bool)

  /** `while (b0_button_get()) b0_sleep_ms(10)` with button sample i next. */
  function WaitFrom(b: seq<bool>, i: nat): (w: Wait)
    ensures w.used <= |b|
    decreases |b| - i
  {
    if i >= |b| then Wait([], |b|, false)
    else if !b[i] then Wait([], i + 1, true)
    else
      var w := WaitFrom(b, i + 1);
      Wait([Sleep(RELEASE_POLL_MS)] + w.events, w.used, w.released)
  }

  /**
   * The polling loop stops at the first released sample from i on, having
   * slept 10 ms for each pressed sample before it; without one it reads
   * every sample.
   */
  lemma {:induction false} WaitFromResult(b: seq<bool>, i: nat)
    requires i <= |b|
    ensures var w := WaitFrom(b, i);
      && (w.released <==> exists j :: i <= j < |b| && !b[j])
      && (w.released ==> i < w.used <= |b| && !b[w.used - 1])
      && (!w.released ==> w.used == |b|)
      && (forall k :: i <= k < w.used - 1 ==> b[k])
      && |w.events| == (if w.released then w.used - 1 - i else w.used - i)
      && (forall k :: 0 <= k < |w.events| ==> w.events[k] == Sleep(RELEASE_POLL_MS))
    decreases |b| - i
  {
    if i < |b| && b[i] {
      WaitFromResult(b, i + 1);
      var w := WaitFrom(b, i + 1);
      forall k | 0 <= k < 1 + |w.events|
        ensures ([Sleep(RELEASE_POLL_MS)] + w.events)[k] == Sleep(RELEASE_POLL_MS)
      {
        if k > 0 {
          assert ([Sleep(RELEASE_POLL_MS)] + w.events)[k] == w.events[k - 1];
        }
      }
    }
  }

  /**
   * Lines 269-278 of factory_fw_recovery: when the button is pressed, turn
   * both LEDs on, poll every 10 ms until it is released, turn them off.
   */
  function ReleaseWait(b: seq<bool>): (w: Wait)
    ensures w.used <= |b|
  {
    if b == [] then Wait([], 0, false)
    else if !b[0] then Wait([], 1, true)
    else
      var w := WaitFrom(b, 1);
      Wait(LEDS_ON + w.events + (if w.released then LEDS_OFF else []), w.used, w.released)
  }

  /**
   * The wait ends exactly when a released sample comes, at the first one,
   * and the LEDs, turned on only if the button was pressed at first, are
   * off again once it ends.
   */
  lemma ReleaseWaitResult(b: seq<bool>)
    ensures var w := ReleaseWait(b);
      && (w.released <==> exists j :: 0 <= j < |b| && !b[j])
      && w.used <= |b|
      && (w.released ==> 0 < w.used && !b[w.used - 1] && forall k :: 0 <= k < w.used - 1 ==> b[k])
      && (0 < |b| && !b[0] ==> w.events == [])
      && (0 < |b| && b[0] ==> w.events[..2] == LEDS_ON)
      && (0 < |b| && b[0] && w.released ==> w.events[|w.events| - 2..] == LEDS_OFF)
  {
    if 0 < |b| && b[0] {
      WaitFromResult(b, 1);
      var w := WaitFrom(b, 1);
      if !w.released {
        assert forall k :: 0 <= k < |b| ==> b[k] by {
          forall k | 0 <= k < |b| ensures b[k] {
            if k > 0 {
              assert 1 <= k < w.used;
            }
          }
        }
      }
    }
  }

  /**
   * Lines 267-282 of factory_fw_recovery, once the wait `w` is known: stop
   * blinking, the wait's calls, and, once the button was seen released,
   * 500 ms of sleep and the reboot.
   */
  function RebootCalls(w: Wait): (evs: seq<Event>)
    ensures 0 < |evs| && evs[0] == StopBlinking
    ensures w.released ==> evs[|evs| - 1] == Reboot
  {
    [StopBlinking] + w.events + (if w.released then [Sleep(DELAY_BEFORE_REBOOT_MS), Reboot] else [])
  }

  // ---------------------------------------------------------------------
  // factory_fw_recovery and soc_late_init_hook

  /** How a run that never returns to its caller ends. */
  datatype Ended<M> = Ended(events: seq<Event>, mem: M, bootMode: nat, rebooted: bool)
  type Run = Ended<map<AreaId, seq<byte>>>

  /**
   * factory_fw_recovery, first call at log position `at`, with the boot-mode
   * register holding `bootMode` and the button samples `samples`: blink
   * both LEDs, recover; on a failure stop blinking and blink the red LED
   * until the button is pressed again (on_factory_fw_recovery_fail); on
   * success stop blinking, wait for the button's release, wait 500 ms and
   * reboot.
   */
  function RecoveryRun(env: Env, mem: map<AreaId, seq<byte>>, bootMode: nat, at: nat, fmt: ImageFormat,
                       images: seq<AreaId>, ts: seq<Transfer>, failBlinks: nat, samples: seq<bool>): (x: Run)
    requires env.Holds(mem)
    ensures env.Holds(x.mem)
  {
    var r := Recover(env, mem, at + 1, fmt, images, ts);
    var lead := [StartBlinking] + r.events;
    if !r.ok then
      var b := LedErr.Blink(failBlinks, samples);
      Ended(lead + ([StopBlinking] + b.events), r.mem, bootMode, b.rebooted)
    else
      var w := ReleaseWait(samples);
      Ended(lead + RebootCalls(w), r.mem, BOOT_MODE_TYPE_FACTORY_RESET, w.released)
  }

  /**
   * factory_fw_recovery never returns. When the recovery succeeds every
   * image it checked carries a firmware-info descriptor, every destination
   * holds its source's contents, the user space is wiped and the boot mode
   * is factory reset, and it reboots exactly when the button
   * is seen released, as its last call; when it fails the boot mode is kept
   * and it reboots exactly when the button is released and pressed again.
   */
  lemma RecoveryRunResult(env: Env, mem: map<AreaId, seq<byte>>, bootMode: nat, at: nat, fmt: ImageFormat,
                          images: seq<AreaId>, ts: seq<Transfer>, failBlinks: nat, samples: seq<bool>)
    requires env.Holds(mem) && Distinct(ts)
    ensures var x := RecoveryRun(env, mem, bootMode, at, fmt, images, ts, failBlinks, samples);
      var r := Recover(env, mem, at + 1, fmt, images, ts);
      && x.events[0] == StartBlinking
      && (r.ok ==>
            && ImagesValid(mem, fmt, images) && AreasPresent(mem, ts) && ExtFlashUserspace in mem
            && x.mem == ApplyCopies(mem, ts)[ExtFlashUserspace := Erased(|mem[ExtFlashUserspace]|)]
            && x.bootMode == BOOT_MODE_TYPE_FACTORY_RESET
            && (x.rebooted <==> exists j :: 0 <= j < |samples| && !samples[j])
            && (x.rebooted ==> x.events[|x.events| - 1] == Reboot))
      && (!r.ok ==>
            && x.bootMode == bootMode
            && (x.rebooted <==> exists i, k :: 0 <= i < k < |samples| && !samples[i] && samples[k]))
  {
    RecoverResult(env, mem, at + 1, fmt, images, ts);
    ReleaseWaitResult(samples);
    LedErr.BlinkRebootIff(failBlinks, samples);
  }

  /** What soc_late_init_hook does when it returns to the boot flow, or that it does not. */
  datatype HookEnd = Returned(code: int) | Halted(rebooted: bool)

  /** The calls made, the flash contents, the boot-mode register, and the end. */
  datatype Boot<M> = Boot(events: seq<Event>, mem: M, bootMode: nat, end: HookEnd)
  type HookRun = Boot<map<AreaId, seq<byte>>>

  /**
   * soc_late_init_hook, first call at log position `at`: decide from the
   * button; the recovery never returns; the loader request writes the
   * loader boot mode, and a failure to write it is only logged; otherwise
   * the hook returns 0.
   */
  function HookOutcome(env: Env, mem: map<AreaId, seq<byte>>, bootMode: nat, at: nat, fmt: ImageFormat,
                       images: seq<AreaId>, ts: seq<Transfer>, failBlinks: nat,
                       button: seq<bool>, uptime: seq<u32>): (h: HookRun)
    requires env.Holds(mem)
  {
    var p := PressOutcome(button, uptime);
    match p.decision
    case Stalled => Boot(p.events, mem, bootMode, Halted(false))
    case Normal => Boot(p.events, mem, bootMode, Returned(0))
    case Loader =>
      var m := BootModeSet(BOOT_MODE_TYPE_BOOTLOADER);
      Boot(p.events + [m], mem, if env.Fails(at + |p.events|, m) then bootMode else BOOT_MODE_TYPE_BOOTLOADER, Returned(0))
    case Recovery =>
      var x := RecoveryRun(env, mem, bootMode, at + |p.events|, fmt, images, ts, failBlinks, button[p.buttonUsed..]);
      Boot(p.events + x.events, x.mem, x.bootMode, Halted(x.rebooted))
  }

  /** HookOutcome field by field, one decision at a time. */
  lemma HookSplit(env: Env, mem: map<AreaId, seq<byte>>, bootMode: nat, at: nat, fmt: ImageFormat,
                  images: seq<AreaId>, ts: seq<Transfer>, failBlinks: nat, button: seq<bool>, uptime: seq<u32>)
    requires env.Holds(mem)
    ensures var h := HookOutcome(env, mem, bootMode, at, fmt, images, ts, failBlinks, button, uptime);
      var p := PressOutcome(button, uptime);
      && (p.decision == Stalled ==> h.events == p.events && h.mem == mem && h.bootMode == bootMode && h.end == Halted(false))
      && (p.decision == Normal ==> h.events == p.events && h.mem == mem && h.bootMode == bootMode && h.end == Returned(0))
      && (p.decision == Loader ==>
            && h.events == p.events + [BootModeSet(BOOT_MODE_TYPE_BOOTLOADER)] && h.mem == mem && h.end == Returned(0)
            && h.bootMode == if env.Fails(at + |p.events|, BootModeSet(BOOT_MODE_TYPE_BOOTLOADER)) then bootMode else BOOT_MODE_TYPE_BOOTLOADER)
  {
  }

  /** HookOutcome field by field when the button asks for the recovery. */
  lemma HookRecoverySplit(env: Env, mem: map<AreaId, seq<byte>>, bootMode: nat, at: nat, fmt: ImageFormat,
                          images: seq<AreaId>, ts: seq<Transfer>, failBlinks: nat, button: seq<bool>, uptime: seq<u32>,
                          from: nat, samples: seq<bool>)
    requires env.Holds(mem)
    requires var p := PressOutcome(button, uptime);
      p.decision == Recovery && from == at + |p.events| && samples == button[p.buttonUsed..]
    ensures var h := HookOutcome(env, mem, bootMode, at, fmt, images, ts, failBlinks, button, uptime);
      var x := RecoveryRun(env, mem, bootMode, from, fmt, images, ts, failBlinks, samples);
      h.events == PressOutcome(button, uptime).events + x.events && h.mem == x.mem && h.bootMode == x.bootMode
      && h.end == Halted(x.rebooted)
  {
  }

  /**
   * The hook returns, with 0, exactly when the button was not held for the
   * whole delay (normal start or the loader), and then no flash changed;
   * the flash changes only in the recovery.
   */
  lemma HookReturnsIff(env: Env, mem: map<AreaId, seq<byte>>, bootMode: nat, at: nat, fmt: ImageFormat,
                       images: seq<AreaId>, ts: seq<Transfer>, failBlinks: nat, button: seq<bool>, uptime: seq<u32>)
    requires env.Holds(mem)
    ensures var h := HookOutcome(env, mem, bootMode, at, fmt, images, ts, failBlinks, button, uptime);
      var d := PressOutcome(button, uptime).decision;
      && (h.end.Returned? <==> d == Normal || d == Loader)
      && (h.end.Returned? ==> h.end.code == 0 && h.mem == mem)
      && (h.mem != mem ==> d == Recovery)
  {
  }

  /**
   * The factory-reset boot mode is set only by a recovery that succeeded,
   * which left the internal areas holding their external twins and the user
   * space wiped; the loader boot mode is set only when the button was
   * released before the delay.
   */
  lemma HookBootMode(env: Env, mem: map<AreaId, seq<byte>>, bootMode: nat, at: nat, fmt: ImageFormat,
                     images: seq<AreaId>, ts: seq<Transfer>, failBlinks: nat, button: seq<bool>, uptime: seq<u32>)
    requires env.Holds(mem) && Distinct(ts)
    ensures var h := HookOutcome(env, mem, bootMode, at, fmt, images, ts, failBlinks, button, uptime);
      var p := PressOutcome(button, uptime);
      && (h.bootMode == BOOT_MODE_TYPE_FACTORY_RESET && bootMode != BOOT_MODE_TYPE_FACTORY_RESET ==>
            && p.decision == Recovery && Recover(env, mem, at + |p.events| + 1, fmt, images, ts).ok
            && ImagesValid(mem, fmt, images) && AreasPresent(mem, ts) && ExtFlashUserspace in mem
            && h.mem == ApplyCopies(mem, ts)[ExtFlashUserspace := Erased(|mem[ExtFlashUserspace]|)])
      && (h.bootMode == BOOT_MODE_TYPE_BOOTLOADER && bootMode != BOOT_MODE_TYPE_BOOTLOADER ==> p.decision == Loader)
  {
    var p := PressOutcome(button, uptime);
    HookSplit(env, mem, bootMode, at, fmt, images, ts, failBlinks, button, uptime);
    if p.decision == Recovery {
      var from, samples := at + |p.events|, button[p.buttonUsed..];
      HookRecoverySplit(env, mem, bootMode, at, fmt, images, ts, failBlinks, button, uptime, from, samples);
      RecoveryRunResult(env, mem, bootMode, from, fmt, images, ts, failBlinks, samples);
    }
  }

  // ---------------------------------------------------------------------
  // Stepping through the copies one at a time

  /** The run of checks `goal` is the calls `done` followed by the checks `rest`. */
  predicate Checks(goal: Inspection, done: seq<Event>, rest: Inspection) {
    goal.ok == rest.ok && goal.events == done + rest.events
  }

  /**
   * One check of a run of checks: when it succeeds the run goes on with the
   * others, and when it fails the run ends there.
   */
  lemma ChecksStep(env: Env, goal: Inspection, done: seq<Event>, mem: map<AreaId, seq<byte>>, at: nat,
                   fmt: ImageFormat, areas: seq<AreaId>)
    requires env.Holds(mem) && areas != [] && Checks(goal, done, ImagesCheck(env, mem, at, fmt, areas))
    ensures var s := ImageCheck(env, mem, at, fmt, areas[0]);
      && (s.ok ==> Checks(goal, done + s.events, ImagesCheck(env, mem, at + |s.events|, fmt, areas[1..])))
      && (!s.ok ==> !goal.ok && goal.events == done + s.events)
  {
    var s := ImageCheck(env, mem, at, fmt, areas[0]);
    if s.ok {
      var rest := ImagesCheck(env, mem, at + 2, fmt, areas[1..]);
      assert done + (s.events + rest.events) == done + s.events + rest.events;
    }
  }

  /** Appending calls to a log keeps its first `n` calls and extends what follows them. */
  lemma LogGrows(log: seq<Event>, evs: seq<Event>, n: nat)
    requires n <= |log|
    ensures (log + evs)[..n] == log[..n] && (log + evs)[n..] == log[n..] + evs
  {
  }

  /** `goal` is what is left, `rest`, once the calls `done` have been made. */
  predicate Continues(goal: Step, done: seq<Event>, rest: Step) {
    goal.ok == rest.ok && goal.events == done + rest.events && goal.mem == rest.mem
  }

  /**
   * One copy of a run of copies: when it succeeds the run goes on with the
   * others, and when it fails the run ends there.
   */
  lemma CopiesStep(env: Env, goal: Step, done: seq<Event>, mem: map<AreaId, seq<byte>>, at: nat, ts: seq<Transfer>,
                   mem2: map<AreaId, seq<byte>>, at2: nat)
    requires env.Holds(mem) && ts != [] && Continues(goal, done, CopiesOutcome(env, mem, at, ts))
    requires var s := CopyPairOutcome(env, mem, at, ts[0]); mem2 == s.mem && at2 == at + |s.events|
    ensures var s := CopyPairOutcome(env, mem, at, ts[0]);
      && (s.ok ==> Continues(goal, done + s.events, CopiesOutcome(env, mem2, at2, ts[1..])))
      && (!s.ok ==> !goal.ok && goal.events == done + s.events && goal.mem == mem2)
  {
    var s := CopyPairOutcome(env, mem, at, ts[0]);
    assert CopiesOutcome(env, mem, at, ts) == CopyThenRest(env, mem, at, ts);
    if s.ok {
      var rest := CopiesOutcome(env, s.mem, at + |s.events|, ts[1..]);
      assert goal.events == done + (s.events + rest.events);
      assert done + (s.events + rest.events) == done + s.events + rest.events;
    }
  }

  /**
   * `images` and `copies` are the images factory_fw_recovery checks and the
   * copies it makes, spelt out one by one.
   */
  predicate IsRecoveryPlan(images: seq<AreaId>, copies: seq<Transfer>) {
    && |images| == 4 && images[0] == S0Ext && images[1] == S1Ext
    && images[2] == McubootPrimaryExt && images[3] == McubootSecondaryExt
    && |copies| == 5 && copies[0] == Transfer(ProvisionExt, Provision) && copies[1] == Transfer(S0Ext, S0)
    && copies[2] == Transfer(S1Ext, S1) && copies[3] == Transfer(McubootPrimaryExt, McubootPrimary)
    && copies[4] == Transfer(McubootSecondaryExt, McubootSecondary)
  }

  // ---------------------------------------------------------------------
  // The bootloader hook

  class Hook {
    /** The image copier and comparer of btldr_img_op.c, with its two chunk buffers. */
    const engine: Engine
    /** img_header_buf (check_img_in_ext_flash). */
    const imgHeaderBuf: array<byte>
    const fmt: ImageFormat
    /** NUM_RED_LED_BLINKS_ON_FW_RECOVERY_FAIL. */
    const failBlinks: nat
    /** The external images factory_fw_recovery checks, and the copies it makes, in order. */
    const images: seq<AreaId>
    const copies: seq<Transfer>

    ghost predicate Valid() {
      && engine.Valid() && imgHeaderBuf.Length == fmt.headerLen
      && imgHeaderBuf != engine.tmpBuf1 && imgHeaderBuf != engine.tmpBuf2
      && IsRecoveryPlan(images, copies)
    }

    constructor (fmt: ImageFormat, failBlinks: nat)
      ensures Valid() && this.fmt == fmt && this.failBlinks == failBlinks
    {
      engine := new Engine();
      imgHeaderBuf := new byte[fmt.headerLen];
      this.fmt := fmt;
      this.failBlinks := failBlinks;
      images := EXT_IMAGES;
      copies := COPY_PAIRS;
    }

    /** check_img_in_ext_flash: open the area, read its header, look for the firmware-info descriptor. */
    method CheckImgInExtFlash(board: Board, a: AreaId) returns (ok: bool)
      requires Valid() && board.Valid()
      modifies board`log, imgHeaderBuf
      ensures var s := ImageCheck(board.env, board.mem, |old(board.log)|, fmt, a);
        ok == s.ok && board.log == old(board.log) + s.events
    {
      var isOpen, size := board.FlashOpen(a);
      if !isOpen {
        return false;
      }
      var read := board.FlashRead(a, 0, imgHeaderBuf, imgHeaderBuf.Length);
      if !read {
        return false;
      }
      assert imgHeaderBuf[..] == imgHeaderBuf[..imgHeaderBuf.Length];
      ok := imgHeaderBuf[..] in fmt.accepted;
    }

    /**
     * One of the checks of check_images_in_ext_flash, the first of the areas
     * `areas` still to check in the run of checks `goal` whose calls follow
     * `pre`: when it succeeds the run goes on with the others, when it fails
     * the run has ended.
     */
    method CheckNext(board: Board, a: AreaId, ghost goal: Inspection, ghost pre: seq<Event>, ghost areas: seq<AreaId>)
      returns (ok: bool)
      requires Valid() && board.Valid() && areas != [] && areas[0] == a
      requires |pre| <= |board.log| && board.log[..|pre|] == pre
      requires Checks(goal, board.log[|pre|..], ImagesCheck(board.env, board.mem, |board.log|, fmt, areas))
      modifies board`log, imgHeaderBuf
      ensures |pre| <= |board.log| && board.log[..|pre|] == pre
      ensures ok ==> Checks(goal, board.log[|pre|..], ImagesCheck(board.env, board.mem, |board.log|, fmt, areas[1..]))
      ensures !ok ==> !goal.ok && goal.events == board.log[|pre|..]
    {
      ChecksStep(board.env, goal, board.log[|pre|..], board.mem, |board.log|, fmt, areas);
      ghost var log0 := board.log;
      ok := CheckImgInExtFlash(board, a);
      assert board.log[|pre|..] == log0[|pre|..] + board.log[|log0|..];
      assert board.log[..|pre|] == log0[..|pre|];
    }

    /** check_images_in_ext_flash: the four external images in turn; the first failure ends it. */
    method CheckImagesInExtFlash(board: Board) returns (ok: bool)
      requires Valid() && board.Valid()
      modifies board`log, imgHeaderBuf
      ensures var v := ImagesCheck(board.env, board.mem, |old(board.log)|, fmt, images);
        ok == v.ok && board.log == old(board.log) + v.events
    {
      ghost var pre := board.log;
      ghost var goal := ImagesCheck(board.env, board.mem, |pre|, fmt, images);
      assert board.log[|pre|..] == [];
      ok := CheckNext(board, S0Ext, goal, pre, images);
      if ok {
        ok := CheckNext(board, S1Ext, goal, pre, images[1..]);
      }
      if ok {
        assert images[1..][1..] == images[2..];
        ok := CheckNext(board, McubootPrimaryExt, goal, pre, images[2..]);
      }
      if ok {
        assert images[2..][1..] == images[3..];
        ok := CheckNext(board, McubootSecondaryExt, goal, pre, images[3..]);
        assert ok ==> images[3..][1..] == [];
      }
      assert board.log == pre + board.log[|pre|..];
    }

    /**
     * copy_img_from_ext_flash_to_int_flash: btldr_img_op_copy, whose result
     * is ignored, then btldr_img_op_cmp. A failing flash call inside either
     * ends in the failure path.
     */
    method CopyImgFromExtFlashToIntFlash(board: Board, t: Transfer) returns (ok: bool)
      requires Valid() && board.Valid()
      modifies board`log, board`mem, engine.tmpBuf1, engine.tmpBuf2
      ensures board.Valid()
      ensures var s := CopyPairOutcome(board.env, old(board.mem), |old(board.log)|, t);
        ok == s.ok && board.log == old(board.log) + s.events && board.mem == s.mem
    {
      var c := engine.Copy(board, t.dst, t.src);
      if c == Fatal {
        return false;
      }
      var k := engine.Compare(board, t.dst, t.src);
      ok := k == Done(true);
    }

    /** flash_erase: open the area, flatten all of it, close it on both paths. */
    method FlashErase(board: Board, a: AreaId) returns (ok: bool)
      requires board.Valid()
      modifies board`log, board`mem
      ensures board.Valid()
      ensures var s := EraseOutcome(board.env, old(board.mem), |old(board.log)|, a);
        ok == s.ok && board.log == old(board.log) + s.events && board.mem == s.mem
    {
      var isOpen, size := board.FlashOpen(a);
      if !isOpen {
        return false;
      }
      ok := board.FlashFlatten(a, 0, size);
      board.FlashClose(a);
      if ok {
        assert EraseAt(old(board.mem)[a], 0, size) == Erased(size);
      }
    }

    /**
     * One of the copies of factory_fw_recovery, the first of the copies `ts`
     * still to make in the run of copies `goal` whose calls follow `pre`:
     * when it succeeds the run goes on with the others, when it fails the
     * run has ended.
     */
    method CopyNext(board: Board, t: Transfer, ghost goal: Step, ghost pre: seq<Event>, ghost ts: seq<Transfer>)
      returns (ok: bool)
      requires Valid() && board.Valid() && ts != [] && ts[0] == t
      requires |pre| <= |board.log| && board.log[..|pre|] == pre
      requires Continues(goal, board.log[|pre|..], CopiesOutcome(board.env, board.mem, |board.log|, ts))
      modifies board`log, board`mem, engine.tmpBuf1, engine.tmpBuf2
      ensures board.Valid() && |pre| <= |board.log| && board.log[..|pre|] == pre
      ensures ok ==> Continues(goal, board.log[|pre|..], CopiesOutcome(board.env, board.mem, |board.log|, ts[1..]))
      ensures !ok ==> !goal.ok && goal.events == board.log[|pre|..] && goal.mem == board.mem
    {
      ghost var log0, done := board.log, board.log[|pre|..];
      ghost var s := CopyPairOutcome(board.env, board.mem, |log0|, t);
      ghost var mem0 := board.mem;
      ok := CopyImgFromExtFlashToIntFlash(board, t);
      LogGrows(log0, s.events, |pre|);
      CopiesStep(board.env, goal, done, mem0, |log0|, ts, board.mem, |board.log|);
    }

    /** Lines 222-253 of factory_fw_recovery: the five verified copies in turn; the first failure ends them. */
    method CopyImages(board: Board) returns (ok: bool)
      requires Valid() && board.Valid()
      modifies board`log, board`mem, engine.tmpBuf1, engine.tmpBuf2
      ensures board.Valid()
      ensures var c := CopiesOutcome(board.env, old(board.mem), |old(board.log)|, copies);
        ok == c.ok && board.log == old(board.log) + c.events && board.mem == c.mem
    {
      ghost var pre := board.log;
      ghost var goal := CopiesOutcome(board.env, board.mem, |pre|, copies);
      assert board.log[|pre|..] == [];
      ok := CopyNext(board, Transfer(ProvisionExt, Provision), goal, pre, copies);
      if ok {
        ok := CopyNext(board, Transfer(S0Ext, S0), goal, pre, copies[1..]);
      }
      if ok {
        assert copies[1..][1..] == copies[2..];
        ok := CopyNext(board, Transfer(S1Ext, S1), goal, pre, copies[2..]);
      }
      if ok {
        assert copies[2..][1..] == copies[3..];
        ok := CopyNext(board, Transfer(McubootPrimaryExt, McubootPrimary), goal, pre, copies[3..]);
      }
      if ok {
        assert copies[3..][1..] == copies[4..];
        ok := CopyNext(board, Transfer(McubootSecondaryExt, McubootSecondary), goal, pre, copies[4..]);
        assert ok ==> copies[4..][1..] == [];
      }
      assert board.log == pre + board.log[|pre|..];
    }

    /** Lines 254-265 of factory_fw_recovery: flash_erase of the user space, then the factory-reset boot mode. */
    method WipeUserspace(board: Board) returns (ok: bool)
      requires board.Valid()
      modifies board`log, board`mem, board`bootMode
      ensures board.Valid()
      ensures var f := FinishOutcome(board.env, old(board.mem), |old(board.log)|);
        ok == f.ok && board.log == old(board.log) + f.events && board.mem == f.mem
      ensures board.bootMode == if ok then BOOT_MODE_TYPE_FACTORY_RESET else old(board.bootMode)
    {
      ok := FlashErase(board, ExtFlashUserspace);
      if !ok {
        return;
      }
      ok := board.SetBootMode(BOOT_MODE_TYPE_FACTORY_RESET);
    }

    /**
     * Lines 218-265 of factory_fw_recovery up to its first failure: check the
     * images, make the five verified copies, wipe the user space, write the
     * factory-reset boot mode.
     */
    method RecoverImages(board: Board) returns (ok: bool)
      requires Valid() && board.Valid()
      modifies board`log, board`mem, board`bootMode, imgHeaderBuf, engine.tmpBuf1, engine.tmpBuf2
      ensures board.Valid()
      ensures var r := Recover(board.env, old(board.mem), |old(board.log)|, fmt, images, copies);
        ok == r.ok && board.log == old(board.log) + r.events && board.mem == r.mem
      ensures board.bootMode == if ok then BOOT_MODE_TYPE_FACTORY_RESET else old(board.bootMode)
    {
      ghost var env, mem0, log0 := board.env, board.mem, board.log;
      ghost var at := |log0|;
      ghost var v := ImagesCheck(env, mem0, at, fmt, images);
      ghost var at1 := at + |v.events|;
      ghost var c := CopiesOutcome(env, mem0, at1, copies);
      ghost var at2 := at1 + |c.events|;
      ghost var f := FinishOutcome(env, c.mem, at2);
      RecoverySplit(env, mem0, at, fmt, images, copies, at1, at2);
      ok := CheckImagesInExtFlash(board);
      if !ok {
        return;
      }
      assert |board.log| == at1;
      ok := CopyImages(board);
      AppendAssoc(log0, v.events, c.events);
      if !ok {
        return;
      }
      assert |board.log| == at2;
      ok := WipeUserspace(board);
      AppendAssoc(log0, v.events + c.events, f.events);
    }

    /** on_factory_fw_recovery_fail: stop blinking, then blink the red LED until the board reboots. */
    method OnFactoryFwRecoveryFail(board: Board) returns (rebooted: bool)
      modifies board`log, board`button
      ensures var b := LedErr.Blink(failBlinks, old(board.button));
        board.log == old(board.log) + [StopBlinking] + b.events && rebooted == b.rebooted
      ensures !rebooted ==> board.button == []
    {
      board.LedStopBlinking();
      rebooted := LedErr.BlinkRedLed(board, failBlinks);
    }

    /**
     * Lines 272-275 of factory_fw_recovery: poll the button every 10 ms until
     * it is seen released, the first sample of `b` having been read already.
     */
    method WaitForRelease(board: Board, ghost b: seq<bool>) returns (released: bool)
      requires 1 <= |b| && board.button == b[1..]
      modifies board`log, board`button
      ensures var w := WaitFrom(b, 1);
        && board.log == old(board.log) + w.events && released == w.released
        && board.button == b[w.used..]
    {
      ghost var i: nat := 1;
      ghost var done: seq<Event> := [];
      while true
        invariant 1 <= i <= |b| && board.button == b[i..]
        invariant board.log == old(board.log) + done
        invariant WaitFrom(b, 1).events == done + WaitFrom(b, i).events
        invariant WaitFrom(b, 1).used == WaitFrom(b, i).used && WaitFrom(b, 1).released == WaitFrom(b, i).released
        decreases |board.button|
      {
        var held := board.ButtonGet();
        if held.None? {
          return false;
        }
        if !held.value {
          return true;
        }
        board.SleepMs(RELEASE_POLL_MS);
        AppendAssoc(done, [Sleep(RELEASE_POLL_MS)], WaitFrom(b, i + 1).events);
        done := done + [Sleep(RELEASE_POLL_MS)];
        i := i + 1;
      }
    }

    /**
     * Lines 267-282 of factory_fw_recovery: stop blinking; if the button is
     * pressed, light both LEDs until it is released; wait 500 ms; reboot.
     */
    method RebootWhenReleased(board: Board) returns (rebooted: bool)
      modifies board`log, board`button
      ensures var w := ReleaseWait(old(board.button));
        && board.log == old(board.log) + RebootCalls(w) && rebooted == w.released
        && board.button == old(board.button)[w.used..]
    {
      board.LedStopBlinking();
      ghost var b := board.button;
      var pressed := board.ButtonGet();
      if pressed.None? {
        return false;
      }
      if pressed.value {
        board.LedRedAndGreen(true);
        var released := WaitForRelease(board, b);
        if !released {
          return false;
        }
        board.LedRedAndGreen(false);
      }
      board.SleepMs(DELAY_BEFORE_REBOOT_MS);
      board.SysReboot();
      rebooted := true;
    }

    /** factory_fw_recovery: it never returns; `rebooted` says whether it ended in a reboot. */
    method FactoryFwRecovery(board: Board) returns (rebooted: bool)
      requires Valid() && board.Valid()
      modifies board`log, board`mem, board`bootMode, board`button, imgHeaderBuf, engine.tmpBuf1, engine.tmpBuf2
      ensures board.Valid()
      ensures var x := RecoveryRun(board.env, old(board.mem), old(board.bootMode), |old(board.log)|, fmt,
                                   images, copies, failBlinks, old(board.button));
        && board.log == old(board.log) + x.events && board.mem == x.mem
        && board.bootMode == x.bootMode && rebooted == x.rebooted
      ensures var r := Recover(board.env, old(board.mem), |old(board.log)| + 1, fmt, images, copies);
        && (r.ok ==> board.button == old(board.button)[ReleaseWait(old(board.button)).used..])
        && (!r.ok && !rebooted ==> board.button == [])
    {
      ghost var log0 := board.log;
      board.LedStartBlinking();
      ghost var r := Recover(board.env, board.mem, |board.log|, fmt, images, copies);
      var ok := RecoverImages(board);
      AppendAssoc(log0, [StartBlinking], r.events);
      ghost var log1 := board.log;
      if !ok {
        rebooted := OnFactoryFwRecoveryFail(board);
        AppendAssoc(log0, [StartBlinking] + r.events, board.log[|log1|..]);
        return;
      }
      rebooted := RebootWhenReleased(board);
      AppendAssoc(log0, [StartBlinking] + r.events, board.log[|log1|..]);
    }

    /**
     * soc_late_init_hook, without its logging: the recovery when the button
     * was held for the whole delay (it never returns), the loader boot mode
     * when it was released early (a failed write is only logged), and 0.
     */
    method SocLateInitHook(board: Board) returns (end: HookEnd)
      requires Valid() && board.Valid()
      modifies board`log, board`mem, board`bootMode, board`button, board`uptime, imgHeaderBuf, engine.tmpBuf1, engine.tmpBuf2
      ensures board.Valid()
      ensures var h := HookOutcome(board.env, old(board.mem), old(board.bootMode), |old(board.log)|, fmt,
                                   images, copies, failBlinks, old(board.button), old(board.uptime));
        && board.log == old(board.log) + h.events && board.mem == h.mem
        && board.bootMode == h.bootMode && end == h.end
    {
      ghost var log0, mem0, mode0, b0, u0 := board.log, board.mem, board.bootMode, board.button, board.uptime;
      HookSplit(board.env, mem0, mode0, |log0|, fmt, images, copies, failBlinks, b0, u0);
      var d := CheckAndHandleButtonPress(board);
      ghost var pe := board.log[|log0|..];
      assert board.log == log0 + pe;
      match d
      case Stalled =>
        end := Halted(false);
      case Normal =>
        end := Returned(0);
      case Loader =>
        var _ := board.SetBootMode(BOOT_MODE_TYPE_BOOTLOADER);
        end := Returned(0);
      case Recovery =>
        ghost var from, samples := |board.log|, board.button;
        var rebooted := FactoryFwRecovery(board);
        HookRecoverySplit(board.env, mem0, mode0, |log0|, fmt, images, copies, failBlinks, b0, u0, from, samples);
        AppendAssoc(log0, pe, board.log[from..]);
        end := Halted(rebooted);
    }
  }
}
