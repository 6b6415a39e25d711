/*
 * Fault containment of b0_led_err.c: once recovery has failed, the red LED
 * blinks a fixed pattern forever while the button is polled; the board
 * reboots only after the button has been seen released and then pressed.
 *
 * The button is the board's finite sample stream. Once it is used up the
 * model stops polling (the board would go on blinking).
 */
module LedErr {
  import opened Platform

  const DELAY_BEFORE_REBOOT_MS: nat := 100
  const LED_FLASH_DURATION_MS: nat := 100
  const BUTTON_PRESS_CHECK_PERIOD_MS: nat := 100
  const DELAY_BETWEEN_BLINKS_MS: nat := 900

  /** The button checks in the pause after the red blinks of one cycle. */
  const GAP_CHECKS: nat := DELAY_BETWEEN_BLINKS_MS / BUTTON_PRESS_CHECK_PERIOD_MS

  /** The button checks of one cycle: two per red blink, then the gap checks. */
  function CycleLen(numRedBlinks: nat): nat {
    2 * numRedBlinks + GAP_CHECKS
  }

  /** The released flag after a check, and whether the check asks for a reboot. */
  datatype Check = Check(released: bool, reboot: bool)

  /**
   * check_if_button_released_and_pressed on one button sample (`pressed`):
   * before a release only a release is looked for; after it, a press asks
   * for a reboot.
   */
  function CheckStep(released: bool, pressed: bool): Check {
    if !released then Check(!pressed, false)
    else Check(true, pressed)
  }

  /** The LED and sleep calls that precede the button check at position `p` of a cycle. */
  function Lead(numRedBlinks: nat, p: nat): seq<Event>
    requires p < CycleLen(numRedBlinks)
  {
    if p < 2 * numRedBlinks then
      if p % 2 == 0 then [RedSet(true), Sleep(LED_FLASH_DURATION_MS)]
      else [RedSet(false), Sleep(BUTTON_PRESS_CHECK_PERIOD_MS)]
    else [Sleep(BUTTON_PRESS_CHECK_PERIOD_MS)]
  }

  /** The position of the check after the one at `p`; the last check of a cycle is followed by the first. */
  function NextPos(numRedBlinks: nat, p: nat): (q: nat)
    requires p < CycleLen(numRedBlinks)
    ensures q < CycleLen(numRedBlinks)
    ensures q == 0 <==> p == CycleLen(numRedBlinks) - 1
    ensures p + 1 < CycleLen(numRedBlinks) ==> q == p + 1
  {
    if p + 1 == CycleLen(numRedBlinks) then 0 else p + 1
  }

  /** Where the blinking ends: the calls made, and whether it rebooted. */
  datatype BlinkEnd = BlinkEnd(events: seq<Event>, rebooted: bool)

  /**
   * The `while (1)` loop of b0_led_err_blink_red_led from the check at
   * position `p` of a cycle, with the released flag `released`, the button
   * samples `samples` still to come and the calls `done` already made.
   */
  function ChecksFrom(numRedBlinks: nat, p: nat, released: bool, samples: seq<bool>, done: seq<Event>): (r: BlinkEnd)
    requires p < CycleLen(numRedBlinks)
    decreases |samples|
  {
    var lead := done + Lead(numRedBlinks, p);
    if samples == [] then BlinkEnd(lead, false)
    else
      var c := CheckStep(released, samples[0]);
      if c.reboot then BlinkEnd(lead + [Sleep(DELAY_BEFORE_REBOOT_MS), Reboot], true)
      else ChecksFrom(numRedBlinks, NextPos(numRedBlinks, p), c.released, samples[1..], lead)
  }

  /**
   * b0_led_err_blink_red_led(numRedBlinks) over the button samples `samples`:
   * the first sample sets the released flag, the green LED is turned off,
   * then the cycles of checks run.
   */
  function Blink(numRedBlinks: nat, samples: seq<bool>): BlinkEnd {
    if samples == [] then BlinkEnd([], false)
    else ChecksFrom(numRedBlinks, 0, !samples[0], samples[1..], [GreenSet(false)])
  }

  // ---------------------------------------------------------------------
  // The released flag

  /** A check never asks for a reboot before the flag is set, and a set flag stays set. */
  lemma CheckNeedsRelease(released: bool, pressed: bool)
    ensures !released ==> !CheckStep(released, pressed).reboot && CheckStep(released, pressed).released == !pressed
    ensures released ==> CheckStep(released, pressed).released && (CheckStep(released, pressed).reboot <==> pressed)
  {
  }

  // ---------------------------------------------------------------------
  // When the board reboots

  /** The checks reboot iff some pressed sample comes after the flag is set (initially or by an earlier release). */
  lemma {:induction false} ChecksFromRebootIff(numRedBlinks: nat, p: nat, released: bool, samples: seq<bool>,
                                               done: seq<Event>)
    requires p < CycleLen(numRedBlinks)
    ensures ChecksFrom(numRedBlinks, p, released, samples, done).rebooted <==>
      exists k :: 0 <= k < |samples| && samples[k] && (released || exists i :: 0 <= i < k && !samples[i])
    decreases |samples|
  {
    if samples != [] {
      var c := CheckStep(released, samples[0]);
      var rest := samples[1..];
      if !c.reboot {
        var lead := done + Lead(numRedBlinks, p);
        ChecksFromRebootIff(numRedBlinks, NextPos(numRedBlinks, p), c.released, rest, lead);
        if exists k :: 0 <= k < |samples| && samples[k] && (released || exists i :: 0 <= i < k && !samples[i]) {
          var k :| 0 <= k < |samples| && samples[k] && (released || exists i :: 0 <= i < k && !samples[i]);
          assert k > 0;
          assert rest[k - 1] == samples[k];
          if !released {
            var i :| 0 <= i < k && !samples[i];
            if i > 0 {
              assert rest[i - 1] == samples[i];
            }
          }
        }
        if exists k :: 0 <= k < |rest| && rest[k] && (c.released || exists i :: 0 <= i < k && !rest[i]) {
          var k :| 0 <= k < |rest| && rest[k] && (c.released || exists i :: 0 <= i < k && !rest[i]);
          assert samples[k + 1] == rest[k];
          if !c.released {
            var i :| 0 <= i < k && !rest[i];
            assert samples[i + 1] == rest[i];
          }
        }
      }
    }
  }

  /**
   * b0_led_err_blink_red_led reboots iff some sample shows the button
   * released and a later one shows it pressed.
   */
  lemma BlinkRebootIff(numRedBlinks: nat, samples: seq<bool>)
    ensures Blink(numRedBlinks, samples).rebooted <==>
      exists i, k :: 0 <= i < k < |samples| && !samples[i] && samples[k]
  {
    if samples != [] {
      var rest := samples[1..];
      ChecksFromRebootIff(numRedBlinks, 0, !samples[0], rest, [GreenSet(false)]);
      if exists i, k :: 0 <= i < k < |samples| && !samples[i] && samples[k] {
        var i, k :| 0 <= i < k < |samples| && !samples[i] && samples[k];
        assert rest[k - 1] == samples[k];
        if i > 0 {
          assert rest[i - 1] == samples[i];
        }
      }
      if exists k :: 0 <= k < |rest| && rest[k] && (!samples[0] || exists i :: 0 <= i < k && !rest[i]) {
        var k :| 0 <= k < |rest| && rest[k] && (!samples[0] || exists i :: 0 <= i < k && !rest[i]);
        assert samples[k + 1] == rest[k];
        if samples[0] {
          var i :| 0 <= i < k && !rest[i];
          assert samples[i + 1] == rest[i];
        }
      }
    }
  }

  /** The checks only append calls, at least one. */
  lemma {:induction false} ChecksFromExtends(numRedBlinks: nat, p: nat, released: bool, samples: seq<bool>,
                                             done: seq<Event>)
    requires p < CycleLen(numRedBlinks)
    ensures var b := ChecksFrom(numRedBlinks, p, released, samples, done);
      |done| < |b.events| && b.events[..|done|] == done
    decreases |samples|
  {
    var lead := done + Lead(numRedBlinks, p);
    assert lead[..|done|] == done;
    if samples != [] {
      var c := CheckStep(released, samples[0]);
      if !c.reboot {
        ChecksFromExtends(numRedBlinks, NextPos(numRedBlinks, p), c.released, samples[1..], lead);
        var b := ChecksFrom(numRedBlinks, p, released, samples, done);
        assert b.events[..|done|] == b.events[..|lead|][..|done|];
      }
    }
  }

  /** The checks never touch the green LED. */
  lemma {:induction false} ChecksFromNoGreen(numRedBlinks: nat, p: nat, released: bool, samples: seq<bool>,
                                             done: seq<Event>)
    requires p < CycleLen(numRedBlinks)
    ensures var b := ChecksFrom(numRedBlinks, p, released, samples, done);
      forall j :: |done| <= j < |b.events| ==> !b.events[j].GreenSet?
    decreases |samples|
  {
    var lead := done + Lead(numRedBlinks, p);
    if samples != [] {
      var c := CheckStep(released, samples[0]);
      if !c.reboot {
        ChecksFromNoGreen(numRedBlinks, NextPos(numRedBlinks, p), c.released, samples[1..], lead);
        ChecksFromExtends(numRedBlinks, NextPos(numRedBlinks, p), c.released, samples[1..], lead);
        var b := ChecksFrom(numRedBlinks, p, released, samples, done);
        forall j | |done| <= j < |lead|
          ensures !b.events[j].GreenSet?
        {
          assert b.events[j] == b.events[..|lead|][j];
        }
      }
    }
  }

  /** A reboot is the last call of the checks and is made once, exactly when they end in a reboot. */
  lemma {:induction false} ChecksFromRebootLast(numRedBlinks: nat, p: nat, released: bool, samples: seq<bool>,
                                                done: seq<Event>)
    requires p < CycleLen(numRedBlinks)
    requires forall j :: 0 <= j < |done| ==> done[j] != Reboot
    ensures var b := ChecksFrom(numRedBlinks, p, released, samples, done);
      && |b.events| > 0
      && (forall j :: 0 <= j < |b.events| - 1 ==> b.events[j] != Reboot)
      && (b.events[|b.events| - 1] == Reboot <==> b.rebooted)
    decreases |samples|
  {
    var lead := done + Lead(numRedBlinks, p);
    if samples != [] {
      var c := CheckStep(released, samples[0]);
      if !c.reboot {
        ChecksFromRebootLast(numRedBlinks, NextPos(numRedBlinks, p), c.released, samples[1..], lead);
      }
    }
  }

  /**
   * The whole blinking: the green LED is turned off once, first, and never
   * again; a reboot is the last call, made at most once, and only when the
   * blinking ends in a reboot.
   */
  lemma BlinkCallsShape(numRedBlinks: nat, samples: seq<bool>)
    ensures var b := Blink(numRedBlinks, samples);
      && (samples == [] ==> b == BlinkEnd([], false))
      && (samples != [] ==>
            && |b.events| > 0 && b.events[0] == GreenSet(false)
            && (forall j :: 1 <= j < |b.events| ==> !b.events[j].GreenSet?)
            && (forall j :: 0 <= j < |b.events| - 1 ==> b.events[j] != Reboot)
            && (b.events[|b.events| - 1] == Reboot <==> b.rebooted))
  {
    if samples != [] {
      ChecksFromExtends(numRedBlinks, 0, !samples[0], samples[1..], [GreenSet(false)]);
      ChecksFromNoGreen(numRedBlinks, 0, !samples[0], samples[1..], [GreenSet(false)]);
      ChecksFromRebootLast(numRedBlinks, 0, !samples[0], samples[1..], [GreenSet(false)]);
    }
  }

  /** Pressed, released, pressed: the reboot comes at the second press, right after the first red blink. */
  lemma PressReleasePressReboots(numRedBlinks: nat)
    requires numRedBlinks > 0
    ensures Blink(numRedBlinks, [true, false, true]) ==
      BlinkEnd([GreenSet(false), RedSet(true), Sleep(100), RedSet(false), Sleep(100), Sleep(100), Reboot], true)
  {
    assert [true, false, true][1..] == [false, true];
    assert [false, true][1..] == [true];
  }

  // ---------------------------------------------------------------------
  // The blink schedule

  /** The calls made by the n red blinks of one cycle, each turning the red LED on and off. */
  function RedPairs(n: nat): seq<Event> {
    if n == 0 then []
    else [RedSet(true), Sleep(LED_FLASH_DURATION_MS), RedSet(false), Sleep(BUTTON_PRESS_CHECK_PERIOD_MS)] + RedPairs(n - 1)
  }

  /** The calls of `n` gap checks. */
  function Gaps(n: nat): seq<Event> {
    seq(n, _ => Sleep(BUTTON_PRESS_CHECK_PERIOD_MS))
  }

  /** The calls made before the checks at positions p .. the end of a cycle. */
  function CycleLeads(numRedBlinks: nat, p: nat): seq<Event>
    requires p <= CycleLen(numRedBlinks)
    decreases CycleLen(numRedBlinks) - p
  {
    if p == CycleLen(numRedBlinks) then [] else Lead(numRedBlinks, p) + CycleLeads(numRedBlinks, p + 1)
  }

  lemma {:induction false} GapLeads(numRedBlinks: nat, j: nat)
    requires j <= GAP_CHECKS
    ensures CycleLeads(numRedBlinks, 2 * numRedBlinks + j) == Gaps(GAP_CHECKS - j)
    decreases GAP_CHECKS - j
  {
    if j < GAP_CHECKS {
      GapLeads(numRedBlinks, j + 1);
      CycleLeadsStep(numRedBlinks, 2 * numRedBlinks + j);
      assert Gaps(GAP_CHECKS - j) == [Sleep(BUTTON_PRESS_CHECK_PERIOD_MS)] + Gaps(GAP_CHECKS - (j + 1));
    } else {
      assert Gaps(0) == [];
    }
  }

  lemma Assoc(a: seq<Event>, b: seq<Event>, c: seq<Event>)
    ensures a + (b + c) == (a + b) + c
  {
  }

  lemma CycleLeadsStep(numRedBlinks: nat, p: nat)
    requires p < CycleLen(numRedBlinks)
    ensures CycleLeads(numRedBlinks, p) == Lead(numRedBlinks, p) + CycleLeads(numRedBlinks, p + 1)
  {
  }

  /** The i-th red blink: its first check follows the LED turned on, its second the LED turned off. */
  lemma RedBlinkLeads(numRedBlinks: nat, i: nat)
    requires i < numRedBlinks
    ensures Lead(numRedBlinks, 2 * i) == [RedSet(true), Sleep(LED_FLASH_DURATION_MS)]
    ensures Lead(numRedBlinks, 2 * i + 1) == [RedSet(false), Sleep(BUTTON_PRESS_CHECK_PERIOD_MS)]
  {
    assert (2 * i) % 2 == 0 && (2 * i + 1) % 2 == 1;
  }

  lemma {:induction false} RedLeads(numRedBlinks: nat, i: nat)
    requires i <= numRedBlinks
    ensures CycleLeads(numRedBlinks, 2 * i) == RedPairs(numRedBlinks - i) + Gaps(GAP_CHECKS)
    decreases numRedBlinks - i
  {
    if i == numRedBlinks {
      GapLeads(numRedBlinks, 0);
    } else {
      RedLeads(numRedBlinks, i + 1);
      var tail := CycleLeads(numRedBlinks, 2 * i + 2);
      CycleLeadsStep(numRedBlinks, 2 * i);
      CycleLeadsStep(numRedBlinks, 2 * i + 1);
      RedBlinkLeads(numRedBlinks, i);
      var pair := Lead(numRedBlinks, 2 * i) + Lead(numRedBlinks, 2 * i + 1);
      Assoc(Lead(numRedBlinks, 2 * i), Lead(numRedBlinks, 2 * i + 1), tail);
      Assoc(pair, RedPairs(numRedBlinks - (i + 1)), Gaps(GAP_CHECKS));
    }
  }

  /** One cycle: numRedBlinks red on/off pairs, then GAP_CHECKS (nine) gap checks. */
  lemma CycleLayout(numRedBlinks: nat)
    ensures CycleLeads(numRedBlinks, 0) == RedPairs(numRedBlinks) + Gaps(9)
    ensures |CycleLeads(numRedBlinks, 0)| == 4 * numRedBlinks + 9
  {
    RedLeads(numRedBlinks, 0);
    PairsLength(numRedBlinks);
  }

  lemma {:induction false} PairsLength(n: nat)
    ensures |RedPairs(n)| == 4 * n
  {
    if n > 0 {
      PairsLength(n - 1);
    }
  }

  /**
   * While the button stays released, the checks from position `p` run to the
   * end of the cycle making exactly the cycle's calls, and the flag is set.
   */
  lemma {:induction false} QuietRestOfCycle(numRedBlinks: nat, p: nat, released: bool, samples: seq<bool>,
                                            done: seq<Event>)
    requires p < CycleLen(numRedBlinks)
    requires CycleLen(numRedBlinks) - p <= |samples|
    requires forall k :: 0 <= k < |samples| ==> !samples[k]
    ensures ChecksFrom(numRedBlinks, p, released, samples, done) ==
      ChecksFrom(numRedBlinks, 0, true, samples[CycleLen(numRedBlinks) - p..], done + CycleLeads(numRedBlinks, p))
    decreases CycleLen(numRedBlinks) - p
  {
    var lead := done + Lead(numRedBlinks, p);
    var rest := samples[1..];
    assert !samples[0] && CheckStep(released, samples[0]) == Check(true, false);
    ChecksFromNext(numRedBlinks, p, released, samples, done);
    if p + 1 == CycleLen(numRedBlinks) {
      assert rest == samples[CycleLen(numRedBlinks) - p..];
      assert CycleLeads(numRedBlinks, p) == Lead(numRedBlinks, p) + [];
      assert done + CycleLeads(numRedBlinks, p) == lead;
    } else {
      QuietRestOfCycle(numRedBlinks, p + 1, true, rest, lead);
      assert rest[CycleLen(numRedBlinks) - (p + 1)..] == samples[CycleLen(numRedBlinks) - p..];
      assert lead + CycleLeads(numRedBlinks, p + 1) == done + CycleLeads(numRedBlinks, p);
    }
  }

  // ---------------------------------------------------------------------
  // The imperative loop

  /** What one button check reports. */
  datatype Poll = Continue | RebootNow | OutOfSamples

  /** Unfolding the checks by one step, in the terms the blinking loop tracks. */
  lemma ChecksFromNext(numRedBlinks: nat, p: nat, released: bool, samples: seq<bool>, done: seq<Event>)
    requires p < CycleLen(numRedBlinks) && samples != []
    ensures var c := CheckStep(released, samples[0]);
      var lead := done + Lead(numRedBlinks, p);
      && (c.reboot ==>
            ChecksFrom(numRedBlinks, p, released, samples, done) ==
            BlinkEnd(lead + [Sleep(DELAY_BEFORE_REBOOT_MS), Reboot], true))
      && (!c.reboot ==>
            ChecksFrom(numRedBlinks, p, released, samples, done) ==
            ChecksFrom(numRedBlinks, NextPos(numRedBlinks, p), c.released, samples[1..], lead))
  {
  }

  /**
   * check_if_button_released_and_pressed: takes one button sample; the flag
   * `released` is passed in and out like the C out-parameter.
   */
  method CheckIfButtonReleasedAndPressed(board: Board, released: bool) returns (releasedOut: bool, poll: Poll)
    modifies board`log, board`button
    ensures old(board.button) == [] ==> poll == OutOfSamples && board.log == old(board.log) && board.button == []
    ensures old(board.button) != [] ==>
      var c := CheckStep(released, old(board.button)[0]);
      && board.button == old(board.button)[1..]
      && releasedOut == c.released
      && poll == (if c.reboot then RebootNow else Continue)
      && board.log == old(board.log) + (if c.reboot then [Sleep(DELAY_BEFORE_REBOOT_MS)] else [])
  {
    releasedOut := released;
    var s := board.ButtonGet();
    if s.None? {
      return released, OutOfSamples;
    }
    if !released {
      if !s.value {
        releasedOut := true;
      }
    } else {
      if s.value {
        board.SleepMs(DELAY_BEFORE_REBOOT_MS);
        return released, RebootNow;
      }
    }
    poll := Continue;
  }

  /**
   * The check at position `p` of a cycle, as the loop runs it: the check,
   * then the reboot call if it asked for one. The blinking's calls are the
   * log from index `from` on; `final` is where the blinking ends, and after
   * a check that does not end it, it is where the checks from the next
   * position end.
   */
  method CheckAt(board: Board, numRedBlinks: nat, p: nat, released: bool, ghost from: nat,
                 ghost done: seq<Event>, ghost final: BlinkEnd) returns (releasedOut: bool, poll: Poll)
    requires p < CycleLen(numRedBlinks)
    requires from <= |board.log|
    requires board.log[from..] == done + Lead(numRedBlinks, p)
    requires final == ChecksFrom(numRedBlinks, p, released, board.button, done)
    modifies board`log, board`button
    ensures from <= |board.log| && board.log[..from] == old(board.log)[..from]
    ensures poll == Continue ==>
      && |board.button| < |old(board.button)|
      && final == ChecksFrom(numRedBlinks, NextPos(numRedBlinks, p), releasedOut, board.button, board.log[from..])
    ensures poll != Continue ==> final == BlinkEnd(board.log[from..], poll == RebootNow)
    ensures poll == OutOfSamples ==> board.button == []
  {
    ghost var samples := board.button;
    ghost var log1 := board.log;
    releasedOut, poll := CheckIfButtonReleasedAndPressed(board, released);
    if poll == RebootNow {
      ChecksFromNext(numRedBlinks, p, released, samples, done);
      board.SysReboot();
      assert board.log[from..] == log1[from..] + [Sleep(DELAY_BEFORE_REBOOT_MS), Reboot];
    } else if poll == Continue {
      ChecksFromNext(numRedBlinks, p, released, samples, done);
      assert board.log == log1;
    }
  }

  /** Turning the red LED on or off, waiting `ms`, then the check at position `p`. */
  method RedSetAndCheck(board: Board, numRedBlinks: nat, p: nat, on: bool, ms: nat, released: bool,
                        ghost from: nat, ghost final: BlinkEnd) returns (releasedOut: bool, poll: Poll)
    requires p < CycleLen(numRedBlinks) && from <= |board.log|
    requires Lead(numRedBlinks, p) == [RedSet(on), Sleep(ms)]
    requires final == ChecksFrom(numRedBlinks, p, released, board.button, board.log[from..])
    modifies board`log, board`button
    ensures from <= |board.log| && board.log[..from] == old(board.log)[..from]
    ensures poll == Continue ==>
      && |board.button| < |old(board.button)|
      && final == ChecksFrom(numRedBlinks, NextPos(numRedBlinks, p), releasedOut, board.button, board.log[from..])
    ensures poll != Continue ==> final == BlinkEnd(board.log[from..], poll == RebootNow)
    ensures poll == OutOfSamples ==> board.button == []
  {
    ghost var done := board.log[from..];
    board.LedRedSet(on);
    board.SleepMs(ms);
    assert board.log[from..] == done + Lead(numRedBlinks, p);
    assert board.log[..from] == old(board.log)[..from];
    releasedOut, poll := CheckAt(board, numRedBlinks, p, released, from, done, final);
  }

  /**
   * One red blink of the cycle: the LED on, a check, the LED off, a check.
   * The blinking's calls are the log from index `from` on.
   */
  method RedBlink(board: Board, numRedBlinks: nat, i: nat, released: bool, ghost from: nat,
                  ghost final: BlinkEnd) returns (releasedOut: bool, poll: Poll)
    requires i < numRedBlinks && from <= |board.log|
    requires final == ChecksFrom(numRedBlinks, 2 * i, released, board.button, board.log[from..])
    modifies board`log, board`button
    ensures from <= |board.log| && board.log[..from] == old(board.log)[..from]
    ensures poll == Continue ==>
      && |board.button| < |old(board.button)|
      && final == ChecksFrom(numRedBlinks, 2 * i + 2, releasedOut, board.button, board.log[from..])
    ensures poll != Continue ==> final == BlinkEnd(board.log[from..], poll == RebootNow)
    ensures poll == OutOfSamples ==> board.button == []
  {
    RedBlinkLeads(numRedBlinks, i);
    releasedOut, poll := RedSetAndCheck(board, numRedBlinks, 2 * i, true, LED_FLASH_DURATION_MS, released, from, final);
    if poll != Continue {
      return;
    }
    releasedOut, poll :=
      RedSetAndCheck(board, numRedBlinks, 2 * i + 1, false, BUTTON_PRESS_CHECK_PERIOD_MS, releasedOut, from, final);
  }

  /** The check at position `p` of the pause after the red blinks. */
  method GapCheck(board: Board, numRedBlinks: nat, p: nat, released: bool, ghost from: nat,
                  ghost final: BlinkEnd) returns (releasedOut: bool, poll: Poll)
    requires 2 * numRedBlinks <= p < CycleLen(numRedBlinks) && from <= |board.log|
    requires final == ChecksFrom(numRedBlinks, p, released, board.button, board.log[from..])
    modifies board`log, board`button
    ensures from <= |board.log| && board.log[..from] == old(board.log)[..from]
    ensures poll == Continue ==>
      && |board.button| < |old(board.button)|
      && final == ChecksFrom(numRedBlinks, NextPos(numRedBlinks, p), releasedOut, board.button, board.log[from..])
    ensures poll != Continue ==> final == BlinkEnd(board.log[from..], poll == RebootNow)
    ensures poll == OutOfSamples ==> board.button == []
  {
    ghost var done := board.log[from..];
    board.SleepMs(BUTTON_PRESS_CHECK_PERIOD_MS);
    assert board.log[from..] == done + Lead(numRedBlinks, p);
    assert board.log[..from] == old(board.log)[..from];
    releasedOut, poll := CheckAt(board, numRedBlinks, p, released, from, done, final);
  }

  /**
   * b0_led_err_blink_red_led: never returns on the board; here it ends with
   * the reboot, or when the button samples are used up.
   */
  method BlinkRedLed(board: Board, numRedBlinks: nat) returns (rebooted: bool)
    modifies board`log, board`button
    ensures var b := Blink(numRedBlinks, old(board.button));
      board.log == old(board.log) + b.events && rebooted == b.rebooted
    ensures !rebooted ==> board.button == []
  {
    ghost var from := |board.log|;
    ghost var final := Blink(numRedBlinks, board.button);
    var s := board.ButtonGet();
    if s.None? {
      return false;
    }
    var released := !s.value;
    board.LedGreenSet(false);
    var poll: Poll;
    while true
      invariant from <= |board.log| && board.log[..from] == old(board.log)
      invariant final == ChecksFrom(numRedBlinks, 0, released, board.button, board.log[from..])
      decreases |board.button|
    {
      ghost var cycleStart := |board.button|;
      var i := 0;
      while i < numRedBlinks
        invariant 0 <= i <= numRedBlinks
        invariant from <= |board.log| && board.log[..from] == old(board.log)
        invariant final == ChecksFrom(numRedBlinks, 2 * i, released, board.button, board.log[from..])
        invariant i > 0 ==> |board.button| < cycleStart
        invariant i == 0 ==> |board.button| == cycleStart
      {
        released, poll := RedBlink(board, numRedBlinks, i, released, from, final);
        if poll != Continue {
          assert board.log == old(board.log) + board.log[from..];
          return poll == RebootNow;
        }
        i := i + 1;
      }
      var j := 0;
      while j < GAP_CHECKS
        invariant 0 <= j <= GAP_CHECKS
        invariant from <= |board.log| && board.log[..from] == old(board.log)
        invariant j < GAP_CHECKS ==>
          final == ChecksFrom(numRedBlinks, 2 * numRedBlinks + j, released, board.button, board.log[from..])
        invariant j == GAP_CHECKS ==> final == ChecksFrom(numRedBlinks, 0, released, board.button, board.log[from..])
        invariant i + j > 0 ==> |board.button| < cycleStart
        invariant i + j == 0 ==> |board.button| == cycleStart
      {
        released, poll := GapCheck(board, numRedBlinks, 2 * numRedBlinks + j, released, from, final);
        if poll != Continue {
          assert board.log == old(board.log) + board.log[from..];
          return poll == RebootNow;
        }
        j := j + 1;
      }
    }
  }
}
