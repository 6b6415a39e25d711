/*
 * The collaborators the recovery core talks to, modelled as one board:
 * the flash areas of the partition map (Zephyr flash_area_* calls), the
 * retained boot-mode register, the button, the 32-bit uptime clock, the two
 * LEDs, the sleep primitive and the reboot primitive.
 *
 * Every call the core makes is appended to `log`, so that ordering
 * properties ("nothing is written before the images are validated") can be
 * stated over the call trace. Whether a failable call succeeds is decided by
 * the board's environment: a call fails when its log position is one of the
 * injected faults, or when the flash driver itself would refuse it (unknown
 * area, range outside the area).
 */
module Platform {

  /** A byte of flash. */
  type byte = bv8

  /** The value of an erased NOR-flash byte. */
  const ERASED: byte := 0xFF

  /** The result type of k_uptime_get_32: milliseconds since boot, truncated to 32 bits. */
  newtype u32 = x: int | 0 <= x < 0x1_0000_0000

  datatype Option<T> = None | Some(value: T)

  /** The fixed partitions the recovery uses (internal image slots and their external copies). */
  datatype AreaId =
    | Provision | ProvisionExt
    | S0 | S0Ext
    | S1 | S1Ext
    | McubootPrimary | McubootPrimaryExt
    | McubootSecondary | McubootSecondaryExt
    | ExtFlashUserspace

  /** One call from the core to a collaborator, as it appears in the call trace. */
  datatype Event =
    | Open(area: AreaId)
    | Close(area: AreaId)
    | Read(area: AreaId, off: nat, len: nat)
    | Write(area: AreaId, off: nat, len: nat)
    | Erase(area: AreaId, off: nat, len: nat)
    | Flatten(area: AreaId, off: nat, len: nat)
    | BootModeSet(mode: nat)
    | RedSet(on: bool)
    | GreenSet(on: bool)
    | StartBlinking
    | StopBlinking
    | Sleep(ms: nat)
    | Reboot

  /** Calls that change persistent state: flash programming, erasing and the boot-mode register. */
  predicate Destructive(e: Event) {
    e.Write? || e.Erase? || e.Flatten? || e.BootModeSet?
  }

  /** Calls that only drive the LEDs, sleep or reboot. */
  predicate Indicator(e: Event) {
    e.RedSet? || e.GreenSet? || e.StartBlinking? || e.StopBlinking? || e.Sleep? || e.Reboot?
  }

  /**
   * The board's fixed configuration: the size of every area of the flash map,
   * and the log positions at which a failable call is made to fail.
   */
  datatype Env = Env(layout: map<AreaId, nat>, faults: set<nat>) {

    predicate InBounds(a: AreaId, off: nat, len: nat) {
      a in layout && off + len <= layout[a]
    }

    /** Whether the call `e`, made at log position `i`, returns an error code. */
    predicate Fails(i: nat, e: Event) {
      match e
      case Open(a) => i in faults || a !in layout
      case Read(a, off, len) => i in faults || !InBounds(a, off, len)
      case Write(a, off, len) => i in faults || !InBounds(a, off, len)
      case Erase(a, off, len) => i in faults || !InBounds(a, off, len)
      case Flatten(a, off, len) => i in faults || !InBounds(a, off, len)
      case BootModeSet(_) => i in faults
      case _ => false
    }

    /** `mem` holds one content of the configured size for every configured area. */
    predicate Holds(mem: map<AreaId, seq<byte>>) {
      mem.Keys == layout.Keys && forall a :: a in mem ==> |mem[a]| == layout[a]
    }
  }

  /** `n` erased bytes. */
  function Erased(n: nat): (s: seq<byte>)
    ensures |s| == n
    ensures forall i :: 0 <= i < n ==> s[i] == ERASED
  {
    seq(n, _ => ERASED)
  }

  /**
   * Programming NOR flash can only clear bits: the cell keeps a 1 only where
   * both the old content and the data have a 1.
   */
  function Program(cells: seq<byte>, data: seq<byte>): (s: seq<byte>)
    requires |cells| == |data|
    ensures |s| == |data|
  {
    seq(|data|, i requires 0 <= i < |data| => cells[i] & data[i])
  }

  /** Programming erased cells stores the data exactly. */
  lemma ProgramErased(data: seq<byte>)
    ensures Program(Erased(|data|), data) == data
  {
  }

  /** The content of an area after `data` is programmed at `off`: the bytes outside the range are kept. */
  function WriteAt(s: seq<byte>, off: nat, data: seq<byte>): (t: seq<byte>)
    requires off + |data| <= |s|
    ensures |t| == |s|
  {
    seq(|s|, i requires 0 <= i < |s| => if off <= i < off + |data| then s[i] & data[i - off] else s[i])
  }

  /** The content of an area after `len` bytes from `off` are erased. */
  function EraseAt(s: seq<byte>, off: nat, len: nat): (t: seq<byte>)
    requires off + len <= |s|
    ensures |t| == |s|
  {
    seq(|s|, i requires 0 <= i < |s| => if off <= i < off + len then ERASED else s[i])
  }

  /** Zephyr's boot-mode value for "normal boot" (the register's initial content). */
  const BOOT_MODE_TYPE_NORMAL: nat := 0x00
  /** Zephyr's boot-mode value that asks the next stage to enter the firmware loader. */
  const BOOT_MODE_TYPE_BOOTLOADER: nat := 0x01

  class Board {
    const env: Env
    /** Contents of the flash areas. */
    var mem: map<AreaId, seq<byte>>
    /** Every call made so far, oldest first. */
    var log: seq<Event>
    /** Button samples not yet taken: true while the button is pressed. */
    var button: seq<bool>
    /** Uptime readings not yet taken. */
    var uptime: seq<u32>
    /** The retained boot-mode register. */
    var bootMode: nat

    ghost predicate Valid()
      reads this
    {
      env.Holds(mem)
    }

    constructor (env: Env, mem: map<AreaId, seq<byte>>, button: seq<bool>, uptime: seq<u32>)
      requires env.Holds(mem)
      ensures Valid()
      ensures this.env == env && this.mem == mem && this.button == button && this.uptime == uptime
      ensures log == [] && bootMode == BOOT_MODE_TYPE_NORMAL
    {
      this.env := env;
      this.mem := mem;
      this.button := button;
      this.uptime := uptime;
      log := [];
      bootMode := BOOT_MODE_TYPE_NORMAL;
    }

    /** flash_area_open: on success the handle's size attribute is returned. */
    method FlashOpen(a: AreaId) returns (ok: bool, size: nat)
      modifies this`log
      ensures log == old(log) + [Open(a)]
      ensures ok == !env.Fails(|old(log)|, Open(a))
      ensures ok ==> a in env.layout && size == env.layout[a]
    {
      ok := !env.Fails(|log|, Open(a));
      size := if a in env.layout then env.layout[a] else 0;
      log := log + [Open(a)];
    }

    /** flash_area_close: cannot fail. */
    method FlashClose(a: AreaId)
      modifies this`log
      ensures log == old(log) + [Close(a)]
    {
      log := log + [Close(a)];
    }

    /** flash_area_read of `len` bytes at `off` into the start of `buf`. */
    method FlashRead(a: AreaId, off: nat, buf: array<byte>, len: nat) returns (ok: bool)
      requires Valid() && len <= buf.Length
      modifies this`log, buf
      ensures log == old(log) + [Read(a, off, len)]
      ensures ok == !env.Fails(|old(log)|, Read(a, off, len))
      ensures ok ==> a in mem && off + len <= |mem[a]| && buf[..len] == mem[a][off..off + len]
      ensures ok ==> buf[len..] == old(buf[len..])
      ensures !ok ==> buf[..] == old(buf[..])
    {
      ok := !env.Fails(|log|, Read(a, off, len));
      log := log + [Read(a, off, len)];
      if ok {
        forall i | 0 <= i < len {
          buf[i] := mem[a][off + i];
        }
      }
    }

    /** flash_area_write of `data` at `off`. */
    method FlashWrite(a: AreaId, off: nat, data: seq<byte>) returns (ok: bool)
      requires Valid()
      modifies this`log, this`mem
      ensures Valid()
      ensures log == old(log) + [Write(a, off, |data|)]
      ensures ok == !env.Fails(|old(log)|, Write(a, off, |data|))
      ensures mem == if ok then old(mem)[a := WriteAt(old(mem)[a], off, data)] else old(mem)
    {
      ok := !env.Fails(|log|, Write(a, off, |data|));
      log := log + [Write(a, off, |data|)];
      if ok {
        mem := mem[a := WriteAt(mem[a], off, data)];
      }
    }

    /** flash_area_erase of `len` bytes at `off`. */
    method FlashErase(a: AreaId, off: nat, len: nat) returns (ok: bool)
      requires Valid()
      modifies this`log, this`mem
      ensures Valid()
      ensures log == old(log) + [Erase(a, off, len)]
      ensures ok == !env.Fails(|old(log)|, Erase(a, off, len))
      ensures mem == if ok then old(mem)[a := EraseAt(old(mem)[a], off, len)] else old(mem)
    {
      ok := !env.Fails(|log|, Erase(a, off, len));
      log := log + [Erase(a, off, len)];
      if ok {
        mem := mem[a := EraseAt(mem[a], off, len)];
      }
    }

    /** flash_area_flatten: on erase-before-write flash it erases the range. */
    method FlashFlatten(a: AreaId, off: nat, len: nat) returns (ok: bool)
      requires Valid()
      modifies this`log, this`mem
      ensures Valid()
      ensures log == old(log) + [Flatten(a, off, len)]
      ensures ok == !env.Fails(|old(log)|, Flatten(a, off, len))
      ensures mem == if ok then old(mem)[a := EraseAt(old(mem)[a], off, len)] else old(mem)
    {
      ok := !env.Fails(|log|, Flatten(a, off, len));
      log := log + [Flatten(a, off, len)];
      if ok {
        mem := mem[a := EraseAt(mem[a], off, len)];
      }
    }

    /** bootmode_set. */
    method SetBootMode(mode: nat) returns (ok: bool)
      modifies this`log, this`bootMode
      ensures log == old(log) + [BootModeSet(mode)]
      ensures ok == !env.Fails(|old(log)|, BootModeSet(mode))
      ensures bootMode == if ok then mode else old(bootMode)
    {
      ok := !env.Fails(|log|, BootModeSet(mode));
      log := log + [BootModeSet(mode)];
      if ok {
        bootMode := mode;
      }
    }

    /** b0_button_get: takes the next sample; None once the injected samples are used up. */
    method ButtonGet() returns (s: Option<bool>)
      modifies this`button
      ensures old(button) == [] ==> s == None && button == []
      ensures old(button) != [] ==> s == Some(old(button)[0]) && button == old(button)[1..]
    {
      if button == [] {
        s := None;
      } else {
        s := Some(button[0]);
        button := button[1..];
      }
    }

    /** k_uptime_get_32: takes the next reading; None once the injected readings are used up. */
    method UptimeGet() returns (t: Option<u32>)
      modifies this`uptime
      ensures old(uptime) == [] ==> t == None && uptime == []
      ensures old(uptime) != [] ==> t == Some(old(uptime)[0]) && uptime == old(uptime)[1..]
    {
      if uptime == [] {
        t := None;
      } else {
        t := Some(uptime[0]);
        uptime := uptime[1..];
      }
    }

    /** b0_sleep_ms. */
    method SleepMs(ms: nat)
      modifies this`log
      ensures log == old(log) + [Sleep(ms)]
    {
      log := log + [Sleep(ms)];
    }

    /** b0_led_red_set. */
    method LedRedSet(on: bool)
      modifies this`log
      ensures log == old(log) + [RedSet(on)]
    {
      log := log + [RedSet(on)];
    }

    /** b0_led_green_set. */
    method LedGreenSet(on: bool)
      modifies this`log
      ensures log == old(log) + [GreenSet(on)]
    {
      log := log + [GreenSet(on)];
    }

    /** b0_led_red_and_green_on / b0_led_red_and_green_off: red first, then green. */
    method LedRedAndGreen(on: bool)
      modifies this`log
      ensures log == old(log) + [RedSet(on), GreenSet(on)]
    {
      LedRedSet(on);
      LedGreenSet(on);
    }

    /** b0_led_start_blinking_red_green_500ms. */
    method LedStartBlinking()
      modifies this`log
      ensures log == old(log) + [StartBlinking]
    {
      log := log + [StartBlinking];
    }

    /** b0_led_stop_blinking. */
    method LedStopBlinking()
      modifies this`log
      ensures log == old(log) + [StopBlinking]
    {
      log := log + [StopBlinking];
    }

    /** sys_reboot(SYS_REBOOT_COLD): the caller stops after this call. */
    method SysReboot()
      modifies this`log
      ensures log == old(log) + [Reboot]
    {
      log := log + [Reboot];
    }
  }
}
