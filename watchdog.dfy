/**
 * drivers/watchdog/photonicat-wdt.c: the PMU's watchdog. The driver keeps no
 * state of its own: every operation builds a three-byte timeout payload, or
 * a heartbeat, and hands it to the core.
 */
module Watchdog {
  import opened Wire
  import opened Codec
  import opened Pmu

  type u32 = x: int | 0 <= x < 0x1_0000_0000

  // The limits the probe sets: default 60 s, from 1 s to U8_MAX s.
  const DefaultTimeout: nat := 60
  const MinTimeout: nat := 1
  const MaxTimeout: nat := 0xFF

  /** The startup and shutdown timeouts, always sent as 60 s. */
  const FixedTimeout: byte := 60

  /** struct watchdog_device as the driver reads it: the timeout, and whether the watchdog core has started it. */
  datatype WatchdogDevice = WatchdogDevice(timeout: u32, active: bool)

  /** An `unsigned int` passed as an `int`: from 2^31 on it turns negative. */
  function AsInt(v: u32): (r: int)
    ensures v < 0x8000_0000 ==> r == v
    ensures v >= 0x8000_0000 ==> r < 0
  {
    if v < 0x8000_0000 then v else v - 0x1_0000_0000
  }

  /** MIN(255, MAX(0, timeout)): the running timeout as the byte the payload holds. */
  function Clamp(timeout: int): (r: byte)
    ensures 0 <= timeout <= 0xFF ==> r == timeout
    ensures timeout < 0 ==> r == 0
    ensures timeout > 0xFF ==> r == 0xFF
  {
    if timeout < 0 then 0 else if timeout > 0xFF then 0xFF else timeout
  }

  /** The payload of `pcat_wdt_setup`. */
  function SetupPayload(timeout: int): (w: WatchdogTimeouts)
    ensures w.startupTimeout == 60 && w.shutdownTimeout == 60
    ensures 0 <= timeout <= MaxTimeout ==> w.runningTimeout == timeout
    ensures timeout < 0 ==> w.runningTimeout == 0
    ensures timeout > MaxTimeout ==> w.runningTimeout == MaxTimeout
  {
    WatchdogTimeouts(FixedTimeout, FixedTimeout, Clamp(timeout))
  }

  /** What `pcat_wdt_setup` puts in the frame: 60, 60, then the clamped running timeout. */
  lemma SetupPayloadBytes(timeout: int)
    ensures var b := SerializeWatchdog(SetupPayload(timeout));
      |b| == WatchdogSize && b[0] == 60 && b[1] == 60 && 0 <= b[2] <= MaxTimeout
      && (0 <= timeout <= MaxTimeout ==> b[2] == timeout)
  {
  }

  /** The request `pcat_wdt_setup` makes, with its frame id. */
  function SetupRequest(id: u16, timeout: int): RawFrame
  {
    RawFrame(id, CMD_WATCHDOG_TIMEOUT_SET, true, SerializeWatchdog(SetupPayload(timeout)))
  }

  /** pcat_wdt_setup: send the timeouts with WATCHDOG_TIMEOUT_SET and wait for the acknowledgement. */
  method Setup(pmu: Pmu, timeout: int, attempts: nat -> Attempt) returns (ret: int)
    modifies pmu`frame, pmu`reply, pmu`sent
    ensures pmu.frame == (old(pmu.frame) + 1) % 0x1_0000 && pmu.reply == null
    ensures var o := Execution(attempts, SetupRequest(pmu.frame, timeout), CMD_WATCHDOG_TIMEOUT_SET_ACK, 0);
      ret == o.ret && pmu.sent == old(pmu.sent) + o.sent
  {
    var timeouts := SetupPayload(timeout);
    ret := pmu.WriteData(CMD_WATCHDOG_TIMEOUT_SET, SerializeWatchdog(timeouts), attempts);
  }

  /** pcat_wdt_start: arm the watchdog with the device's timeout. */
  method Start(pmu: Pmu, wdd: WatchdogDevice, attempts: nat -> Attempt) returns (ret: int)
    modifies pmu`frame, pmu`reply, pmu`sent
    ensures pmu.frame == (old(pmu.frame) + 1) % 0x1_0000 && pmu.reply == null
    ensures var o := Execution(attempts, SetupRequest(pmu.frame, AsInt(wdd.timeout)), CMD_WATCHDOG_TIMEOUT_SET_ACK, 0);
      ret == o.ret && pmu.sent == old(pmu.sent) + o.sent
  {
    ret := Setup(pmu, AsInt(wdd.timeout), attempts);
  }

  /** A timeout within the device's limits is sent as it is. */
  lemma StartSendsTimeout(wdd: WatchdogDevice)
    requires MinTimeout <= wdd.timeout <= MaxTimeout
    ensures SetupPayload(AsInt(wdd.timeout)).runningTimeout == wdd.timeout
  {
  }

  /** pcat_wdt_stop: a running timeout of 0. */
  method Stop(pmu: Pmu, attempts: nat -> Attempt) returns (ret: int)
    modifies pmu`frame, pmu`reply, pmu`sent
    ensures pmu.frame == (old(pmu.frame) + 1) % 0x1_0000 && pmu.reply == null
    ensures var o := Execution(attempts, SetupRequest(pmu.frame, 0), CMD_WATCHDOG_TIMEOUT_SET_ACK, 0);
      ret == o.ret && pmu.sent == old(pmu.sent) + o.sent
    ensures SetupRequest(pmu.frame, 0).data == [FixedTimeout, FixedTimeout, 0]
  {
    ret := Setup(pmu, 0, attempts);
  }

  /** pcat_wdt_ping: one HEARTBEAT frame with no payload, no acknowledgement asked for and none awaited. */
  method Ping(pmu: Pmu, w: Writes) returns (ret: int)
    modifies pmu`frame, pmu`sent
    ensures pmu.frame == (old(pmu.frame) + 1) % 0x1_0000
    ensures ret == RawWriteResult(w)
    ensures pmu.sent == old(pmu.sent) + [Transmission(RawFrame(pmu.frame, CMD_HEARTBEAT, false, []), w)]
  {
    ret := pmu.Send(CMD_HEARTBEAT, [], w);
  }

  /**
   * pcat_wdt_set_timeout: a stopped watchdog is left alone and 0 returned;
   * a running one gets the new timeout at once. The device's own `timeout`
   * is not written here.
   */
  method SetTimeout(pmu: Pmu, wdd: WatchdogDevice, val: u32, attempts: nat -> Attempt) returns (ret: int)
    modifies pmu`frame, pmu`reply, pmu`sent
    ensures !wdd.active ==> ret == 0 && pmu.frame == old(pmu.frame) && pmu.reply == old(pmu.reply) && pmu.sent == old(pmu.sent)
    ensures wdd.active ==> pmu.frame == (old(pmu.frame) + 1) % 0x1_0000 && pmu.reply == null
    ensures wdd.active ==>
      var o := Execution(attempts, SetupRequest(pmu.frame, AsInt(val)), CMD_WATCHDOG_TIMEOUT_SET_ACK, 0);
      ret == o.ret && pmu.sent == old(pmu.sent) + o.sent
  {
    ret := 0;
    if wdd.active {
      ret := Setup(pmu, AsInt(val), attempts);
    }
  }
}
