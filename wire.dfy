/**
 * The packed wire structures and the opcode table shared by the PMU core and
 * its listener drivers (include/linux/mfd/photonicat-pmu.h).
 *
 * Every structure is `__packed`, so its byte image is its fields in declaration
 * order with no padding; the multi-byte fields are `u16` copied raw from memory,
 * which on the little-endian targets of this driver means low byte first.
 */
module Wire {

  type byte = x: int | 0 <= x < 0x100
  type u16 = x: int | 0 <= x < 0x1_0000

  /** A `u16` as it lies in memory: low byte first. */
  function LE16(x: u16): (r: seq<byte>)
    ensures |r| == 2 && r[0] as int + 0x100 * (r[1] as int) == x
  {
    [x % 0x100, x / 0x100]
  }

  /** The `u16` stored at offset `i` of `b`. */
  function U16At(b: seq<byte>, i: nat): u16
    requires i + 2 <= |b|
  {
    b[i] as int + 0x100 * (b[i + 1] as int)
  }

  lemma LE16RoundTrip(x: u16, b: seq<byte>, i: nat)
    requires i + 2 <= |b| && b[i..i + 2] == LE16(x)
    ensures U16At(b, i) == x
  {
    assert b[i] == LE16(x)[0] && b[i + 1] == LE16(x)[1];
  }

  lemma LE16BytesRoundTrip(b: seq<byte>, i: nat)
    requires i + 2 <= |b|
    ensures LE16(U16At(b, i)) == b[i..i + 2]
  {
  }

  // ---------------------------------------------------------------------------
  // Frame head and foot

  const HeadSize: nat := 9
  const FootSize: nat := 4

  /** struct pcat_data_head */
  datatype Head = Head(magicHead: byte, source: byte, dest: byte, frameId: u16, length: u16, command: u16)

  /** struct pcat_data_foot */
  datatype Foot = Foot(needAck: byte, crc16: u16, magicEnd: byte)

  /** The head as it is written: the three address bytes, then id, length and command, each low byte first. */
  function SerializeHead(h: Head): (r: seq<byte>)
    ensures |r| == HeadSize
    ensures r[0] == h.magicHead && r[1] == h.source && r[2] == h.dest
    ensures r[3..5] == LE16(h.frameId) && r[5..7] == LE16(h.length) && r[7..9] == LE16(h.command)
  {
    [h.magicHead, h.source, h.dest] + LE16(h.frameId) + LE16(h.length) + LE16(h.command)
  }

  /** The head that overlays the first `HeadSize` bytes of `b`. */
  function ParseHead(b: seq<byte>): Head
    requires |b| >= HeadSize
  {
    Head(b[0], b[1], b[2], U16At(b, 3), U16At(b, 5), U16At(b, 7))
  }

  lemma HeadRoundTrip(h: Head)
    ensures ParseHead(SerializeHead(h)) == h
  {
    var r := SerializeHead(h);
    LE16RoundTrip(h.frameId, r, 3);
    LE16RoundTrip(h.length, r, 5);
    LE16RoundTrip(h.command, r, 7);
  }

  lemma HeadBytesRoundTrip(b: seq<byte>)
    requires |b| >= HeadSize
    ensures SerializeHead(ParseHead(b)) == b[..HeadSize]
  {
    LE16BytesRoundTrip(b, 3);
    LE16BytesRoundTrip(b, 5);
    LE16BytesRoundTrip(b, 7);
  }

  /** The foot as it is written: need_ack, the checksum low byte first, magic_end. */
  function SerializeFoot(f: Foot): (r: seq<byte>)
    ensures |r| == FootSize
    ensures r[0] == f.needAck && r[1..3] == LE16(f.crc16) && r[3] == f.magicEnd
  {
    [f.needAck] + LE16(f.crc16) + [f.magicEnd]
  }

  /** The foot that overlays the first `FootSize` bytes of `b`. */
  function ParseFoot(b: seq<byte>): Foot
    requires |b| >= FootSize
  {
    Foot(b[0], U16At(b, 1), b[3])
  }

  lemma FootRoundTrip(f: Foot)
    ensures ParseFoot(SerializeFoot(f)) == f
  {
    LE16RoundTrip(f.crc16, SerializeFoot(f), 1);
  }

  lemma FootBytesRoundTrip(b: seq<byte>)
    requires |b| >= FootSize
    ensures SerializeFoot(ParseFoot(b)) == b[..FootSize]
  {
    LE16BytesRoundTrip(b, 1);
  }

  // ---------------------------------------------------------------------------
  // Payloads

  /** struct pcat_data_cmd_date_time: 7 bytes, the year first. */
  datatype DateTime = DateTime(year: u16, month: byte, day: byte, hour: byte, minute: byte, second: byte)

  const DateTimeSize: nat := 7

  function SerializeDateTime(t: DateTime): (r: seq<byte>)
    ensures |r| == DateTimeSize
  {
    LE16(t.year) + [t.month, t.day, t.hour, t.minute, t.second]
  }

  function ParseDateTime(b: seq<byte>): DateTime
    requires |b| >= DateTimeSize
  {
    DateTime(U16At(b, 0), b[2], b[3], b[4], b[5], b[6])
  }

  lemma DateTimeRoundTrip(t: DateTime)
    ensures ParseDateTime(SerializeDateTime(t)) == t
  {
    LE16RoundTrip(t.year, SerializeDateTime(t), 0);
  }

  /** struct pcat_data_cmd_led_setup: three u16 durations, 6 bytes. */
  datatype LedSetup = LedSetup(onTime: u16, downTime: u16, repeat: u16)

  const LedSetupSize: nat := 6

  function SerializeLedSetup(l: LedSetup): (r: seq<byte>)
    ensures |r| == LedSetupSize
  {
    LE16(l.onTime) + LE16(l.downTime) + LE16(l.repeat)
  }

  function ParseLedSetup(b: seq<byte>): LedSetup
    requires |b| >= LedSetupSize
  {
    LedSetup(U16At(b, 0), U16At(b, 2), U16At(b, 4))
  }

  lemma LedSetupRoundTrip(l: LedSetup)
    ensures ParseLedSetup(SerializeLedSetup(l)) == l
  {
    var r := SerializeLedSetup(l);
    LE16RoundTrip(l.onTime, r, 0);
    LE16RoundTrip(l.downTime, r, 2);
    LE16RoundTrip(l.repeat, r, 4);
  }

  /** struct pcat_data_cmd_watchdog: three one-byte timeouts. */
  datatype WatchdogTimeouts = WatchdogTimeouts(startupTimeout: byte, shutdownTimeout: byte, runningTimeout: byte)

  const WatchdogSize: nat := 3

  function SerializeWatchdog(w: WatchdogTimeouts): (r: seq<byte>)
    ensures |r| == WatchdogSize
  {
    [w.startupTimeout, w.shutdownTimeout, w.runningTimeout]
  }

  function ParseWatchdog(b: seq<byte>): WatchdogTimeouts
    requires |b| >= WatchdogSize
  {
    WatchdogTimeouts(b[0], b[1], b[2])
  }

  lemma WatchdogRoundTrip(w: WatchdogTimeouts)
    ensures ParseWatchdog(SerializeWatchdog(w)) == w
  {
  }

  /** struct pcat_data_cmd_status: the periodic status report, 18 bytes. */
  datatype Status = Status(batteryMicrovolt: u16, chargerMicrovolt: u16, gpioInput: u16, gpioOutput: u16,
                           time: DateTime, reserved: u16, temp: byte)

  const StatusSize: nat := 18
  // Offsets of the status fields that the listener drivers read.
  const StatusBatteryOffset: nat := 0
  const StatusChargerOffset: nat := 2
  const StatusTimeOffset: nat := 8
  const StatusTempOffset: nat := 17

  function SerializeStatus(s: Status): (r: seq<byte>)
    ensures |r| == StatusSize
  {
    LE16(s.batteryMicrovolt) + LE16(s.chargerMicrovolt) + LE16(s.gpioInput) + LE16(s.gpioOutput)
    + SerializeDateTime(s.time) + LE16(s.reserved) + [s.temp]
  }

  function ParseStatus(b: seq<byte>): Status
    requires |b| >= StatusSize
  {
    Status(U16At(b, StatusBatteryOffset), U16At(b, StatusChargerOffset), U16At(b, 4), U16At(b, 6),
           ParseDateTime(b[StatusTimeOffset..StatusTimeOffset + DateTimeSize]), U16At(b, 15), b[StatusTempOffset])
  }

  lemma {:induction false} StatusRoundTrip(s: Status)
    ensures ParseStatus(SerializeStatus(s)) == s
  {
    var r := SerializeStatus(s);
    LE16RoundTrip(s.batteryMicrovolt, r, 0);
    LE16RoundTrip(s.chargerMicrovolt, r, 2);
    LE16RoundTrip(s.gpioInput, r, 4);
    LE16RoundTrip(s.gpioOutput, r, 6);
    assert r[8..15] == SerializeDateTime(s.time);
    DateTimeRoundTrip(s.time);
    LE16RoundTrip(s.reserved, r, 15);
  }

  // ---------------------------------------------------------------------------
  // enum pcat_boot_reason: two names share one value

  datatype BootReason = BootButton | BootAlarm | BootCarMode | BootLowCharge | BootNoBattery

  function BootReasonCode(r: BootReason): byte
  {
    match r
    case BootButton => 0x00
    case BootAlarm => 0x01
    case BootCarMode => 0x02
    case BootLowCharge => 0x03
    case BootNoBattery => 0x03
  }

  /** The code does not identify the reason: a low-charge boot and a no-battery boot are reported alike. */
  lemma BootReasonNotInjective()
    ensures exists a: BootReason, b: BootReason :: a != b && BootReasonCode(a) == BootReasonCode(b)
  {
    assert BootLowCharge != BootNoBattery && BootReasonCode(BootLowCharge) == BootReasonCode(BootNoBattery);
  }

  // ---------------------------------------------------------------------------
  // enum pcat_pmu_cmd

  const CMD_HEARTBEAT: u16 := 0x01
  const CMD_HEARTBEAT_ACK: u16 := 0x02
  const CMD_PMU_HW_VERSION_GET: u16 := 0x03
  const CMD_PMU_HW_VERSION_GET_ACK: u16 := 0x04
  const CMD_PMU_FW_VERSION_GET: u16 := 0x05
  const CMD_PMU_FW_VERSION_GET_ACK: u16 := 0x06
  const CMD_STATUS_REPORT: u16 := 0x07
  const CMD_STATUS_REPORT_ACK: u16 := 0x08
  const CMD_DATE_TIME_SYNC: u16 := 0x09
  const CMD_DATE_TIME_SYNC_ACK: u16 := 0x0A
  const CMD_SCHEDULE_STARTUP_TIME_SET: u16 := 0x0B
  const CMD_SCHEDULE_STARTUP_TIME_SET_ACK: u16 := 0x0C
  const CMD_PMU_REQUEST_SHUTDOWN: u16 := 0x0D
  const CMD_PMU_REQUEST_SHUTDOWN_ACK: u16 := 0x0E
  const CMD_HOST_REQUEST_SHUTDOWN: u16 := 0x0F
  const CMD_HOST_REQUEST_SHUTDOWN_ACK: u16 := 0x10
  const CMD_PMU_REQUEST_FACTORY_RESET: u16 := 0x11
  const CMD_PMU_REQUEST_FACTORY_RESET_ACK: u16 := 0x12
  const CMD_WATCHDOG_TIMEOUT_SET: u16 := 0x13
  const CMD_WATCHDOG_TIMEOUT_SET_ACK: u16 := 0x14
  const CMD_CHARGER_ON_AUTO_START: u16 := 0x15
  const CMD_CHARGER_ON_AUTO_START_ACK: u16 := 0x16
  const CMD_VOLTAGE_THRESHOLD_SET: u16 := 0x17
  const CMD_VOLTAGE_THRESHOLD_SET_ACK: u16 := 0x18
  const CMD_NET_STATUS_LED_SETUP: u16 := 0x19
  const CMD_NET_STATUS_LED_SETUP_ACK: u16 := 0x1A
  const CMD_POWER_ON_EVENT_GET: u16 := 0x1B
  const CMD_POWER_ON_EVENT_GET_ACK: u16 := 0x1C

  /** The opcode table as (request, acknowledgment) pairs, in declaration order. */
  const CommandPairs: seq<(u16, u16)> := [
    (CMD_HEARTBEAT, CMD_HEARTBEAT_ACK),
    (CMD_PMU_HW_VERSION_GET, CMD_PMU_HW_VERSION_GET_ACK),
    (CMD_PMU_FW_VERSION_GET, CMD_PMU_FW_VERSION_GET_ACK),
    (CMD_STATUS_REPORT, CMD_STATUS_REPORT_ACK),
    (CMD_DATE_TIME_SYNC, CMD_DATE_TIME_SYNC_ACK),
    (CMD_SCHEDULE_STARTUP_TIME_SET, CMD_SCHEDULE_STARTUP_TIME_SET_ACK),
    (CMD_PMU_REQUEST_SHUTDOWN, CMD_PMU_REQUEST_SHUTDOWN_ACK),
    (CMD_HOST_REQUEST_SHUTDOWN, CMD_HOST_REQUEST_SHUTDOWN_ACK),
    (CMD_PMU_REQUEST_FACTORY_RESET, CMD_PMU_REQUEST_FACTORY_RESET_ACK),
    (CMD_WATCHDOG_TIMEOUT_SET, CMD_WATCHDOG_TIMEOUT_SET_ACK),
    (CMD_CHARGER_ON_AUTO_START, CMD_CHARGER_ON_AUTO_START_ACK),
    (CMD_VOLTAGE_THRESHOLD_SET, CMD_VOLTAGE_THRESHOLD_SET_ACK),
    (CMD_NET_STATUS_LED_SETUP, CMD_NET_STATUS_LED_SETUP_ACK),
    (CMD_POWER_ON_EVENT_GET, CMD_POWER_ON_EVENT_GET_ACK)
  ]

  /** Every request opcode is odd, from 0x01 to 0x1B, and its acknowledgment is the next opcode. */
  lemma AckIsNextOpcode()
    ensures |CommandPairs| == 14
    ensures forall i :: 0 <= i < |CommandPairs| ==>
      CommandPairs[i].0 == 2 * i + 1 && CommandPairs[i].1 == CommandPairs[i].0 + 1
  {
  }
}
