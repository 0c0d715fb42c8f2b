/**
 * drivers/hwmon/photonicat-hwmon.c: the board temperature as a hardware
 * monitor. The status report carries it as one byte with an offset of 40
 * degrees; the driver keeps whole degrees Celsius and reports millidegrees.
 */
module Hwmon {
  import opened Wire
  import opened Codec
  import opened Pmu

  const EOPNOTSUPP: int := 95

  // enum hwmon_sensor_types and enum hwmon_temp_attributes, the entries used here
  const HWMON_TEMP: int := 1
  const HWMON_TEMP_INPUT: int := 1

  /** The sysfs mode of every attribute: read-only for all, 0444. */
  const ReadOnlyMode: int := 0x124

  /** The offset the PMU adds to the temperature it reports. */
  const TempOffset: int := 40

  /** A `read` answer: 0 with `*val` set, or an error with `*val` untouched. */
  datatype Reading = Ok(val: int) | Err(errno: int)

  /** pcat_hwmon_is_visible: every attribute of every channel is read-only for all. */
  function IsVisible(sensor: int, attr: int, channel: int): (mode: int)
    ensures mode == ReadOnlyMode && mode == 4 * 64 + 4 * 8 + 4
  {
    ReadOnlyMode
  }

  /** struct pcat_hwmon: the last temperature reported, in degrees Celsius. */
  class Hwmon {
    var temperature: int

    constructor ()
      ensures temperature == 0
    {
      temperature := 0;
    }

    /** pcat_hwmon_read: the temperature input in millidegrees; any other sensor or attribute is -EOPNOTSUPP. */
    function Read(sensor: int, attr: int): (r: Reading)
      reads this`temperature
      ensures r.Ok? <==> sensor == HWMON_TEMP && attr == HWMON_TEMP_INPUT
      ensures r.Ok? ==> r.val == temperature * 1000
      ensures r.Err? ==> r.errno == -EOPNOTSUPP
    {
      if sensor == HWMON_TEMP then
        if attr == HWMON_TEMP_INPUT then Ok(temperature * 1000) else Err(-EOPNOTSUPP)
      else Err(-EOPNOTSUPP)
    }

    /**
     * pcat_hwmon_notify: a status report sets the temperature from the last
     * payload byte, less the offset; every frame is left to the next listener.
     */
    method Notify(action: u16, f: Frame) returns (verdict: int)
      requires action == CMD_STATUS_REPORT ==> |f.data| >= StatusSize
      modifies this`temperature
      ensures verdict == NOTIFY_DONE && verdict == Verdict(action, f)
      ensures action == CMD_STATUS_REPORT ==>
        temperature == f.data[StatusTempOffset] - TempOffset && -TempOffset <= temperature <= 0xFF - TempOffset
      ensures action != CMD_STATUS_REPORT ==> temperature == old(temperature)
    {
      if action != CMD_STATUS_REPORT {
        return NOTIFY_DONE;
      }
      temperature := f.data[StatusTempOffset] - TempOffset;
      verdict := NOTIFY_DONE;
    }
  }

  /**
   * After the status report `s`, a read of the temperature input gives the
   * report's byte less 40, in millidegrees: between -40000 and 215000.
   */
  lemma ReportedTemperature(h: Hwmon, s: Status)
    requires h.temperature == SerializeStatus(s)[StatusTempOffset] - TempOffset
    ensures h.Read(HWMON_TEMP, HWMON_TEMP_INPUT) == Ok((s.temp - TempOffset) * 1000)
    ensures -40000 <= h.Read(HWMON_TEMP, HWMON_TEMP_INPUT).val <= 215000
  {
    StatusRoundTrip(s);
  }

  /** A report byte of 65 is 25 degrees, read as 25000 millidegrees. */
  lemma TwentyFiveDegrees(h: Hwmon)
    requires h.temperature == 65 - TempOffset
    ensures h.Read(HWMON_TEMP, HWMON_TEMP_INPUT) == Ok(25000)
  {
  }

  /** What `Notify` returns, as the notifier chain sees it (see `Notify`'s contract). */
  function Verdict(action: u16, f: Frame): int
  {
    NOTIFY_DONE
  }
}
