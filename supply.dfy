/**
 * drivers/power/supply/photonicat-supply.c: the battery and the charger as
 * power supplies. The driver keeps the two voltages of the last status
 * report (in millivolts, whatever the field names say) and answers property
 * queries from them. `power_supply_batinfo_ocv2cap` is a parameter, `ocv`:
 * the capacity in percent for an open-circuit voltage in microvolts at
 * 20 degrees, or a negative error.
 */
module Supply {
  import opened Wire
  import opened Codec
  import opened Pmu

  const EINVAL: int := 22
  const INT_MAX: int := 0x7FFF_FFFF

  // enum power_supply_status, the values this driver reports
  const STATUS_CHARGING: int := 1
  const STATUS_DISCHARGING: int := 2
  const STATUS_FULL: int := 4

  /** The power-supply properties the two switches name; `PropOther` is every other property. */
  datatype Property = PropCapacity | PropEnergyFull | PropEnergyNow | PropPresent | PropStatus | PropVoltageMax | PropVoltageMin | PropVoltageNow | PropOnline | PropOther

  /** pcat_battery_props: what the battery supply advertises. */
  const BatteryProperties: seq<Property> := [PropCapacity, PropEnergyFull, PropEnergyNow, PropPresent, PropStatus, PropVoltageMax, PropVoltageMin, PropVoltageNow]

  /** pcat_charger_props: what the charger supply advertises. */
  const ChargerProperties: seq<Property> := [PropVoltageNow, PropOnline]

  /** The fields of struct power_supply_battery_info the driver reads. */
  datatype BatteryInfo = BatteryInfo(energyFullDesignUwh: int, voltageMaxDesignUv: int, voltageMinDesignUv: int)

  /** A `get_property` answer: 0 with `val->intval` set, or an error with `val` untouched. */
  datatype PropVal = Set(intval: int) | Error(errno: int)

  /** C's `/` on `int`: the quotient is truncated toward zero. */
  function CDiv(a: int, b: int): (q: int)
    requires b > 0
    ensures a >= 0 ==> q == a / b
    ensures a < 0 ==> q <= 0 && b * q >= a && b * (q - 1) < a
  {
    if a >= 0 then a / b else -((-a) / b)
  }

  /** `full / 100 * capacity` in C: the division truncates before the multiplication. */
  lemma TruncatedShare(full: int, capacity: int)
    ensures 0 <= full && 0 <= capacity <= 100 ==>
      && 0 <= full / 100 * capacity <= full
      && full / 100 * capacity <= full * capacity / 100
      && (capacity > 0 ==> full * capacity / 100 < full / 100 * capacity + capacity)
  {
    if full < 0 || capacity < 0 || capacity > 100 {
      return;
    }
    var q, r := full / 100, full % 100;
    assert full == 100 * q + r;
    assert full * capacity == 100 * (q * capacity) + r * capacity;
    MulNonNegative(r, capacity);
    MulNonNegative(99 - r, capacity);
    assert 99 * capacity - r * capacity == (99 - r) * capacity;
    MulNonNegative(q, 100 - capacity);
    assert q * 100 - q * capacity == q * (100 - capacity);
    DivOfSum(q * capacity, r * capacity);
  }

  lemma MulNonNegative(a: int, b: int)
    requires 0 <= a && 0 <= b
    ensures 0 <= a * b
  {
  }

  lemma DivOfSum(a: int, b: int)
    requires 0 <= b
    ensures (100 * a + b) / 100 == a + b / 100
  {
  }

  /** struct pcat_supply: the battery description and the two voltages of the last report. */
  class Supply {
    const info: BatteryInfo
    var batMillivolt: u16
    var chgMillivolt: u16

    constructor (info: BatteryInfo)
      ensures this.info == info && batMillivolt == 0 && chgMillivolt == 0
    {
      this.info := info;
      batMillivolt := 0;
      chgMillivolt := 0;
    }

    /** pcat_pmu_is_charger_online: the charger gives more than one volt. */
    predicate ChargerOnline()
      reads this`chgMillivolt
    {
      chgMillivolt > 1000
    }

    /** pcat_pmu_is_battery_present: the battery gives more than one volt. */
    predicate BatteryPresent()
      reads this`batMillivolt
    {
      batMillivolt > 1000
    }

    /** pcat_pmu_get_battery_capacity: the capacity for the battery voltage, in microvolts. */
    function Capacity(ocv: int -> int): int
      reads this`batMillivolt
    {
      ocv(batMillivolt * 1000)
    }

    /**
     * pcat_pmu_get_battery_energy: 0 for an unknown capacity, otherwise the
     * design energy's share for the capacity, never above the design energy
     * and short of the exact share by less than one percent point's worth;
     * an unset design energy (a small negative errno) gives 0.
     */
    function Energy(ocv: int -> int): (e: int)
      reads this`batMillivolt
      ensures Capacity(ocv) < 0 ==> e == 0
      ensures var c, full := Capacity(ocv), info.energyFullDesignUwh;
        0 <= c <= 100 && 0 <= full ==>
          && 0 <= e <= full
          && e <= full * c / 100
          && (c > 0 ==> full * c / 100 < e + c)
      ensures var c, full := Capacity(ocv), info.energyFullDesignUwh;
        0 <= c && -100 < full < 0 ==> e == 0
    {
      var c := Capacity(ocv);
      if c < 0 then 0
      else
        TruncatedShare(info.energyFullDesignUwh, c);
        CDiv(info.energyFullDesignUwh, 100) * c
    }

    /** pcat_pmu_get_battery_status: below 100 percent, charging exactly when the charger is online; full otherwise. */
    function BatteryStatus(ocv: int -> int): (s: int)
      reads this`batMillivolt, this`chgMillivolt
      ensures s == STATUS_FULL <==> Capacity(ocv) >= 100
      ensures s == STATUS_CHARGING <==> Capacity(ocv) < 100 && ChargerOnline()
      ensures s == STATUS_DISCHARGING <==> Capacity(ocv) < 100 && !ChargerOnline()
    {
      if Capacity(ocv) < 100 then
        if ChargerOnline() then STATUS_CHARGING else STATUS_DISCHARGING
      else STATUS_FULL
    }

    /** pcat_pmu_get_battery_property: every advertised property is answered, every other one is -EINVAL. */
    function BatteryProperty(psp: Property, ocv: int -> int): (r: PropVal)
      reads this`batMillivolt, this`chgMillivolt
      ensures r.Set? <==> psp in BatteryProperties
      ensures r.Error? ==> r.errno == -EINVAL
      ensures psp == PropVoltageNow ==> r == Set(batMillivolt * 1000) && 0 <= r.intval <= INT_MAX
      ensures psp == PropPresent ==> r == Set(if batMillivolt > 1000 then 1 else 0)
    {
      match psp
      case PropCapacity => Set(Capacity(ocv))
      case PropEnergyFull => Set(info.energyFullDesignUwh)
      case PropEnergyNow => Set(Energy(ocv))
      case PropPresent => Set(if BatteryPresent() then 1 else 0)
      case PropStatus => Set(BatteryStatus(ocv))
      case PropVoltageMax => Set(info.voltageMaxDesignUv)
      case PropVoltageMin => Set(info.voltageMinDesignUv)
      case PropVoltageNow => Set(batMillivolt * 1000)
      case _ => Error(-EINVAL)
    }

    /** pcat_pmu_get_charger_property: the charger's voltage and whether it is online; anything else is -EINVAL. */
    function ChargerProperty(psp: Property): (r: PropVal)
      reads this`chgMillivolt
      ensures r.Set? <==> psp in ChargerProperties
      ensures r.Error? ==> r.errno == -EINVAL
      ensures psp == PropVoltageNow ==> r == Set(chgMillivolt * 1000) && 0 <= r.intval <= INT_MAX
      ensures psp == PropOnline ==> r == Set(if chgMillivolt > 1000 then 1 else 0)
    {
      match psp
      case PropOnline => Set(if ChargerOnline() then 1 else 0)
      case PropVoltageNow => Set(chgMillivolt * 1000)
      case _ => Error(-EINVAL)
    }

    /**
     * pcat_supply_notify: a status report sets both voltages from the first
     * four payload bytes; every frame is left to the next listener.
     */
    method Notify(action: u16, f: Frame) returns (verdict: int)
      requires action == CMD_STATUS_REPORT ==> |f.data| >= StatusChargerOffset + 2
      modifies this`batMillivolt, this`chgMillivolt
      ensures verdict == NOTIFY_DONE && verdict == Verdict(action, f)
      ensures action == CMD_STATUS_REPORT ==>
        batMillivolt == U16At(f.data, StatusBatteryOffset) && chgMillivolt == U16At(f.data, StatusChargerOffset)
      ensures action != CMD_STATUS_REPORT ==> batMillivolt == old(batMillivolt) && chgMillivolt == old(chgMillivolt)
    {
      if action != CMD_STATUS_REPORT {
        return NOTIFY_DONE;
      }
      batMillivolt := U16At(f.data, StatusBatteryOffset);
      chgMillivolt := U16At(f.data, StatusChargerOffset);
      verdict := NOTIFY_DONE;
    }
  }

  /** The voltages `Notify` takes from a status report are the ones the report carries. */
  lemma NotifyReadsReportedVoltages(s: Status)
    ensures var b := SerializeStatus(s);
      U16At(b, StatusBatteryOffset) == s.batteryMicrovolt && U16At(b, StatusChargerOffset) == s.chargerMicrovolt
  {
    StatusRoundTrip(s);
  }

  /** What `Notify` returns, as the notifier chain sees it (see `Notify`'s contract). */
  function Verdict(action: u16, f: Frame): int
  {
    NOTIFY_DONE
  }
}
