/**
 * The data-adapter interface between the inverter-facing responder and a battery
 * source (`BMSLibProtocolDataAdapter`). Every query answers a big-endian byte payload
 * of 2 or 4 bytes. The interface is closed here: one `Getter` constructor per virtual
 * query, with the cell or sensor number as argument where the query takes one.
 */
module LibProtocolAdapter {
  import opened Bytes

  datatype Getter =
    | FirmwareVersion
    | HardwareVersion
    | NumberOfCells
    | CellVoltage(cellNumber: nat)
    | NumberOfTemperatureSensors
    | TemperatureOfSensor(sensorNumber: nat)
    | ModuleChargeCurrent
    | ModuleDischargeCurrent
    | ModuleVoltage
    | StateOfCharge
    | ModuleTotalCapacity
    | NumberOfCellsForWarningInfo
    | CellPairVoltageState(oddCellNumber: nat)
    | NumberOfTemperatureSensorsForWarningInfo
    | TemperatureSensorPairState(oddSensorNumber: nat)
    | ModuleChargeVoltageState
    | ModuleDischargeVoltageState
    | CellChargeVoltageState
    | CellDischargeVoltageState
    | ModuleChargeCurrentState
    | ModuleDischargeCurrentState
    | ModuleChargeTemperatureState
    | ModuleDischargeTemperatureState
    | CellChargeTemperatureState
    | CellDischargeTemperatureState
    | ChargeVoltageLimit
    | DischargeVoltageLimit
    | ChargeCurrentLimit
    | DischargeCurrentLimit
    | ChargeDischargeStatus
    | RuntimeToEmptySeconds

  /** The payload size each query promises: 4 bytes for the versions and the capacity. */
  function PayloadSize(g: Getter): nat {
    if g.FirmwareVersion? || g.HardwareVersion? || g.ModuleTotalCapacity? then 4 else 2
  }

  /** The warning-information queries, whose low byte is one of the warning states. */
  predicate IsWarningStateGetter(g: Getter) {
    g.CellPairVoltageState? || g.TemperatureSensorPairState? ||
    g.ModuleChargeVoltageState? || g.ModuleDischargeVoltageState? ||
    g.CellChargeVoltageState? || g.CellDischargeVoltageState? ||
    g.ModuleChargeCurrentState? || g.ModuleDischargeCurrentState? ||
    g.ModuleChargeTemperatureState? || g.ModuleDischargeTemperatureState? ||
    g.CellChargeTemperatureState? || g.CellDischargeTemperatureState?
  }

  /** The query with its argument dropped: two queries of one kind share a kind. */
  function Kind(g: Getter): Getter {
    match g
    case CellVoltage(_) => CellVoltage(0)
    case TemperatureOfSensor(_) => TemperatureOfSensor(0)
    case CellPairVoltageState(_) => CellPairVoltageState(0)
    case TemperatureSensorPairState(_) => TemperatureSensorPairState(0)
    case _ => g
  }

  // Warning states, carried in the low byte of a 2-byte payload.
  const StateNormal: byte := 0x00
  const StateBelowNormal: byte := 0x01
  const StateAboveHigherLimit: byte := 0x02
  const StateOtherError: byte := 0xF0

  /** A 2-byte payload whose high byte is 0 and whose low byte is a warning state. */
  predicate IsWarningStatePayload(p: seq<byte>) {
    |p| == 2 && p[0] == 0 &&
    (p[1] == StateNormal || p[1] == StateBelowNormal ||
     p[1] == StateAboveHigherLimit || p[1] == StateOtherError)
  }

  // Charge/discharge status flags, mixed into the low byte of a 2-byte payload.
  const FullChargeRequest: byte := 8
  const ChargeImmediately2: byte := 16
  const ChargeImmediately: byte := 32
  const DischargeEnable: byte := 64
  const ChargeEnable: byte := 128
}
