/**
 * The fixed-value data adapter (`BMSLibProtocolMockDataAdapter`): it always reports
 * data and answers every query with a constant, written big-endian.
 */
module MockDataAdapter {
  import opened Bytes
  import opened LibProtocolAdapter

  /** `hasData`: the mock always has data. */
  const MockHasData: bool := true

  /** The constant payload the mock answers for each query; indexed queries ignore the index. */
  function MockGet(g: Getter): (p: seq<byte>)
    ensures |p| == PayloadSize(g)
    ensures IsWarningStateGetter(g) ==> IsWarningStatePayload(p)
  {
    match g
    case FirmwareVersion => [0, 0, 0, 1]
    case HardwareVersion => [0, 0, 0, 1]
    case NumberOfCells => [0, 8]
    case CellVoltage(_) => [0, 33]
    case NumberOfTemperatureSensors => [0, 3]
    case TemperatureOfSensor(_) => BE16(2931)
    case ModuleChargeCurrent => BE16(572)
    case ModuleDischargeCurrent => BE16(900)
    case ModuleVoltage => BE16(264)
    case StateOfCharge => [0x00, 70]
    case ModuleTotalCapacity => BE32(280000)
    case ChargeVoltageLimit => BE16(292)
    case DischargeVoltageLimit => BE16(200)
    case ChargeCurrentLimit => BE16(1400)
    case DischargeCurrentLimit => BE16(3400)
    case ChargeDischargeStatus => [0x00, ChargeEnable + DischargeEnable]
    case RuntimeToEmptySeconds => BE16(1200)
    case NumberOfCellsForWarningInfo => [0, 8]
    case CellPairVoltageState(_) => [0, StateNormal]
    case NumberOfTemperatureSensorsForWarningInfo => [0, 4]
    case TemperatureSensorPairState(_) => [0, StateBelowNormal]
    case ModuleChargeVoltageState => [0, StateNormal]
    case ModuleDischargeVoltageState => [0, StateNormal]
    case CellChargeVoltageState => [0, StateNormal]
    case CellDischargeVoltageState => [0, StateOtherError]
    case ModuleChargeCurrentState => [0, StateNormal]
    case ModuleDischargeCurrentState => [0, StateAboveHigherLimit]
    case ModuleChargeTemperatureState => [0, StateNormal]
    case ModuleDischargeTemperatureState => [0, StateNormal]
    case CellChargeTemperatureState => [0, StateNormal]
    case CellDischargeTemperatureState => [0, StateAboveHigherLimit]
  }

  /** The indexed queries answer the same whatever cell or sensor number they are given. */
  lemma MockIgnoresArgument(g: Getter, h: Getter)
    requires Kind(g) == Kind(h)
    ensures MockGet(g) == MockGet(h)
  {
  }

  /** The multi-byte constants go out most significant byte first. */
  lemma MockBigEndian(n: nat)
    ensures MockGet(TemperatureOfSensor(n)) == [0x0B, 0x73]
    ensures MockGet(ModuleTotalCapacity) == [0x00, 0x04, 0x45, 0xC0]
    ensures MockGet(RuntimeToEmptySeconds) == [0x04, 0xB0]
  {
  }

  /** Reading the 16-bit payloads back as big-endian numbers gives the mock's constants again. */
  lemma MockValues(n: nat)
    ensures Get16(MockGet(TemperatureOfSensor(n)), 0) == 2931
    ensures Get16(MockGet(ModuleVoltage), 0) == 264
    ensures Get16(MockGet(RuntimeToEmptySeconds), 0) == 1200
  {
    Get16OfBE16(2931);
    Get16OfBE16(264);
    Get16OfBE16(1200);
  }

  /** The 32-bit capacity payload reads back as 280000 (280 Ah in mAh). */
  lemma MockCapacityValue()
    ensures Get32(MockGet(ModuleTotalCapacity), 0) == 280000
  {
    Get32OfBE32(280000);
  }

  /** The status is chargeEnable | dischargeEnable and never asks for a full charge. */
  lemma MockChargeDischargeStatus()
    ensures MockGet(ChargeDischargeStatus) == [0x00, 0xC0]
    ensures (MockGet(ChargeDischargeStatus)[1] / FullChargeRequest) % 2 == 0
  {
  }
}
