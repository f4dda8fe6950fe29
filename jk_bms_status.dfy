/**
 * The JK battery's status frame (`on_status_data_`): the cell section, whose length
 * byte data[1] holds three bytes per cell, followed by a fixed section read at
 * `offset = data[1] + 3` plus a constant. Values stay in the battery's raw units:
 * mV for cells and cell thresholds, 10 mV for pack voltages, 10 mA for the current,
 * degrees Celsius, percent, minutes for the runtime.
 */
module JkBmsStatus {
  import opened Wrappers
  import opened Bytes
  import opened JkBmsHelpers
  import opened JkBmsText

  /** `cells_[24]`: the driver keeps room for 24 cells. */
  const MaxCells := 24

  /** The fixed section ends with the protocol-version byte at offset + 219. */
  const FixedSectionLength := 220

  /** Why a payload cannot be decoded without reading or writing out of bounds. */
  datatype DecodeError =
    | TooShort        // shorter than data[1] + 3 + 220 bytes
    | TooManyCells    // data[1] / 3 cells do not fit in the 24 cell slots

  /** The fields of the fixed section, in the order the driver reads them. */
  datatype Status = Status(
    powerTubeTemperature: int,
    temperatureSensor1: int,
    temperatureSensor2: int,
    totalVoltage: uint16,                    // 10 mV
    current: int,                            // 10 mA, positive while charging
    chargingCurrent: nat,
    dischargingCurrent: nat,
    power: int,                              // totalVoltage * current
    chargingPower: nat,
    dischargingPower: nat,
    capacityRemaining: byte,                 // percent
    temperatureSensors: byte,
    chargingCycles: uint16,
    totalChargingCycleCapacity: uint32,
    batteryStrings: uint16,
    errorsBitmask: uint16,
    operationModeBitmask: uint16,
    charging: bool,
    discharging: bool,
    balancing: bool,
    totalVoltageOvervoltageProtection: uint16,    // 10 mV
    totalVoltageUndervoltageProtection: uint16,   // 10 mV
    cellVoltageOvervoltageProtection: uint16,     // mV
    cellVoltageOvervoltageRecovery: uint16,       // mV
    cellVoltageOvervoltageDelay: uint16,          // s
    cellVoltageUndervoltageProtection: uint16,    // mV
    cellVoltageUndervoltageRecovery: uint16,      // mV
    cellVoltageUndervoltageDelay: uint16,         // s
    cellPressureDifferenceProtection: uint16,     // mV
    dischargingOvercurrentProtection: uint16,     // A
    dischargingOvercurrentDelay: uint16,          // s
    chargingOvercurrentProtection: uint16,        // A
    chargingOvercurrentDelay: uint16,             // s
    balanceStartingVoltage: uint16,               // mV
    balanceOpeningPressureDifference: uint16,     // mV
    balancingSwitch: bool,
    powerTubeTemperatureProtection: uint16,
    powerTubeTemperatureRecovery: uint16,
    temperatureSensorTemperatureProtection: uint16,
    temperatureSensorTemperatureRecovery: uint16,
    temperatureSensorTemperatureDifferenceProtection: uint16,
    chargingHighTemperatureProtection: uint16,
    dischargingHighTemperatureProtection: uint16,
    chargingLowTemperatureProtection: int,
    chargingLowTemperatureRecovery: int,
    dischargingLowTemperatureProtection: int,
    dischargingLowTemperatureRecovery: int,
    totalBatteryCapacitySetting: uint32,          // Ah
    chargingSwitch: bool,
    dischargingSwitch: bool,
    currentCalibration: uint16,                   // mA
    deviceAddress: byte,
    batteryType: string,
    sleepWaitTime: uint16,
    alarmLowVolume: byte,
    password: seq<byte>,
    dedicatedChargerSwitch: bool,
    deviceType: seq<byte>,
    totalRuntime: uint32,                         // minutes
    totalRuntimeFormatted: string,
    softwareVersion: seq<byte>,
    actualBatteryCapacity: uint32,
    manufacturer: seq<byte>,
    protocolVersion: byte)

  /** The status before any frame has been decoded: every field zero or empty. */
  const InitialStatus := Status(
    0, 0, 0, 0, 0, 0, 0, 0, 0, 0, 0, 0, 0, 0, 0, 0, 0, false, false, false,
    0, 0, 0, 0, 0, 0, 0, 0, 0, 0, 0, 0, 0, 0, 0, false,
    0, 0, 0, 0, 0, 0, 0, 0, 0, 0, 0, 0, false, false, 0, 0, "", 0, 0,
    [], false, [], 0, "", [], 0, [], 0)

  /** `cells = data[1] / 3`: three bytes (index, high, low) per cell. */
  function CellCount(data: seq<byte>): nat
    requires |data| >= 2
  {
    data[1] as int / 3
  }

  /** The frame is long enough for every read the decoder makes. */
  predicate LongEnough(data: seq<byte>) {
    |data| >= 2 && data[1] as int + 3 + FixedSectionLength <= |data|
  }

  /** The frame can be decoded: long enough, and its cells fit in the cell slots. */
  predicate Decodable(data: seq<byte>) {
    LongEnough(data) && CellCount(data) <= MaxCells
  }

  /** The raw mV of cell i (0-based): the big-endian value at 3i + 3. */
  function CellVoltage(data: seq<byte>, i: nat): uint16
    requires LongEnough(data) && i < CellCount(data)
  {
    Get16(data, 3 * i + 3)
  }

  /** The voltages of all cells, first cell first. */
  function CellVoltages(data: seq<byte>): (v: seq<int>)
    requires LongEnough(data)
    ensures |v| == CellCount(data)
    ensures forall i :: 0 <= i < |v| ==> v[i] == CellVoltage(data, i)
  {
    seq(CellCount(data), (i: nat) requires i < CellCount(data) => CellVoltage(data, i) as int)
  }

  // ---------------------------------------------------------------------------
  // Cell statistics
  // ---------------------------------------------------------------------------

  /** The running minimum and maximum, their 1-based cells, and the running sum. */
  datatype CellStats = CellStats(minVoltage: int, minCell: nat, maxVoltage: int, maxCell: nat, sum: int)
  {
    function Delta(): int { maxVoltage - minVoltage }
  }

  /** The loop's starting values: 100 V and -100 V, in mV, and no cell. */
  const NoCells := CellStats(100000, 0, -100000, 0, 0)

  /**
   * The cell loop as a function of the voltages seen so far: a cell replaces the
   * minimum only when strictly lower and the maximum only when strictly higher.
   */
  function ScanCells(v: seq<int>): CellStats
    decreases |v|
  {
    if v == [] then NoCells
    else ScanStep(ScanCells(v[..|v| - 1]), v[|v| - 1], |v|)
  }

  /** One step of the scan: the reading x of the 1-based cell number `cell`. */
  function ScanStep(s: CellStats, x: int, cell: nat): CellStats {
    CellStats(
      if x < s.minVoltage then x else s.minVoltage,
      if x < s.minVoltage then cell else s.minCell,
      if x > s.maxVoltage then x else s.maxVoltage,
      if x > s.maxVoltage then cell else s.maxCell,
      s.sum + x)
  }

  /** Scanning one more cell is one more step. */
  lemma ScanCellsPrefix(v: seq<int>, i: nat)
    requires i < |v|
    ensures ScanCells(v[..i + 1]) == ScanStep(ScanCells(v[..i]), v[i], i + 1)
  {
    assert v[..i + 1][..i] == v[..i];
  }

  /** Voltages a 16-bit reading can have, all strictly inside the sentinels. */
  predicate InSentinelRange(v: seq<int>) {
    forall i :: 0 <= i < |v| ==> 0 <= v[i] < 100000
  }

  /**
   * For at least one cell: the minimum is the value of its 1-based cell, no cell is
   * lower, and every earlier cell is higher (the first occurrence is kept); the
   * maximum likewise; the sum lies between count * min and count * max.
   */
  lemma {:induction false} ScanCellsCorrect(v: seq<int>)
    requires |v| >= 1 && InSentinelRange(v)
    ensures var s := ScanCells(v);
      1 <= s.minCell <= |v| && v[s.minCell - 1] == s.minVoltage &&
      (forall j :: 0 <= j < |v| ==> s.minVoltage <= v[j]) &&
      (forall j :: 0 <= j < s.minCell - 1 ==> s.minVoltage < v[j])
    ensures var s := ScanCells(v);
      1 <= s.maxCell <= |v| && v[s.maxCell - 1] == s.maxVoltage &&
      (forall j :: 0 <= j < |v| ==> v[j] <= s.maxVoltage) &&
      (forall j :: 0 <= j < s.maxCell - 1 ==> v[j] < s.maxVoltage)
    decreases |v|
  {
    var p := v[..|v| - 1];
    if |p| >= 1 {
      ScanCellsCorrect(p);
    }
  }

  /** The sum is the sum of the cell voltages. */
  function Sum(v: seq<int>): int
    decreases |v|
  {
    if v == [] then 0 else Sum(v[..|v| - 1]) + v[|v| - 1]
  }

  lemma {:induction false} ScanCellsSum(v: seq<int>)
    ensures ScanCells(v).sum == Sum(v)
    decreases |v|
  {
    if v != [] { ScanCellsSum(v[..|v| - 1]); }
  }

  /** min <= max, delta = max - min >= 0, and count * min <= sum <= count * max. */
  lemma {:induction false} ScanCellsBounds(v: seq<int>)
    requires |v| >= 1 && InSentinelRange(v)
    ensures ScanCells(v).minVoltage <= ScanCells(v).maxVoltage
    ensures ScanCells(v).Delta() >= 0
    ensures |v| * ScanCells(v).minVoltage <= ScanCells(v).sum <= |v| * ScanCells(v).maxVoltage
  {
    ScanCellsCorrect(v);
    ScanCellsSum(v);
    var s := ScanCells(v);
    SumBounds(v, s.minVoltage, s.maxVoltage);
  }

  lemma {:induction false} SumBounds(v: seq<int>, lo: int, hi: int)
    requires forall j :: 0 <= j < |v| ==> lo <= v[j] <= hi
    ensures |v| * lo <= Sum(v) <= |v| * hi
    decreases |v|
  {
    if v != [] {
      var p, last := v[..|v| - 1], v[|v| - 1];
      assert forall j :: 0 <= j < |p| ==> p[j] == v[j];
      SumBounds(p, lo, hi);
      assert Sum(v) == Sum(p) + last;
      assert lo <= last <= hi;
      assert |v| * lo == |p| * lo + lo && |v| * hi == |p| * hi + hi;
    }
  }

  /** With no cells the sentinels stay: 100 V, -100 V and no cell index. */
  lemma NoCellsStats()
    ensures ScanCells([]) == CellStats(100000, 0, -100000, 0, 0)
  {
  }

  // ---------------------------------------------------------------------------
  // The fixed section
  // ---------------------------------------------------------------------------

  /** The bytes [a, b) after offset, as `std::string(begin + a, begin + b)` copies them. */
  function Field(data: seq<byte>, from: nat, to: nat): seq<byte>
    requires from <= to <= |data|
  {
    data[from..to]
  }

  /** The fixed section, each field at offset plus its constant. */
  function ReadStatus(data: seq<byte>): Status
    requires LongEnough(data)
  {
    var o := data[1] as int + 3;
    var current := GetCurrent(Get16(data, o + 12), data[o + 219]);
    var totalVoltage := Get16(data, o + 9);
    var modes := Get16(data, o + 33);
    var power := totalVoltage * current;
    Status(
      powerTubeTemperature := GetTemperature(Get16(data, o + 0)),
      temperatureSensor1 := GetTemperature(Get16(data, o + 3)),
      temperatureSensor2 := GetTemperature(Get16(data, o + 6)),
      totalVoltage := totalVoltage,
      current := current,
      chargingCurrent := ChargingPart(current),
      dischargingCurrent := DischargingPart(current),
      power := power,
      chargingPower := ChargingPart(power),
      dischargingPower := DischargingPart(power),
      capacityRemaining := data[o + 15],
      temperatureSensors := data[o + 17],
      chargingCycles := Get16(data, o + 19),
      totalChargingCycleCapacity := Get32(data, o + 22),
      batteryStrings := Get16(data, o + 27),
      errorsBitmask := Get16(data, o + 30),
      operationModeBitmask := modes,
      charging := CheckBit(modes, 1),
      discharging := CheckBit(modes, 2),
      balancing := CheckBit(modes, 4),
      totalVoltageOvervoltageProtection := Get16(data, o + 36),
      totalVoltageUndervoltageProtection := Get16(data, o + 39),
      cellVoltageOvervoltageProtection := Get16(data, o + 42),
      cellVoltageOvervoltageRecovery := Get16(data, o + 45),
      cellVoltageOvervoltageDelay := Get16(data, o + 48),
      cellVoltageUndervoltageProtection := Get16(data, o + 51),
      cellVoltageUndervoltageRecovery := Get16(data, o + 54),
      cellVoltageUndervoltageDelay := Get16(data, o + 57),
      cellPressureDifferenceProtection := Get16(data, o + 60),
      dischargingOvercurrentProtection := Get16(data, o + 63),
      dischargingOvercurrentDelay := Get16(data, o + 66),
      chargingOvercurrentProtection := Get16(data, o + 69),
      chargingOvercurrentDelay := Get16(data, o + 72),
      balanceStartingVoltage := Get16(data, o + 75),
      balanceOpeningPressureDifference := Get16(data, o + 78),
      balancingSwitch := data[o + 81] != 0,
      powerTubeTemperatureProtection := Get16(data, o + 83),
      powerTubeTemperatureRecovery := Get16(data, o + 86),
      temperatureSensorTemperatureProtection := Get16(data, o + 89),
      temperatureSensorTemperatureRecovery := Get16(data, o + 92),
      temperatureSensorTemperatureDifferenceProtection := Get16(data, o + 95),
      chargingHighTemperatureProtection := Get16(data, o + 98),
      dischargingHighTemperatureProtection := Get16(data, o + 101),
      chargingLowTemperatureProtection := AsInt16(Get16(data, o + 104)),
      chargingLowTemperatureRecovery := AsInt16(Get16(data, o + 107)),
      dischargingLowTemperatureProtection := AsInt16(Get16(data, o + 110)),
      dischargingLowTemperatureRecovery := AsInt16(Get16(data, o + 113)),
      totalBatteryCapacitySetting := Get32(data, o + 118),
      chargingSwitch := data[o + 123] != 0,
      dischargingSwitch := data[o + 125] != 0,
      currentCalibration := Get16(data, o + 127),
      deviceAddress := data[o + 130],
      batteryType := BatteryType(data[o + 132]),
      sleepWaitTime := Get16(data, o + 134),
      alarmLowVolume := data[o + 137],
      password := Field(data, o + 139, o + 149),
      dedicatedChargerSwitch := data[o + 150] != 0,
      deviceType := Field(data, o + 152, o + 160),
      totalRuntime := Get32(data, o + 166),
      totalRuntimeFormatted := FormatTotalRuntime(Wrap32(Get32(data, o + 166) * 60)),
      softwareVersion := Field(data, o + 171, o + 186),
      actualBatteryCapacity := Get32(data, o + 189),
      manufacturer := Field(data, o + 194, o + 218),
      protocolVersion := data[o + 219])
  }

  /** What one status frame yields: the cells, their statistics and the fixed section. */
  datatype Decoded = Decoded(
    cellCount: nat,
    cellVoltages: seq<int>,
    stats: CellStats,
    status: Status,
    errorsText: string,
    operationModeText: string)

  /** The whole status frame, or why it cannot be decoded. */
  function DecodeStatus(data: seq<byte>): (r: Result<Decoded, DecodeError>)
    ensures r.Success? <==> Decodable(data)
    ensures r.Failure? ==> (r.error == TooShort <==> !LongEnough(data))
    ensures r.Success? ==>
      r.value.cellCount == CellCount(data) <= MaxCells && |r.value.cellVoltages| == r.value.cellCount
  {
    if !LongEnough(data) then Failure(TooShort)
    else if CellCount(data) > MaxCells then Failure(TooManyCells)
    else
      var v := CellVoltages(data);
      var status := ReadStatus(data);
      Success(Decoded(CellCount(data), v, ScanCells(v), status,
        ErrorsText(status.errorsBitmask), ModesText(status.operationModeBitmask)))
  }

  /** The derived fields keep the relations the driver intends. */
  lemma ReadStatusDerived(data: seq<byte>)
    requires LongEnough(data)
    ensures var s := ReadStatus(data);
      (s.chargingCurrent == 0 || s.dischargingCurrent == 0) &&
      s.chargingCurrent - s.dischargingCurrent == s.current &&
      (s.chargingPower == 0 || s.dischargingPower == 0) &&
      s.chargingPower - s.dischargingPower == s.power
    ensures var s := ReadStatus(data);
      (s.charging <==> Bits.BitSet(s.operationModeBitmask, 0)) &&
      (s.discharging <==> Bits.BitSet(s.operationModeBitmask, 1)) &&
      (s.balancing <==> Bits.BitSet(s.operationModeBitmask, 2))
    ensures var s := ReadStatus(data);
      s.batteryType == UnknownBatteryType <==> data[data[1] as int + 3 + 132] >= 3
  {
    var s := ReadStatus(data);
    CurrentSplit(s.current);
    CurrentSplit(s.power);
    ModeFlagBits(s.operationModeBitmask);
  }

  /** The cell statistics of any decodable frame satisfy the scan's guarantees. */
  lemma DecodedCellStats(data: seq<byte>)
    requires Decodable(data) && CellCount(data) >= 1
    ensures var d := DecodeStatus(data).value;
      1 <= d.stats.minCell <= d.cellCount && 1 <= d.stats.maxCell <= d.cellCount &&
      d.stats.minVoltage == d.cellVoltages[d.stats.minCell - 1] &&
      d.stats.maxVoltage == d.cellVoltages[d.stats.maxCell - 1] &&
      d.stats.minVoltage <= d.stats.maxVoltage && d.stats.Delta() >= 0
  {
    var v := CellVoltages(data);
    ScanCellsCorrect(v);
    ScanCellsBounds(v);
  }

  // ---------------------------------------------------------------------------
  // The fake-traffic frame
  // ---------------------------------------------------------------------------

  /**
   * The frame `update()` feeds itself when fake traffic is enabled (14 cells), kept
   * as 16-byte rows so that single bytes of it stay cheap to look up.
   */
  const FakeTrafficPayload: seq<byte> :=
    FakeTrafficRow0 + (
    FakeTrafficRow1 + (
    FakeTrafficRow2 + (
    FakeTrafficRow3 + (
    FakeTrafficRow4 + (
    FakeTrafficRow5 + (
    FakeTrafficRow6 + (
    FakeTrafficRow7 + (
    FakeTrafficRow8 + (
    FakeTrafficRow9 + (
    FakeTrafficRow10 + (
    FakeTrafficRow11 + (
    FakeTrafficRow12 + (
    FakeTrafficRow13 + (
    FakeTrafficRow14 + (
    FakeTrafficRow15 + (
    FakeTrafficRow16))))))))))))))))

  const FakeTrafficRow0: seq<byte> := [0x79, 0x2A, 0x01, 0x0E, 0xED, 0x02, 0x0E, 0xFA, 0x03, 0x0E, 0xF7, 0x04, 0x0E, 0xEC, 0x05, 0x0E]
  const FakeTrafficRow1: seq<byte> := [0xF8, 0x06, 0x0E, 0xFA, 0x07, 0x0E, 0xF1, 0x08, 0x0E, 0xF8, 0x09, 0x0E, 0xE3, 0x0A, 0x0E, 0xFA]
  const FakeTrafficRow2: seq<byte> := [0x0B, 0x0E, 0xF1, 0x0C, 0x0E, 0xFB, 0x0D, 0x0E, 0xFB, 0x0E, 0x0E, 0xF2, 0x80, 0x00, 0x1D, 0x81]
  const FakeTrafficRow3: seq<byte> := [0x00, 0x1E, 0x82, 0x00, 0x1C, 0x83, 0x14, 0xEF, 0x84, 0x80, 0xD0, 0x85, 0x0F, 0x86, 0x02, 0x87]
  const FakeTrafficRow4: seq<byte> := [0x00, 0x04, 0x89, 0x00, 0x00, 0x00, 0x00, 0x8A, 0x00, 0x0E, 0x8B, 0x00, 0x00, 0x8C, 0x00, 0x07]
  const FakeTrafficRow5: seq<byte> := [0x8E, 0x16, 0x26, 0x8F, 0x10, 0xAE, 0x90, 0x0F, 0xD2, 0x91, 0x0F, 0xA0, 0x92, 0x00, 0x05, 0x93]
  const FakeTrafficRow6: seq<byte> := [0x0B, 0xEA, 0x94, 0x0C, 0x1C, 0x95, 0x00, 0x05, 0x96, 0x01, 0x2C, 0x97, 0x00, 0x07, 0x98, 0x00]
  const FakeTrafficRow7: seq<byte> := [0x03, 0x99, 0x00, 0x05, 0x9A, 0x00, 0x05, 0x9B, 0x0C, 0xE4, 0x9C, 0x00, 0x08, 0x9D, 0x01, 0x9E]
  const FakeTrafficRow8: seq<byte> := [0x00, 0x5A, 0x9F, 0x00, 0x46, 0xA0, 0x00, 0x64, 0xA1, 0x00, 0x64, 0xA2, 0x00, 0x14, 0xA3, 0x00]
  const FakeTrafficRow9: seq<byte> := [0x46, 0xA4, 0x00, 0x46, 0xA5, 0xFF, 0xEC, 0xA6, 0xFF, 0xF6, 0xA7, 0xFF, 0xEC, 0xA8, 0xFF, 0xF6]
  const FakeTrafficRow10: seq<byte> := [0xA9, 0x0E, 0xAA, 0x00, 0x00, 0x00, 0x0E, 0xAB, 0x01, 0xAC, 0x01, 0xAD, 0x04, 0x11, 0xAE, 0x01]
  const FakeTrafficRow11: seq<byte> := [0xAF, 0x01, 0xB0, 0x00, 0x0A, 0xB1, 0x14, 0xB2, 0x31, 0x32, 0x33, 0x34, 0x35, 0x36, 0x00, 0x00]
  const FakeTrafficRow12: seq<byte> := [0x00, 0x00, 0xB3, 0x00, 0xB4, 0x49, 0x6E, 0x70, 0x75, 0x74, 0x20, 0x55, 0x73, 0xB5, 0x32, 0x31]
  const FakeTrafficRow13: seq<byte> := [0x30, 0x31, 0xB6, 0x00, 0x00, 0xE2, 0x00, 0xB7, 0x48, 0x36, 0x2E, 0x58, 0x5F, 0x5F, 0x53, 0x36]
  const FakeTrafficRow14: seq<byte> := [0x2E, 0x31, 0x2E, 0x33, 0x53, 0x5F, 0x5F, 0xB8, 0x00, 0xB9, 0x00, 0x00, 0x00, 0x00, 0xBA, 0x42]
  const FakeTrafficRow15: seq<byte> := [0x54, 0x33, 0x30, 0x37, 0x32, 0x30, 0x32, 0x30, 0x31, 0x32, 0x30, 0x30, 0x30, 0x30, 0x32, 0x30]
  const FakeTrafficRow16: seq<byte> := [0x30, 0x35, 0x32, 0x31, 0x30, 0x30, 0x31, 0xC0, 0x01]

  /** The 14 cell readings of the fake-traffic frame, in mV. */
  const FakeTrafficCells: seq<int> :=
    [3821, 3834, 3831, 3820, 3832, 3834, 3825, 3832, 3811, 3834, 3825, 3835, 3835, 3826]

  lemma FakeTrafficCellVoltages()
    ensures LongEnough(FakeTrafficPayload) && CellCount(FakeTrafficPayload) == 14
    ensures CellVoltages(FakeTrafficPayload) == FakeTrafficCells
  {
    var d := FakeTrafficPayload;
    assert |d| == 265;
    assert d[1] == 0x2A;
    assert CellVoltage(d, 0) == 3821;
    assert CellVoltage(d, 1) == 3834;
    assert CellVoltage(d, 2) == 3831;
    assert CellVoltage(d, 3) == 3820;
    assert CellVoltage(d, 4) == 3832;
    assert CellVoltage(d, 5) == 3834;
    assert CellVoltage(d, 6) == 3825;
    assert CellVoltage(d, 7) == 3832;
    assert CellVoltage(d, 8) == 3811;
    assert CellVoltage(d, 9) == 3834;
    assert CellVoltage(d, 10) == 3825;
    assert CellVoltage(d, 11) == 3835;
    assert CellVoltage(d, 12) == 3835;
    assert CellVoltage(d, 13) == 3826;
    var v := CellVoltages(d);
    assert forall i :: 0 <= i < 14 ==> v[i] == FakeTrafficCells[i];
  }

  /**
   * The fake frame's cells: lowest 3.811 V at cell 9, highest 3.835 V first reached
   * at cell 12 (cell 13 has it too), a spread of 24 mV.
   */
  lemma FakeTrafficCellStats(v: seq<int>)
    requires v == FakeTrafficCells
    ensures ScanCells(v).minVoltage == 3811 && ScanCells(v).minCell == 9
    ensures ScanCells(v).maxVoltage == 3835 && ScanCells(v).maxCell == 12
    ensures ScanCells(v).Delta() == 24
  {
    assert InSentinelRange(v);
    ScanCellsCorrect(v);
    var s := ScanCells(v);
    assert s.minVoltage <= v[8] == 3811;
    assert s.maxVoltage >= v[11] == 3835;
  }

  /**
   * A frame whose raw reads are these decodes to these fields: the voltage, the
   * signed current and its charging and discharging parts, the strings, both masks
   * and the protocol version.
   */
  lemma ReadStatusFields(data: seq<byte>, voltage: uint16, rawCurrent: uint16, version: byte,
                         strings: uint16, errors: uint16, modes: uint16)
    requires LongEnough(data)
    requires var o := data[1] as int + 3;
      Get16(data, o + 9) == voltage && Get16(data, o + 12) == rawCurrent && data[o + 219] == version &&
      Get16(data, o + 27) == strings && Get16(data, o + 30) == errors && Get16(data, o + 33) == modes
    ensures var st := ReadStatus(data);
      st.totalVoltage == voltage && st.current == GetCurrent(rawCurrent, version) &&
      st.chargingCurrent == ChargingPart(st.current) && st.dischargingCurrent == DischargingPart(st.current) &&
      st.batteryStrings == strings && st.errorsBitmask == errors && st.operationModeBitmask == modes &&
      (st.charging <==> Bits.BitSet(modes, 0)) && (st.discharging <==> Bits.BitSet(modes, 1)) &&
      (st.balancing <==> Bits.BitSet(modes, 2)) &&
      st.protocolVersion == version
  {
    ModeFlagBits(modes);
  }

  /**
   * The raw reads of the fake frame's fixed section: 53.59 V, current word 0x80D0
   * (2.08 A charging at protocol version 1), 14 strings, no errors, modes 7.
   */
  lemma FakeTrafficRawFields(d: seq<byte>)
    requires d == FakeTrafficPayload
    ensures LongEnough(d) && d[1] as int + 3 == 45
    ensures Get16(d, 45 + 9) == 5359 && Get16(d, 45 + 12) == 0x80D0 && d[45 + 219] == CurrentProtocolVersion
    ensures GetCurrent(0x80D0, CurrentProtocolVersion) == 208
    ensures Get16(d, 45 + 27) == 14 && Get16(d, 45 + 30) == 0 && Get16(d, 45 + 33) == 7
  {
    assert |d| == 265 && d[1] == 0x2A;
    assert d[57] == 0x80 && d[58] == 0xD0 && d[264] == 1;
    assert d[72] == 0 && d[73] == 14;
    assert d[75] == 0 && d[76] == 0;
    assert d[78] == 0 && d[79] == 7;
  }

  /** The fake frame's temperatures (29, 30 and 28 degrees) and state of charge (15 %). */
  lemma FakeTrafficRawTemperatures(d: seq<byte>)
    requires d == FakeTrafficPayload
    ensures LongEnough(d) && d[1] as int + 3 == 45
    ensures GetTemperature(Get16(d, 45 + 0)) == 29 && GetTemperature(Get16(d, 45 + 3)) == 30
    ensures GetTemperature(Get16(d, 45 + 6)) == 28 && d[45 + 15] == 15
  {
    assert |d| == 265 && d[1] == 0x2A;
    assert d[45] == 0 && d[46] == 0x1D;
    assert d[48] == 0 && d[49] == 0x1E;
    assert d[51] == 0 && d[52] == 0x1C && d[60] == 0x0F;
  }
}
