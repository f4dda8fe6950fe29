/**
 * The JK battery driver (`JkBms`): it decodes the battery's status frames into its
 * fields, keeps an online/no-response tracker, and answers the data-adapter queries
 * from the decoded fields. Everything above the frame level (the JK Modbus framing,
 * `read_registers`) is not part of this model.
 */
module JkBms {
  import opened Wrappers
  import opened Bytes
  import opened Bits
  import opened JkBmsHelpers
  import opened JkBmsText
  import opened JkBmsStatus
  import opened LibProtocolAdapter

  const MaxNoResponseCount := 5
  const FunctionReadAll: byte := 0x06

  // ---------------------------------------------------------------------------
  // The online tracker
  // ---------------------------------------------------------------------------

  /** `no_response_count_` and `online_status_`. */
  datatype OnlineTracker = OnlineTracker(noResponseCount: nat, online: bool)

  /** `reset_online_status_tracker_`: any frame from the battery puts it back online. */
  function ResetTracker(): OnlineTracker {
    OnlineTracker(0, true)
  }

  /**
   * `track_online_status_`, once per poll: count up to 5; on reaching 5 go offline and
   * step past it to 6, so that later polls change nothing.
   */
  function Track(t: OnlineTracker): OnlineTracker {
    var count := if t.noResponseCount < MaxNoResponseCount then t.noResponseCount + 1 else t.noResponseCount;
    if count == MaxNoResponseCount then OnlineTracker(count + 1, false) else OnlineTracker(count, t.online)
  }

  /** k polls in a row with no frame in between. */
  function TrackTimes(t: OnlineTracker, k: nat): OnlineTracker
    decreases k
  {
    if k == 0 then t else Track(TrackTimes(t, k - 1))
  }

  /**
   * After a reset, the first four unanswered polls keep the battery online and count
   * 1..4; the fifth takes it offline with count 6, where it stays.
   */
  lemma {:induction false} TracksAfterReset(k: nat)
    ensures TrackTimes(ResetTracker(), k) ==
      if k < MaxNoResponseCount then OnlineTracker(k, true) else OnlineTracker(MaxNoResponseCount + 1, false)
    decreases k
  {
    if k > 0 { TracksAfterReset(k - 1); }
  }

  /** The counter never passes 6, so the 8-bit counter never wraps. */
  lemma TrackBounded(t: OnlineTracker)
    requires t.noResponseCount <= MaxNoResponseCount + 1
    ensures Track(t).noResponseCount <= MaxNoResponseCount + 1
    ensures t.noResponseCount == MaxNoResponseCount + 1 ==> Track(t) == t
  {
  }

  /** Once offline, polling alone never brings the battery back online. */
  lemma {:induction false} OfflineUntilReset(t: OnlineTracker, k: nat)
    requires !t.online
    ensures !TrackTimes(t, k).online
    decreases k
  {
    if k > 0 { OfflineUntilReset(t, k - 1); }
  }

  // ---------------------------------------------------------------------------
  // The adapter queries, on a snapshot of the driver's fields
  // ---------------------------------------------------------------------------

  /**
   * The error-bitmask alarm masks the state queries test. They are not defined in
   * the driver's own files, so the model takes them as parameters.
   */
  datatype AlarmMasks = AlarmMasks(
    chargingOvervoltage: uint16,
    dischargingUndervoltage: uint16,
    chargingOvercurrent: uint16,
    dischargingOvercurrent: uint16,
    batteryLowTemperature: uint16,
    batteryOverTemperature: uint16,
    batteryBoxOvertemperature: uint16,
    powerTubeOverTemperature: uint16)

  /** What the adapter queries read: the current cells, the decoded fields, the masks. */
  datatype JkBmsView = JkBmsView(hasData: bool, cellVoltages: seq<int>, status: Status, alarms: AlarmMasks)

  /** `NotImplemented2Bytes` and `NotImplemented4Bytes`. */
  function NotImplemented(size: nat): (p: seq<byte>)
    ensures |p| == size && forall i :: 0 <= i < |p| ==> p[i] == 0
  {
    seq(size, _ => 0)
  }

  /** A state reply: 0 in the high byte, the state in the low byte. */
  function StateReply(state: byte): seq<byte> {
    [0, state]
  }

  /** 1-based cell and sensor numbers: the driver's guard together with the lower bound. */
  predicate InRange(n: nat, count: nat) {
    1 <= n <= count
  }

  /** The module charge-temperature state: low temperature first, then any overheat. */
  function ChargeTemperatureState(errors: uint16, a: AlarmMasks): byte {
    if CheckBit(errors, a.batteryLowTemperature) then StateBelowNormal
    else if CheckBit(errors, a.batteryOverTemperature) then StateAboveHigherLimit
    else if CheckBit(errors, a.batteryBoxOvertemperature) then StateAboveHigherLimit
    else if CheckBit(errors, a.powerTubeOverTemperature) then StateAboveHigherLimit
    else StateNormal
  }

  /** The module discharge-temperature state: any overheat. */
  function DischargeTemperatureState(errors: uint16, a: AlarmMasks): byte {
    if CheckBit(errors, a.batteryOverTemperature) then StateAboveHigherLimit
    else if CheckBit(errors, a.batteryBoxOvertemperature) then StateAboveHigherLimit
    else if CheckBit(errors, a.powerTubeOverTemperature) then StateAboveHigherLimit
    else StateNormal
  }

  /** Charging and discharging stay enabled only while both sensors read below 35 degrees. */
  const MaxEnableTemperature := 35

  /** The charge/discharge status byte; the full-charge request is never raised. */
  function StatusFlags(s: Status): byte {
    var cool := s.temperatureSensor1 < MaxEnableTemperature && s.temperatureSensor2 < MaxEnableTemperature;
    (if s.charging && cool then ChargeEnable as int else 0) +
    (if s.discharging && cool then DischargeEnable as int else 0) +
    (if 10 <= s.capacityRemaining as int <= 15 then ChargeImmediately2 as int else 0) +
    (if s.capacityRemaining < 10 then ChargeImmediately as int else 0)
  }

  /**
   * Sensor n's temperature in 0.1 K: `(t + 273.15) * 10` = 10t + 2731.5, truncated toward
   * zero as C's cast does (10t + 2731 from -273 up, 10t + 2732 below), then cut to 16 bits.
   */
  function KelvinTenths(t: int): uint16 {
    if t * 10 + 2731 < 0 then Wrap16(t * 10 + 2732) else Wrap16(t * 10 + 2731)
  }

  /** Every adapter query as the driver answers it. */
  function JkGet(v: JkBmsView, g: Getter): (p: seq<byte>)
    ensures |p| == PayloadSize(g)
    ensures IsWarningStateGetter(g) ==> IsWarningStatePayload(p)
  {
    if IsWarningStateGetter(g) then JkWarningState(v, g) else JkMeasurement(v, g)
  }

  /** The warning-information getters: each answers one of the four warning states. */
  function JkWarningState(v: JkBmsView, g: Getter): (p: seq<byte>)
    requires IsWarningStateGetter(g)
    ensures IsWarningStatePayload(p)
  {
    var e := v.status.errorsBitmask;
    var a := v.alarms;
    match g
    case CellPairVoltageState(_) => NotImplemented(2)
    case TemperatureSensorPairState(_) => StateReply(StateNormal)
    case ModuleChargeVoltageState =>
      StateReply(if CheckBit(e, a.chargingOvervoltage) then StateAboveHigherLimit else StateNormal)
    case ModuleDischargeVoltageState =>
      StateReply(if CheckBit(e, a.dischargingUndervoltage) then StateBelowNormal else StateNormal)
    case CellChargeVoltageState => NotImplemented(2)
    case CellDischargeVoltageState => NotImplemented(2)
    case ModuleChargeCurrentState =>
      StateReply(if CheckBit(e, a.chargingOvercurrent) then StateAboveHigherLimit else StateNormal)
    case ModuleDischargeCurrentState =>
      StateReply(if CheckBit(e, a.dischargingOvercurrent) then StateAboveHigherLimit else StateNormal)
    case ModuleChargeTemperatureState => StateReply(ChargeTemperatureState(e, a))
    case ModuleDischargeTemperatureState => StateReply(DischargeTemperatureState(e, a))
    case CellChargeTemperatureState => NotImplemented(2)
    case CellDischargeTemperatureState => NotImplemented(2)
  }

  /** The identification, measurement, limit and status getters. */
  function JkMeasurement(v: JkBmsView, g: Getter): (p: seq<byte>)
    requires !IsWarningStateGetter(g)
    ensures |p| == PayloadSize(g)
  {
    var s := v.status;
    match g
    case FirmwareVersion => NotImplemented(4)
    case HardwareVersion => NotImplemented(4)
    case NumberOfCells => [0, Wrap8(|v.cellVoltages|)]
    case CellVoltage(n) =>
      if InRange(n, |v.cellVoltages|) then [0, Wrap8(v.cellVoltages[n - 1] / 100)] else [0, 0]
    case NumberOfTemperatureSensors => [0, s.temperatureSensors]
    case TemperatureOfSensor(n) =>
      if InRange(n, s.temperatureSensors as nat) then
        if n == 1 then BE16(KelvinTenths(s.temperatureSensor1))
        else if n == 2 then BE16(KelvinTenths(s.temperatureSensor2))
        else [0, 0]
      else [0, 0]
    case ModuleChargeCurrent => BE16(Wrap16(s.chargingCurrent / 10))
    case ModuleDischargeCurrent => BE16(Wrap16(s.dischargingCurrent / 10))
    case ModuleVoltage => BE16(s.totalVoltage / 10)
    case StateOfCharge => BE16(s.capacityRemaining)
    case ModuleTotalCapacity => BE32(Wrap32(s.totalBatteryCapacitySetting * 1000))
    case NumberOfCellsForWarningInfo => NotImplemented(2)
    case NumberOfTemperatureSensorsForWarningInfo => [0, s.temperatureSensors]
    case ChargeVoltageLimit =>
      BE16(Wrap16(s.cellVoltageOvervoltageRecovery * |v.cellVoltages| / 100))
    case DischargeVoltageLimit =>
      BE16(Wrap16(s.cellVoltageUndervoltageRecovery * |v.cellVoltages| / 100))
    case ChargeCurrentLimit => BE16(Wrap16(s.chargingOvercurrentProtection * 10))
    case DischargeCurrentLimit => BE16(Wrap16(s.dischargingOvercurrentProtection * 10))
    case ChargeDischargeStatus => [0, StatusFlags(s)]
    case RuntimeToEmptySeconds => NotImplemented(2)
  }

  /** The state queries never answer "other error": their low byte is 0x00, 0x01 or 0x02. */
  lemma JkStatesAreKnown(v: JkBmsView, g: Getter)
    requires IsWarningStateGetter(g)
    ensures JkGet(v, g)[0] == 0
    ensures JkGet(v, g)[1] in {StateNormal, StateBelowNormal, StateAboveHigherLimit}
  {
  }

  /**
   * The charge-temperature state reports low temperature whenever its bits are set,
   * before any overheat; otherwise it reports "above" exactly when an overheat is set.
   */
  lemma ChargeTemperatureLowFirst(v: JkBmsView)
    ensures var e := v.status.errorsBitmask; var a := v.alarms;
      CheckBit(e, a.batteryLowTemperature) ==> JkGet(v, ModuleChargeTemperatureState) == [0, StateBelowNormal]
    ensures var e := v.status.errorsBitmask; var a := v.alarms;
      !CheckBit(e, a.batteryLowTemperature) ==>
        (JkGet(v, ModuleChargeTemperatureState) == [0, StateAboveHigherLimit] <==>
         CheckBit(e, a.batteryOverTemperature) || CheckBit(e, a.batteryBoxOvertemperature) ||
         CheckBit(e, a.powerTubeOverTemperature))
  {
  }

  /** Discharging only ever reports overheat, never low temperature. */
  lemma DischargeTemperatureOnlyAbove(v: JkBmsView)
    ensures var e := v.status.errorsBitmask; var a := v.alarms;
      JkGet(v, ModuleDischargeTemperatureState) == [0, StateAboveHigherLimit] <==>
      CheckBit(e, a.batteryOverTemperature) || CheckBit(e, a.batteryBoxOvertemperature) ||
      CheckBit(e, a.powerTubeOverTemperature)
    ensures JkGet(v, ModuleDischargeTemperatureState) != [0, StateBelowNormal]
  {
  }

  /** The queries the driver does not implement answer zeros of the promised size. */
  lemma NotImplementedAnswersZeros(v: JkBmsView, g: Getter)
    requires g.FirmwareVersion? || g.HardwareVersion? || g.NumberOfCellsForWarningInfo? ||
      g.CellPairVoltageState? || g.CellChargeVoltageState? || g.CellDischargeVoltageState? ||
      g.CellChargeTemperatureState? || g.CellDischargeTemperatureState? || g.RuntimeToEmptySeconds? ||
      g.TemperatureSensorPairState?
    ensures forall i :: 0 <= i < |JkGet(v, g)| ==> JkGet(v, g)[i] == 0
  {
  }

  /** The bits of a status byte built from the four conditions. */
  lemma FlagBits(ce: bool, de: bool, c2: bool, c1: bool)
    ensures var b := (if ce then 128 else 0) + (if de then 64 else 0) + (if c2 then 16 else 0) + (if c1 then 32 else 0);
      (BitSet(b, 7) <==> ce) && (BitSet(b, 6) <==> de) && (BitSet(b, 5) <==> c1) &&
      (BitSet(b, 4) <==> c2) && !BitSet(b, 3) && !BitSet(b, 2) && !BitSet(b, 1) && !BitSet(b, 0)
  {
    // The byte written out as its binary digits, high to low, halved one digit at a time.
    var d7, d6, d5, d4 := (if ce then 1 else 0), (if de then 1 else 0), (if c1 then 1 else 0), (if c2 then 1 else 0);
    var x4 := 8 * d7 + 4 * d6 + 2 * d5 + d4;
    var b := 16 * x4;
    assert b == (if ce then 128 else 0) + (if de then 64 else 0) + (if c2 then 16 else 0) + (if c1 then 32 else 0);
    assert b / 2 == 8 * x4 && b / 2 / 2 == 4 * x4 && b / 2 / 2 / 2 == 2 * x4 && b / 2 / 2 / 2 / 2 == x4;
    assert x4 % 2 == d4 && x4 / 2 == 4 * d7 + 2 * d6 + d5;
    assert x4 / 2 % 2 == d5 && x4 / 2 / 2 == 2 * d7 + d6;
    assert x4 / 2 / 2 % 2 == d6 && x4 / 2 / 2 / 2 == d7;
  }

  /**
   * The status byte: charge (bit 7) and discharge (bit 6) enabled exactly when the
   * mode allows it and both sensors are below 35 degrees; charge-immediately-2 (bit 4)
   * exactly at 10..15 % and charge-immediately (bit 5) exactly below 10 %, never both;
   * the full-charge request (bit 3) never.
   */
  lemma ChargeDischargeStatusBits(v: JkBmsView)
    ensures var p := JkGet(v, ChargeDischargeStatus); var s := v.status;
      var cool := s.temperatureSensor1 < 35 && s.temperatureSensor2 < 35;
      p[0] == 0 &&
      (BitSet(p[1], 7) <==> s.charging && cool) &&
      (BitSet(p[1], 6) <==> s.discharging && cool) &&
      (BitSet(p[1], 4) <==> 10 <= s.capacityRemaining as int <= 15) &&
      (BitSet(p[1], 5) <==> s.capacityRemaining < 10) &&
      !(BitSet(p[1], 4) && BitSet(p[1], 5)) &&
      !BitSet(p[1], 3)
  {
    var s := v.status;
    var cool := s.temperatureSensor1 < 35 && s.temperatureSensor2 < 35;
    FlagBits(s.charging && cool, s.discharging && cool,
      10 <= s.capacityRemaining as int <= 15, s.capacityRemaining < 10);
  }

  /** A cell number outside 1..cell count answers [0, 0]; inside, the cell's mV / 100. */
  lemma CellVoltageReply(v: JkBmsView, n: nat)
    ensures n > |v.cellVoltages| ==> JkGet(v, CellVoltage(n)) == [0, 0]
    ensures 1 <= n <= |v.cellVoltages| ==>
      JkGet(v, CellVoltage(n)) == [0, Wrap8(v.cellVoltages[n - 1] / 100)]
  {
  }

  /** The 16-bit replies read back, most significant byte first, as the value sent. */
  lemma JkBigEndianReplies(v: JkBmsView)
    ensures Get16(JkGet(v, ModuleVoltage), 0) == v.status.totalVoltage / 10
    ensures Get16(JkGet(v, StateOfCharge), 0) == v.status.capacityRemaining
    ensures Get32(JkGet(v, ModuleTotalCapacity), 0) == Wrap32(v.status.totalBatteryCapacitySetting * 1000)
  {
    Get16OfBE16(v.status.totalVoltage / 10);
    Get16OfBE16(v.status.capacityRemaining);
    Get32OfBE32(Wrap32(v.status.totalBatteryCapacitySetting * 1000));
  }

  // ---------------------------------------------------------------------------
  // The driver object
  // ---------------------------------------------------------------------------

  class JkBms {
    const enableFakeTraffic: bool
    const alarms: AlarmMasks
    /** `cells_[24]`, each cell's voltage in mV from the last decoded frame. */
    const cells: array<int>
    /** `has_data_`: initialised false and never assigned by the driver. */
    var hasData: bool
    var cellCount: nat
    var cellStats: CellStats
    var status: Status
    var errorsText: string
    var operationModeText: string
    var onlineStatus: bool
    var noResponseCount: nat

    ghost predicate Valid()
      reads this
    {
      cells.Length == MaxCells && cellCount <= MaxCells && !hasData &&
      noResponseCount <= MaxNoResponseCount + 1
    }

    constructor(enableFakeTraffic: bool, alarms: AlarmMasks)
      ensures Valid() && fresh(cells)
      ensures this.enableFakeTraffic == enableFakeTraffic && this.alarms == alarms
      ensures cellCount == 0 && status == InitialStatus && Tracker() == OnlineTracker(0, false)
    {
      this.enableFakeTraffic := enableFakeTraffic;
      this.alarms := alarms;
      cells := new int[MaxCells](_ => 0);
      hasData := false;
      cellCount := 0;
      cellStats := NoCells;
      status := InitialStatus;
      errorsText := "";
      operationModeText := "";
      onlineStatus := false;
      noResponseCount := 0;
    }

    function Tracker(): OnlineTracker
      reads this
    {
      OnlineTracker(noResponseCount, onlineStatus)
    }

    /** What the adapter queries see of the driver. */
    function View(): JkBmsView
      requires Valid()
      reads this, cells
    {
      JkBmsView(hasData, cells[..cellCount], status, alarms)
    }

    /** `hasData()`. */
    function HasData(): (r: bool)
      requires Valid()
      reads this
      ensures !r
    {
      hasData
    }

    method ResetOnlineStatusTracker()
      requires Valid()
      modifies this
      ensures Valid() && Tracker() == ResetTracker()
      ensures cellCount == old(cellCount) && cellStats == old(cellStats) && status == old(status)
      ensures errorsText == old(errorsText) && operationModeText == old(operationModeText)
      ensures hasData == old(hasData)
    {
      noResponseCount := 0;
      onlineStatus := true;
    }

    method TrackOnlineStatus()
      requires Valid()
      modifies this
      ensures Valid() && Tracker() == Track(old(Tracker()))
      ensures cellCount == old(cellCount) && cellStats == old(cellStats) && status == old(status)
      ensures errorsText == old(errorsText) && operationModeText == old(operationModeText)
      ensures hasData == old(hasData)
    {
      if noResponseCount < MaxNoResponseCount {
        noResponseCount := noResponseCount + 1;
      }
      if noResponseCount == MaxNoResponseCount {
        onlineStatus := false;
        noResponseCount := noResponseCount + 1;
      }
    }

    /**
     * `on_status_data_`: a decodable frame replaces the cells, their statistics, the
     * fixed-section fields and the two texts, exactly as `DecodeStatus` computes them,
     * and leaves the cell slots past the new count as they were. A frame that cannot be
     * decoded changes nothing.
     */
    method OnStatusData(data: seq<byte>)
      requires Valid()
      modifies this, cells
      ensures Valid() && Tracker() == old(Tracker())
      ensures Decodable(data) ==>
        cellCount == CellCount(data) && cells[..cellCount] == CellVoltages(data) &&
        cellStats == ScanCells(CellVoltages(data)) && status == ReadStatus(data) &&
        errorsText == ErrorsText(status.errorsBitmask) &&
        operationModeText == ModesText(status.operationModeBitmask)
      ensures Decodable(data) ==> forall j :: cellCount <= j < cells.Length ==> cells[j] == old(cells[j])
      ensures !Decodable(data) ==>
        cellCount == old(cellCount) && cellStats == old(cellStats) && status == old(status) &&
        errorsText == old(errorsText) && operationModeText == old(operationModeText) &&
        cells[..] == old(cells[..])
    {
      if Decodable(data) {
        ApplyStatus(data);
      }
    }

    /** The decoding half of `on_status_data_`, once the frame is known to be decodable. */
    method ApplyStatus(data: seq<byte>)
      requires Valid() && Decodable(data)
      modifies this, cells
      ensures Valid() && Tracker() == old(Tracker())
      ensures cellCount == CellCount(data) && cells[..cellCount] == CellVoltages(data)
      ensures cellStats == ScanCells(CellVoltages(data)) && status == ReadStatus(data)
      ensures errorsText == ErrorsText(status.errorsBitmask)
      ensures operationModeText == ModesText(status.operationModeBitmask)
      ensures forall j :: cellCount <= j < cells.Length ==> cells[j] == old(cells[j])
    {
      var stats := StoreCells(data);
      StoreFields(CellCount(data), stats, ReadStatus(data));
    }

    /** The scalar half of `on_status_data_`: the count, statistics, fields and texts. */
    method StoreFields(count: nat, stats: CellStats, st: Status)
      requires Valid() && count <= MaxCells
      modifies this
      ensures Valid() && Tracker() == old(Tracker())
      ensures cellCount == count && cellStats == stats && status == st
      ensures errorsText == ErrorsText(st.errorsBitmask)
      ensures operationModeText == ModesText(st.operationModeBitmask)
    {
      var errors := ErrorBitsToString(st.errorsBitmask);
      var modes := ModeBitsToString(st.operationModeBitmask);
      cellCount, cellStats, status, errorsText, operationModeText := count, stats, st, errors, modes;
    }

    /**
     * The cell loop of `on_status_data_`: store each cell's voltage and keep the
     * running minimum, maximum and sum, as `ScanCells` specifies them.
     */
    method StoreCells(data: seq<byte>) returns (stats: CellStats)
      requires Decodable(data) && cells.Length == MaxCells
      modifies cells
      ensures cells[..CellCount(data)] == CellVoltages(data)
      ensures forall j :: CellCount(data) <= j < cells.Length ==> cells[j] == old(cells[j])
      ensures stats == ScanCells(CellVoltages(data))
    {
      ghost var voltages := CellVoltages(data);
      var cells' := CellCount(data);
      var minCellVoltage := 100000;
      var maxCellVoltage := -100000;
      var sum := 0;
      var minVoltageCell := 0;
      var maxVoltageCell := 0;
      var i := 0;
      while i < cells'
        invariant 0 <= i <= cells' <= MaxCells == cells.Length
        invariant CellStats(minCellVoltage, minVoltageCell, maxCellVoltage, maxVoltageCell, sum) ==
          ScanCells(voltages[..i])
        invariant forall j :: 0 <= j < i ==> cells[j] == voltages[j]
        invariant forall j :: i <= j < cells.Length ==> cells[j] == old(cells[j])
      {
        var cellVoltage := Get16(data, i * 3 + 3) as int;
        assert cellVoltage == voltages[i];
        ghost var before := CellStats(minCellVoltage, minVoltageCell, maxCellVoltage, maxVoltageCell, sum);
        ScanCellsPrefix(voltages, i);
        sum := sum + cellVoltage;
        if cellVoltage < minCellVoltage {
          minCellVoltage := cellVoltage;
          minVoltageCell := i + 1;
        }
        if cellVoltage > maxCellVoltage {
          maxCellVoltage := cellVoltage;
          maxVoltageCell := i + 1;
        }
        assert CellStats(minCellVoltage, minVoltageCell, maxCellVoltage, maxVoltageCell, sum) ==
          ScanStep(before, cellVoltage, i + 1) == ScanCells(voltages[..i + 1]);
        cells[i] := cellVoltage;
        i := i + 1;
      }
      assert voltages[..cells'] == voltages;
      assert cells[..cells'] == voltages;
      stats := CellStats(minCellVoltage, minVoltageCell, maxCellVoltage, maxVoltageCell, sum);
    }

    /**
     * `on_jk_modbus_data`: every frame from the battery resets the tracker; only the
     * read-all function (0x06) carries a status frame.
     */
    method OnJkModbusData(functionCode: byte, data: seq<byte>)
      requires Valid()
      modifies this, cells
      ensures Valid() && Tracker() == ResetTracker()
      ensures functionCode == FunctionReadAll && Decodable(data) ==>
        cellCount == CellCount(data) && cells[..cellCount] == CellVoltages(data) &&
        cellStats == ScanCells(CellVoltages(data)) && status == ReadStatus(data) &&
        errorsText == ErrorsText(status.errorsBitmask) &&
        operationModeText == ModesText(status.operationModeBitmask)
      ensures functionCode != FunctionReadAll || !Decodable(data) ==>
        cellCount == old(cellCount) && cellStats == old(cellStats) && status == old(status) &&
        errorsText == old(errorsText) && operationModeText == old(operationModeText) &&
        cells[..] == old(cells[..])
    {
      ResetOnlineStatusTracker();
      if functionCode == FunctionReadAll {
        OnStatusData(data);
      }
    }

    /**
     * `update()`: one poll. It counts a missing answer; the request itself goes out
     * through the JK Modbus layer. With fake traffic enabled the built-in frame is fed
     * back at once, which puts the battery back online with 14 cells.
     */
    method Update()
      requires Valid()
      modifies this, cells
      ensures Valid()
      ensures !enableFakeTraffic ==>
        Tracker() == Track(old(Tracker())) &&
        cellCount == old(cellCount) && cellStats == old(cellStats) && status == old(status) &&
        errorsText == old(errorsText) && operationModeText == old(operationModeText) &&
        cells[..] == old(cells[..])
      ensures enableFakeTraffic ==>
        Tracker() == ResetTracker() && cellCount == 14 &&
        cells[..cellCount] == FakeTrafficCells && cellStats == ScanCells(FakeTrafficCells) &&
        status == ReadStatus(FakeTrafficPayload) &&
        errorsText == ErrorsText(status.errorsBitmask) &&
        operationModeText == ModesText(status.operationModeBitmask)
    {
      TrackOnlineStatus();
      if enableFakeTraffic {
        FakeTrafficCellVoltages();
        OnJkModbusData(FunctionReadAll, FakeTrafficPayload);
      }
    }
  }

  // ---------------------------------------------------------------------------
  // Guards as written
  // ---------------------------------------------------------------------------

  /** `cellNumber <= cell_count_`: the guard of the cell-voltage and sensor queries. */
  predicate GuardAsWritten(n: nat, count: nat) {
    n <= count
  }

  /**
   * The slot the cell-voltage and temperature getters read when their guard is the one
   * written: `n - 1` (the read is `cells_[n - 1]` or `temperature_sensors_[n - 1]`) once
   * `n <= count` holds; none when the getter answers [0, 0] without reading.
   */
  function SlotReadAsWritten(n: nat, count: nat): Option<int> {
    if GuardAsWritten(n, count) then Some(n - 1) else None
  }

  /**
   * `getCellVoltageOrNull` as written: number 0 passes the guard whatever the cell count
   * and reads slot -1, which is outside the stored cells. From 1 on it reads exactly where
   * the corrected getter reads, and answers that cell's reply; it reads nothing exactly
   * when the answer is [0, 0].
   */
  lemma CellGuardAsWritten(v: JkBmsView, n: nat)
    ensures SlotReadAsWritten(0, |v.cellVoltages|) == Some(-1)
    ensures n >= 1 ==> (SlotReadAsWritten(n, |v.cellVoltages|).Some? <==> InRange(n, |v.cellVoltages|))
    ensures n >= 1 && SlotReadAsWritten(n, |v.cellVoltages|).Some? ==>
      0 <= SlotReadAsWritten(n, |v.cellVoltages|).value < |v.cellVoltages| &&
      JkGet(v, CellVoltage(n)) ==
        [0, Wrap8(v.cellVoltages[SlotReadAsWritten(n, |v.cellVoltages|).value] / 100)]
    ensures SlotReadAsWritten(n, |v.cellVoltages|).None? ==> JkGet(v, CellVoltage(n)) == [0, 0]
  {
    if n >= 1 && n <= |v.cellVoltages| {
      assert SlotReadAsWritten(n, |v.cellVoltages|) == Some(n - 1);
      CellVoltageReply(v, n);
    }
  }

  /**
   * `getTemperatureOfSensorOrNull` as written: sensor 0 passes the guard `n <=
   * temperature_sensors_sensor_` and reads slot -1 of `temperature_sensors_`. From 1 on
   * it reads slot n - 1 exactly where the corrected getter answers, and slots 0 and 1
   * hold the two sensors.
   */
  lemma SensorGuardAsWritten(v: JkBmsView, n: nat)
    ensures SlotReadAsWritten(0, v.status.temperatureSensors as nat) == Some(-1)
    ensures n >= 1 ==>
      (SlotReadAsWritten(n, v.status.temperatureSensors as nat).Some? <==>
       InRange(n, v.status.temperatureSensors as nat))
    ensures SlotReadAsWritten(n, v.status.temperatureSensors as nat) == Some(0) ==>
      JkGet(v, TemperatureOfSensor(n)) == BE16(KelvinTenths(v.status.temperatureSensor1))
    ensures SlotReadAsWritten(n, v.status.temperatureSensors as nat) == Some(1) ==>
      JkGet(v, TemperatureOfSensor(n)) == BE16(KelvinTenths(v.status.temperatureSensor2))
    ensures SlotReadAsWritten(n, v.status.temperatureSensors as nat).None? ==>
      JkGet(v, TemperatureOfSensor(n)) == [0, 0]
  {
  }

  /** The corrected guard only ever reads slots 0 .. count - 1. */
  lemma InRangeReadsValidSlot(n: nat, count: nat)
    ensures InRange(n, count) <==> GuardAsWritten(n, count) && n != 0
    ensures InRange(n, count) ==> 0 <= n - 1 < count
  {
  }

  /**
   * The slots the cell loop of `on_status_data_` writes from slot i on, with nothing
   * checking the count against the 24 slots of `cells_`: `cells_[i]`, then the rest of
   * the loop. (`i` is a `uint8_t` but never wraps: the count is at most 255 / 3.)
   */
  function LoopSlotsAsWritten(i: nat, cells: nat): (slots: set<int>)
    decreases cells - i
    ensures forall j :: j in slots <==> i <= j < cells
  {
    if i >= cells then {} else {i} + LoopSlotsAsWritten(i + 1, cells)
  }

  /** Every slot the unchecked loop writes for a frame: i = 0 .. data[1] / 3 - 1. */
  function CellSlotsAsWritten(data: seq<byte>): set<int>
    requires |data| >= 2
  {
    LoopSlotsAsWritten(0, data[1] as int / 3)
  }

  /**
   * The unchecked loop writes past the end of `cells_` exactly when the frame announces
   * more than 24 cells, that is exactly the frames the corrected decoder refuses for their
   * cell count; otherwise it writes the slots `StoreCells` writes.
   */
  lemma CellSlotsAsWrittenOverflowIff(data: seq<byte>)
    requires |data| >= 2
    ensures (exists j :: j in CellSlotsAsWritten(data) && j >= MaxCells) <==> CellCount(data) > MaxCells
    ensures CellCount(data) <= MaxCells ==>
      forall j :: j in CellSlotsAsWritten(data) <==> 0 <= j < CellCount(data)
  {
    if CellCount(data) > MaxCells {
      assert MaxCells in CellSlotsAsWritten(data);
    }
  }

  /** A cell-length byte of 75 makes the loop write `cells_[24]`, one past the array. */
  lemma TwentyFiveCellsOverflow(data: seq<byte>)
    requires |data| >= 2 && data[1] == 75
    ensures MaxCells in CellSlotsAsWritten(data) && MaxCells == 24
    ensures DecodeStatus(data) == Failure(if LongEnough(data) then TooManyCells else TooShort)
  {
  }
}
