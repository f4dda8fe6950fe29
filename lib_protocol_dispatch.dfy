/**
 * The request side of the inverter-facing responder, as values: the two dispatch
 * tables of the `BMSLibProtocolUARTHandler` constructor, the decoding of a cell or
 * sensor number out of a paged address, the reply frames, and the reply (if any)
 * that one complete 8-byte request frame calls for.
 *
 * The request frame is `[slave, command, addr hi, addr lo, len hi, len lo, crc lo,
 * crc hi]`. The 2- and 4-byte replies are vendor-specific frames
 * `[slave, 0x03, 0x00, words, payload.., crc lo, crc hi]` whose length field counts
 * 16-bit words; the invalid-CRC reply has the shape of a MODBUS exception response
 * (MODBUS Application Protocol Specification V1.1b3, section 7): function code
 * 0x03 | 0x80 and exception code 0x03.
 */
module LibProtocolDispatch {
  import opened Wrappers
  import opened Bytes
  import opened ModbusCrc
  import opened LibProtocolAdapter
  import opened MockDataAdapter
  import opened JkBms

  const FrameSize: nat := 8
  const SlaveId: byte := 0x01
  const CommandReadData: byte := 0x03
  const CommandWriteData: byte := 0x10

  // ---------------------------------------------------------------------------
  // The data adapter behind the handler
  // ---------------------------------------------------------------------------

  /** `_dataAdapter`: no adapter yet (`nullptr`), the fixed-value mock, or the JK driver. */
  datatype Adapter = NoAdapter | Mock | Jk(view: JkBmsView)

  /** The gate of every data handler: `_dataAdapter != nullptr && _dataAdapter->hasData()`. */
  predicate Ready(a: Adapter) {
    match a
    case NoAdapter => false
    case Mock => MockHasData
    case Jk(v) => v.hasData
  }

  /** A query sent to the adapter in place. */
  function AdapterGet(a: Adapter, g: Getter): (p: seq<byte>)
    requires !a.NoAdapter?
    ensures |p| == PayloadSize(g)
  {
    match a
    case Mock => MockGet(g)
    case Jk(v) => JkGet(v, g)
  }

  // ---------------------------------------------------------------------------
  // Reply frames
  // ---------------------------------------------------------------------------

  /** The bytes of a frame followed by their CRC, low byte first. */
  function WithCrc(body: seq<byte>): (f: seq<byte>)
    ensures |f| == |body| + 2 && f[..|body|] == body
  {
    var crc := Crc16(body);
    body + [CrcLow(crc), CrcHigh(crc)]
  }

  /** Every frame built by WithCrc passes the rule requests are checked with. */
  lemma WithCrcValid(body: seq<byte>)
    ensures CrcValid(WithCrc(body))
  {
    var crc := Crc16(body);
    var f := body + [CrcLow(crc), CrcHigh(crc)];
    assert f[..|f| - 2] == body && f[|f| - 2] == CrcLow(crc) && f[|f| - 1] == CrcHigh(crc);
    CrcBytesRoundTrip(crc);
  }

  /** `send2BytesPayloadReply`: one 16-bit word of payload. */
  function Reply2(p: seq<byte>): (f: seq<byte>)
    requires |p| == 2
    ensures |f| == 8
  {
    WithCrc([SlaveId, CommandReadData, 0, 1] + p)
  }

  /** `send4BytesPayloadReply`: two 16-bit words of payload. */
  function Reply4(p: seq<byte>): (f: seq<byte>)
    requires |p| == 4
    ensures |f| == 10
  {
    WithCrc([SlaveId, CommandReadData, 0, 2] + p)
  }

  /** `sendInvalidCrcReply`: the exception frame for a request whose CRC does not match. */
  function InvalidCrcReply(): (f: seq<byte>)
    ensures |f| == 5
  {
    WithCrc([SlaveId, CommandReadData + 0x80, 0x03])
  }

  /**
   * How the inverter reads a payload reply: the CRC holds, the frame comes from this
   * slave with the read command, and its length matches the word count.
   */
  function ReplyPayload(f: seq<byte>): Option<seq<byte>> {
    if |f| >= 6 && CrcValid(f) && f[0] == SlaveId && f[1] == CommandReadData &&
       |f| == 6 + 2 * (f[2] as int * 0x100 + f[3] as int)
    then Some(f[4..|f| - 2])
    else None
  }

  /** A read reply built by WithCrc reads back as the bytes after its four-byte header. */
  lemma WithCrcReadsBack(body: seq<byte>)
    requires |body| >= 4 && body[0] == SlaveId && body[1] == CommandReadData
    requires |body| == 4 + 2 * (body[2] as int * 0x100 + body[3] as int)
    ensures ReplyPayload(WithCrc(body)) == Some(body[4..])
  {
    var f := WithCrc(body);
    assert |f| >= 6 && f[0] == SlaveId && f[1] == CommandReadData &&
           |f| == 6 + 2 * (f[2] as int * 0x100 + f[3] as int) && f[4..|f| - 2] == body[4..] by {
      assert f[..|body|] == body;
      assert f[2] == body[2] && f[3] == body[3];
    }
    assert CrcValid(f) by {
      WithCrcValid(body);
    }
    ReplyPayloadOf(f);
  }

  lemma ReplyPayloadOf(f: seq<byte>)
    requires |f| >= 6 && CrcValid(f) && f[0] == SlaveId && f[1] == CommandReadData
    requires |f| == 6 + 2 * (f[2] as int * 0x100 + f[3] as int)
    ensures ReplyPayload(f) == Some(f[4..|f| - 2])
  {
  }

  /** Both payload replies read back as the payload that was sent. */
  lemma PayloadRepliesReadBack(p2: seq<byte>, p4: seq<byte>)
    requires |p2| == 2 && |p4| == 4
    ensures ReplyPayload(Reply2(p2)) == Some(p2)
    ensures ReplyPayload(Reply4(p4)) == Some(p4)
  {
    var b2: seq<byte> := [SlaveId, CommandReadData, 0, 1] + p2;
    var b4: seq<byte> := [SlaveId, CommandReadData, 0, 2] + p4;
    WithCrcReadsBack(b2);
    WithCrcReadsBack(b4);
    assert b2[4..] == p2 && b4[4..] == p4;
  }

  /**
   * The invalid-CRC reply is the exception frame `[0x01, 0x83, 0x03, 0x01, 0x31]`:
   * the CRC of its first three bytes is 0x3101, sent low byte first.
   */
  lemma InvalidCrcReplyBytes()
    ensures InvalidCrcReply() == [0x01, 0x83, 0x03, 0x01, 0x31]
    ensures CrcValid(InvalidCrcReply())
  {
    var s: seq<byte> := [0x01, 0x83, 0x03];
    assert s[..0] == [] && s[..1][..0] == [];
    assert Crc16([]) == 0xFFFF;
    assert UpdateByte(0xFFFF, 0x01) == 0x807E;
    assert UpdateByte(0x807E, 0x83) == 0x8141;
    assert UpdateByte(0x8141, 0x03) == 0x3101;
    assert Crc16(s[..1]) == 0x807E;
    assert s[..2][..1] == s[..1];
    assert Crc16(s[..2]) == 0x8141;
    assert s[..3][..2] == s[..2] && s[..3] == s;
    assert Crc16(s) == 0x3101;
    WithCrcValid(s);
  }

  // ---------------------------------------------------------------------------
  // The dispatch tables
  // ---------------------------------------------------------------------------

  /** The handlers that take no argument: the two protocol constants and the plain queries. */
  datatype NoParamHandler = ProtocolType | ProtocolVersion | Query(g: Getter)

  /** `_mapDataAddressToReplyToRequestNoParamFunc`, as the constructor fills it. */
  const NoParamTable: map<uint16, NoParamHandler> := map[
    0x0001 := ProtocolType,
    0x0002 := ProtocolVersion,
    0x0003 := Query(FirmwareVersion),
    0x0005 := Query(HardwareVersion),
    0x0010 := Query(NumberOfCells),
    0x0025 := Query(NumberOfTemperatureSensors),
    0x0030 := Query(ModuleChargeCurrent),
    0x0031 := Query(ModuleDischargeCurrent),
    0x0032 := Query(ModuleVoltage),
    0x0033 := Query(StateOfCharge),
    0x0034 := Query(ModuleTotalCapacity),
    0x0040 := Query(NumberOfCellsForWarningInfo),
    0x0050 := Query(NumberOfTemperatureSensorsForWarningInfo),
    0x0060 := Query(ModuleChargeVoltageState),
    0x0061 := Query(ModuleDischargeVoltageState),
    0x0062 := Query(CellChargeVoltageState),
    0x0063 := Query(CellDischargeVoltageState),
    0x0064 := Query(ModuleChargeCurrentState),
    0x0065 := Query(ModuleDischargeCurrentState),
    0x0066 := Query(ModuleChargeTemperatureState),
    0x0067 := Query(ModuleDischargeTemperatureState),
    0x0068 := Query(CellChargeTemperatureState),
    0x0069 := Query(CellDischargeTemperatureState),
    0x0070 := Query(ChargeVoltageLimit),
    0x0071 := Query(DischargeVoltageLimit),
    0x0072 := Query(ChargeCurrentLimit),
    0x0073 := Query(DischargeCurrentLimit),
    0x0074 := Query(ChargeDischargeStatus),
    0x0075 := Query(RuntimeToEmptySeconds)
  ]

  /** The handlers that decode a cell or sensor number out of the address. */
  datatype RangedHandler =
    | CellVoltageRequest
    | TemperatureRequest
    | CellPairVoltageStateRequest
    | TemperatureSensorPairStateRequest

  /** Page (high byte) 0x00..0x0F and low byte in lowFirst..lowLast. */
  predicate InPages(a: uint16, lowFirst: nat, lowLast: nat) {
    a / 0x100 <= 0x0F && lowFirst <= a % 0x100 <= lowLast
  }

  /** `_mapDataAddressToReplyToRequestDataAddressFunc`: the four paged ranges. */
  function RangedFor(a: uint16): Option<RangedHandler> {
    if InPages(a, 0x11, 0x24) then Some(CellVoltageRequest)
    else if InPages(a, 0x26, 0x2F) then Some(TemperatureRequest)
    else if InPages(a, 0x41, 0x4A) then Some(CellPairVoltageStateRequest)
    else if InPages(a, 0x51, 0x55) then Some(TemperatureSensorPairStateRequest)
    else None
  }

  /** A map holds exactly the ranged table. */
  ghost predicate IsRangedTable(t: map<uint16, RangedHandler>) {
    forall a: uint16 :: (a in t <==> RangedFor(a).Some?) && (a in t ==> t[a] == RangedFor(a).value)
  }

  /**
   * One of the constructor's double loops: for every page i in 0x00..0x0F and every
   * low byte j in lowFirst..lowLast, `table[(i << 8) | j] = h`.
   */
  method AddRanged(table: map<uint16, RangedHandler>, lowFirst: nat, lowLast: nat, h: RangedHandler)
    returns (t: map<uint16, RangedHandler>)
    requires lowFirst <= lowLast <= 0xFF
    ensures forall a: uint16 :: a in t <==> a in table || InPages(a, lowFirst, lowLast)
    ensures forall a: uint16 :: a in t ==> t[a] == if InPages(a, lowFirst, lowLast) then h else table[a]
  {
    t := table;
    var i := 0;
    while i <= 0x0F
      invariant 0 <= i <= 0x10
      invariant forall a: uint16 ::
        a in t <==> a in table || (InPages(a, lowFirst, lowLast) && a / 0x100 < i)
      invariant forall a: uint16 :: a in t ==>
        t[a] == if InPages(a, lowFirst, lowLast) && a / 0x100 < i then h else table[a]
    {
      var j := lowFirst;
      while j <= lowLast
        invariant lowFirst <= j <= lowLast + 1
        invariant forall a: uint16 :: a in t <==> (a in table ||
          (InPages(a, lowFirst, lowLast) && (a / 0x100 < i || (a / 0x100 == i && a % 0x100 < j))))
        invariant forall a: uint16 :: a in t ==>
          t[a] == if InPages(a, lowFirst, lowLast) && (a / 0x100 < i || (a / 0x100 == i && a % 0x100 < j))
            then h else table[a]
      {
        // (i << 8) | j, with j below 0x100
        var addr: uint16 := i * 0x100 + j;
        t := t[addr := h];
        j := j + 1;
      }
      i := i + 1;
    }
  }

  /** The four double loops of the constructor build exactly the ranged table. */
  method BuildRangedTable() returns (t: map<uint16, RangedHandler>)
    ensures IsRangedTable(t)
  {
    t := AddRanged(map[], 0x11, 0x24, CellVoltageRequest);
    t := AddRanged(t, 0x26, 0x2F, TemperatureRequest);
    t := AddRanged(t, 0x41, 0x4A, CellPairVoltageStateRequest);
    t := AddRanged(t, 0x51, 0x55, TemperatureSensorPairStateRequest);
  }

  /** No address is in both tables, so the order in which they are consulted is immaterial. */
  lemma TablesDisjoint(a: uint16)
    ensures a in NoParamTable ==> RangedFor(a) == None
  {
  }

  /** The hardware version sits at 0x0005; 0x0004 is in neither table. */
  lemma HardwareVersionAddress()
    ensures 0x0005 in NoParamTable && NoParamTable[0x0005] == Query(HardwareVersion)
    ensures 0x0004 !in NoParamTable && RangedFor(0x0004) == None
  {
  }

  // ---------------------------------------------------------------------------
  // Decoding the number out of a paged address
  // ---------------------------------------------------------------------------

  /** `(dataAddress >> 8) & 0x00FF`. */
  function Page(a: uint16): nat { a / 0x100 }

  /** `(dataAddress & 0x00FF)`. */
  function Low(a: uint16): nat { a % 0x100 }

  /** Masking the shifted address with 0x00FF changes nothing: a 16-bit address has one page byte. */
  lemma PageIsMasked(a: uint16)
    ensures (a / 0x100) % 0x100 == Page(a) && Page(a) < 0x100
  {
  }

  /** `replyForCellVoltageRequest`: 20 cells per page, low bytes 0x11.. for cells 1... */
  function CellNumber(a: uint16): uint16 {
    Wrap16(Page(a) * 20 + Wrap16(Low(a) - 0x10))
  }

  /** `replyForTemperatureRequest`: 10 sensors per page, low bytes 0x26.. for sensors 1... */
  function SensorNumber(a: uint16): uint16 {
    Wrap16(Page(a) * 10 + Wrap16(Low(a) - 0x25))
  }

  /** `replyForCellPairVoltageStateRequest`: the odd cell of the pair. */
  function OddCellNumber(a: uint16): uint16 {
    Wrap16(Page(a) * 20 + Wrap16((Low(a) - 0x40) * 2 - 1))
  }

  /** `replyForTemperatureSensorPairStateRequest`: the odd sensor of the pair. */
  function OddSensorNumber(a: uint16): uint16 {
    Wrap16(Page(a) * 10 + Wrap16((Low(a) - 0x50) * 2 - 1))
  }

  /** On the cell range, no 16-bit wrap-around happens: cells page*20+1 .. page*20+20. */
  lemma CellNumberInRange(a: uint16)
    requires InPages(a, 0x11, 0x24)
    ensures CellNumber(a) == Page(a) * 20 + (Low(a) - 0x10)
    ensures Page(a) * 20 + 1 <= CellNumber(a) <= Page(a) * 20 + 20
  {
    var p, k := Page(a), Low(a) - 0x10;
    assert p <= 0x0F && 1 <= k <= 20;
    assert Wrap16(k) == k;
    assert Wrap16(p * 20 + k) == p * 20 + k;
  }

  /** On the temperature range: sensors page*10+1 .. page*10+10. */
  lemma SensorNumberInRange(a: uint16)
    requires InPages(a, 0x26, 0x2F)
    ensures SensorNumber(a) == Page(a) * 10 + (Low(a) - 0x25)
    ensures Page(a) * 10 + 1 <= SensorNumber(a) <= Page(a) * 10 + 10
  {
    var p, k := Page(a), Low(a) - 0x25;
    assert p <= 0x0F && 1 <= k <= 10;
    assert Wrap16(k) == k;
    assert Wrap16(p * 10 + k) == p * 10 + k;
  }

  /** On the cell-pair range the number is odd: page*20 + 2*(low - 0x40) - 1. */
  lemma OddCellNumberIsOdd(a: uint16)
    requires InPages(a, 0x41, 0x4A)
    ensures OddCellNumber(a) == Page(a) * 20 + 2 * (Low(a) - 0x40) - 1
    ensures OddCellNumber(a) % 2 == 1
    ensures Page(a) * 20 + 1 <= OddCellNumber(a) <= Page(a) * 20 + 19
  {
    var p, j := Page(a), Low(a) - 0x40;
    assert p <= 0x0F && 1 <= j <= 10;
    var k := (Low(a) - 0x40) * 2 - 1;
    assert k == 2 * j - 1 && 1 <= k <= 19;
    assert Wrap16(k) == k;
    assert Wrap16(p * 20 + k) == p * 20 + k;
    assert p * 20 + k == 2 * (p * 10 + j - 1) + 1;
  }

  /** On the sensor-pair range the number is odd: page*10 + 2*(low - 0x50) - 1. */
  lemma OddSensorNumberIsOdd(a: uint16)
    requires InPages(a, 0x51, 0x55)
    ensures OddSensorNumber(a) == Page(a) * 10 + 2 * (Low(a) - 0x50) - 1
    ensures OddSensorNumber(a) % 2 == 1
    ensures Page(a) * 10 + 1 <= OddSensorNumber(a) <= Page(a) * 10 + 9
  {
    var p, j := Page(a), Low(a) - 0x50;
    assert p <= 0x0F && 1 <= j <= 5;
    var k := (Low(a) - 0x50) * 2 - 1;
    assert k == 2 * j - 1 && 1 <= k <= 9;
    assert Wrap16(k) == k;
    assert Wrap16(p * 10 + k) == p * 10 + k;
    assert p * 10 + k == 2 * (p * 5 + j - 1) + 1;
  }

  /** Different addresses of the cell range ask for different cells. */
  lemma CellNumberInjective(a: uint16, b: uint16)
    requires InPages(a, 0x11, 0x24) && InPages(b, 0x11, 0x24)
    ensures CellNumber(a) == CellNumber(b) ==> a == b
  {
    CellNumberInRange(a);
    CellNumberInRange(b);
    if CellNumber(a) == CellNumber(b) {
      assert Page(a) == Page(b) && Low(a) == Low(b);
      assert a == Page(a) * 0x100 + Low(a) && b == Page(b) * 0x100 + Low(b);
    }
  }

  /** The query a ranged handler makes for its address. */
  function RangedGetter(h: RangedHandler, a: uint16): Getter {
    match h
    case CellVoltageRequest => CellVoltage(CellNumber(a))
    case TemperatureRequest => TemperatureOfSensor(SensorNumber(a))
    case CellPairVoltageStateRequest => CellPairVoltageState(OddCellNumber(a))
    case TemperatureSensorPairStateRequest => TemperatureSensorPairState(OddSensorNumber(a))
  }

  // ---------------------------------------------------------------------------
  // The reply a request calls for
  // ---------------------------------------------------------------------------

  /** A gated handler: no reply unless the adapter is ready; then its payload, 2 or 4 bytes. */
  function QueryReply(a: Adapter, g: Getter): Option<seq<byte>> {
    if Ready(a) then
      var p := AdapterGet(a, g);
      Some(if PayloadSize(g) == 4 then Reply4(p) else Reply2(p))
    else None
  }

  /** `processReadDataFrame`: the no-argument table first, then the ranged table. */
  function ReadReply(address: uint16, a: Adapter): Option<seq<byte>> {
    if address in NoParamTable then
      match NoParamTable[address]
      case ProtocolType => Some(Reply2([0x00, 0x00]))
      case ProtocolVersion => Some(Reply2([0x00, 0x00]))
      case Query(g) => QueryReply(a, g)
    else
      match RangedFor(address)
      case Some(h) => QueryReply(a, RangedGetter(h, address))
      case None => None
  }

  /** `processWriteDataFrame`: checks the length and the CRC again, then does nothing. */
  function WriteReply(frame: seq<byte>): Option<seq<byte>> {
    if |frame| < 8 then None
    else if !CrcValid(frame) then Some(InvalidCrcReply())
    else None
  }

  /** `(pData[2] << 8) | pData[3]`. */
  function Address(frame: seq<byte>): uint16
    requires |frame| >= 4
  {
    frame[2] as int * 0x100 + frame[3] as int
  }

  /** `checkAndProcessLatest8BytesFrame`: the reply, if any, one full request frame calls for. */
  function FrameReply(frame: seq<byte>, a: Adapter): Option<seq<byte>>
    requires |frame| == FrameSize
  {
    if !CrcValid(frame) then Some(InvalidCrcReply())
    else if frame[1] == CommandReadData then ReadReply(Address(frame), a)
    else if frame[1] == CommandWriteData then WriteReply(frame)
    else None
  }

  /** A frame whose CRC does not match gets the invalid-CRC reply and nothing else. */
  lemma BadCrcGetsOnlyInvalidCrcReply(frame: seq<byte>, a: Adapter)
    requires |frame| == FrameSize && !CrcValid(frame)
    ensures FrameReply(frame, a) == Some(InvalidCrcReply())
  {
  }

  /** Write requests with a good CRC, unknown commands and unknown addresses get no reply. */
  lemma Silences(frame: seq<byte>, a: Adapter)
    requires |frame| == FrameSize && CrcValid(frame)
    ensures frame[1] == CommandWriteData ==> FrameReply(frame, a) == None
    ensures frame[1] != CommandReadData && frame[1] != CommandWriteData ==> FrameReply(frame, a) == None
    ensures frame[1] == CommandReadData && Address(frame) !in NoParamTable && RangedFor(Address(frame)) == None ==>
      FrameReply(frame, a) == None
  {
  }

  /** Every reply built by WithCrc passes the CRC rule and starts with the first byte of its body. */
  lemma WithCrcFrame(body: seq<byte>)
    requires |body| >= 1
    ensures CrcValid(WithCrc(body)) && WithCrc(body)[0] == body[0]
  {
    var f := WithCrc(body);
    assert f[0] == body[0] by {
      assert f[..|body|] == body;
    }
    assert CrcValid(f) by {
      WithCrcValid(body);
    }
  }

  lemma Reply2Frame(p: seq<byte>)
    requires |p| == 2
    ensures CrcValid(Reply2(p)) && Reply2(p)[0] == SlaveId
  {
    WithCrcFrame([SlaveId, CommandReadData, 0, 1] + p);
  }

  lemma Reply4Frame(p: seq<byte>)
    requires |p| == 4
    ensures CrcValid(Reply4(p)) && Reply4(p)[0] == SlaveId
  {
    WithCrcFrame([SlaveId, CommandReadData, 0, 2] + p);
  }

  lemma QueryReplyFrame(a: Adapter, g: Getter)
    requires QueryReply(a, g).Some?
    ensures CrcValid(QueryReply(a, g).value) && QueryReply(a, g).value[0] == SlaveId
  {
    if PayloadSize(g) == 4 {
      Reply4Frame(AdapterGet(a, g));
    } else {
      Reply2Frame(AdapterGet(a, g));
    }
  }

  lemma ReadReplyFrame(address: uint16, a: Adapter)
    requires ReadReply(address, a).Some?
    ensures CrcValid(ReadReply(address, a).value) && ReadReply(address, a).value[0] == SlaveId
  {
    var r := ReadReply(address, a).value;
    if address in NoParamTable {
      var h := NoParamTable[address];
      if h.Query? {
        assert r == QueryReply(a, h.g).value;
        QueryReplyFrame(a, h.g);
      } else {
        assert r == Reply2([0x00, 0x00]);
        Reply2Frame([0x00, 0x00]);
      }
    } else {
      var h := RangedFor(address).value;
      assert r == QueryReply(a, RangedGetter(h, address)).value;
      QueryReplyFrame(a, RangedGetter(h, address));
    }
  }

  /** Every reply the handler attempts passes the CRC rule used on input and comes from this slave. */
  lemma RepliesAreValidFrames(frame: seq<byte>, a: Adapter)
    requires |frame| == FrameSize && FrameReply(frame, a).Some?
    ensures CrcValid(FrameReply(frame, a).value)
    ensures FrameReply(frame, a).value[0] == SlaveId
  {
    if !CrcValid(frame) {
      InvalidCrcReplyBytes();
    } else if frame[1] == CommandReadData {
      ReadReplyFrame(Address(frame), a);
    }
  }

  /**
   * Without a ready adapter only the protocol type and version (`[0, 0]`) and the
   * invalid-CRC reply remain. In particular the JK driver, whose `has_data_` stays
   * false, leaves every data handler silent.
   */
  lemma NotReadyRepliesOnlyConstants(frame: seq<byte>, a: Adapter)
    requires |frame| == FrameSize && !Ready(a) && FrameReply(frame, a).Some?
    ensures FrameReply(frame, a) == Some(InvalidCrcReply()) || FrameReply(frame, a) == Some(Reply2([0, 0]))
  {
  }

  /**
   * The JK driver as the adapter: a valid driver never reports data, so only the
   * invalid-CRC reply and the [0, 0] of protocol type and version ever go out.
   */
  lemma JkDriverRepliesOnlyConstants(frame: seq<byte>, d: JkBms)
    requires |frame| == FrameSize && d.Valid() && FrameReply(frame, Jk(d.View())).Some?
    ensures FrameReply(frame, Jk(d.View())) == Some(InvalidCrcReply()) ||
      FrameReply(frame, Jk(d.View())) == Some(Reply2([0, 0]))
  {
    assert !Ready(Jk(d.View()));
    NotReadyRepliesOnlyConstants(frame, Jk(d.View()));
  }

  /** With the mock every mapped address is answered, with a payload of the promised size. */
  lemma MockAnswersMappedAddresses(address: uint16)
    requires address in NoParamTable || RangedFor(address).Some?
    ensures ReadReply(address, Mock).Some?
  {
  }

  /** The cell-voltage reply of the mock, read back as the inverter does. */
  lemma MockCellVoltageReply(address: uint16)
    requires InPages(address, 0x11, 0x24)
    ensures ReadReply(address, Mock) == Some(Reply2([0, 33]))
    ensures ReplyPayload(ReadReply(address, Mock).value) == Some([0, 33])
  {
    var g := CellVoltage(CellNumber(address));
    CellRangeAsksForCellVoltage(address, Mock);
    assert AdapterGet(Mock, g) == [0, 33];
    WithCrcReadsBack([SlaveId, CommandReadData, 0, 1] + [0, 33]);
  }

  /** An address of the cell range is answered with the voltage of the cell its number names. */
  lemma CellRangeAsksForCellVoltage(address: uint16, a: Adapter)
    requires InPages(address, 0x11, 0x24)
    ensures ReadReply(address, a) == QueryReply(a, CellVoltage(CellNumber(address)))
  {
    assert RangedFor(address) == Some(CellVoltageRequest);
    assert address !in NoParamTable by {
      TablesDisjoint(address);
    }
  }
}
