/**
 * `BMSLibProtocolUARTHandler`: the object that owns the 8-byte receive buffer, reads
 * the UART into it, and answers each complete request frame. The UART is modelled by
 * two fields: `input`, the bytes received and not read yet (`available()` is
 * `input != []`, `read()` takes its first byte), and `output`, the log of every frame
 * handed to `write_array`.
 */
module LibProtocolUartHandler {
  import opened Wrappers
  import opened Bytes
  import opened ModbusCrc
  import opened LibProtocolAdapter
  import opened LibProtocolFraming
  import opened LibProtocolDispatch

  /** What a send attempt adds to the output log: the frame, unless input is pending. */
  function Sent(reply: Option<seq<byte>>, pending: seq<byte>): seq<seq<byte>> {
    if reply.Some? && pending == [] then [reply.value] else []
  }

  /** A buffer filled with a body and then its CRC, low byte first, is that body's WithCrc frame. */
  lemma FilledWithCrc(f: seq<byte>, body: seq<byte>, crc: bv16)
    requires |f| == |body| + 2 && f[..|body|] == body && crc == Crc16(body)
    requires f[|body|] == CrcLow(crc) && f[|body| + 1] == CrcHigh(crc)
    ensures f == WithCrc(body)
  {
    assert f == f[..|body|] + [f[|body|], f[|body| + 1]];
  }

  class BmsLibProtocolUartHandler {
    /** `_rxBuffer`; the receive window is its first `rxBufferIndex` bytes. */
    const rxBuffer: array<byte>
    var rxBufferIndex: nat
    var dataAdapter: Adapter
    var input: seq<byte>
    var output: seq<seq<byte>>
    /** `_mapDataAddressToReplyToRequestNoParamFunc`. */
    const noParamTable: map<uint16, NoParamHandler>
    /** `_mapDataAddressToReplyToRequestDataAddressFunc`. */
    const rangedTable: map<uint16, RangedHandler>

    /** The receive buffer holds one frame and the window fits in it. */
    ghost predicate Valid()
      reads this
    {
      rxBuffer.Length == FrameSize && rxBufferIndex <= FrameSize
    }

    /** The dispatch tables are the ones the constructor fills. */
    ghost predicate TablesFilled() {
      noParamTable == NoParamTable && IsRangedTable(rangedTable)
    }

    /** The constructor fills both dispatch tables; no adapter is set yet. */
    constructor()
      ensures Valid() && TablesFilled() && fresh(rxBuffer)
      ensures rxBufferIndex == 0 && dataAdapter == NoAdapter && input == [] && output == []
    {
      rxBuffer := new byte[FrameSize];
      rxBufferIndex := 0;
      dataAdapter := NoAdapter;
      input := [];
      output := [];
      noParamTable := NoParamTable;
      var t := BuildRangedTable();
      rangedTable := t;
    }

    /** `setDataAdapter`. */
    method SetDataAdapter(a: Adapter)
      modifies this`dataAdapter
      ensures dataAdapter == a
    {
      dataAdapter := a;
    }

    /** Bytes arriving on the UART join the pending input. */
    method Receive(bytes: seq<byte>)
      modifies this`input
      ensures input == old(input) + bytes
    {
      input := input + bytes;
    }

    // -------------------------------------------------------------------------
    // Reading frames
    // -------------------------------------------------------------------------

    /** `memmove(_rxBuffer, _rxBuffer + i, 8 - i)`: the bytes from position i on move to the front. */
    method MoveToFront(i: nat)
      requires Valid() && 1 <= i < FrameSize
      modifies rxBuffer
      ensures rxBuffer[..FrameSize - i] == old(rxBuffer[i..])
      ensures rxBuffer[FrameSize - i..] == old(rxBuffer[FrameSize - i..])
    {
      var k := 0;
      while k < FrameSize - i
        invariant 0 <= k <= FrameSize - i
        invariant forall j :: 0 <= j < k ==> rxBuffer[j] == old(rxBuffer[j + i])
        invariant forall j :: k <= j < FrameSize ==> rxBuffer[j] == old(rxBuffer[j])
      {
        rxBuffer[k] := rxBuffer[k + i];
        k := k + 1;
      }
    }

    /** `_rxBuffer[_rxBufferIndex++] = byteRead`. */
    method Append(b: byte)
      requires Valid() && rxBufferIndex < FrameSize
      modifies this`rxBufferIndex, rxBuffer
      ensures Valid() && rxBuffer[..rxBufferIndex] == old(rxBuffer[..rxBufferIndex]) + [b]
    {
      rxBuffer[rxBufferIndex] := b;
      rxBufferIndex := rxBufferIndex + 1;
    }

    /** The search for the next slave id after the first byte of a full window. */
    method FindSlaveId(slaveId: byte) returns (i: nat)
      requires Valid()
      ensures i == FirstSlaveFrom(rxBuffer[..], 1, slaveId)
    {
      i := 1;
      while i < FrameSize && rxBuffer[i] != slaveId
        invariant 1 <= i <= FrameSize
        invariant FirstSlaveFrom(rxBuffer[..], i, slaveId) == FirstSlaveFrom(rxBuffer[..], 1, slaveId)
      {
        i := i + 1;
      }
    }

    /** The full window slides to the next slave id it holds after its first byte, or empties. */
    method SlideWindow(slaveId: byte)
      requires Valid() && rxBufferIndex == FrameSize
      modifies this`rxBufferIndex, rxBuffer
      ensures Valid()
      ensures rxBuffer[..rxBufferIndex] == Slide(old(rxBuffer[..rxBufferIndex]), slaveId)
    {
      assert rxBuffer[..rxBufferIndex] == rxBuffer[..];
      var i := FindSlaveId(slaveId);
      if i < FrameSize {
        MoveToFront(i);
        rxBufferIndex := FrameSize - i;
      } else {
        rxBufferIndex := 0;
      }
    }

    /**
     * `readLatestIncoming8BytesFrame`: reads the pending input into the window as
     * Synchronise describes, and reports whether the window holds a whole frame.
     */
    /** `byteRead = read()`, after which a full window slides before taking the byte. */
    method ReadByte(slaveId: byte) returns (byteRead: byte)
      requires Valid() && input != []
      modifies this`rxBufferIndex, this`input, rxBuffer
      ensures Valid()
      ensures byteRead == old(input[0]) && input == old(input[1..])
      ensures rxBuffer[..rxBufferIndex] == Slid(old(rxBuffer[..rxBufferIndex]), slaveId)
    {
      byteRead := input[0];
      input := input[1..];
      if rxBufferIndex >= FrameSize {
        SlideWindow(slaveId);
      }
    }

    method ReadLatestIncoming8BytesFrame(slaveId: byte) returns (ready: bool)
      requires Valid()
      modifies this`rxBufferIndex, this`input, rxBuffer
      ensures Valid()
      ensures (rxBuffer[..rxBufferIndex], input) == Synchronise(old(rxBuffer[..rxBufferIndex]), old(input), 0, slaveId)
      ensures ready <==> rxBufferIndex == FrameSize
    {
      ghost var goal := Synchronise(rxBuffer[..rxBufferIndex], input, 0, slaveId);
      var iterationCount: nat := 0;
      while input != []
        invariant Valid()
        invariant Synchronise(rxBuffer[..rxBufferIndex], input, iterationCount, slaveId) == goal
        decreases |input|
      {
        ghost var w := rxBuffer[..rxBufferIndex];
        ghost var pending := input;
        var byteRead := ReadByte(slaveId);
        iterationCount := iterationCount + 1;
        if rxBufferIndex == 0 && byteRead != slaveId {
          SynchroniseDrops(w, pending, iterationCount - 1, slaveId);
          if iterationCount > IterationLimit {
            break;
          } else {
            continue;
          }
        }
        SynchroniseKeeps(w, pending, iterationCount - 1, slaveId);
        Append(byteRead);
      }
      ready := rxBufferIndex == FrameSize;
    }

    // -------------------------------------------------------------------------
    // Sending replies
    // -------------------------------------------------------------------------

    /** `if (!available()) write_array(reply, n)`: the reply goes out only when no input is pending. */
    method WriteIfIdle(reply: array<byte>)
      modifies this`output
      ensures output == old(output) + Sent(Some(reply[..]), input)
    {
      if input == [] {
        output := output + [reply[..]];
      }
    }

    /** `sendInvalidCrcReply`. */
    method SendInvalidCrcReply()
      modifies this`output
      ensures output == old(output) + Sent(Some(InvalidCrcReply()), input)
    {
      var reply := new byte[5];
      reply[0] := SlaveId;
      reply[1] := CommandReadData + 0x80;
      reply[2] := 0x03;
      ghost var body := reply[..3];
      assert body == [SlaveId, CommandReadData + 0x80, 0x03];
      var crc := CalculateModbusCrc16(reply, 3);
      reply[3] := CrcLow(crc);
      reply[4] := CrcHigh(crc);
      FilledWithCrc(reply[..], body, crc);
      WriteIfIdle(reply);
    }

    /** `send2BytesPayloadReply`. */
    method Send2BytesPayloadReply(twoBytes: seq<byte>)
      requires |twoBytes| == 2
      modifies this`output
      ensures output == old(output) + Sent(Some(Reply2(twoBytes)), input)
    {
      var reply := new byte[8];
      reply[0] := SlaveId;
      reply[1] := CommandReadData;
      reply[2] := 0;
      reply[3] := 1;
      reply[4] := twoBytes[0];
      reply[5] := twoBytes[1];
      ghost var body := reply[..6];
      assert body == [SlaveId, CommandReadData, 0, 1] + twoBytes;
      var crc := CalculateModbusCrc16(reply, 6);
      reply[6] := CrcLow(crc);
      reply[7] := CrcHigh(crc);
      FilledWithCrc(reply[..], body, crc);
      WriteIfIdle(reply);
    }

    /** `send4BytesPayloadReply`. */
    method Send4BytesPayloadReply(fourBytes: seq<byte>)
      requires |fourBytes| == 4
      modifies this`output
      ensures output == old(output) + Sent(Some(Reply4(fourBytes)), input)
    {
      var reply := new byte[10];
      reply[0] := SlaveId;
      reply[1] := CommandReadData;
      reply[2] := 0;
      reply[3] := 2;
      reply[4] := fourBytes[0];
      reply[5] := fourBytes[1];
      reply[6] := fourBytes[2];
      reply[7] := fourBytes[3];
      ghost var body := reply[..8];
      assert body == [SlaveId, CommandReadData, 0, 2] + fourBytes;
      var crc := CalculateModbusCrc16(reply, 8);
      reply[8] := CrcLow(crc);
      reply[9] := CrcHigh(crc);
      FilledWithCrc(reply[..], body, crc);
      WriteIfIdle(reply);
    }

    // -------------------------------------------------------------------------
    // The handlers
    // -------------------------------------------------------------------------

    /** `replyForProtocolType`: always `[0x00, 0x00]`, with or without an adapter. */
    method ReplyForProtocolType()
      modifies this`output
      ensures output == old(output) + Sent(Some(Reply2([0x00, 0x00])), input)
    {
      Send2BytesPayloadReply([0x00, 0x00]);
    }

    /** `replyForProtocolVersion`: always `[0x00, 0x00]`, with or without an adapter. */
    method ReplyForProtocolVersion()
      modifies this`output
      ensures output == old(output) + Sent(Some(Reply2([0x00, 0x00])), input)
    {
      Send2BytesPayloadReply([0x00, 0x00]);
    }

    /** The gated handlers without argument (`replyForBMSFirmwareVersion` and the rest). */
    method ReplyForQuery(g: Getter)
      modifies this`output
      ensures output == old(output) + Sent(QueryReply(dataAdapter, g), input)
    {
      if !dataAdapter.NoAdapter? && Ready(dataAdapter) {
        var result := AdapterGet(dataAdapter, g);
        if PayloadSize(g) == 4 {
          Send4BytesPayloadReply(result);
        } else {
          Send2BytesPayloadReply(result);
        }
      }
    }

    /** `replyForCellVoltageRequest`. */
    method ReplyForCellVoltageRequest(dataAddress: uint16)
      modifies this`output
      ensures output == old(output) + Sent(QueryReply(dataAdapter, CellVoltage(CellNumber(dataAddress))), input)
    {
      if !dataAdapter.NoAdapter? && Ready(dataAdapter) {
        var cellLowOrder: uint16 := Wrap16(dataAddress % 0x100 - 0x10);
        var cellHighOrder: uint16 := (dataAddress / 0x100) % 0x100;
        var cellNumber: uint16 := Wrap16(cellHighOrder * 20 + cellLowOrder);
        assert cellNumber == CellNumber(dataAddress) by { PageIsMasked(dataAddress); }
        var result := AdapterGet(dataAdapter, CellVoltage(cellNumber));
        Send2BytesPayloadReply(result);
      }
    }

    /** `replyForTemperatureRequest`. */
    method ReplyForTemperatureRequest(dataAddress: uint16)
      modifies this`output
      ensures output == old(output) + Sent(QueryReply(dataAdapter, TemperatureOfSensor(SensorNumber(dataAddress))), input)
    {
      if !dataAdapter.NoAdapter? && Ready(dataAdapter) {
        var tempSensorLowOrder: uint16 := Wrap16(dataAddress % 0x100 - 0x25);
        var tempSensorHighOrder: uint16 := (dataAddress / 0x100) % 0x100;
        var sensorNumber: uint16 := Wrap16(tempSensorHighOrder * 10 + tempSensorLowOrder);
        assert sensorNumber == SensorNumber(dataAddress) by { PageIsMasked(dataAddress); }
        var result := AdapterGet(dataAdapter, TemperatureOfSensor(sensorNumber));
        Send2BytesPayloadReply(result);
      }
    }

    /** `replyForCellPairVoltageStateRequest`. */
    method ReplyForCellPairVoltageStateRequest(dataAddress: uint16)
      modifies this`output
      ensures output == old(output) + Sent(QueryReply(dataAdapter, CellPairVoltageState(OddCellNumber(dataAddress))), input)
    {
      if !dataAdapter.NoAdapter? && Ready(dataAdapter) {
        var lowOrder: uint16 := Wrap16((dataAddress % 0x100 - 0x40) * 2 - 1);
        var highOrder: uint16 := (dataAddress / 0x100) % 0x100;
        var oddCellNumber: uint16 := Wrap16(highOrder * 20 + lowOrder);
        assert oddCellNumber == OddCellNumber(dataAddress) by { PageIsMasked(dataAddress); }
        var result := AdapterGet(dataAdapter, CellPairVoltageState(oddCellNumber));
        Send2BytesPayloadReply(result);
      }
    }

    /** `replyForTemperatureSensorPairStateRequest`. */
    method ReplyForTemperatureSensorPairStateRequest(dataAddress: uint16)
      modifies this`output
      ensures output == old(output) +
        Sent(QueryReply(dataAdapter, TemperatureSensorPairState(OddSensorNumber(dataAddress))), input)
    {
      if !dataAdapter.NoAdapter? && Ready(dataAdapter) {
        var lowOrder: uint16 := Wrap16((dataAddress % 0x100 - 0x50) * 2 - 1);
        var highOrder: uint16 := (dataAddress / 0x100) % 0x100;
        var oddSensorNumber: uint16 := Wrap16(highOrder * 10 + lowOrder);
        assert oddSensorNumber == OddSensorNumber(dataAddress) by { PageIsMasked(dataAddress); }
        var result := AdapterGet(dataAdapter, TemperatureSensorPairState(oddSensorNumber));
        Send2BytesPayloadReply(result);
      }
    }

    // -------------------------------------------------------------------------
    // Processing a frame
    // -------------------------------------------------------------------------

    /** `processReadDataFrame`: the no-argument table first, then the ranged table, else silence. */
    method ProcessReadDataFrame(pData: array<byte>, len: nat)
      requires TablesFilled() && 4 <= len <= pData.Length
      modifies this`output
      ensures output == old(output) + Sent(ReadReply(Address(pData[..len]), dataAdapter), input)
    {
      var dataAddress: uint16 := pData[2] as int * 0x100 + pData[3] as int;
      assert dataAddress == Address(pData[..len]);
      if dataAddress in noParamTable {
        match noParamTable[dataAddress]
        case ProtocolType => ReplyForProtocolType();
        case ProtocolVersion => ReplyForProtocolVersion();
        case Query(g) => ReplyForQuery(g);
      } else if dataAddress in rangedTable {
        match rangedTable[dataAddress]
        case CellVoltageRequest => ReplyForCellVoltageRequest(dataAddress);
        case TemperatureRequest => ReplyForTemperatureRequest(dataAddress);
        case CellPairVoltageStateRequest => ReplyForCellPairVoltageStateRequest(dataAddress);
        case TemperatureSensorPairStateRequest => ReplyForTemperatureSensorPairStateRequest(dataAddress);
      }
    }

    /** `processWriteDataFrame`: checks the length and the CRC again; writes are not implemented. */
    method ProcessWriteDataFrame(pData: array<byte>, len: nat)
      requires len <= pData.Length
      modifies this`output
      ensures output == old(output) + Sent(WriteReply(pData[..len]), input)
    {
      if len < 8 {
        return;
      }
      var receivedCrc := pData[len - 1] as int * 0x100 + pData[len - 2] as int;
      var crc := CalculateModbusCrc16(pData, len - 2);
      assert pData[..len][..len - 2] == pData[..len - 2];
      if crc as int != receivedCrc {
        SendInvalidCrcReply();
        return;
      }
    }

    /** `checkAndProcessLatest8BytesFrame`: the CRC first, then the command. */
    method CheckAndProcessLatest8BytesFrame()
      requires Valid() && TablesFilled()
      modifies this`output
      ensures output == old(output) + Sent(FrameReply(rxBuffer[..], dataAdapter), input)
    {
      ghost var frame := rxBuffer[..];
      assert frame[..6] == rxBuffer[..6] && rxBuffer[..FrameSize] == frame;
      var receivedCrc := rxBuffer[7] as int * 0x100 + rxBuffer[6] as int;
      assert receivedCrc == CrcFromBytes(frame[6], frame[7]);
      var crc := CalculateModbusCrc16(rxBuffer, 6);
      ghost var valid := CrcValid(frame);
      assert valid <==> crc as int == receivedCrc;
      if crc as int != receivedCrc {
        assert FrameReply(frame, dataAdapter) == Some(InvalidCrcReply());
        SendInvalidCrcReply();
        return;
      }
      if rxBuffer[1] == CommandReadData {
        assert FrameReply(frame, dataAdapter) == ReadReply(Address(frame), dataAdapter);
        ProcessReadDataFrame(rxBuffer, FrameSize);
      } else if rxBuffer[1] == CommandWriteData {
        assert FrameReply(frame, dataAdapter) == WriteReply(frame);
        ProcessWriteDataFrame(rxBuffer, FrameSize);
      } else {
        assert FrameReply(frame, dataAdapter) == None;
      }
    }

    /**
     * `loop`: read the pending input; bytes may arrive while a ready frame is being
     * answered (`arriving`), and then the reply is not sent; a processed frame is
     * dropped from the window.
     */
    method Loop(arriving: seq<byte>)
      requires Valid() && TablesFilled()
      modifies this`rxBufferIndex, this`input, this`output, rxBuffer
      ensures Valid()
      ensures var s := Synchronise(old(rxBuffer[..rxBufferIndex]), old(input), 0, SlaveId);
        && input == s.1 + arriving
        && (|s.0| == FrameSize ==>
              rxBufferIndex == 0 && rxBuffer[..] == s.0 &&
              output == old(output) + Sent(FrameReply(s.0, dataAdapter), arriving))
        && (|s.0| < FrameSize ==> rxBuffer[..rxBufferIndex] == s.0 && output == old(output))
      ensures WellFormed(old(rxBuffer[..rxBufferIndex]), SlaveId) ==> WellFormed(rxBuffer[..rxBufferIndex], SlaveId)
    {
      ghost var w, pending := rxBuffer[..rxBufferIndex], input;
      var ready := ReadLatestIncoming8BytesFrame(SlaveId);
      assert WellFormed(w, SlaveId) ==> WellFormed(rxBuffer[..rxBufferIndex], SlaveId) by {
        SynchroniseProperties(w, pending, 0, SlaveId);
      }
      input := input + arriving;
      if ready {
        assert rxBuffer[..rxBufferIndex] == rxBuffer[..];
        assert input == arriving by {
          ReadyConsumesAll(w, pending, 0, SlaveId);
        }
        CheckAndProcessLatest8BytesFrame();
        rxBufferIndex := 0;
      }
    }
  }
}
