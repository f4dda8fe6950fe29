# JK BMS to Lib-protocol bridge, modelled in Dafny

This project models the firmware that makes a JK battery management system (BMS)
look like a "Lib protocol" battery to a solar inverter. The firmware has two halves.

- The inverter-facing responder `BMSLibProtocolUARTHandler`:
  - it keeps an 8-byte receive window and slides it to the latest byte equal to the
    slave id;
  - it checks each complete request frame with the MODBUS CRC-16 (initial value 0xFFFF,
    reflected polynomial 0xA001, as in appendix B of the *MODBUS over Serial Line
    Specification and Implementation Guide V1.02*; the CRC is sent low byte first, as in
    section 2.5.1.2 of that guide);
  - it looks the register address up in a no-parameter table, then in a paged table,
    and answers through a data adapter.
- The JK driver `JkBms`:
  - it decodes the battery's status frames;
  - it tracks whether the battery is online;
  - it answers the data-adapter queries from the decoded fields.
- `BMSLibProtocolMockDataAdapter` is a fixed-value adapter that answers constants.

Modules, one per part of the program:

| module | file | models |
|---|---|---|
| `ModbusCrc` | modbus_crc.dfy | `calculateModbusCrc16` and the CRC as a fold over bytes |
| `LibProtocolFraming` | lib_protocol_framing.dfy | the receive window's slide and resynchronisation, as values |
| `LibProtocolDispatch` | lib_protocol_dispatch.dfy | dispatch tables, address decoding, reply frames, the reply one request calls for |
| `LibProtocolUartHandler` | lib_protocol_uart_handler.dfy | the handler object: `rxBuffer`, `loop`, `readLatestIncoming8BytesFrame`, `checkAndProcess…`, `process…`, `send…Reply`, `replyFor…` |
| `LibProtocolAdapter` | lib_protocol_adapter.dfy | the data-adapter interface: one `Getter` per virtual getter and its payload size |
| `MockDataAdapter` | mock_data_adapter.dfy | the fixed-value adapter |
| `JkBmsHelpers` | jk_bms_helpers.dfy | `get_temperature_`, `get_current_`, `format_total_runtime_`, `check_bit_` |
| `JkBmsText` | jk_bms_text.dfy | `error_bits_to_string_`, `mode_bits_to_string_`, the battery-type table |
| `JkBmsStatus` | jk_bms_status.dfy | the status frame: cell scan and fixed-section fields |
| `JkBms` | jk_bms.dfy | the driver object, its online tracker and its adapter getters |
| `Bytes`, `Bits`, `Wrappers` | bytes.dfy, bits.dfy, wrappers.dfy | fixed-width integers, big-endian reads, bit tests, `Option`/`Result` |

The UART is modelled by two fields of the handler.
- `input` holds the bytes received and not read yet. `available()` is `input != []` and
  `read()` takes its first byte.
- `output` is the log of every frame handed to `write_array`.

The window logic is specified by `LibProtocolFraming.Synchronise`, a function that
consumes the input byte by byte. The handler's loop is proved to compute exactly that
function, and the properties of the window are proved about it: bounded, keyed on the
slave id, holding the latest bytes, stopping early only on a discard once more than 15
bytes have been read. Each reply
handler is proved to append exactly `Sent(<reply>, input)` to the output, where the
reply comes from the `LibProtocolDispatch` functions. Those functions are in turn proved to
produce CRC-valid frames whose payload reads back.

## Model

| member | source | states |
|---|---|---|
| ModbusCrc.CalculateModbusCrc16 | main/bms_lib_protocol_uart_handler.cpp:174-193 | the nested loop returns the CRC-16 fold of the first len bytes of the buffer |
| ModbusCrc.CrcOfEmpty | main/bms_lib_protocol_uart_handler.cpp:176 | the CRC of no bytes is the initial value 0xFFFF |
| ModbusCrc.CrcAppend | main/bms_lib_protocol_uart_handler.cpp:177-191 | the CRC of a ++ b is b folded on from the CRC of a |
| ModbusCrc.CrcFromAppend | main/bms_lib_protocol_uart_handler.cpp:177-191 | running the register over a ++ b from any start is running it over b from where a left it |
| ModbusCrc.FoldBytesAppend | main/bms_lib_protocol_uart_handler.cpp:177-191 | the byte fold splits over concatenation, for any step function |
| ModbusCrc.CrcSnoc | main/bms_lib_protocol_uart_handler.cpp:177-191 | the CRC of a sequence plus one byte is one more byte update of the sequence's CRC: what the outer loop keeps invariant |
| ModbusCrc.CrcStep | main/bms_lib_protocol_uart_handler.cpp:177-191 | XORing the next byte into the CRC of the bytes so far and shifting eight times gives the CRC of the bytes so far plus that byte |
| ModbusCrc.CrcFromCons | main/bms_lib_protocol_uart_handler.cpp:177-191 | the first byte is folded first |
| ModbusCrc.ShiftStepCases | main/bms_lib_protocol_uart_handler.cpp:182-189 | a shift step xors 0xA001 after the shift exactly when the low bit is set |
| ModbusCrc.CrcBytesRoundTrip | main/bms_lib_protocol_uart_handler.cpp:199 | the CRC split into low and high byte reads back, as `hi << 8 \| lo`, as the same 16-bit value |
| ModbusCrcVectors.ReadRequestVector | main/bms_lib_protocol_uart_handler.cpp:174-193 | the request 01 03 00 01 00 01 has CRC 0xCAD5 |
| LibProtocolFraming.FirstSlaveFrom | main/bms_lib_protocol_uart_handler.cpp:136-138 | the search stops inside the window only on a slave-id byte |
| LibProtocolFraming.FirstSlaveFromIsFirst | main/bms_lib_protocol_uart_handler.cpp:137 | no slave id is skipped: every position before the stop holds another byte |
| LibProtocolFraming.Slide | main/bms_lib_protocol_uart_handler.cpp:134-150 | a full window slides to a shorter suffix of itself that is empty or starts with the slave id |
| LibProtocolFraming.SlideDropsNoSlaveId | main/bms_lib_protocol_uart_handler.cpp:136-149 | the bytes the slide drops, after the first, are not the slave id |
| LibProtocolFraming.FullWindowSlides | main/bms_lib_protocol_uart_handler.cpp:134-168 | a byte arriving at a full window keeps the window's last 8 - i bytes from the first slave id at position i >= 1, or empties it, and then appends the byte unless the window is empty and the byte is not the slave id |
| LibProtocolFraming.EmptyWindowWaitsForSlaveId | main/bms_lib_protocol_uart_handler.cpp:155-165 | an empty window discards every byte but the slave id |
| LibProtocolFraming.Accept | main/bms_lib_protocol_uart_handler.cpp:134-168 | one byte keeps the window within 8 bytes, keeps it starting with the slave id, leaves a suffix of the old window plus the byte, and empties it exactly when the byte is discarded |
| LibProtocolFraming.SynchroniseDrops | main/bms_lib_protocol_uart_handler.cpp:152-164 | a discarded byte continues the loop while at most 15 bytes were read, and stops it after that |
| LibProtocolFraming.SynchroniseKeeps | main/bms_lib_protocol_uart_handler.cpp:167-168 | a byte that is not discarded is appended and the loop goes on |
| LibProtocolFraming.StopStep | main/bms_lib_protocol_uart_handler.cpp:152-164 | a discard after the 15th byte read stops the loop with an empty window and exactly that one byte consumed |
| LibProtocolFraming.SynchroniseProperties | main/bms_lib_protocol_uart_handler.cpp:127-171 | after the loop the window holds at most 8 bytes, stays well formed, and is a suffix of the old window plus the bytes read; input is left over only after a discard beyond the 15th byte |
| LibProtocolFraming.ReadyConsumesAll | main/bms_lib_protocol_uart_handler.cpp:128-171 | when the window ends full, all pending input was read |
| LibProtocolFraming.ReadyFrameIsLatest | main/bms_lib_protocol_uart_handler.cpp:111-172 | a full window is exactly the last 8 bytes of the old window plus the input |
| LibProtocolFraming.FrameIsCollected | main/bms_lib_protocol_uart_handler.cpp:128-168 | a frame that starts with the slave id and fits the window is collected whole, leaving no input |
| LibProtocolFraming.CollectStep | main/bms_lib_protocol_uart_handler.cpp:155-168 | a byte joining a non-full well-formed window is appended |
| LibProtocolDispatch.AdapterGet | main/bms_lib_protocol_data_adapter.h:17-65 | every getter answers the payload size its interface comment gives, 2 or 4 bytes |
| LibProtocolDispatch.WithCrc | main/bms_lib_protocol_uart_handler.cpp:309-312 | a reply is its body followed by two CRC bytes |
| LibProtocolDispatch.WithCrcValid | main/bms_lib_protocol_uart_handler.cpp:309-312 | a body followed by its CRC, low byte first, passes the CRC check applied to input |
| LibProtocolDispatch.WithCrcFrame | main/bms_lib_protocol_uart_handler.cpp:309-312 | such a frame passes the CRC check and starts with the body's first byte |
| LibProtocolDispatch.Reply2 | main/bms_lib_protocol_uart_handler.cpp:298-312 | the 2-byte payload reply is 8 bytes long |
| LibProtocolDispatch.Reply4 | main/bms_lib_protocol_uart_handler.cpp:331-347 | the 4-byte payload reply is 10 bytes long |
| LibProtocolDispatch.InvalidCrcReply | main/bms_lib_protocol_uart_handler.cpp:276-283 | the invalid-CRC reply is 5 bytes long |
| LibProtocolDispatch.InvalidCrcReplyBytes | main/bms_lib_protocol_uart_handler.cpp:276-283 | the invalid-CRC reply is 01 83 03 01 31 and passes the CRC check |
| LibProtocolDispatch.Reply2Frame | main/bms_lib_protocol_uart_handler.cpp:298-312 | the 2-byte reply passes the CRC check and starts with the slave id |
| LibProtocolDispatch.Reply4Frame | main/bms_lib_protocol_uart_handler.cpp:331-347 | the 4-byte reply passes the CRC check and starts with the slave id |
| LibProtocolDispatch.WithCrcReadsBack | main/bms_lib_protocol_uart_handler.cpp:298-347 | a read reply whose word count matches its payload reads back as that payload |
| LibProtocolDispatch.ReplyPayloadOf | main/bms_lib_protocol_uart_handler.cpp:298-347 | a CRC-valid read reply with a matching word count yields the bytes between header and CRC |
| LibProtocolDispatch.PayloadRepliesReadBack | main/bms_lib_protocol_uart_handler.cpp:298-347 | the 2- and 4-byte replies read back as the payload they carry |
| LibProtocolDispatch.AddRanged | main/bms_lib_protocol_uart_handler.cpp:50-84 | one double loop adds exactly the addresses page << 8 \| low, for pages 0..15 and its low range, to that handler, and keeps the other entries |
| LibProtocolDispatch.BuildRangedTable | main/bms_lib_protocol_uart_handler.cpp:50-84 | the four double loops build exactly the paged table |
| LibProtocolDispatch.TablesDisjoint | main/bms_lib_protocol_uart_handler.cpp:14-84 | no address is in both tables |
| LibProtocolDispatch.HardwareVersionAddress | main/bms_lib_protocol_uart_handler.cpp:17 | hardware version is at 0x0005, and 0x0004 is in neither table |
| LibProtocolDispatch.PageIsMasked | main/bms_lib_protocol_uart_handler.cpp:413 | `(a >> 8) & 0x00FF` is the page byte of a 16-bit address |
| LibProtocolDispatch.CellNumberInRange | main/bms_lib_protocol_uart_handler.cpp:412-414 | on the cell range the cell number is page*20 + (low - 0x10), within page*20+1 .. page*20+20, with no 16-bit wrap |
| LibProtocolDispatch.SensorNumberInRange | main/bms_lib_protocol_uart_handler.cpp:438-440 | on the temperature range the sensor number is page*10 + (low - 0x25), within page*10+1 .. page*10+10 |
| LibProtocolDispatch.OddCellNumberIsOdd | main/bms_lib_protocol_uart_handler.cpp:514-516 | on the cell-pair range the number is page*20 + 2*(low - 0x40) - 1, odd, within page*20+1 .. page*20+19 |
| LibProtocolDispatch.OddSensorNumberIsOdd | main/bms_lib_protocol_uart_handler.cpp:540-542 | on the sensor-pair range the number is page*10 + 2*(low - 0x50) - 1, odd, within page*10+1 .. page*10+9 |
| LibProtocolDispatch.CellNumberInjective | main/bms_lib_protocol_uart_handler.cpp:412-414 | distinct cell addresses name distinct cells |
| LibProtocolDispatch.BadCrcGetsOnlyInvalidCrcReply | main/bms_lib_protocol_uart_handler.cpp:199-205 | a frame failing the CRC check gets exactly the invalid-CRC reply |
| LibProtocolDispatch.Silences | main/bms_lib_protocol_uart_handler.cpp:207-271 | a valid write frame, an unknown command or an unmapped address gets no reply |
| LibProtocolDispatch.QueryReplyFrame | main/bms_lib_protocol_uart_handler.cpp:376-395 | every adapter answer goes out as a CRC-valid frame starting with the slave id |
| LibProtocolDispatch.ReadReplyFrame | main/bms_lib_protocol_uart_handler.cpp:240-272 | every reply to a read passes the CRC check and starts with the slave id |
| LibProtocolDispatch.RepliesAreValidFrames | main/bms_lib_protocol_uart_handler.cpp:195-219 | every reply to any frame passes the same CRC check applied to input and starts with the slave id |
| LibProtocolDispatch.NotReadyRepliesOnlyConstants | main/bms_lib_protocol_uart_handler.cpp:358-384 | without a ready adapter only the invalid-CRC reply and the constant [0, 0] of protocol type and version go out |
| LibProtocolDispatch.JkDriverRepliesOnlyConstants | main/bms_lib_protocol_uart_handler.cpp:358-384 | with a valid JK driver as the adapter (its `has_data_` is never set) only the invalid-CRC reply and the constant [0, 0] of protocol type and version go out |
| LibProtocolDispatch.MockAnswersMappedAddresses | main/bms_lib_protocol_mock_data_adapter.cpp:7-10 | with the mock, which always has data, every mapped address gets a reply |
| LibProtocolDispatch.CellRangeAsksForCellVoltage | main/bms_lib_protocol_uart_handler.cpp:240-263 | for any adapter, an address of the cell range is answered with the query for the voltage of the cell its page and low byte name |
| LibProtocolDispatch.MockCellVoltageReply | main/bms_lib_protocol_uart_handler.cpp:407-421 | with the mock, every cell address gets the reply frame of [0, 33], which reads back as [0, 33] |
| LibProtocolUartHandler.FilledWithCrc | main/bms_lib_protocol_uart_handler.cpp:309-312 | a buffer filled with a body and its CRC bytes is that body's framed reply |
| LibProtocolUartHandler.BmsLibProtocolUartHandler.constructor | main/bms_lib_protocol_uart_handler.cpp:12-85 | the constructor fills both dispatch tables; the window is empty and no adapter is set |
| LibProtocolUartHandler.BmsLibProtocolUartHandler.SetDataAdapter | main/bms_lib_protocol_uart_handler.cpp:106-109 | the adapter is replaced |
| LibProtocolUartHandler.BmsLibProtocolUartHandler.MoveToFront | main/bms_lib_protocol_uart_handler.cpp:143 | the memmove brings bytes i..7 to the front and leaves the tail as it was |
| LibProtocolUartHandler.BmsLibProtocolUartHandler.Append | main/bms_lib_protocol_uart_handler.cpp:168 | the byte is appended to the window |
| LibProtocolUartHandler.BmsLibProtocolUartHandler.FindSlaveId | main/bms_lib_protocol_uart_handler.cpp:136-138 | the search loop stops at FirstSlaveFrom(buffer, 1) |
| LibProtocolUartHandler.BmsLibProtocolUartHandler.SlideWindow | main/bms_lib_protocol_uart_handler.cpp:134-150 | the full window becomes Slide of itself |
| LibProtocolUartHandler.BmsLibProtocolUartHandler.ReadByte | main/bms_lib_protocol_uart_handler.cpp:130-150 | one byte is taken from the input, after which a full window has slid |
| LibProtocolUartHandler.BmsLibProtocolUartHandler.ReadLatestIncoming8BytesFrame | main/bms_lib_protocol_uart_handler.cpp:111-172 | the window and the unread input end as Synchronise says, and the result is true iff the window holds 8 bytes |
| LibProtocolUartHandler.BmsLibProtocolUartHandler.WriteIfIdle | main/bms_lib_protocol_uart_handler.cpp:316-317 | the frame is written only when no input is pending |
| LibProtocolUartHandler.BmsLibProtocolUartHandler.SendInvalidCrcReply | main/bms_lib_protocol_uart_handler.cpp:274-288 | the invalid-CRC frame is written when no input is pending, nothing otherwise |
| LibProtocolUartHandler.BmsLibProtocolUartHandler.Send2BytesPayloadReply | main/bms_lib_protocol_uart_handler.cpp:290-321 | the 2-byte reply frame of the payload is written when no input is pending |
| LibProtocolUartHandler.BmsLibProtocolUartHandler.Send4BytesPayloadReply | main/bms_lib_protocol_uart_handler.cpp:323-356 | the 4-byte reply frame of the payload is written when no input is pending |
| LibProtocolUartHandler.BmsLibProtocolUartHandler.ReplyForProtocolType | main/bms_lib_protocol_uart_handler.cpp:358-365 | [0, 0] is sent with or without an adapter |
| LibProtocolUartHandler.BmsLibProtocolUartHandler.ReplyForProtocolVersion | main/bms_lib_protocol_uart_handler.cpp:367-374 | [0, 0] is sent with or without an adapter |
| LibProtocolUartHandler.BmsLibProtocolUartHandler.ReplyForQuery | main/bms_lib_protocol_uart_handler.cpp:376-395 | a gated handler sends the adapter's answer, in the 2- or 4-byte frame, only when an adapter is set and has data |
| LibProtocolUartHandler.BmsLibProtocolUartHandler.ReplyForCellVoltageRequest | main/bms_lib_protocol_uart_handler.cpp:407-421 | the cell number decoded in 16-bit arithmetic is the one CellNumber gives, and its voltage is sent when the adapter is ready |
| LibProtocolUartHandler.BmsLibProtocolUartHandler.ReplyForTemperatureRequest | main/bms_lib_protocol_uart_handler.cpp:433-447 | the same for the temperature sensor number |
| LibProtocolUartHandler.BmsLibProtocolUartHandler.ReplyForCellPairVoltageStateRequest | main/bms_lib_protocol_uart_handler.cpp:509-523 | the same for the odd cell of a pair |
| LibProtocolUartHandler.BmsLibProtocolUartHandler.ReplyForTemperatureSensorPairStateRequest | main/bms_lib_protocol_uart_handler.cpp:535-549 | the same for the odd sensor of a pair |
| LibProtocolUartHandler.BmsLibProtocolUartHandler.ProcessReadDataFrame | main/bms_lib_protocol_uart_handler.cpp:240-272 | the address is `buf[2] << 8 \| buf[3]`; the no-parameter table is tried before the paged one, and an unmapped address sends nothing |
| LibProtocolUartHandler.BmsLibProtocolUartHandler.ProcessWriteDataFrame | main/bms_lib_protocol_uart_handler.cpp:221-238 | a write frame shorter than 8 bytes sends nothing; otherwise only a CRC mismatch sends the invalid-CRC reply |
| LibProtocolUartHandler.BmsLibProtocolUartHandler.CheckAndProcessLatest8BytesFrame | main/bms_lib_protocol_uart_handler.cpp:195-219 | the window's frame gets exactly the reply FrameReply gives: invalid-CRC, read, write or nothing |
| LibProtocolUartHandler.BmsLibProtocolUartHandler.Loop | main/bms_lib_protocol_uart_handler.cpp:95-104 | one pass synchronises the window; a full window is answered and then emptied; a well-formed window stays well formed |
| MockDataAdapter.MockGet | main/bms_lib_protocol_mock_data_adapter.cpp:12-286 | every answer has its interface's size, and every state answer is one of the four warning states |
| MockDataAdapter.MockIgnoresArgument | main/bms_lib_protocol_mock_data_adapter.cpp:42-50 | indexed getters answer the same whatever number they get |
| MockDataAdapter.MockBigEndian | main/bms_lib_protocol_mock_data_adapter.cpp:60-112 | 2931, 280000 and 1200 go out most significant byte first |
| MockDataAdapter.MockValues | main/bms_lib_protocol_mock_data_adapter.cpp:60-93 | the 16-bit answers read back as 2931, 264 and 1200 |
| MockDataAdapter.MockCapacityValue | main/bms_lib_protocol_mock_data_adapter.cpp:104-112 | the capacity reads back as 280000 |
| MockDataAdapter.MockChargeDischargeStatus | main/bms_lib_protocol_mock_data_adapter.cpp:151-162 | the status is [0x00, 0xC0], chargeEnable \| dischargeEnable, and never asks for a full charge |
| Bytes.AsInt16 | include/esphome/components/jk_bms/jk_bms.cpp:297 | `(int16_t)` gives the two's-complement value with the same 16 bits |
| Bytes.Get16OfBE16 | include/esphome/components/jk_bms/jk_bms.cpp:63 | a big-endian 16-bit value reads back |
| Bytes.BE16OfGet16 | include/esphome/components/jk_bms/jk_bms.cpp:63 | re-encoding a 16-bit read gives the two bytes back |
| Bytes.Get32OfBE32 | include/esphome/components/jk_bms/jk_bms.cpp:64-66 | a big-endian 32-bit value reads back |
| Bits.AndBit | include/esphome/components/jk_bms/jk_bms.h:208 | a bit of a & b is set iff it is set in both |
| Bits.Pow2Bits | include/esphome/components/jk_bms/jk_bms.cpp:462 | `1 << i` has exactly bit i set |
| Bits.AndPow2 | include/esphome/components/jk_bms/jk_bms.cpp:462 | `mask & (1 << i)` is nonzero iff bit i of mask is set |
| Bits.SameBitsEqual | include/esphome/components/jk_bms/jk_bms.h:208 | numbers with the same bits are equal |
| JkBmsHelpers.GetTemperature | include/esphome/components/jk_bms/jk_bms.h:177-182 | v for v <= 100, 100 - v below 32768, 100 - (v - 65536) above |
| JkBmsHelpers.TemperatureRoundTrip | include/esphome/components/jk_bms/jk_bms.h:177-182 | every raw temperature is recovered from its decoding |
| JkBmsHelpers.TemperatureInverse | include/esphome/components/jk_bms/jk_bms.h:177-182 | every temperature in range decodes from its encoding |
| JkBmsHelpers.TemperatureExamples | include/esphome/components/jk_bms/jk_bms.cpp:128 | 99, 100, 101 and 140 decode to 99, 100, -1 and -40 |
| JkBmsHelpers.GetCurrent | include/esphome/components/jk_bms/jk_bms.h:184-195 | version 0x01 gives +(v & 0x7FFF) with bit 15 set and -(v & 0x7FFF) without; any other version gives 0; the magnitude is at most 32767 |
| JkBmsHelpers.CurrentRoundTrip | include/esphome/components/jk_bms/jk_bms.h:184-195 | every current in range decodes from its encoding |
| JkBmsHelpers.CurrentInjective | include/esphome/components/jk_bms/jk_bms.h:184-195 | only the two zeros 0x0000 and 0x8000 decode alike |
| JkBmsHelpers.ChargingPart | include/esphome/components/jk_bms/jk_bms.cpp:147 | max(0, I) |
| JkBmsHelpers.DischargingPart | include/esphome/components/jk_bms/jk_bms.cpp:148 | abs(min(0, I)) |
| JkBmsHelpers.CurrentSplit | include/esphome/components/jk_bms/jk_bms.cpp:147-148 | the two parts are never both nonzero and their difference is the current |
| JkBmsHelpers.AsInt32 | include/esphome/components/jk_bms/jk_bms.h:198 | `(int) value` keeps the 32 bits as a signed number |
| JkBmsHelpers.CDiv | include/esphome/components/jk_bms/jk_bms.h:199-203 | C division truncates toward zero |
| JkBmsHelpers.CRem | include/esphome/components/jk_bms/jk_bms.h:199-203 | C remainder takes the dividend's sign and completes the division |
| JkBmsHelpers.NatToString | include/esphome/components/jk_bms/jk_bms.h:204-205 | `to_string` gives at least one decimal digit |
| JkBmsHelpers.NatToStringRoundTrip | include/esphome/components/jk_bms/jk_bms.h:204-205 | the decimal text of n reads back as n |
| JkBmsHelpers.RuntimeText | include/esphome/components/jk_bms/jk_bms.h:197-206 | the text is "<y>y ", "<d>d ", "<h>h" of the 365-day decomposition, each part only when nonzero, in that order |
| JkBmsHelpers.NegativeRuntimeText | include/esphome/components/jk_bms/jk_bms.h:197-206 | from 2^31 up the `(int)` cast makes the seconds negative: the text is the nonzero parts of the decomposition of 2^32 - value, each with a minus sign, with at most 68 years |
| JkBmsHelpers.NegativeParts | include/esphome/components/jk_bms/jk_bms.h:199-203 | C's truncating `/` and `%` on -m give exactly the negated years, days and hours of m |
| JkBmsHelpers.YearsBound | include/esphome/components/jk_bms/jk_bms.h:199-200 | 2^31 seconds or fewer hold at most 68 years of 365 days |
| JkBmsHelpers.RuntimeUnderAnHourIsEmpty | include/esphome/components/jk_bms/jk_bms.h:197-206 | less than an hour prints nothing |
| JkBmsHelpers.RuntimeExample | include/esphome/components/jk_bms/jk_bms.h:197-206 | a year, a day, an hour and 61 s print "1y 1d 1h" |
| JkBmsHelpers.CheckBitIff | include/esphome/components/jk_bms/jk_bms.h:208 | check_bit_ holds iff every bit of flag is set in mask |
| JkBmsHelpers.CheckBitSingle | include/esphome/components/jk_bms/jk_bms.h:208 | for the flag 2^k, check_bit_ reads bit k |
| JkBmsHelpers.ModeFlagBits | include/esphome/components/jk_bms/jk_bms.cpp:210-212 | flags 1, 2 and 4 read bits 0, 1 and 2 |
| JkBmsText.JoinSnoc | include/esphome/components/jk_bms/jk_bms.cpp:463-468 | each later label is preceded by exactly one separator |
| JkBmsText.LabelBitsToString | include/esphome/components/jk_bms/jk_bms.cpp:456-474 | the loop builds the labels of the set bits, in ascending order, joined by ';' |
| JkBmsText.ErrorBitsToString | include/esphome/components/jk_bms/jk_bms.cpp:456-474 | the error text of the mask |
| JkBmsText.ModeBitsToString | include/esphome/components/jk_bms/jk_bms.cpp:476-494 | the mode text of the mask |
| JkBmsText.ZeroMaskHasNoLabels | include/esphome/components/jk_bms/jk_bms.cpp:460 | mask 0 selects no label |
| JkBmsText.ZeroMaskText | include/esphome/components/jk_bms/jk_bms.cpp:460 | mask 0 gives "" |
| JkBmsText.SetLabelsAgree | include/esphome/components/jk_bms/jk_bms.cpp:461-462 | the labels depend only on the bits below the table size |
| JkBmsText.ErrorsTextIgnoresHighBits | include/esphome/components/jk_bms/jk_bms.cpp:461 | bits 14 and 15 do not show in the error text |
| JkBmsText.ModesTextIgnoresHighBits | include/esphome/components/jk_bms/jk_bms.cpp:481 | bits 4 and up do not show in the mode text |
| JkBmsText.LowTwoBitsLabels | include/esphome/components/jk_bms/jk_bms.cpp:19-21 | 0x0003 selects the labels of bits 0 and 1 only |
| JkBmsText.ErrorsTextExample | include/esphome/components/jk_bms/jk_bms.cpp:456-474 | 0x0003 gives "Low capacity;Power tube overtemperature" |
| JkBmsText.SetLabelsNoneAbove | include/esphome/components/jk_bms/jk_bms.cpp:461-462 | clear bits add no label |
| JkBmsText.SetLabelsFrom | include/esphome/components/jk_bms/jk_bms.cpp:468 | every selected label comes from the table |
| JkBmsText.Split | include/esphome/components/jk_bms/jk_bms.cpp:466 | the reference reading of a joined text yields at least one piece |
| JkBmsText.SplitPlain | include/esphome/components/jk_bms/jk_bms.cpp:466 | a text without separator splits into itself |
| JkBmsText.SplitAfterPart | include/esphome/components/jk_bms/jk_bms.cpp:466 | a part then a separator splits off that part |
| JkBmsText.SplitJoin | include/esphome/components/jk_bms/jk_bms.cpp:463-468 | joining separator-free parts is undone by splitting: no leading or trailing separator |
| JkBmsText.ErrorLabelHasNoSeparator | include/esphome/components/jk_bms/jk_bms.cpp:19-34 | no error label contains ';' |
| JkBmsText.LowErrorLabels | include/esphome/components/jk_bms/jk_bms.cpp:20-24 | no error label among the first five contains ';' |
| JkBmsText.MiddleErrorLabels | include/esphome/components/jk_bms/jk_bms.cpp:25-29 | no error label among the next five contains ';' |
| JkBmsText.HighErrorLabels | include/esphome/components/jk_bms/jk_bms.cpp:30-33 | no error label among the last four contains ';' |
| JkBmsText.ModeLabelHasNoSeparator | include/esphome/components/jk_bms/jk_bms.cpp:37-42 | no mode label contains ';' |
| JkBmsText.ErrorsTextReadsBack | include/esphome/components/jk_bms/jk_bms.cpp:456-474 | the error text splits back into the labels of the set bits, in bit order |
| JkBmsText.ModesTextReadsBack | include/esphome/components/jk_bms/jk_bms.cpp:476-494 | the mode text splits back into the labels of the set bits, in bit order |
| JkBmsText.BatteryType | include/esphome/components/jk_bms/jk_bms.cpp:333-338 | raw < 3 gives the table entry, and "Unknown" exactly for the others |
| JkBmsStatus.CellVoltages | include/esphome/components/jk_bms/jk_bms.cpp:103-104 | cell i is the big-endian 16-bit read at 3i + 3, for each of data[1] / 3 cells |
| JkBmsStatus.ScanCellsPrefix | include/esphome/components/jk_bms/jk_bms.cpp:103-115 | scanning one more cell is one more loop step |
| JkBmsStatus.ScanCellsCorrect | include/esphome/components/jk_bms/jk_bms.cpp:98-113 | min and max are the first cell holding the least and the greatest value, with a 1-based index in 1..cell count |
| JkBmsStatus.ScanCellsSum | include/esphome/components/jk_bms/jk_bms.cpp:105 | the running sum is the sum of the cells |
| JkBmsStatus.ScanCellsBounds | include/esphome/components/jk_bms/jk_bms.cpp:116-122 | min <= max, delta = max - min >= 0, and the sum lies between count * min and count * max |
| JkBmsStatus.SumBounds | include/esphome/components/jk_bms/jk_bms.cpp:105 | a sum of values between lo and hi lies between count * lo and count * hi |
| JkBmsStatus.NoCellsStats | include/esphome/components/jk_bms/jk_bms.cpp:98-102 | with no cells the sentinels 100 V and -100 V and cell 0 stay |
| JkBmsStatus.DecodeStatus | include/esphome/components/jk_bms/jk_bms.cpp:62-385 | a frame decodes iff it is long enough and has at most 24 cells; the result holds its cells, their statistics and its fields |
| JkBmsStatus.ReadStatusDerived | include/esphome/components/jk_bms/jk_bms.cpp:145-212 | charging and discharging current, and charging and discharging power, are the parts of their signed value; the three mode flags are bits 0, 1, 2 of the mode mask; the battery type is "Unknown" iff its raw byte is 3 or more |
| JkBmsStatus.DecodedCellStats | include/esphome/components/jk_bms/jk_bms.cpp:95-123 | a decoded frame's statistics are those of its cells |
| JkBmsStatus.ReadStatusFields | include/esphome/components/jk_bms/jk_bms.cpp:125-212 | the total voltage is read at offset+9, the current at offset+12 with the version byte at offset+219, the errors mask at offset+30 and the mode mask at offset+33 |
| JkBmsStatus.FakeTrafficCellVoltages | include/esphome/components/jk_bms/jk_bms.cpp:392-413 | the fake frame has 14 cells, the first 3821 mV |
| JkBmsStatus.FakeTrafficCellStats | include/esphome/components/jk_bms/jk_bms.cpp:392-413 | its minimum is 3811 mV at cell 9, its maximum 3835 mV at cell 12, delta 24 |
| JkBmsStatus.FakeTrafficRawFields | include/esphome/components/jk_bms/jk_bms.cpp:392-413 | its raw voltage is 5359, current +208 at version 0x01, 14 strings, errors 0, mode 7 |
| JkBmsStatus.FakeTrafficRawTemperatures | include/esphome/components/jk_bms/jk_bms.cpp:392-413 | its temperatures are 29, 30 and 28 degrees and the state of charge 15 % |
| JkBms.TracksAfterReset | include/esphome/components/jk_bms/jk_bms.cpp:441-454 | after a reset, k < 5 polls leave count k and the battery online; from the 5th poll on the count is 6 and the battery offline |
| JkBms.TrackBounded | include/esphome/components/jk_bms/jk_bms.cpp:441-449 | the count never passes 6, and at 6 a poll changes nothing |
| JkBms.OfflineUntilReset | include/esphome/components/jk_bms/jk_bms.cpp:441-449 | once offline, polls alone never bring the battery back |
| JkBms.NotImplemented | include/esphome/components/jk_bms/jk_bms.cpp:597-611 | an unimplemented answer is all zeros of the promised size |
| JkBms.JkGet | include/esphome/components/jk_bms/jk_bms.cpp:614-933 | every getter answers its interface's size, and every state getter a warning state |
| JkBms.JkWarningState | include/esphome/components/jk_bms/jk_bms.cpp:731-858 | the warning getters answer one of the four warning states |
| JkBms.JkMeasurement | include/esphome/components/jk_bms/jk_bms.cpp:614-718 | the measurement getters answer their interface's size |
| JkBms.JkStatesAreKnown | include/esphome/components/jk_bms/jk_bms.cpp:751-858 | byte 0 is 0 and byte 1 is 0x00, 0x01 or 0x02, never other error |
| JkBms.ChargeTemperatureLowFirst | include/esphome/components/jk_bms/jk_bms.cpp:797-827 | low battery temperature gives 0x01 before any overheating gives 0x02 |
| JkBms.DischargeTemperatureOnlyAbove | include/esphome/components/jk_bms/jk_bms.cpp:828-852 | the discharge temperature state is 0x02 on any overheating and never 0x01 |
| JkBms.NotImplementedAnswersZeros | include/esphome/components/jk_bms/jk_bms.cpp:614-619 | unimplemented getters answer zeros |
| JkBms.FlagBits | include/esphome/components/jk_bms/jk_bms.cpp:908-924 | the status byte's bits 7, 6, 5 and 4 are the four conditions and bit 3 is clear |
| JkBms.ChargeDischargeStatusBits | include/esphome/components/jk_bms/jk_bms.cpp:903-930 | 0x08 is never set; 0x10 iff 10 <= SoC <= 15; 0x20 iff SoC < 10; 0x80 and 0x40 need the mode flag and both sensors below 35 |
| JkBms.CellVoltageReply | include/esphome/components/jk_bms/jk_bms.cpp:628-639 | a cell number above the cell count answers [0, 0]; a cell in range answers its mV / 100 |
| JkBms.JkBigEndianReplies | include/esphome/components/jk_bms/jk_bms.cpp:684-718 | voltage, state of charge and capacity replies read back big-endian as the value sent |
| JkBms.JkBms.constructor | include/esphome/components/jk_bms/jk_bms.h:11 | a new driver has no cells, no data and is offline with count 0 |
| JkBms.JkBms.HasData | include/esphome/components/jk_bms/jk_bms.h:24 | `has_data_` is never set, so the driver never reports data |
| JkBms.JkBms.ResetOnlineStatusTracker | include/esphome/components/jk_bms/jk_bms.cpp:451-454 | count 0, online, every other field unchanged |
| JkBms.JkBms.TrackOnlineStatus | include/esphome/components/jk_bms/jk_bms.cpp:441-449 | one poll of the tracker, every other field unchanged |
| JkBms.JkBms.StoreCells | include/esphome/components/jk_bms/jk_bms.cpp:95-115 | the loop stores each cell's voltage in its slot, leaves the others, and returns the running statistics |
| JkBms.JkBms.StoreFields | include/esphome/components/jk_bms/jk_bms.cpp:118-212 | the count, statistics, fields and the two texts are stored |
| JkBms.JkBms.ApplyStatus | include/esphome/components/jk_bms/jk_bms.cpp:62-385 | a decodable frame sets the cells, statistics, fields and texts it decodes to |
| JkBms.JkBms.OnStatusData | include/esphome/components/jk_bms/jk_bms.cpp:62-385 | a decodable frame is decoded into the fields; any other frame changes nothing |
| JkBms.JkBms.OnJkModbusData | include/esphome/components/jk_bms/jk_bms.cpp:51-60 | every frame resets the tracker; only function 0x06 is decoded |
| JkBms.JkBms.Update | include/esphome/components/jk_bms/jk_bms.cpp:387-439 | without fake traffic one poll advances the tracker and every decoded field, text and cell stays; with it the tracker is reset and the cells, their statistics, the fields and both texts become those of the built-in frame |
| JkBms.CellGuardAsWritten | include/esphome/components/jk_bms/jk_bms.cpp:628-639 | the cell getter as written reads slot -1 for cell 0 whatever the cell count; from cell 1 on it reads a slot exactly when the corrected guard holds, that slot is the one the corrected getter answers from, and it answers [0, 0] exactly when it reads nothing |
| JkBms.SensorGuardAsWritten | include/esphome/components/jk_bms/jk_bms.cpp:647-661 | the temperature getter as written reads slot -1 for sensor 0; from sensor 1 on it reads slot n - 1 exactly when the corrected guard holds, slots 0 and 1 answer the two sensors' Kelvin tenths, and no read answers [0, 0] |
| JkBms.InRangeReadsValidSlot | include/esphome/components/jk_bms/jk_bms.cpp:632-634 | the corrected guard is the written one without 0, and reads only slots 0 .. count - 1 |
| JkBms.LoopSlotsAsWritten | include/esphome/components/jk_bms/jk_bms.cpp:103-114 | the unchecked loop from slot i writes exactly the slots i .. cells - 1 |
| JkBms.CellSlotsAsWrittenOverflowIff | include/esphome/components/jk_bms/jk_bms.cpp:95-114 | the unchecked loop writes a slot at or past 24 exactly when the frame announces more than 24 cells; otherwise it writes exactly slots 0 .. count - 1 |
| JkBms.TwentyFiveCellsOverflow | include/esphome/components/jk_bms/jk_bms.cpp:103-114 | a cell-length byte of 75 makes the unchecked loop write slot 24, one past `cells_[24]`, and the corrected decoder refuses that frame |

## Left out

- The UART driver (ESP-IDF calls, the mutex, the wall-clock timeouts) is not modelled. Input is the `input` field and `write_array` appends to the `output` log. Bytes arriving while a frame is processed are the `arriving` parameter of `Loop`.
- The two FreeRTOS tasks of `main/main.cpp`, their polling periods and the unlocked sharing of `JkBms` fields between them are not modelled. This is concurrency, not protocol logic.
- The data adapter is a closed datatype (`LibProtocolDispatch.Adapter`: none, mock, or the JK driver). It is not an open interface. The JK variant carries a snapshot (`JkBmsView`) of the driver's fields, taken when the adapter is set.
- Payload buffers are passed as values. `new`/`delete` ownership of the C arrays is not modelled.
- The `sizeof(pointer) != 4` guards of `send2BytesPayloadReply` and `send4BytesPayloadReply` are left out. They test the pointer size, which is 4 on the target, so they never fire.
- Logging (`ESP_LOG*`, `dump_config`, `setup`) is left out.
- The unused `dataLength` of `processReadDataFrame` is not modelled.
- Floating point is not modelled. All JK values stay in raw integer units (mV, 10 mV, 10 mA, degrees Celsius, percent). The getters' scalings are the integer equivalents with truncation:
  - ×0.001 and ×10;
  - +273.15 K;
  - ×1000 for capacity.
- The average cell voltage and `capacity_remaining_derived` have no model: they are float divisions and products. `JkBmsStatus.ScanCellsSum` models the sum behind the average, and power is the integer product of raw voltage and raw current.
- JkBms.JkGet: the out-of-range float-to-integer casts of the getters are modelled as wrap-around to 8, 16 or 32 bits. C leaves them undefined.
- The `errors_bitmask_alarm_*` constants are not defined in the files shown. They are the parameter `AlarmMasks` of the driver.
- `temperature_sensors_` is only written for sensors 1 and 2 (jk_bms.cpp:133-137). For sensor 0, or a sensor number from 3 up to `temperature_sensors_sensor_`, the source reads a slot that was never written or lies outside the array; the answer [0, 0] for those is the model's choice, not the source's. The read of slot -1 for sensor 0 is the third finding.
- `JkModbus` and `read_registers` are not defined in the files shown. The request they send is not modelled.
- The comment above `replyForBMSHardwareVersion` says 0x0004. The table maps hardware version at 0x0005, and the model follows the table. `LibProtocolDispatch.HardwareVersionAddress` states that 0x0004 gets no reply.
- JkBms.JkBms.OnStatusData: a frame too short for the fixed section, or with more than 24 cells, makes the source read or write out of bounds. The model leaves the driver unchanged for such a frame; see Findings.

## Findings

| source | as written | input that shows it | evidently intended | confidence | as-written member | corrected member |
|---|---|---|---|---|---|---|
| include/esphome/components/jk_bms/jk_bms.cpp:103-114 | the cell loop writes `cells_[i]` for every i < data[1] / 3, and `cells_` holds 24 cells | a status frame whose data[1] is 75 (25 cells) writes `cells_[24]`, one past the array | frames with more than 24 cells are refused | not executed | JkBms.TwentyFiveCellsOverflow | JkBmsStatus.DecodeStatus |
| include/esphome/components/jk_bms/jk_bms.cpp:632-634 | `getCellVoltageOrNull` tests `cellNumber <= cell_count_`, then reads `cells_[cellNumber - 1]` | cell number 0 passes the guard and reads slot -1 (the paged decoder never produces 0; a direct adapter call can) | 1 <= cellNumber <= cell_count_ | not executed | JkBms.CellGuardAsWritten | JkBms.InRangeReadsValidSlot |
| include/esphome/components/jk_bms/jk_bms.cpp:651-653 | `getTemperatureOfSensorOrNull` tests `temperatureSensorNumber <= temperature_sensors_sensor_`, then reads `temperature_sensors_[temperatureSensorNumber - 1]` | sensor number 0 passes the guard and reads slot -1 (the paged decoder never produces 0; a direct adapter call can) | 1 <= temperatureSensorNumber <= temperature_sensors_sensor_ | not executed | JkBms.SensorGuardAsWritten | JkBms.InRangeReadsValidSlot |
