/**
  The master side of the library, and master and slave talking to each other over RTU frames.
 */
module ModbusMaster {
  import opened ByteValues
  import opened RomBytes
  import opened ModbusBytes
  import opened ModbusPdu
  import opened RtuFrame
  import opened ModbusSlave

  /** One call of the data callback. */
  datatype Data = Data(kind: DataType, index: Word, value: Word, code: bv8, address: bv8)

  /** One call of the exception callback. */
  datatype Reported = Reported(address: bv8, code: bv8, exception: bv8)

  function Emissions(address: bv8, f: bv8, index: Word, values: seq<Word>): (data: seq<Data>)
    requires ReadFunction(f) && index + |values| <= 0x1_0000
    ensures |data| == |values|
  {
    seq<Data>(|values|, (i: int) requires 0 <= i < |values| => Data(ReadKind(f), index + i, values[i], f, address))
  }

  /** The response answers the read request. */
  predicate ReadAnswered(f: bv8, request: seq<bv8>, response: seq<bv8>) {
    && |request| == 5 && ReadFunction(f)
    && var index, count := ReadWord(request, 1), ReadWord(request, 3);
       && 0 < count <= MaxRead(f) && index + count <= 0x1_0000
       && |response| == 2 + DataLength(Bitwise(ReadKind(f)), count)
       && FromByte(response[1]) == |response| - 2
  }

  /** The values in a response that answers the request. */
  function Received(f: bv8, request: seq<bv8>, response: seq<bv8>): (values: seq<Word>)
    requires ReadAnswered(f, request, response)
    ensures |values| == ReadWord(request, 3) && ReadWord(request, 1) + |values| <= 0x1_0000
  {
    Values(Bitwise(ReadKind(f)), response[2..], ReadWord(request, 3))
  }

  predicate WriteAcknowledged(f: bv8, request: seq<bv8>, response: seq<bv8>) {
    && |response| == 5 && |request| > 6
    && var index, count := ReadWord(request, 1), ReadWord(request, 3);
       && 0 < count <= MaxWrite(f) && index + count <= 0x1_0000
       && |request| == 6 + DataLength(f == 15, count)
       && ReadWord(response, 1) == index && ReadWord(response, 3) == count
  }

  /** The response is one that the library accepts for the request. */
  predicate Accepted(request: seq<bv8>, response: seq<bv8>)
    requires request != [] && response != []
  {
    var f := response[0];
    || IsException(response)
    || (f == request[0]
        && (if ReadFunction(f) then ReadAnswered(f, request, response)
            else if f == 5 || f == 6 then Echoed(request, response)
            else if WritesMany(f) then WriteAcknowledged(f, request, response)
            else f == 22 && Repeated(request, response)))
  }

  predicate IsException(response: seq<bv8>) {
    |response| == 2 && response[0] & 0x80 != 0
  }

  // ---------------------------------------------------------------------------------------
  // Which error a response gives

  function ReadVerdict(f: bv8, request: seq<bv8>, response: seq<bv8>): (err: ErrorInfo)
    ensures err == Ok <==> ReadAnswered(f, request, response)
  {
    hide FromByte, ReadWord;
    if |request| != 5 then ErrorInfo.Request(LENGTH)
    else if |response| < 3 then ErrorInfo.Response(LENGTH)
    else if !ReadFunction(f) then General(FUNCTION)
    else
      var index, count := ReadWord(request, 1), ReadWord(request, 3);
      if count == 0 || count > MaxRead(f) then ErrorInfo.Request(COUNT)
      else if index + count > 0x1_0000 then ErrorInfo.Request(RANGE)
      else
        var expected := DataLength(Bitwise(ReadKind(f)), count);
        if FromByte(response[1]) != expected || |response| != expected + 2 then ErrorInfo.Response(LENGTH) else Ok
  }

  /** Functions 5 and 6: the response repeats register and value. */
  predicate Echoed(request: seq<bv8>, response: seq<bv8>) {
    |request| == |response| == 5 && request[1..] == response[1..]
  }

  function EchoVerdict(request: seq<bv8>, response: seq<bv8>): (err: ErrorInfo)
    ensures err == Ok <==> Echoed(request, response)
  {
    hide ReadWord;
    if |request| != 5 then ErrorInfo.Request(LENGTH)
    else if |response| != 5 then ErrorInfo.Response(LENGTH)
    else
      SameWords(request, response);
      if ReadWord(request, 1) != ReadWord(response, 1) then ErrorInfo.Response(INDEX)
      else if ReadWord(request, 3) != ReadWord(response, 3) then ErrorInfo.Response(VALUE)
      else Ok
  }

  function WriteVerdict(f: bv8, request: seq<bv8>, response: seq<bv8>): (err: ErrorInfo)
    ensures err == Ok <==> WriteAcknowledged(f, request, response)
  {
    hide ReadWord;
    if |request| < 7 then ErrorInfo.Request(LENGTH)
    else if |response| != 5 then ErrorInfo.Response(LENGTH)
    else
      var index, count := ReadWord(request, 1), ReadWord(request, 3);
      if index != ReadWord(response, 1) then ErrorInfo.Response(INDEX)
      else if count != ReadWord(response, 3) then ErrorInfo.Response(COUNT)
      else if count == 0 || count > MaxWrite(f) then ErrorInfo.Request(COUNT)
      else if |request| != 6 + DataLength(f == 15, count) then ErrorInfo.Request(LENGTH)
      else if index + count > 0x1_0000 then ErrorInfo.Request(RANGE)
      else Ok
  }

  /** Function 22: the response repeats the whole request. */
  predicate Repeated(request: seq<bv8>, response: seq<bv8>) {
    |request| == |response| == 7 && request == response
  }

  function MaskVerdict(request: seq<bv8>, response: seq<bv8>): (err: ErrorInfo)
    ensures err == Ok <==> Repeated(request, response)
  {
    if |request| != 7 then ErrorInfo.Request(LENGTH)
    else if |response| != 7 then ErrorInfo.Response(LENGTH)
    else if request != response then ErrorInfo.Response(OTHER)
    else Ok
  }

  predicate LegalPdu(pdu: seq<bv8>) {
    1 <= |pdu| <= 253
  }

  /** The error for a pair of PDUs; none exactly when the response is one to be accepted. */
  function Verdict(request: seq<bv8>, response: seq<bv8>): (err: ErrorInfo)
    ensures err == Ok <==> LegalPdu(request) && LegalPdu(response) && Accepted(request, response)
  {
    hide ReadVerdict, EchoVerdict, WriteVerdict, MaskVerdict, ReadAnswered, WriteAcknowledged;
    if !LegalPdu(request) then ErrorInfo.Request(LENGTH)
    else if !LegalPdu(response) then ErrorInfo.Response(LENGTH)
    else if IsException(response) then Ok
    else if response[0] != request[0] then ErrorInfo.Response(FUNCTION)
    else FunctionVerdict(response[0], request, response)
  }

  /** The error that the handler for a function code gives. */
  function FunctionVerdict(f: bv8, request: seq<bv8>, response: seq<bv8>): (err: ErrorInfo)
    ensures err == Ok <==>
      if ReadFunction(f) then ReadAnswered(f, request, response)
      else if f == 5 || f == 6 then Echoed(request, response)
      else if WritesMany(f) then WriteAcknowledged(f, request, response)
      else f == 22 && Repeated(request, response)
  {
    hide ReadVerdict, EchoVerdict, WriteVerdict, MaskVerdict, ReadAnswered, WriteAcknowledged, Echoed, Repeated;
    if ReadFunction(f) then ReadVerdict(f, request, response)
    else if f == 5 || f == 6 then EchoVerdict(request, response)
    else if WritesMany(f) then WriteVerdict(f, request, response)
    else if f == 22 then MaskVerdict(request, response)
    else General(FUNCTION)
  }

  class Master {
    var data: array<bv8>
    var length: nat
    var emitted: seq<Data>
    var exceptions: seq<Reported>

    ghost predicate Valid()
      reads this
    {
      length == 0 || (length == data.Length && ADU_MIN <= length <= ADU_MAX)
    }

    constructor ()
      ensures Valid() && fresh(data) && length == 0 && emitted == [] && exceptions == []
    {
      data := new bv8[0];
      length := 0;
      emitted := [];
      exceptions := [];
    }

    ghost function Pdu(): seq<bv8>
      reads this, data
      requires Valid() && length != 0
    {
      data[PDU_OFFSET..length - 2]
    }

    /** modbusMasterAllocateRequest in RTU mode; `memory` says whether the allocator succeeds. */
    method AllocateRequest(pduSize: nat, memory: bool) returns (ok: bool)
      requires 0 < pduSize <= 253
      modifies this`data, this`length
      ensures Valid() && ok == memory
      ensures (ok ==> fresh(data) && length == pduSize + ADU_PADDING) && (!ok ==> length == 0)
      ensures !ok ==> data == old(data)
    {
      if memory {
        length := pduSize + ADU_PADDING;
        data := new bv8[length];
      } else {
        length := 0;
      }
      ok := memory;
    }

    method Put(at: nat, b: bv8)
      requires Valid() && at + ADU_PADDING < length
      modifies data
      ensures Pdu() == old(Pdu())[at := b]
    {
      data[PDU_OFFSET + at] := b;
    }

    method PutWord(at: nat, w: Word)
      requires Valid() && at + 1 + ADU_PADDING < length
      modifies data
      ensures Pdu() == old(Pdu())[at := WordBytes(w)[0]][at + 1 := WordBytes(w)[1]]
    {
      hide ToByte;
      Put(at, ToByte(w / 256));
      Put(at + 1, ToByte(w % 256));
    }

    method BuildRequest01020304(f: bv8, index: Word, count: Word, memory: bool) returns (err: ErrorInfo)
      modifies this`data, this`length
      ensures err ==
        if !ReadFunction(f) then General(FUNCTION)
        else if count == 0 || count > MaxRead(f) then General(COUNT)
        else if index + count > 0x1_0000 then General(RANGE)
        else if !memory then General(ALLOC)
        else Ok
      ensures err == Ok ==> Valid() && length != 0 && fresh(data) && Pdu() == ShortPdu(f, index, count)
      ensures err == Ok ==>
        && Pdu()[0] == f && FromByte(Pdu()[1]) == index / 256 && FromByte(Pdu()[2]) == index % 256
        && FromByte(Pdu()[3]) == count / 256 && FromByte(Pdu()[4]) == count % 256
    {
      hide ToByte, FromByte;
      ShortPduBytes(f, index, count);
      if !ReadFunction(f) {
        return General(FUNCTION);
      }
      if count == 0 || count > MaxRead(f) {
        return General(COUNT);
      }
      if CheckRange(index, count) {
        return General(RANGE);
      }
      var ok := AllocateRequest(5, memory);
      if !ok {
        return General(ALLOC);
      }
      Put(0, f);
      PutWord(1, index);
      PutWord(3, count);
      return Ok;
    }

    method BuildRequest0506(f: bv8, index: Word, value: Word, memory: bool) returns (err: ErrorInfo)
      modifies this`data, this`length
      ensures err == if f != 5 && f != 6 then General(FUNCTION) else if !memory then General(ALLOC) else Ok
      ensures err == Ok ==>
        && Valid() && length != 0 && fresh(data)
        && Pdu() == ShortPdu(f, index, if f == 5 then (if value != 0 then 0xFF00 else 0) else value)
      ensures err == Ok ==>
        && Pdu()[0] == f && FromByte(Pdu()[1]) == index / 256 && FromByte(Pdu()[2]) == index % 256
        && FromByte(Pdu()[3]) == (if f == 6 then value / 256 else if value == 0 then 0 else 255)
        && FromByte(Pdu()[4]) == (if f == 6 then value % 256 else 0)
    {
      hide ToByte, FromByte;
      ShortPduBytes(f, index, if f == 5 then (if value != 0 then 0xFF00 else 0) else value);
      if f != 5 && f != 6 {
        return General(FUNCTION);
      }
      var v := if f == 5 then (if value != 0 then 0xFF00 else 0) else value;
      var ok := AllocateRequest(5, memory);
      if !ok {
        return General(ALLOC);
      }
      Put(0, f);
      PutWord(1, index);
      PutWord(3, v);
      return Ok;
    }

    /** The data bytes behind function, index, count and length. */
    ghost function Payload(): seq<bv8>
      reads this, data
      requires Valid() && length >= 6 + ADU_PADDING
    {
      data[PDU_OFFSET + 6..length - 2]
    }

    method PutPayload(at: nat, b: bv8)
      requires Valid() && at + 6 + ADU_PADDING < length
      modifies data
      ensures Payload() == old(Payload())[at := b]
    {
      data[PDU_OFFSET + 6 + at] := b;
    }

    method PutWriteHeader(f: bv8, index: Word, count: Word, dataLength: nat)
      requires Valid() && dataLength < 256 && length == 6 + dataLength + ADU_PADDING
      modifies data
      ensures Pdu() == WritePdu(f, index, count, old(Payload()))
    {
      hide ToByte;
      ghost var payload := Payload();
      assert Pdu()[6..] == payload;
      Put(0, f);
      PutWord(1, index);
      PutWord(3, count);
      Put(5, ToByte(dataLength));
      assert Pdu()[6..] == payload;
    }

    /** The first `count` bits of `values`, with zero padding. */
    method BuildRequest15(index: Word, count: Word, values: seq<bv8>, memory: bool)
      returns (err: ErrorInfo, ghost payload: seq<bv8>)
      requires BitsToBytes(count) <= |values|
      modifies this`data, this`length
      ensures err ==
        if count == 0 || count > 1968 then General(COUNT)
        else if index + count > 0x1_0000 then General(RANGE)
        else if !memory then General(ALLOC)
        else Ok
      ensures err == Ok ==>
        && Valid() && length != 0 && fresh(data)
        && HoldsBits(payload, FirstBits(values, count)) && |payload| <= 246
        && Pdu() == WritePdu(15, index, count, payload)
      ensures err == Ok ==>
        HeadBytes(Pdu(), 15, index, count, |payload|) && Pdu()[6..] == payload && CutOff(payload, values, count)
    {
      hide ToByte, HoldsBits, FirstBits, WritePdu, HeadBytes, CutOff;
      payload := [];
      if count == 0 || count > 1968 {
        return General(COUNT), [];
      }
      if CheckRange(index, count) {
        return General(RANGE), [];
      }
      var dataLength := BitsToBytes(count);
      var ok := AllocateRequest(6 + dataLength, memory);
      if !ok {
        return General(ALLOC), [];
      }
      PutBits(values, count);
      payload := Payload();
      WritePduBytes(15, index, count, payload);
      PutWriteHeader(15, index, count, dataLength);
      return Ok, payload;
    }

    /** The bits go into the payload: the whole bytes, then the rest one by one. */
    method PutBits(values: seq<bv8>, count: nat)
      requires BitsToBytes(count) <= |values| && Valid() && length == 6 + BitsToBytes(count) + ADU_PADDING
      modifies data
      ensures HoldsBits(Payload(), FirstBits(values, count)) && CutOff(Payload(), values, count)
    {
      hide HoldsBits, LowBits, FirstBits, CutOff;
      var n, r := count / 8, count % 8;
      PutBytes(values[..n]);
      if r != 0 {
        PutPayload(n, 0);
        PutLastBits(n, r, values[n]);
      }
      PaddedBits(Payload(), values, count);
    }

    method PutBytes(bytes: seq<bv8>)
      requires Valid() && length >= 6 + |bytes| + ADU_PADDING
      modifies data
      ensures Payload()[..|bytes|] == bytes
    {
      var i := 0;
      while i < |bytes|
        invariant i <= |bytes| && Payload()[..i] == bytes[..i]
      {
        PutPayload(i, bytes[i]);
        i := i + 1;
      }
    }

    /** Copies the low `r` bits of `v` into the cleared byte `n`. */
    method PutLastBits(n: nat, r: nat, v: bv8)
      requires Valid() && n + 6 + ADU_PADDING < length && r <= 8 && Payload()[n] == 0
      modifies data
      ensures Payload() == old(Payload())[n := Payload()[n]] && LowBits(Payload()[n], v, r)
    {
      hide Bit, WithBit, LowBits;
      NoLowBits(v);
      var i := 0;
      while i < r
        invariant i <= r && Payload() == old(Payload())[n := Payload()[n]] && LowBits(Payload()[n], v, i)
      {
        var b := data[PDU_OFFSET + 6 + n];
        assert b == Payload()[n];
        LastByte(b, v, i);
        PutPayload(n, WithBit(b, i, Bit(v, i)));
        i := i + 1;
      }
    }

    method BuildRequest16(index: Word, count: Word, values: seq<Word>, memory: bool)
      returns (err: ErrorInfo, ghost payload: seq<bv8>)
      requires count <= |values|
      modifies this`data, this`length
      ensures err ==
        if count == 0 || count > 123 then General(COUNT)
        else if index + count > 0x1_0000 then General(RANGE)
        else if !memory then General(ALLOC)
        else Ok
      ensures err == Ok ==>
        && Valid() && length != 0 && fresh(data)
        && HoldsWords(payload, values[..count]) && |payload| <= 246
        && Pdu() == WritePdu(16, index, count, payload)
      ensures err == Ok ==>
        && HeadBytes(Pdu(), 16, index, count, 2 * count) && Pdu()[6..] == payload && |payload| == 2 * count
        && forall k: nat :: k < count ==>
             FromByte(payload[2 * k]) == values[k] / 256 && FromByte(payload[2 * k + 1]) == values[k] % 256
    {
      hide ToByte, ReadWord, FromByte, WritePdu, HeadBytes;
      payload := [];
      if count == 0 || count > 123 {
        return General(COUNT), [];
      }
      if CheckRange(index, count) {
        return General(RANGE), [];
      }
      var dataLength := 2 * count;
      var ok := AllocateRequest(6 + dataLength, memory);
      if !ok {
        return General(ALLOC), [];
      }
      var i := 0;
      while i < count
        invariant i <= count && Valid() && length == 6 + dataLength + ADU_PADDING && fresh(data)
        invariant Filled(false, Payload(), values[..i])
      {
        FillWord(Payload(), values[..i], values[i]);
        PutPayload(2 * i, ToByte(values[i] / 256));
        PutPayload(2 * i + 1, ToByte(values[i] % 256));
        assert values[..i + 1] == values[..i] + [values[i]];
        i := i + 1;
      }
      payload := Payload();
      PutWriteHeader(16, index, count, dataLength);
      WritePduBytes(16, index, count, payload);
      WordsHighFirst(payload, values[..count]);
      return Ok, payload;
    }

    method BuildRequest22(index: Word, andMask: Word, orMask: Word, memory: bool) returns (err: ErrorInfo)
      modifies this`data, this`length
      ensures err == if memory then Ok else General(ALLOC)
      ensures err == Ok ==>
        && Valid() && length != 0 && fresh(data)
        && Pdu() == [22] + WordBytes(index) + WordBytes(andMask) + WordBytes(orMask)
      ensures err == Ok ==>
        && |Pdu()| == 7 && Pdu()[0] == 22 && FromByte(Pdu()[1]) == index / 256 && FromByte(Pdu()[2]) == index % 256
        && FromByte(Pdu()[3]) == andMask / 256 && FromByte(Pdu()[4]) == andMask % 256
        && FromByte(Pdu()[5]) == orMask / 256 && FromByte(Pdu()[6]) == orMask % 256
    {
      hide ToByte, FromByte;
      HighFirst(index);
      HighFirst(andMask);
      HighFirst(orMask);
      var ok := AllocateRequest(7, memory);
      if !ok {
        return General(ALLOC);
      }
      Put(0, 22);
      PutWord(1, index);
      PutWord(3, andMask);
      PutWord(5, orMask);
      return Ok;
    }

    /** modbusEndRequestRTU; a request that was not allocated has no legal length. */
    method EndRequestRTU(address: bv8) returns (err: ErrorInfo)
      requires Valid()
      modifies data
      ensures err == if length == 0 then General(LENGTH) else Ok
      ensures length == 0 ==> data[..] == old(data[..])
      ensures length != 0 ==> Unpack(data[..length], true) == Frame(address, old(Pdu()))
    {
      hide Unpack, Pack;
      if length == 0 {
        var packed := PackRTU(data, length, address);
        return General(LENGTH);
      }
      assert data[..length][PDU_OFFSET..length - 2] == Pdu();
      PackThenUnpack(data[..length], address);
      ghost var packed := Pack(data[..length], address);
      var ok := PackRTU(data, length, address);
      assert data[..length] == packed;
      return Ok;
    }

    method ParseResponse01020304(address: bv8, f: bv8, request: seq<bv8>, response: seq<bv8>) returns (err: ErrorInfo)
      modifies this`emitted
      ensures err == ReadVerdict(f, request, response)
      ensures err != Ok ==> emitted == old(emitted)
      ensures err == Ok ==>
        emitted == old(emitted) + Emissions(address, f, ReadWord(request, 1), Received(f, request, response))
    {
      hide FromByte, ReadWord, ReadBit, Values, Emissions;
      if |request| != 5 {
        return ErrorInfo.Request(LENGTH);
      }
      if |response| < 3 {
        return ErrorInfo.Response(LENGTH);
      }
      if !ReadFunction(f) {
        return General(FUNCTION);
      }
      var index, count := ReadWord(request, 1), ReadWord(request, 3);
      if count == 0 || count > MaxRead(f) {
        return ErrorInfo.Request(COUNT);
      }
      if CheckRange(index, count) {
        return ErrorInfo.Request(RANGE);
      }
      var bitwise := Bitwise(ReadKind(f));
      var expected := DataLength(bitwise, count);
      if FromByte(response[1]) != expected || |response| != expected + 2 {
        return ErrorInfo.Response(LENGTH);
      }
      EmitAll(address, f, index, count, bitwise, response[2..]);
      return Ok;
    }

    /** Hands the values over in order. */
    method EmitAll(address: bv8, f: bv8, index: Word, count: nat, bitwise: bool, payload: seq<bv8>)
      requires ReadFunction(f) && index + count <= 0x1_0000 && |payload| == DataLength(bitwise, count)
      modifies this`emitted
      ensures emitted == old(emitted) + Emissions(address, f, index, Values(bitwise, payload, count))
    {
      hide ValueAt;
      ghost var all := Emissions(address, f, index, Values(bitwise, payload, count));
      var i := 0;
      while i < count
        invariant i <= count && emitted == old(emitted) + all[..i]
      {
        var d := Data(ReadKind(f), index + i, ValueAt(bitwise, payload, i), f, address);
        assert all[i] == d && all[..i + 1] == all[..i] + [d];
        emitted := emitted + [d];
        i := i + 1;
      }
      assert all[..i] == all;
    }

    method ParseResponse0506(request: seq<bv8>, response: seq<bv8>) returns (err: ErrorInfo)
      ensures err == EchoVerdict(request, response)
    {
      hide ReadWord;
      if |request| != 5 {
        return ErrorInfo.Request(LENGTH);
      }
      if |response| != 5 {
        return ErrorInfo.Response(LENGTH);
      }
      if ReadWord(request, 1) != ReadWord(response, 1) {
        return ErrorInfo.Response(INDEX);
      }
      if ReadWord(request, 3) != ReadWord(response, 3) {
        return ErrorInfo.Response(VALUE);
      }
      return Ok;
    }

    method ParseResponse1516(f: bv8, request: seq<bv8>, response: seq<bv8>) returns (err: ErrorInfo)
      ensures err == WriteVerdict(f, request, response)
    {
      hide ReadWord;
      if |request| < 7 {
        return ErrorInfo.Request(LENGTH);
      }
      if |response| != 5 {
        return ErrorInfo.Response(LENGTH);
      }
      var index, count := ReadWord(request, 1), ReadWord(request, 3);
      if index != ReadWord(response, 1) {
        return ErrorInfo.Response(INDEX);
      }
      if count != ReadWord(response, 3) {
        return ErrorInfo.Response(COUNT);
      }
      if count == 0 || count > MaxWrite(f) {
        return ErrorInfo.Request(COUNT);
      }
      if |request| != DataLength(f == 15, count) + 6 {
        return ErrorInfo.Request(LENGTH);
      }
      if CheckRange(index, count) {
        return ErrorInfo.Request(RANGE);
      }
      return Ok;
    }

    method ParseResponse22(request: seq<bv8>, response: seq<bv8>) returns (err: ErrorInfo)
      ensures err == MaskVerdict(request, response)
    {
      if |request| != 7 {
        return ErrorInfo.Request(LENGTH);
      }
      if |response| != 7 {
        return ErrorInfo.Response(LENGTH);
      }
      var ok, i := true, 0;
      while ok && i < 7
        invariant i <= 7 && (ok <==> request[..i] == response[..i])
      {
        ok := ok && response[i] == request[i];
        i := i + 1;
      }
      if !ok {
        return ErrorInfo.Response(OTHER);
      }
      return Ok;
    }

    /** What the callbacks are told about an accepted response. */
    method ParseResponsePDU(address: bv8, request: seq<bv8>, response: seq<bv8>) returns (err: ErrorInfo)
      modifies this`emitted, this`exceptions
      ensures err == Verdict(request, response)
      ensures exceptions == old(exceptions) + Exceptions(address, request, response)
      ensures emitted == old(emitted) + Emitted(address, request, response)
    {
      hide FromByte, ReadWord, ReadAnswered, WriteAcknowledged, Received, Emissions, Echoed, Repeated,
        ReadVerdict, EchoVerdict, WriteVerdict, MaskVerdict;
      if |request| == 0 || |request| > 253 {
        return ErrorInfo.Request(LENGTH);
      }
      if |response| == 0 || |response| > 253 {
        return ErrorInfo.Response(LENGTH);
      }
      var f := response[0];
      if f & 0x80 != 0 && |response| == 2 {
        exceptions := exceptions + [Reported(address, f & 0x7F, response[1])];
        return Ok;
      }
      if f != request[0] {
        return ErrorInfo.Response(FUNCTION);
      }
      err := Dispatch(address, f, request, response);
    }

    /** Runs the first handler registered for the function code. */
    method Dispatch(address: bv8, f: bv8, request: seq<bv8>, response: seq<bv8>) returns (err: ErrorInfo)
      modifies this`emitted
      ensures err == FunctionVerdict(f, request, response)
      ensures emitted == old(emitted) +
        if err == Ok && ReadFunction(f) then
          Emissions(address, f, ReadWord(request, 1), Received(f, request, response))
        else []
    {
      hide FromByte, ReadWord, ReadAnswered, WriteAcknowledged, Received, Emissions, Echoed, Repeated,
        ReadVerdict, EchoVerdict, WriteVerdict, MaskVerdict;
      var i := 0;
      while i < |FUNCTIONS|
        invariant i <= |FUNCTIONS| && emitted == old(emitted)
        invariant forall k :: 0 <= k < i ==> FUNCTIONS[k].0 != f
      {
        if FUNCTIONS[i].0 == f {
          match FUNCTIONS[i].1 {
            case ReadMany => err := ParseResponse01020304(address, f, request, response);
            case WriteSingle => err := ParseResponse0506(request, response);
            case WriteMany => err := ParseResponse1516(f, request, response);
            case MaskWrite => err := ParseResponse22(request, response);
          }
          return;
        }
        i := i + 1;
      }
      NoHandler(f);
      return General(FUNCTION);
    }

    /** Frames that are broken, or not the answer of the station asked, call nothing back. */
    method ParseResponseRTU(request: array<bv8>, requestLength: nat, response: array<bv8>, responseLength: nat)
      returns (err: ErrorInfo)
      requires requestLength <= request.Length && responseLength <= response.Length
      modifies this`emitted, this`exceptions
      ensures var q, r := Unpack(request[..requestLength], true), Unpack(response[..responseLength], true);
        if q.Frame? && r.Frame? && q.address != 0 && q.address == r.address then
          && LegalPdu(q.pdu) && LegalPdu(r.pdu) && err == Verdict(q.pdu, r.pdu)
          && exceptions == old(exceptions) + Exceptions(q.address, q.pdu, r.pdu)
          && emitted == old(emitted) + Emitted(q.address, q.pdu, r.pdu)
        else
          && emitted == old(emitted) && exceptions == old(exceptions)
          && err == (if q.Rejected? then ErrorInfo.Request(q.error)
                     else if r.Rejected? then ErrorInfo.Response(r.error)
                     else ErrorInfo.Response(ADDRESS))
    {
      hide Unpack, Verdict, Exceptions, Emitted;
      var q := UnpackRTU(request, requestLength, true);
      UnpackLengths(request[..requestLength], true);
      if q.Rejected? {
        return ErrorInfo.Request(q.error);
      }
      var r := UnpackRTU(response, responseLength, true);
      UnpackLengths(response[..responseLength], true);
      if r.Rejected? {
        return ErrorInfo.Response(r.error);
      }
      if q.address == 0 || q.address != r.address {
        return ErrorInfo.Response(ADDRESS);
      }
      err := ParseResponsePDU(q.address, q.pdu, r.pdu);
    }
  }

  /** The exception a pair of PDUs reports, if any. */
  function Exceptions(address: bv8, request: seq<bv8>, response: seq<bv8>): seq<Reported> {
    if LegalPdu(request) && IsException(response) then [Reported(address, response[0] & 0x7F, response[1])] else []
  }

  /** The data a pair of PDUs hands over: the values of an answered read. */
  function Emitted(address: bv8, request: seq<bv8>, response: seq<bv8>): seq<Data> {
    if Verdict(request, response) == Ok && !IsException(response) && ReadFunction(response[0]) then
      Emissions(address, response[0], ReadWord(request, 1), Received(response[0], request, response))
    else []
  }

  function FirstBits(values: seq<bv8>, count: nat): (bits: seq<bool>)
    requires BitsToBytes(count) <= |values|
    ensures |bits| == count
  {
    seq(count, (i: int) requires 0 <= i < count => ReadBit(values, i))
  }

  /** The first `n` bits are those of `v`; the others are zero. */
  ghost predicate LowBits(b: bv8, v: bv8, n: nat) {
    forall k: nat :: k < 8 ==> Bit(b, k) == (k < n && Bit(v, k))
  }

  lemma NoLowBits(v: bv8)
    ensures LowBits(0, v, 0)
  {
    hide Bit;
    ZeroByte(0);
  }

  /** One more bit of the last, partial byte. */
  lemma LastByte(b: bv8, v: bv8, i: nat)
    requires i < 8 && LowBits(b, v, i)
    ensures LowBits(WithBit(b, i, Bit(v, i)), v, i + 1)
  {
    hide Bit, WithBit;
    var after := WithBit(b, i, Bit(v, i));
    forall k: nat | k < 8 ensures Bit(after, k) == (k < i + 1 && Bit(v, k)) {
      WithBitAt(b, i, Bit(v, i), k);
    }
  }

  /** Function, index, count and length of a request to write many values. */
  ghost predicate HeadBytes(pdu: seq<bv8>, f: bv8, index: nat, count: nat, length: nat) {
    && |pdu| == 6 + length && pdu[0] == f
    && FromByte(pdu[1]) == index / 256 && FromByte(pdu[2]) == index % 256
    && FromByte(pdu[3]) == count / 256 && FromByte(pdu[4]) == count % 256 && FromByte(pdu[5]) == length
  }

  lemma WritePduBytes(f: bv8, index: Word, count: Word, data: seq<bv8>)
    requires |data| < 256
    ensures HeadBytes(WritePdu(f, index, count, data), f, index, count, |data|)
    ensures WritePdu(f, index, count, data)[6..] == data
  {
    hide ToByte, FromByte;
    ShortPduBytes(f, index, count);
    ByteBack(|data|);
    var short := ShortPdu(f, index, count);
    assert WritePdu(f, index, count, data)[..5] == short;
  }

  lemma WordsHighFirst(data: seq<bv8>, words: seq<Word>)
    requires HoldsWords(data, words)
    ensures |data| == 2 * |words|
    ensures forall k: nat :: k < |words| ==>
      FromByte(data[2 * k]) == words[k] / 256 && FromByte(data[2 * k + 1]) == words[k] % 256
  {
    hide FromByte, ReadWord;
    forall k: nat | k < |words|
      ensures FromByte(data[2 * k]) == words[k] / 256 && FromByte(data[2 * k + 1]) == words[k] % 256
    {
      assert ReadWord(data, 2 * k) == words[k];
      ReadHighFirst(data, 2 * k);
    }
  }

  /** `payload` is the bytes of `values`, the last with all bits from the `count`-th on cleared. */
  ghost predicate CutOff(payload: seq<bv8>, values: seq<bv8>, count: nat) {
    && |payload| == (count + 7) / 8 <= |values|
    && var n, r := count / 8, count % 8;
       && payload[..n] == values[..n]
       && (r != 0 ==> payload[n] == values[n] & (0xFF >> (8 - r)))
  }

  /** The low `n` bits of a byte are the byte with the others cleared. */
  lemma LowBitsMask(b: bv8, v: bv8, n: nat)
    requires 0 < n < 8 && LowBits(b, v, n)
    ensures b == v & (0xFF >> (8 - n))
  {
    hide Bit;
    forall k: nat | k < 8 ensures Bit(b, k) == Bit(v & (0xFF >> (8 - n)), k) {
      MaskedBit(v, n, k);
    }
    SameByte(b, v & (0xFF >> (8 - n)));
  }

  lemma MaskedBit(v: bv8, n: nat, k: nat)
    requires 0 < n < 8 && k < 8
    ensures Bit(v & (0xFF >> (8 - n)), k) == (k < n && Bit(v, k))
  {
  }

  lemma PaddedBits(payload: seq<bv8>, values: seq<bv8>, count: nat)
    requires |payload| == BitsToBytes(count) <= |values|
    requires payload[..count / 8] == values[..count / 8]
    requires count % 8 != 0 ==> LowBits(payload[count / 8], values[count / 8], count % 8)
    ensures HoldsBits(payload, FirstBits(values, count)) && CutOff(payload, values, count)
  {
    hide Bit, LowBits;
    if count % 8 != 0 {
      LowBitsMask(payload[count / 8], values[count / 8], count % 8);
    }
    PaddedHolds(payload, values, count);
  }

  lemma PaddedHolds(payload: seq<bv8>, values: seq<bv8>, count: nat)
    requires |payload| == BitsToBytes(count) <= |values|
    requires payload[..count / 8] == values[..count / 8]
    requires count % 8 != 0 ==> LowBits(payload[count / 8], values[count / 8], count % 8)
    ensures HoldsBits(payload, FirstBits(values, count))
  {
    hide Bit;
    forall k: nat | k < 8 * |payload| ensures ReadBit(payload, k) == (k < count && FirstBits(values, count)[k]) {
      if k / 8 < count / 8 {
        assert payload[k / 8] == payload[..count / 8][k / 8] == values[k / 8];
      } else {
        assert k / 8 == count / 8;
        assert ReadBit(payload, k) == Bit(payload[count / 8], k % 8);
      }
    }
  }

  lemma SameWords(s: seq<bv8>, t: seq<bv8>)
    requires |s| == |t| == 5
    ensures s[1..] == t[1..] <==> ReadWord(s, 1) == ReadWord(t, 1) && ReadWord(s, 3) == ReadWord(t, 3)
  {
    hide ReadWord;
    SameWord(s, t, 1);
    SameWord(s, t, 3);
    var x, y := s[1..], t[1..];
    assert x == y <==> x[0] == y[0] && x[1] == y[1] && x[2] == y[2] && x[3] == y[3];
  }

  // ---------------------------------------------------------------------------------------
  // Errors told by bytes

  lemma SameWord(s: seq<bv8>, t: seq<bv8>, at: nat)
    requires at + 1 < |s| && at + 1 < |t|
    ensures ReadWord(s, at) == ReadWord(t, at) <==> s[at] == t[at] && s[at + 1] == t[at + 1]
  {
    hide ReadWord, WordBytes;
    WordBytesOf(s, at);
    WordBytesOf(t, at);
    if ReadWord(s, at) == ReadWord(t, at) {
      assert [s[at], s[at + 1]][0] == [t[at], t[at + 1]][0] && [s[at], s[at + 1]][1] == [t[at], t[at + 1]][1];
    }
    if s[at] == t[at] && s[at + 1] == t[at + 1] {
      SameWordIn(s, t, at);
    }
  }

  /** Which error a response to a single write gives: a differing register is INDEX, a differing value VALUE. */
  lemma EchoErrors(request: seq<bv8>, response: seq<bv8>)
    requires LegalPdu(request) && LegalPdu(response) && (request[0] == 5 || request[0] == 6)
    requires response[0] == request[0]
    ensures var err := Verdict(request, response);
      if |request| != 5 then err == ErrorInfo.Request(LENGTH)
      else if |response| != 5 then err == ErrorInfo.Response(LENGTH)
      else if request[1] != response[1] || request[2] != response[2] then err == ErrorInfo.Response(INDEX)
      else if request[3] != response[3] || request[4] != response[4] then err == ErrorInfo.Response(VALUE)
      else err == Ok
  {
    hide ReadWord;
    NotException(response);
    if |request| == 5 && |response| == 5 {
      SameWord(request, response, 1);
      SameWord(request, response, 3);
    }
  }

  lemma NotException(response: seq<bv8>)
    requires response != [] && response[0] < 0x80
    ensures !IsException(response)
  {
  }

  /** A multiple write: a differing register is INDEX, a differing count COUNT; then the request is checked. */
  lemma WriteErrors(request: seq<bv8>, response: seq<bv8>)
    requires LegalPdu(request) && LegalPdu(response) && (request[0] == 15 || request[0] == 16)
    requires response[0] == request[0]
    ensures var err := Verdict(request, response);
      if |request| < 7 then err == ErrorInfo.Request(LENGTH)
      else if |response| != 5 then err == ErrorInfo.Response(LENGTH)
      else if request[1] != response[1] || request[2] != response[2] then err == ErrorInfo.Response(INDEX)
      else if request[3] != response[3] || request[4] != response[4] then err == ErrorInfo.Response(COUNT)
      else
        var index := 256 * FromByte(request[1]) + FromByte(request[2]);
        var count := 256 * FromByte(request[3]) + FromByte(request[4]);
        if count == 0 || count > (if request[0] == 15 then 1968 else 123) then err == ErrorInfo.Request(COUNT)
        else if |request| != 6 + (if request[0] == 15 then (count + 7) / 8 else 2 * count) then
          err == ErrorInfo.Request(LENGTH)
        else if index + count > 65536 then err == ErrorInfo.Request(RANGE)
        else err == Ok
  {
    hide FromByte;
    NotException(response);
    if |request| >= 7 && |response| == 5 {
      SameWord(request, response, 1);
      SameWord(request, response, 3);
    }
  }

  /** A read. */
  lemma ReadErrors(request: seq<bv8>, response: seq<bv8>)
    requires LegalPdu(request) && LegalPdu(response) && response[0] == request[0]
    requires request[0] == 1 || request[0] == 2 || request[0] == 3 || request[0] == 4
    ensures var err := Verdict(request, response);
      if |request| != 5 then err == ErrorInfo.Request(LENGTH)
      else if |response| < 3 then err == ErrorInfo.Response(LENGTH)
      else
        var index := 256 * FromByte(request[1]) + FromByte(request[2]);
        var count := 256 * FromByte(request[3]) + FromByte(request[4]);
        var bits := request[0] == 1 || request[0] == 2;
        var size := if bits then (count + 7) / 8 else 2 * count;
        if count == 0 || count > (if bits then 2000 else 125) then err == ErrorInfo.Request(COUNT)
        else if index + count > 65536 then err == ErrorInfo.Request(RANGE)
        else if FromByte(response[1]) != size || |response| != 2 + size then err == ErrorInfo.Response(LENGTH)
        else err == Ok
  {
    hide FromByte;
    NotException(response);
  }

  /** A masked write, responses of another function, and exceptions. */
  lemma OtherErrors(request: seq<bv8>, response: seq<bv8>)
    requires LegalPdu(request) && LegalPdu(response)
    ensures |response| == 2 && response[0] >= 0x80 ==>
      && Verdict(request, response) == Ok
      && Exceptions(0, request, response) == [Reported(0, response[0] - 0x80, response[1])]
    ensures response[0] < 0x80 && response[0] != request[0] ==>
      Verdict(request, response) == ErrorInfo.Response(FUNCTION)
    ensures response[0] == request[0] == 22 ==>
      Verdict(request, response) == if |request| != 7 then ErrorInfo.Request(LENGTH)
                                    else if |response| != 7 then ErrorInfo.Response(LENGTH)
                                    else if request != response then ErrorInfo.Response(OTHER)
                                    else Ok
    ensures response[0] == request[0] < 0x80 && request[0] !in {1, 2, 3, 4, 5, 6, 15, 16, 22} ==>
      Verdict(request, response) == General(FUNCTION)
  {
    hide ReadVerdict, EchoVerdict, WriteVerdict;
    TopBit(response[0]);
  }

  lemma TopBit(b: bv8)
    ensures b & 0x80 != 0 <==> b >= 0x80
    ensures b >= 0x80 ==> b & 0x7F == b - 0x80
  {
  }

  /** What is handed over for an answered read: kind and number of each register, in order. */
  lemma EmittedIs(address: bv8, request: seq<bv8>, response: seq<bv8>, i: nat)
    requires Verdict(request, response) == Ok && response[0] == request[0] && |request| == 5
    requires request[0] == 1 || request[0] == 2 || request[0] == 3 || request[0] == 4
    requires i < 256 * FromByte(request[3]) + FromByte(request[4])
    ensures |Emitted(address, request, response)| == 256 * FromByte(request[3]) + FromByte(request[4])
    ensures var d := Emitted(address, request, response)[i];
      && d.kind == (match request[0] case 1 => COIL case 2 => DISCRETE_INPUT
                    case 3 => HOLDING_REGISTER case _ => INPUT_REGISTER)
      && d.index == 256 * FromByte(request[1]) + FromByte(request[2]) + i
      && d.code == request[0] && d.address == address
  {
    hide FromByte, Bit, Verdict, ReadKind, ValueAt;
    NotException(response);
    AnswersRead(request, response);
    ReadKinds(request[0]);
  }

  /** Its values are the bits of the response, from the low end of each byte, */
  lemma EmittedBits(address: bv8, request: seq<bv8>, response: seq<bv8>, i: nat)
    requires Verdict(request, response) == Ok && response[0] == request[0] && |request| == 5
    requires request[0] == 1 || request[0] == 2
    requires i < |Emitted(address, request, response)|
    ensures 2 + i / 8 < |response|
    ensures Emitted(address, request, response)[i].value == if DataBit(response[2..], i) then 1 else 0
  {
    hide FromByte, Bit, Verdict, ReadKind, ValueAt;
    NotException(response);
    AnswersRead(request, response);
    ReadKinds(request[0]);
    ValueAhead(request[0], response, i);
  }

  /** or its words, high byte first. */
  lemma EmittedWords(address: bv8, request: seq<bv8>, response: seq<bv8>, i: nat)
    requires Verdict(request, response) == Ok && response[0] == request[0] && |request| == 5
    requires request[0] == 3 || request[0] == 4
    requires i < |Emitted(address, request, response)|
    ensures 3 + 2 * i < |response|
    ensures Emitted(address, request, response)[i].value ==
      256 * FromByte(response[2 + 2 * i]) + FromByte(response[3 + 2 * i])
  {
    hide FromByte, Bit, Verdict, ReadKind, ValueAt;
    NotException(response);
    AnswersRead(request, response);
    ReadKinds(request[0]);
    ValueAhead(request[0], response, i);
  }

  lemma ValueAhead(f: bv8, response: seq<bv8>, i: nat)
    requires |response| >= 2 && ReadFunction(f) && (if f == 1 || f == 2 then 2 + i / 8 else 3 + 2 * i) < |response|
    ensures ValueAt(f == 1 || f == 2, response[2..], i) ==
      if f == 1 || f == 2 then (if DataBit(response[2..], i) then 1 else 0)
      else 256 * FromByte(response[2 + 2 * i]) + FromByte(response[3 + 2 * i])
  {
    hide FromByte, Bit;
    if f == 1 || f == 2 {
      DataBitIs(response[2..], i);
    } else {
      WordAhead(response, i);
    }
  }

  lemma AnswersRead(request: seq<bv8>, response: seq<bv8>)
    requires Verdict(request, response) == Ok && response[0] == request[0] && ReadFunction(request[0])
    ensures ReadAnswered(response[0], request, response)
  {
    hide ReadAnswered;
    NotException(response);
  }

  lemma WordAhead(response: seq<bv8>, i: nat)
    requires 3 + 2 * i < |response|
    ensures ReadWord(response[2..], 2 * i) == 256 * FromByte(response[2 + 2 * i]) + FromByte(response[3 + 2 * i])
  {
    hide FromByte;
  }
}
