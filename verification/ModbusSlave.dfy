/**
  What a slave does with a request: an independent description of its queries to the
  application and of its reply, request by request.
 */
module ModbusService {
  import opened ByteValues
  import opened RomBytes
  import opened ModbusPdu

  const ILLEGAL_FUNCTION: bv8 := 1
  const ILLEGAL_ADDRESS: bv8 := 2
  const ILLEGAL_VALUE: bv8 := 3
  const SLAVE_FAILURE: bv8 := 4

  /** The application: its answer to a query, given all the queries before it. */
  type Application = (seq<Args>, Args) -> Result

  predicate Refuses(r: Result) {
    r.fail || r.exception != 0
  }

  function RefusalCode(r: Result): bv8 {
    if r.fail then SLAVE_FAILURE else r.exception
  }

  /** The index of the first query that is refused, or their number. */
  function FirstRefused(app: Application, log: seq<Args>, args: seq<Args>, k: nat): (first: nat)
    requires k <= |args|
    ensures k <= first <= |args|
    decreases |args| - k
  {
    if k == |args| || Refuses(app(log + args[..k], args[k])) then k else FirstRefused(app, log, args, k + 1)
  }

  function Answers(app: Application, log: seq<Args>, args: seq<Args>): (values: seq<Word>)
    ensures |values| == |args|
  {
    seq<Word>(|args|, (i: int) requires 0 <= i < |args| => app(log + args[..i], args[i]).value)
  }

  lemma AnswersSnoc(app: Application, log: seq<Args>, args: seq<Args>, i: nat)
    requires i < |args|
    ensures Answers(app, log, args[..i + 1]) == Answers(app, log, args[..i]) + [app(log + args[..i], args[i]).value]
  {
    var longer := args[..i + 1];
    assert forall k :: 0 <= k <= i ==> longer[..k] == args[..k];
    assert forall k :: 0 <= k < i ==> args[..i][..k] == args[..k];
  }

  /** Refused: asked up to the first refusal, and answered with its exception. */
  ghost predicate Declined(app: Application, log: seq<Args>, checks: seq<Args>, f: bv8,
                           log': seq<Args>, reply: seq<bv8>)
  {
    var k := FirstRefused(app, log, checks, 0);
    && k < |checks| && log' == log + checks[..k + 1]
    && reply == Exception(f, RefusalCode(app(log + checks[..k], checks[k])))
  }

  predicate Granted(app: Application, log: seq<Args>, checks: seq<Args>) {
    FirstRefused(app, log, checks, 0) == |checks|
  }

  /** Functions 1 to 4: every register is asked about, then every register is read, in order. */
  ghost predicate ReadServed(app: Application, log: seq<Args>, pdu: seq<bv8>, log': seq<Args>, reply: seq<bv8>)
    requires pdu != [] && ReadFunction(pdu[0])
  {
    var f := pdu[0];
    if |pdu| != 5 then log' == log && reply == Exception(f, ILLEGAL_VALUE)
    else
      var index, count := ReadWord(pdu, 1), ReadWord(pdu, 3);
      if count == 0 || count > MaxRead(f) then log' == log && reply == Exception(f, ILLEGAL_VALUE)
      else if index + count > 0x1_0000 then log' == log && reply == Exception(f, ILLEGAL_ADDRESS)
      else
        var checks, queries := ReadArgs(R_CHECK, f, index, count), ReadArgs(R, f, index, count);
        || Declined(app, log, checks, f, log', reply)
        || (Granted(app, log, checks)
            && log' == log + checks + queries
            && ReadReply(f, Answers(app, log + checks, queries), reply))
  }

  ghost predicate ReadReply(f: bv8, values: seq<Word>, reply: seq<bv8>)
    requires ReadFunction(f)
  {
    && DataLength(Bitwise(ReadKind(f)), |values|) < 256
    && |reply| >= 2
    && reply[0] == f
    && reply[1] == ToByte(DataLength(Bitwise(ReadKind(f)), |values|))
    && Carries(Bitwise(ReadKind(f)), reply[2..], values)
  }

  /** A write of many values whose length field and count agree with its data. */
  predicate WriteFormed(f: bv8, pdu: seq<bv8>)
    requires pdu != []
  {
    hide FromByte, ReadWord;
    && |pdu| >= 7 && FromByte(pdu[5]) == |pdu| - 6
    && 0 < ReadWord(pdu, 3) <= MaxWrite(f) && |pdu| - 6 == DataLength(f == 15, ReadWord(pdu, 3))
  }

  /** The values in such a request. */
  function Requested(f: bv8, pdu: seq<bv8>): (values: seq<Word>)
    requires pdu != [] && WriteFormed(f, pdu)
    ensures |values| == ReadWord(pdu, 3)
  {
    hide FromByte, ReadWord, DataLength;
    Values(f == 15, pdu[6..], ReadWord(pdu, 3))
  }

  /** Functions 15 and 16: every write is asked about, then every write is made, in order. */
  ghost predicate WriteServed(app: Application, log: seq<Args>, pdu: seq<bv8>, log': seq<Args>, reply: seq<bv8>)
    requires pdu != [] && WritesMany(pdu[0])
  {
    hide WriteFormed, ReadWord, Requested;
    var f := pdu[0];
    if |pdu| < 5 || !WriteFormed(f, pdu) then log' == log && reply == Exception(f, ILLEGAL_VALUE)
    else
      var index, count := ReadWord(pdu, 1), ReadWord(pdu, 3);
      if index + count > 0x1_0000 then log' == log && reply == Exception(f, ILLEGAL_ADDRESS)
      else Written(app, log, f, index, Requested(f, pdu), log', reply, ShortPdu(f, index, count))
  }

  /** All the writes are asked about; then all are made, or none. */
  ghost predicate Written(app: Application, log: seq<Args>, f: bv8, index: Word, values: seq<Word>,
                          log': seq<Args>, reply: seq<bv8>, done: seq<bv8>)
    requires index + |values| <= 0x1_0000
  {
    var checks, writes := WriteArgs(W_CHECK, f, index, values), WriteArgs(W, f, index, values);
    || Declined(app, log, checks, f, log', reply)
    || (Granted(app, log, checks) && log' == log + checks + writes && reply == done)
  }

  /** Functions 5 and 6. A coil is written as 0 or 1, and only 0x0000 and 0xFF00 stand for one. */
  ghost predicate SingleServed(app: Application, log: seq<Args>, pdu: seq<bv8>, log': seq<Args>, reply: seq<bv8>)
    requires pdu != []
  {
    var f := pdu[0];
    if |pdu| != 5 || (f == 5 && ReadWord(pdu, 3) != 0 && ReadWord(pdu, 3) != 0xFF00) then
      log' == log && reply == Exception(f, ILLEGAL_VALUE)
    else
      Written(app, log, f, ReadWord(pdu, 1), [Carried(f == 5, ReadWord(pdu, 3))], log', reply, pdu)
  }

  function Masked(value: Word, andMask: Word, orMask: Word): Word {
    (((value as bv16) & (andMask as bv16)) | ((orMask as bv16) & !(andMask as bv16))) as nat
  }

  function HoldingArgs(query: Query, f: bv8, index: Word, value: Word): Args {
    Args(HOLDING_REGISTER, query, index, value, f)
  }

  /** Function 22: check and read the register, then check and write its masked value. */
  ghost predicate MaskServed(app: Application, log: seq<Args>, pdu: seq<bv8>, log': seq<Args>, reply: seq<bv8>)
    requires pdu != []
  {
    var f := pdu[0];
    if |pdu| != 7 then log' == log && reply == Exception(f, ILLEGAL_VALUE)
    else
      var index := ReadWord(pdu, 1);
      var checks := [HoldingArgs(R_CHECK, f, index, 0)];
      var read := HoldingArgs(R, f, index, 0);
      || Declined(app, log, checks, f, log', reply)
      || (Granted(app, log, checks)
          && var log2 := log + checks + [read];
          var value := Masked(app(log + checks, read).value, ReadWord(pdu, 3), ReadWord(pdu, 5));
          var checks2 := [HoldingArgs(W_CHECK, f, index, value)];
          || Declined(app, log2, checks2, f, log', reply)
          || (Granted(app, log2, checks2)
              && log' == log2 + checks2 + [HoldingArgs(W, f, index, value)] && reply == pdu))
  }

  ghost predicate Served(app: Application, log: seq<Args>, pdu: seq<bv8>, log': seq<Args>, reply: seq<bv8>)
    requires pdu != []
  {
    var f := pdu[0];
    if ReadFunction(f) then ReadServed(app, log, pdu, log', reply)
    else if f == 5 || f == 6 then SingleServed(app, log, pdu, log', reply)
    else if WritesMany(f) then WriteServed(app, log, pdu, log', reply)
    else if f == 22 then MaskServed(app, log, pdu, log', reply)
    else log' == log && reply == Exception(f, ILLEGAL_FUNCTION)
  }

  lemma {:induction false} NotRefusedBefore(app: Application, log: seq<Args>, args: seq<Args>, k: nat, n: nat)
    requires k <= n <= |args|
    requires forall j: nat :: k <= j < n ==> !Refuses(app(log + args[..j], args[j]))
    ensures FirstRefused(app, log, args, k) == FirstRefused(app, log, args, n)
    decreases n - k
  {
    hide Refuses;
    if k < n {
      NotRefusedBefore(app, log, args, k + 1, n);
    }
  }
}

/** The slave side of the library, as the firmware configures it: RTU mode and one static response buffer. */
module ModbusSlave {
  import opened ByteValues
  import opened RomBytes
  import opened ModbusPdu
  import opened ModbusService
  import opened ModbusBytes
  import opened RtuFrame

  datatype ErrorInfo = Ok | General(error: Error) | Request(error: Error) | Response(error: Error)

  datatype Handler = ReadMany | WriteSingle | WriteMany | MaskWrite

  const FUNCTIONS: seq<(bv8, Handler)> := [
    (1, ReadMany), (2, ReadMany), (3, ReadMany), (4, ReadMany),
    (5, WriteSingle), (6, WriteSingle), (15, WriteMany), (16, WriteMany), (22, MaskWrite)]

  class Slave {
    const app: Application
    var log: seq<Args>
    const resp: array<bv8>
    var length: nat

    ghost predicate Valid()
      reads this
    {
      resp.Length == ADU_MAX && (length == 0 || ADU_MIN <= length <= ADU_MAX)
    }

    constructor (app: Application)
      ensures Valid() && this.app == app && log == [] && length == 0 && fresh(resp)
    {
      this.app := app;
      log := [];
      resp := new bv8[ADU_MAX];
      length := 0;
    }

    /** The PDU of the response under construction. */
    ghost function Reply(): seq<bv8>
      reads this, resp
      requires Valid() && length != 0
    {
      resp[PDU_OFFSET..length - 2]
    }

    /** The register callback. */
    method Callback(args: Args) returns (r: Result)
      modifies this`log
      ensures r == app(old(log), args) && log == old(log) + [args]
    {
      r := app(log, args);
      log := log + [args];
    }

    /** modbusSlaveAllocateResponse with the firmware's allocator, which only has 256 bytes. */
    method AllocateResponse(pduSize: nat) returns (ok: bool)
      requires Valid()
      modifies this`length
      ensures Valid()
      ensures ok <==> pduSize + ADU_PADDING <= ADU_MAX
      ensures length == if pduSize == 0 || !ok then 0 else pduSize + ADU_PADDING
    {
      var size := if pduSize != 0 then pduSize + ADU_PADDING else 0;
      ok := size <= ADU_MAX;
      length := if ok then size else 0;
    }

    method Put(at: nat, b: bv8)
      requires Valid() && at + ADU_PADDING < length
      modifies resp
      ensures Reply() == old(Reply())[at := b]
    {
      resp[PDU_OFFSET + at] := b;
    }

    /** modbusWBE into the response. */
    method PutWord(at: nat, w: Word)
      requires Valid() && at + 1 + ADU_PADDING < length
      modifies resp
      ensures Reply() == old(Reply())[at := WordBytes(w)[0]][at + 1 := WordBytes(w)[1]]
    {
      hide ToByte;
      Put(at, ToByte(w / 256));
      Put(at + 1, ToByte(w % 256));
    }

    method BuildException(f: bv8, code: bv8) returns (err: ErrorInfo)
      requires Valid()
      modifies this`length, resp
      ensures Valid() && err == Ok && length != 0 && Reply() == Exception(f, code)
    {
      var ok := AllocateResponse(2);
      if !ok {
        return General(ALLOC);
      }
      Put(0, f | 0x80);
      Put(1, code);
      return Ok;
    }

    /** Asks about each register in turn, up to the first refusal. */
    method Check(args: seq<Args>) returns (refused: bool, code: bv8)
      modifies this`log
      ensures var k := FirstRefused(app, old(log), args, 0);
        if k < |args| then
          && refused && log == old(log) + args[..k + 1]
          && code == RefusalCode(app(old(log) + args[..k], args[k]))
        else !refused && log == old(log) + args
    {
      var i := 0;
      while i < |args|
        invariant i <= |args| && log == old(log) + args[..i]
        invariant forall j: nat :: j < i ==> !Refuses(app(old(log) + args[..j], args[j]))
      {
        var r := Callback(args[i]);
        assert args[..i + 1] == args[..i] + [args[i]];
        if r.fail {
          Stops(old(log), args, i);
          return true, SLAVE_FAILURE;
        }
        if r.exception != 0 {
          Stops(old(log), args, i);
          return true, r.exception;
        }
        i := i + 1;
      }
      NotRefusedBefore(app, old(log), args, 0, i);
      assert args[..i] == args;
      return false, 0;
    }

    lemma Stops(log: seq<Args>, args: seq<Args>, i: nat)
      requires i < |args| && Refuses(app(log + args[..i], args[i]))
      requires forall j: nat :: j < i ==> !Refuses(app(log + args[..j], args[j]))
      ensures FirstRefused(app, log, args, 0) == i
    {
      NotRefusedBefore(app, log, args, 0, i);
    }

    /** Functions 1 to 4. */
    method ParseRequest01020304(f: bv8, pdu: seq<bv8>) returns (err: ErrorInfo)
      requires Valid() && pdu != [] && pdu[0] == f && ReadFunction(f)
      modifies this`log, this`length, resp
      ensures Valid() && err == Ok && length != 0
      ensures ReadServed(app, old(log), pdu, log, Reply()) && ReadByBytes(app, old(log), pdu, log, Reply())
    {
      hide ToByte, FromByte, FirstRefused, Carries, ReadByBytes;
      ReadOutcomes(app, log, pdu);
      if |pdu| != 5 {
        err := BuildException(f, ILLEGAL_VALUE);
        return;
      }
      var maxCount, isCoilType := MaxRead(f), Bitwise(ReadKind(f));
      var index, count := ReadWord(pdu, 1), ReadWord(pdu, 3);
      if count == 0 || count > maxCount {
        err := BuildException(f, ILLEGAL_VALUE);
        return;
      }
      if CheckRange(index, count) {
        err := BuildException(f, ILLEGAL_ADDRESS);
        return;
      }
      var refused, code := Check(ReadArgs(R_CHECK, f, index, count));
      if refused {
        err := BuildException(f, code);
        return;
      }
      var dataLength := if isCoilType then BitsToBytes(count) else 2 * count;
      err := ReadReplied(f, isCoilType, index, count, dataLength);
    }

    method ReadReplied(f: bv8, isCoilType: bool, index: Word, count: nat, dataLength: nat) returns (err: ErrorInfo)
      requires Valid() && ReadFunction(f) && isCoilType == Bitwise(ReadKind(f)) && index + count <= 0x1_0000
      requires dataLength == DataLength(isCoilType, count) <= 250
      modifies this`log, this`length, resp
      ensures Valid() && err == Ok && length != 0
      ensures log == old(log) + ReadArgs(R, f, index, count)
      ensures ReadReply(f, Answers(app, old(log), ReadArgs(R, f, index, count)), Reply())
    {
      hide ToByte, Answers, Carries;
      var ok := AllocateResponse(2 + dataLength);
      if !ok {
        return General(ALLOC);
      }
      Put(0, f);
      Put(1, ToByte(dataLength));
      assert Head()[0] == Reply()[0] && Head()[1] == Reply()[1];
      ghost var values := ReadAll(f, isCoilType, index, count, dataLength);
      assert Reply() == Head() + Data();
      return Ok;
    }

    /** Makes each write in turn; the answers are ignored. */
    method WriteAll(f: bv8, index: Word, values: seq<Word>)
      requires index + |values| <= 0x1_0000
      modifies this`log
      ensures log == old(log) + WriteArgs(W, f, index, values)
    {
      ghost var args := WriteArgs(W, f, index, values);
      var i := 0;
      while i < |values|
        invariant i <= |values| && log == old(log) + args[..i]
      {
        var r := Callback(Args(WriteKind(f), W, index + i, values[i], f));
        assert args[..i + 1] == args[..i] + [args[i]];
        i := i + 1;
      }
      assert args[..i] == args;
    }

    method EchoWords(f: bv8, a: Word, b: Word) returns (err: ErrorInfo)
      requires Valid()
      modifies this`length, resp
      ensures Valid() && err == Ok && length != 0 && Reply() == ShortPdu(f, a, b)
    {
      hide ToByte;
      var ok := AllocateResponse(5);
      if !ok {
        return General(ALLOC);
      }
      Put(0, f);
      PutWord(1, a);
      PutWord(3, b);
      return Ok;
    }

    /** Functions 5 and 6. */
    method ParseRequest0506(f: bv8, pdu: seq<bv8>) returns (err: ErrorInfo)
      requires Valid() && pdu != [] && pdu[0] == f && (f == 5 || f == 6)
      modifies this`log, this`length, resp
      ensures Valid() && err == Ok && length != 0
      ensures SingleServed(app, old(log), pdu, log, Reply()) && SingleByBytes(app, old(log), pdu, log, Reply())
    {
      hide ToByte, FromByte, FirstRefused, ReadWord, SingleByBytes;
      SingleOutcomes(app, log, pdu);
      if |pdu| != 5 {
        err := BuildException(f, ILLEGAL_VALUE);
        return;
      }
      var index, value := ReadWord(pdu, 1), ReadWord(pdu, 3);
      if f == 5 && value != 0 && value != 0xFF00 {
        err := BuildException(f, ILLEGAL_VALUE);
        return;
      }
      var values := [Carried(f == 5, value)];
      var refused, code := Check(WriteArgs(W_CHECK, f, index, values));
      if refused {
        err := BuildException(f, code);
        return;
      }
      WriteAll(f, index, values);
      err := EchoWords(f, index, value);
      ShortPduOf(pdu);
    }

    /** Functions 15 and 16. */
    method ParseRequest1516(f: bv8, pdu: seq<bv8>) returns (err: ErrorInfo)
      requires Valid() && pdu != [] && pdu[0] == f && WritesMany(f) && |pdu| <= 253
      modifies this`log, this`length, resp
      ensures Valid() && err == Ok && length != 0
      ensures WriteServed(app, old(log), pdu, log, Reply()) && WriteByBytes(app, old(log), pdu, log, Reply())
    {
      hide ToByte, FromByte, FirstRefused, ReadWord, Values, WriteByBytes;
      WriteOutcomes(app, log, pdu);
      if |pdu| < 6 {
        err := BuildException(f, ILLEGAL_VALUE);
        return;
      }
      var index, count := ReadWord(pdu, 1), ReadWord(pdu, 3);
      var declaredLength := FromByte(pdu[5]);
      if declaredLength == 0 || declaredLength != |pdu| - 6 {
        err := BuildException(f, ILLEGAL_VALUE);
        return;
      }
      if count == 0 || count > MaxWrite(f) || declaredLength != DataLength(f == 15, count) {
        err := BuildException(f, ILLEGAL_VALUE);
        return;
      }
      if CheckRange(index, count) {
        err := BuildException(f, ILLEGAL_ADDRESS);
        return;
      }
      var values := Values(f == 15, pdu[6..], count);
      var refused, code := Check(WriteArgs(W_CHECK, f, index, values));
      if refused {
        err := BuildException(f, code);
        return;
      }
      WriteAll(f, index, values);
      err := EchoWords(f, index, count);
    }

    /** Function 22. */
    method ParseRequest22(f: bv8, pdu: seq<bv8>) returns (err: ErrorInfo)
      requires Valid() && pdu != [] && pdu[0] == f
      modifies this`log, this`length, resp
      ensures Valid() && err == Ok && length != 0
      ensures MaskServed(app, old(log), pdu, log, Reply()) && MaskByBytes(app, old(log), pdu, log, Reply())
    {
      hide ToByte, FromByte, FirstRefused, ReadWord, Masked, MaskByBytes;
      MaskOutcomes(app, log, pdu);
      if |pdu| != 7 {
        err := BuildException(f, ILLEGAL_VALUE);
        return;
      }
      var index, andMask, orMask := ReadWord(pdu, 1), ReadWord(pdu, 3), ReadWord(pdu, 5);
      var refused, code := Check([HoldingArgs(R_CHECK, f, index, 0)]);
      if refused {
        err := BuildException(f, code);
        return;
      }
      var r := Callback(HoldingArgs(R, f, index, 0));
      var value := Masked(r.value, andMask, orMask);
      refused, code := Check([HoldingArgs(W_CHECK, f, index, value)]);
      if refused {
        err := BuildException(f, code);
        return;
      }
      r := Callback(HoldingArgs(W, f, index, value));
      err := EchoThree(f, index, andMask, orMask);
      LongPduOf(pdu);
    }

    method EchoThree(f: bv8, a: Word, b: Word, c: Word) returns (err: ErrorInfo)
      requires Valid()
      modifies this`length, resp
      ensures Valid() && err == Ok && length != 0 && Reply() == [f] + WordBytes(a) + WordBytes(b) + WordBytes(c)
    {
      hide ToByte;
      var ok := AllocateResponse(7);
      if !ok {
        return General(ALLOC);
      }
      Put(0, f);
      PutWord(1, a);
      PutWord(3, b);
      PutWord(5, c);
      return Ok;
    }

    /** Runs the first handler registered for the function code. */
    method ParseRequest(pdu: seq<bv8>) returns (err: ErrorInfo)
      requires Valid() && 1 <= |pdu| <= 253
      modifies this`log, this`length, resp
      ensures Valid() && err == Ok && length != 0
      ensures Served(app, old(log), pdu, log, Reply()) && ByBytes(app, old(log), pdu, log, Reply())
    {
      hide ReadServed, WriteServed, SingleServed, MaskServed, ReadByBytes, WriteByBytes, SingleByBytes, MaskByBytes;
      var f := pdu[0];
      var i := 0;
      while i < |FUNCTIONS|
        invariant i <= |FUNCTIONS| && Valid() && log == old(log)
        invariant forall k :: 0 <= k < i ==> FUNCTIONS[k].0 != f
      {
        if FUNCTIONS[i].0 == f {
          match FUNCTIONS[i].1 {
            case ReadMany => err := ParseRequest01020304(f, pdu);
            case WriteSingle => err := ParseRequest0506(f, pdu);
            case WriteMany => err := ParseRequest1516(f, pdu);
            case MaskWrite => err := ParseRequest22(f, pdu);
          }
          return;
        }
        i := i + 1;
      }
      NoHandler(f);
      err := BuildException(f, ILLEGAL_FUNCTION);
    }

    /**
      modbusParseRequestRTU. A frame with a wrong length or CRC, or for another address, reaches
      no handler and leaves the old response as it was; every other frame is served, and its
      reply is packed unless the request was broadcast.
     */
    method ParseRequestRTU(slaveAddress: bv8, request: array<bv8>, requestLength: nat)
      returns (err: ErrorInfo, ghost reply: seq<bv8>)
      requires Valid() && requestLength <= request.Length && request != resp
      modifies this`log, this`length, resp
      ensures Valid()
      ensures match Unpack(request[..requestLength], true)
        case Rejected(error) =>
          err == ErrorInfo.Request(error) && log == old(log) && length == old(length) && resp[..] == old(resp[..])
        case Frame(address, pdu) =>
          if address != 0 && address != slaveAddress then
            err == ErrorInfo.Request(ADDRESS) && log == old(log) && length == old(length) && resp[..] == old(resp[..])
          else
            && err == Ok && pdu != [] && Served(app, old(log), pdu, log, reply)
            && ByBytes(app, old(log), pdu, log, reply)
            && (address == 0 ==> length == 0)
            && (address != 0 ==> Unpack(resp[..length], true) == Frame(slaveAddress, reply))
    {
      hide Served, ByBytes, Unpack;
      reply := [];
      var unpacked := UnpackRTU(request, requestLength, true);
      UnpackLengths(request[..requestLength], true);
      if unpacked.Rejected? {
        return ErrorInfo.Request(unpacked.error), [];
      }
      var requestAddress, pdu := unpacked.address, unpacked.pdu;
      if requestAddress != 0 && requestAddress != slaveAddress {
        return ErrorInfo.Request(ADDRESS), [];
      }
      err := ParseRequest(pdu);
      reply := Reply();
      if requestAddress == 0 {
        length := 0;
        return Ok, reply;
      }
      assert resp[..length][PDU_OFFSET..length - 2] == Reply();
      PackThenUnpack(resp[..length], slaveAddress);
      ghost var packed := Pack(resp[..length], slaveAddress);
      var ok := PackRTU(resp, length, slaveAddress);
      assert resp[..length] == packed;
    }

    /** The data bytes of the reply, behind function and length. */
    ghost function Data(): seq<bv8>
      reads this, resp
      requires Valid() && length >= 2 + ADU_PADDING
    {
      resp[PDU_OFFSET + 2..length - 2]
    }

    ghost function Head(): seq<bv8>
      reads this, resp
      requires Valid() && length >= 2 + ADU_PADDING
    {
      resp[PDU_OFFSET..PDU_OFFSET + 2]
    }

    method ClearData(dataLength: nat)
      requires Valid() && length == 2 + dataLength + ADU_PADDING
      modifies resp
      ensures Head() == old(Head()) && forall k :: 0 <= k < dataLength ==> Data()[k] == 0
    {
      var i := 0;
      while i < dataLength
        invariant i <= dataLength && Head() == old(Head())
        invariant forall k :: 3 <= k < i + 3 ==> resp[k] == 0
      {
        resp[PDU_OFFSET + 2 + i] := 0;
        i := i + 1;
      }
    }

    /** One value into its place in the data. */
    method PutValue(isCoilType: bool, i: nat, value: Word, ghost values: seq<Word>)
      requires Valid() && length >= 2 + ADU_PADDING && i == |values|
      requires if isCoilType then i < 8 * |Data()| else 2 * i + 1 < |Data()|
      requires Filled(isCoilType, Data(), values)
      modifies resp
      ensures Head() == old(Head()) && Filled(isCoilType, Data(), values + [value])
    {
      hide ToByte, Filled, WriteBit, ReadWord;
      if isCoilType {
        FillBit(Data(), values, value);
        PutBitAt(i, value != 0);
      } else {
        FillWord(Data(), values, value);
        PutData(2 * i, ToByte(value / 256));
        PutData(2 * i + 1, ToByte(value % 256));
      }
    }

    /** modbusMaskWrite into the data. */
    method PutBitAt(i: nat, value: bool)
      requires Valid() && length >= 2 + ADU_PADDING && i < 8 * |Data()|
      modifies resp
      ensures Head() == old(Head()) && Data() == WriteBit(old(Data()), i, value)
    {
      hide WithBit;
      var at := i / 8;
      var b := resp[PDU_OFFSET + 2 + at];
      PutData(at, WithBit(b, i % 8, value));
    }

    method PutData(at: nat, b: bv8)
      requires Valid() && at + 2 + ADU_PADDING < length
      modifies resp
      ensures Head() == old(Head()) && Data() == old(Data())[at := b]
    {
      resp[PDU_OFFSET + 2 + at] := b;
    }

    /** Clears the data bytes, then reads register after register into them. */
    method ReadAll(f: bv8, isCoilType: bool, index: Word, count: nat, dataLength: nat) returns (ghost values: seq<Word>)
      requires Valid() && ReadFunction(f) && isCoilType == Bitwise(ReadKind(f)) && index + count <= 0x1_0000
      requires dataLength == DataLength(isCoilType, count) && length == 2 + dataLength + ADU_PADDING
      modifies this`log, resp
      ensures log == old(log) + ReadArgs(R, f, index, count)
      ensures values == Answers(app, old(log), ReadArgs(R, f, index, count))
      ensures Head() == old(Head()) && Carries(isCoilType, Data(), values)
    {
      hide Filled, Answers, Carries;
      ghost var args := ReadArgs(R, f, index, count);
      ClearData(dataLength);
      AllZero(isCoilType, Data());
      values := [];
      assert args[..0] == [] && log + [] == log;
      NoAnswers(app, log);
      var i := 0;
      while i < count
        invariant i <= count && log == old(log) + args[..i]
        invariant |values| == i && values == Answers(app, old(log), args[..i])
        invariant Head() == old(Head()) && Filled(isCoilType, Data(), values)
      {
        var r := Callback(Args(ReadKind(f), R, index + i, 0, f));
        assert args[..i + 1] == args[..i] + [args[i]];
        AnswersSnoc(app, old(log), args, i);
        PutValue(isCoilType, i, r.value, values);
        values := values + [r.value];
        i := i + 1;
      }
      assert args[..i] == args;
      FilledUp(isCoilType, Data(), values);
    }
  }

  lemma NoAnswers(app: Application, log: seq<Args>)
    ensures Answers(app, log, []) == []
  {
  }

  /** The first values are in place and the rest of the data is still zero. */
  ghost predicate Filled(bitwise: bool, data: seq<bv8>, values: seq<Word>) {
    if bitwise then
      forall k: nat :: k < 8 * |data| ==> ReadBit(data, k) == (k < |values| && values[k] != 0)
    else
      2 * |values| <= |data| && forall k: nat :: k < |values| ==> ReadWord(data, 2 * k) == values[k]
  }

  lemma AllZero(bitwise: bool, data: seq<bv8>)
    requires forall k :: 0 <= k < |data| ==> data[k] == 0
    ensures Filled(bitwise, data, [])
  {
    hide ReadBit;
    forall k: nat | k < 8 * |data| ensures !ReadBit(data, k) {
      ZeroBits(data, k);
    }
  }

  lemma FillBit(data: seq<bv8>, values: seq<Word>, v: Word)
    requires Filled(true, data, values) && |values| < 8 * |data|
    ensures Filled(true, WriteBit(data, |values|, v != 0), values + [v])
  {
    hide ReadBit, WriteBit;
    var after := WriteBit(data, |values|, v != 0);
    var more := values + [v];
    forall k: nat | k < 8 * |after| ensures ReadBit(after, k) == (k < |more| && more[k] != 0) {
      WriteReadBit(data, |values|, v != 0, k);
    }
  }

  lemma FillWord(data: seq<bv8>, values: seq<Word>, v: Word)
    requires Filled(false, data, values) && 2 * |values| + 1 < |data|
    ensures var i := 2 * |values|;
      Filled(false, data[i := WordBytes(v)[0]][i + 1 := WordBytes(v)[1]], values + [v])
  {
    hide ToByte, FromByte;
    var i := 2 * |values|;
    var after := data[i := WordBytes(v)[0]][i + 1 := WordBytes(v)[1]];
    WordBack(after, i, v);
    forall k: nat | k < |values| ensures ReadWord(after, 2 * k) == values[k] {
      assert ReadWord(data, 2 * k) == values[k];
    }
  }

  lemma FilledUp(bitwise: bool, data: seq<bv8>, values: seq<Word>)
    requires Filled(bitwise, data, values) && |data| == DataLength(bitwise, |values|)
    ensures Carries(bitwise, data, values)
  {
    hide ReadBit, ReadWord;
  }

  lemma NoHandler(f: bv8)
    requires forall k :: 0 <= k < |FUNCTIONS| ==> FUNCTIONS[k].0 != f
    ensures !ReadFunction(f) && !WritesMany(f) && f != 5 && f != 6 && f != 22
  {
    assert FUNCTIONS[0].0 == 1 && FUNCTIONS[1].0 == 2 && FUNCTIONS[2].0 == 3 && FUNCTIONS[3].0 == 4;
    assert FUNCTIONS[4].0 == 5 && FUNCTIONS[5].0 == 6;
    assert FUNCTIONS[6].0 == 15 && FUNCTIONS[7].0 == 16 && FUNCTIONS[8].0 == 22;
  }

  lemma UnpackLengths(frame: seq<bv8>, checkCrc: bool)
    ensures var u := Unpack(frame, checkCrc); u.Frame? ==> 1 <= |u.pdu| <= 253
  {
  }
}
