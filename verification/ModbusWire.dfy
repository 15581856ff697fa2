/**
  Master and slave joined by the line: a request is built, framed, served, framed again and
  taken apart.
 */
module ModbusWire {
  import opened ByteValues
  import opened RomBytes
  import opened ModbusPdu
  import opened ModbusBytes
  import opened ModbusService
  import opened RtuFrame
  import opened ModbusSlave
  import opened ModbusMaster

  lemma ExceptionBits(f: bv8)
    requires f < 0x80
    ensures (f | 0x80) & 0x80 != 0 && (f | 0x80) & 0x7F == f && f & 0x80 == 0
  {
  }

  lemma ReadFunctionSmall(f: bv8)
    requires ReadFunction(f) || WritesMany(f)
    ensures f < 0x80
  {
  }

  /** What the master makes of the slave's reply to a legal read request. */
  lemma ReadReplyAccepted(app: Application, log: seq<Args>, f: bv8, index: Word, count: Word,
                          log': seq<Args>, reply: seq<bv8>)
    requires ReadFunction(f) && 0 < count <= MaxRead(f) && index + count <= 0x1_0000
    requires Served(app, log, ShortPdu(f, index, count), log', reply)
    ensures reply != []
    ensures var request := ShortPdu(f, index, count);
      var checks, queries := ReadArgs(R_CHECK, f, index, count), ReadArgs(R, f, index, count);
      if Granted(app, log, checks) then
        && log' == log + checks + queries
        && !IsException(reply) && reply[0] == f && ReadAnswered(f, request, reply)
        && Received(f, request, reply) == AllCarried(Bitwise(ReadKind(f)), Answers(app, log + checks, queries))
      else
        Declined(app, log, checks, f, log', reply) && IsException(reply) && reply[0] & 0x7F == f
  {
    hide ToByte, FromByte, ReadWord, FirstRefused, Carries, Values, AllCarried, Answers;
    ShortPduFields(f, index, count);
    ReadFunctionSmall(f);
    ExceptionBits(f);
    var checks, queries := ReadArgs(R_CHECK, f, index, count), ReadArgs(R, f, index, count);
    if Granted(app, log, checks) {
      var values := Answers(app, log + checks, queries);
      CarriedValues(Bitwise(ReadKind(f)), reply[2..], values);
      ByteBack(DataLength(Bitwise(ReadKind(f)), count));
    }
  }

  /** What the master's callbacks are told about that reply. */
  lemma ReadHandsOver(app: Application, log: seq<Args>, address: bv8, f: bv8, index: Word, count: Word,
                      log': seq<Args>, reply: seq<bv8>)
    requires ReadFunction(f) && 0 < count <= MaxRead(f) && index + count <= 0x1_0000 && LegalPdu(reply)
    requires Served(app, log, ShortPdu(f, index, count), log', reply)
    ensures var request := ShortPdu(f, index, count);
      var checks, queries := ReadArgs(R_CHECK, f, index, count), ReadArgs(R, f, index, count);
      && Verdict(request, reply) == Ok
      && if Granted(app, log, checks) then
           && log' == log + checks + queries && Exceptions(address, request, reply) == []
           && Emitted(address, request, reply) ==
              Emissions(address, f, index, AllCarried(Bitwise(ReadKind(f)), Answers(app, log + checks, queries)))
         else
           var k := FirstRefused(app, log, checks, 0);
           && log' == log + checks[..k + 1] && Emitted(address, request, reply) == []
           && Exceptions(address, request, reply) ==
              [Reported(address, f, RefusalCode(app(log + checks[..k], checks[k])))]
  {
    hide Served, ReadWord, Received, AllCarried, Answers, FirstRefused, ReadAnswered, Emissions, FunctionVerdict;
    ReadReplyAccepted(app, log, f, index, count, log', reply);
    ShortPduFields(f, index, count);
    ReadFunctionSmall(f);
    ExceptionBits(f);
  }

  /**
    Reading over the line is transparent: if the slave's application grants every register, the
    master's data callback sees each of its answers once, in order, with the right register;
    otherwise the master is told the application's exception and sees no data.
   */
  method ReadRegisters(master: Master, slave: Slave, address: bv8, f: bv8, index: Word, count: Word)
    returns (err: ErrorInfo)
    requires slave.Valid() && address != 0
    requires ReadFunction(f) && 0 < count <= MaxRead(f) && index + count <= 0x1_0000
    modifies master, slave`log, slave`length, slave.resp
    ensures slave.Valid() && err == Ok
    ensures var checks, queries := ReadArgs(R_CHECK, f, index, count), ReadArgs(R, f, index, count);
      var log := old(slave.log);
      if Granted(slave.app, log, checks) then
        && slave.log == log + checks + queries
        && master.exceptions == old(master.exceptions)
        && master.emitted == old(master.emitted) +
           Emissions(address, f, index, AllCarried(Bitwise(ReadKind(f)), Answers(slave.app, log + checks, queries)))
      else
        var k := FirstRefused(slave.app, log, checks, 0);
        && slave.log == log + checks[..k + 1]
        && master.emitted == old(master.emitted)
        && master.exceptions == old(master.exceptions) +
           [Reported(address, f, RefusalCode(slave.app(log + checks[..k], checks[k])))]
  {
    hide Unpack, Served, ByBytes, AllCarried, Answers, FirstRefused, Emissions, Verdict, Exceptions, Emitted, ShortPdu;
    ghost var request := ShortPdu(f, index, count);
    err := master.BuildRequest01020304(f, index, count, true);
    err := master.EndRequestRTU(address);
    ghost var reply;
    err, reply := slave.ParseRequestRTU(address, master.data, master.length);
    err := master.ParseResponseRTU(master.data, master.length, slave.resp, slave.length);
    ReadHandsOver(slave.app, old(slave.log), address, f, index, count, slave.log, reply);
  }

  /** What the master makes of the slave's reply to a legal request to write many values. */
  lemma WriteReplyAccepted(app: Application, log: seq<Args>, f: bv8, index: Word, count: Word, payload: seq<bv8>,
                           log': seq<Args>, reply: seq<bv8>)
    requires WritesMany(f) && 0 < count <= MaxWrite(f) && index + count <= 0x1_0000
    requires |payload| == DataLength(f == 15, count) < 256
    requires Served(app, log, WritePdu(f, index, count, payload), log', reply)
    ensures reply != []
    ensures var request := WritePdu(f, index, count, payload);
      var values := Values(f == 15, payload, count);
      var checks := WriteArgs(W_CHECK, f, index, values);
      if Granted(app, log, checks) then
        && log' == log + checks + WriteArgs(W, f, index, values)
        && !IsException(reply) && reply[0] == f && WriteAcknowledged(f, request, reply)
      else
        Declined(app, log, checks, f, log', reply) && IsException(reply) && reply[0] & 0x7F == f
  {
    hide ToByte, FromByte, ReadWord, FirstRefused, Values, WriteArgs;
    WritePduFields(f, index, count, payload);
    ShortPduFields(f, index, count);
    ReadFunctionSmall(f);
    ExceptionBits(f);
  }

  /** The line in the middle of a write: the framed request is served and its reply examined. */
  method Exchange(master: Master, slave: Slave, address: bv8, f: bv8, index: Word, count: Word, ghost payload: seq<bv8>)
    returns (err: ErrorInfo)
    requires slave.Valid() && address != 0 && master.Valid() && master.length != 0 && master.data != slave.resp
    requires WritesMany(f) && 0 < count <= MaxWrite(f) && index + count <= 0x1_0000
    requires |payload| == DataLength(f == 15, count) < 256 && master.Pdu() == WritePdu(f, index, count, payload)
    modifies master`emitted, master`exceptions, master.data, slave`log, slave`length, slave.resp
    ensures slave.Valid() && err == Ok && master.emitted == old(master.emitted)
    ensures WriteDone(slave.app, old(slave.log), address, f, index, Values(f == 15, payload, count),
                      slave.log, old(master.exceptions), master.exceptions)
  {
    hide Unpack, Served, ByBytes, ReadWord, Values, FirstRefused, WriteAcknowledged, WritePdu, IsException;
    err := master.EndRequestRTU(address);
    ghost var reply;
    err, reply := slave.ParseRequestRTU(address, master.data, master.length);
    WriteReplyAccepted(slave.app, old(slave.log), f, index, count, payload, slave.log, reply);
    WritePduFields(f, index, count, payload);
    err := master.ParseResponseRTU(master.data, master.length, slave.resp, slave.length);
  }

  /** All the values reached the application in order, or none did and the master was told why. */
  ghost predicate WriteDone(app: Application, log: seq<Args>, address: bv8, f: bv8, index: Word, values: seq<Word>,
                            log': seq<Args>, exceptions: seq<Reported>, exceptions': seq<Reported>)
    requires index + |values| <= 0x1_0000
  {
    var checks := WriteArgs(W_CHECK, f, index, values);
    if Granted(app, log, checks) then
      log' == log + checks + WriteArgs(W, f, index, values) && exceptions' == exceptions
    else
      var k := FirstRefused(app, log, checks, 0);
      && log' == log + checks[..k + 1]
      && exceptions' == exceptions + [Reported(address, f, RefusalCode(app(log + checks[..k], checks[k])))]
  }

  function BitWords(values: seq<bv8>, count: nat): (words: seq<Word>)
    requires BitsToBytes(count) <= |values|
    ensures |words| == count
  {
    seq<Word>(count, (i: int) requires 0 <= i < count => if ReadBit(values, i) then 1 else 0)
  }

  lemma CarriedBits(payload: seq<bv8>, values: seq<bv8>, count: nat)
    requires BitsToBytes(count) <= |values| && HoldsBits(payload, FirstBits(values, count))
    ensures |payload| == BitsToBytes(count) && Values(true, payload, count) == BitWords(values, count)
  {
    hide ReadBit;
    forall i: nat | i < count ensures ReadBit(payload, i) == ReadBit(values, i) {
      assert FirstBits(values, count)[i] == ReadBit(values, i);
    }
  }

  lemma CarriedWords(payload: seq<bv8>, values: seq<Word>)
    requires HoldsWords(payload, values)
    ensures |payload| == 2 * |values| && Values(false, payload, |values|) == values
  {
    hide ReadWord;
  }

  /** Writing coils over the line: the application is asked to write exactly the first `count` bits. */
  method WriteCoils(master: Master, slave: Slave, address: bv8, index: Word, count: Word, values: seq<bv8>)
    returns (err: ErrorInfo)
    requires slave.Valid() && address != 0
    requires 0 < count <= 1968 && index + count <= 0x1_0000 && BitsToBytes(count) <= |values|
    modifies master, slave`log, slave`length, slave.resp
    ensures slave.Valid() && err == Ok && master.emitted == old(master.emitted)
    ensures WriteDone(slave.app, old(slave.log), address, 15, index, BitWords(values, count),
                      slave.log, old(master.exceptions), master.exceptions)
  {
    hide Values, WriteDone, WritePdu, HoldsBits, BitWords;
    ghost var payload;
    err, payload := master.BuildRequest15(index, count, values, true);
    CarriedBits(payload, values, count);
    err := Exchange(master, slave, address, 15, index, count, payload);
  }

  /** Writing holding registers over the line: the application is asked to write exactly the given values. */
  method WriteHoldingRegisters(master: Master, slave: Slave, address: bv8, index: Word, values: seq<Word>)
    returns (err: ErrorInfo)
    requires slave.Valid() && address != 0
    requires 0 < |values| <= 123 && index + |values| <= 0x1_0000
    modifies master, slave`log, slave`length, slave.resp
    ensures slave.Valid() && err == Ok && master.emitted == old(master.emitted)
    ensures WriteDone(slave.app, old(slave.log), address, 16, index, values,
                      slave.log, old(master.exceptions), master.exceptions)
  {
    hide Values, WriteDone, WritePdu, HoldsWords;
    ghost var payload;
    err, payload := master.BuildRequest16(index, |values|, values, true);
    assert values[..|values|] == values;
    CarriedWords(payload, values);
    err := Exchange(master, slave, address, 16, index, |values|, payload);
  }

  // ---------------------------------------------------------------------------------------
  // One coil, one register, one masked register

  /** What the master makes of the slave's reply to a legal request to write one value. */
  lemma SingleReplyAccepted(app: Application, log: seq<Args>, f: bv8, index: Word, value: Word,
                            log': seq<Args>, reply: seq<bv8>)
    requires f == 5 || f == 6
    requires f == 5 ==> value == 0 || value == 0xFF00
    requires Served(app, log, ShortPdu(f, index, value), log', reply)
    ensures reply != []
    ensures var values := [Carried(f == 5, value)];
      var checks := WriteArgs(W_CHECK, f, index, values);
      if Granted(app, log, checks) then
        && log' == log + checks + WriteArgs(W, f, index, values)
        && !IsException(reply) && reply[0] == f && Echoed(ShortPdu(f, index, value), reply)
      else
        Declined(app, log, checks, f, log', reply) && IsException(reply) && reply[0] & 0x7F == f
  {
    hide WordBytes, ReadWord, FirstRefused, WriteArgs, Carried;
    ShortPduFields(f, index, value);
    ExceptionBits(f);
  }

  /** The line in the middle of such a write. */
  method ExchangeSingle(master: Master, slave: Slave, address: bv8, f: bv8, index: Word, ghost value: Word)
    returns (err: ErrorInfo)
    requires slave.Valid() && address != 0 && master.Valid() && master.length != 0 && master.data != slave.resp
    requires f == 5 || f == 6
    requires f == 5 ==> value == 0 || value == 0xFF00
    requires master.Pdu() == ShortPdu(f, index, value)
    modifies master`emitted, master`exceptions, master.data, slave`log, slave`length, slave.resp
    ensures slave.Valid() && err == Ok && master.emitted == old(master.emitted)
    ensures WriteDone(slave.app, old(slave.log), address, f, index, [Carried(f == 5, value)],
                      slave.log, old(master.exceptions), master.exceptions)
  {
    hide Unpack, Served, ByBytes, ShortPdu, FirstRefused, Echoed, IsException, Carried, WriteArgs;
    err := master.EndRequestRTU(address);
    ghost var reply;
    err, reply := slave.ParseRequestRTU(address, master.data, master.length);
    SingleReplyAccepted(slave.app, old(slave.log), f, index, value, slave.log, reply);
    ShortPduFields(f, index, value);
    err := master.ParseResponseRTU(master.data, master.length, slave.resp, slave.length);
  }

  /**
    Writing one coil or register over the line: the application is asked to write it once, a
    coil as 0 or 1 whatever number the master was given for it.
   */
  method WriteOne(master: Master, slave: Slave, address: bv8, f: bv8, index: Word, value: Word)
    returns (err: ErrorInfo)
    requires slave.Valid() && address != 0 && (f == 5 || f == 6)
    modifies master, slave`log, slave`length, slave.resp
    ensures slave.Valid() && err == Ok && master.emitted == old(master.emitted)
    ensures WriteDone(slave.app, old(slave.log), address, f, index, [Carried(f == 5, value)],
                      slave.log, old(master.exceptions), master.exceptions)
  {
    hide ShortPdu, WriteDone;
    ghost var sent: Word := if f == 5 then (if value != 0 then 0xFF00 else 0) else value;
    err := master.BuildRequest0506(f, index, value, true);
    assert Carried(f == 5, sent) == Carried(f == 5, value);
    err := ExchangeSingle(master, slave, address, f, index, sent);
  }

  function MaskPdu(index: Word, andMask: Word, orMask: Word): (pdu: seq<bv8>)
    ensures |pdu| == 7
  {
    [22] + WordBytes(index) + WordBytes(andMask) + WordBytes(orMask)
  }

  lemma MaskPduFields(index: Word, andMask: Word, orMask: Word)
    ensures var pdu := MaskPdu(index, andMask, orMask);
      && pdu[0] == 22 && ReadWord(pdu, 1) == index && ReadWord(pdu, 3) == andMask && ReadWord(pdu, 5) == orMask
  {
    hide ToByte, ReadWord;
    var pdu := MaskPdu(index, andMask, orMask);
    WordBack(pdu, 1, index);
    WordBack(pdu, 3, andMask);
    WordBack(pdu, 5, orMask);
  }

  lemma OneCheck(app: Application, log: seq<Args>, check: Args)
    ensures Granted(app, log, [check]) <==> !Refuses(app(log, check))
    ensures !Granted(app, log, [check]) ==> FirstRefused(app, log, [check], 0) == 0
  {
    hide Refuses;
    assert log + [check][..0] == log;
  }

  /**
    The register was read and its masked value written, each once and after its own check; or
    the first refusal ended it, and the master was told why.
   */
  ghost predicate MaskDone(app: Application, log: seq<Args>, address: bv8, index: Word, andMask: Word, orMask: Word,
                           log': seq<Args>, exceptions: seq<Reported>, exceptions': seq<Reported>)
  {
    var readCheck, read := HoldingArgs(R_CHECK, 22, index, 0), HoldingArgs(R, 22, index, 0);
    if Refuses(app(log, readCheck)) then
      && log' == log + [readCheck]
      && exceptions' == exceptions + [Reported(address, 22, RefusalCode(app(log, readCheck)))]
    else
      var value := Masked(app(log + [readCheck], read).value, andMask, orMask);
      var writeCheck := HoldingArgs(W_CHECK, 22, index, value);
      var before := log + [readCheck, read];
      if Refuses(app(before, writeCheck)) then
        && log' == before + [writeCheck]
        && exceptions' == exceptions + [Reported(address, 22, RefusalCode(app(before, writeCheck)))]
      else
        log' == before + [writeCheck, HoldingArgs(W, 22, index, value)] && exceptions' == exceptions
  }

  /** What the master makes of the slave's reply to a masked write. */
  lemma MaskReplyAccepted(app: Application, log: seq<Args>, address: bv8, index: Word, andMask: Word, orMask: Word,
                          log': seq<Args>, reply: seq<bv8>, exceptions: seq<Reported>)
    requires Served(app, log, MaskPdu(index, andMask, orMask), log', reply)
    ensures reply != [] && |reply| <= 7
    ensures var request := MaskPdu(index, andMask, orMask);
      && Verdict(request, reply) == Ok && Emitted(address, request, reply) == []
      && MaskDone(app, log, address, index, andMask, orMask, log',
                  exceptions, exceptions + Exceptions(address, request, reply))
  {
    hide WordBytes, ReadWord, FirstRefused, Refuses, RefusalCode, Masked, FunctionVerdict;
    MaskPduFields(index, andMask, orMask);
    ExceptionBits(22);
    var readCheck, read := HoldingArgs(R_CHECK, 22, index, 0), HoldingArgs(R, 22, index, 0);
    OneCheck(app, log, readCheck);
    var before := log + [readCheck] + [read];
    assert before == log + [readCheck, read];
    var value := Masked(app(log + [readCheck], read).value, andMask, orMask);
    var writeCheck := HoldingArgs(W_CHECK, 22, index, value);
    OneCheck(app, before, writeCheck);
    assert [readCheck][..0] == [] && log + [] == log && before + [] == before;
    assert before + [writeCheck] + [HoldingArgs(W, 22, index, value)]
        == before + [writeCheck, HoldingArgs(W, 22, index, value)];
  }

  /** A masked write over the line. */
  method MaskWriteRegister(master: Master, slave: Slave, address: bv8, index: Word, andMask: Word, orMask: Word)
    returns (err: ErrorInfo)
    requires slave.Valid() && address != 0
    modifies master, slave`log, slave`length, slave.resp
    ensures slave.Valid() && err == Ok && master.emitted == old(master.emitted)
    ensures MaskDone(slave.app, old(slave.log), address, index, andMask, orMask,
                     slave.log, old(master.exceptions), master.exceptions)
    ensures forall i :: |old(slave.log)| <= i < |slave.log| && slave.log[i].query == W ==>
      && i == |old(slave.log)| + 3 && slave.log[i].kind == HOLDING_REGISTER && slave.log[i].index == index
      && slave.log[i - 2].query == R && slave.log[i - 2].kind == HOLDING_REGISTER && slave.log[i - 2].index == index
      && MaskedInto(slave.app(slave.log[..i - 2], slave.log[i - 2]).value, andMask, orMask, slave.log[i].value)
  {
    hide Unpack, Served, ByBytes, Verdict, Exceptions, Emitted, MaskDone, MaskedInto;
    err := master.BuildRequest22(index, andMask, orMask, true);
    ghost var request := MaskPdu(index, andMask, orMask);
    assert master.Pdu() == request;
    err := master.EndRequestRTU(address);
    ghost var reply;
    err, reply := slave.ParseRequestRTU(address, master.data, master.length);
    MaskReplyAccepted(slave.app, old(slave.log), address, index, andMask, orMask, slave.log, reply,
                      old(master.exceptions));
    err := master.ParseResponseRTU(master.data, master.length, slave.resp, slave.length);
    MaskWritesInto(slave.app, old(slave.log), address, index, andMask, orMask, slave.log,
                   old(master.exceptions), master.exceptions);
  }

  /** The word that a masked write stores, bit by bit. */
  lemma MaskWritesInto(app: Application, log: seq<Args>, address: bv8, index: Word, andMask: Word, orMask: Word,
                       log': seq<Args>, exceptions: seq<Reported>, exceptions': seq<Reported>)
    requires MaskDone(app, log, address, index, andMask, orMask, log', exceptions, exceptions')
    ensures forall i :: |log| <= i < |log'| && log'[i].query == W ==>
      && i == |log| + 3 && log'[i].kind == HOLDING_REGISTER && log'[i].index == index
      && log'[i - 2].query == R && log'[i - 2].kind == HOLDING_REGISTER && log'[i - 2].index == index
      && MaskedInto(app(log'[..i - 2], log'[i - 2]).value, andMask, orMask, log'[i].value)
  {
    hide MaskedInto, Masked, Refuses, RefusalCode;
    var readCheck, read := HoldingArgs(R_CHECK, 22, index, 0), HoldingArgs(R, 22, index, 0);
    var value := app(log + [readCheck], read).value;
    MaskedIsInto(value, andMask, orMask);
    if |log'| == |log| + 4 {
      assert log'[..|log| + 1] == log + [readCheck];
      assert log'[|log| + 1] == read;
    }
  }
}
