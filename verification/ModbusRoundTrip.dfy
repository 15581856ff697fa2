/**
  Writing over the line and reading back, with an application that keeps what it is told to
  write: every value comes back under its own register, from the kind of register that the
  function codes name.
 */
module ModbusRoundTrip {
  import opened ByteValues
  import opened RomBytes
  import opened ModbusPdu
  import opened ModbusService
  import opened ModbusBytes
  import opened ModbusSlave
  import opened ModbusMaster
  import opened ModbusWire

  /** The value last written to a register, 0 before any. */
  function LastWritten(log: seq<Args>, kind: DataType, index: Word): Word {
    if log == [] then 0
    else
      var q := log[|log| - 1];
      if q.query == W && q.kind == kind && q.index == index then q.value
      else LastWritten(log[..|log| - 1], kind, index)
  }

  /** The application grants everything and reads what was last written. */
  ghost predicate Keeps(app: Application) {
    forall log: seq<Args>, q: Args ::
      app(log, q) == Result(false, 0, if q.query == R then LastWritten(log, q.kind, q.index) else 0)
  }

  lemma {:induction false} KeepsGrants(app: Application, log: seq<Args>, args: seq<Args>, k: nat)
    requires Keeps(app) && k <= |args|
    ensures FirstRefused(app, log, args, k) == |args|
    decreases |args| - k
  {
    if k < |args| {
      KeepsGrants(app, log, args, k + 1);
    }
  }

  lemma {:induction false} NotWritten(log: seq<Args>, more: seq<Args>, kind: DataType, index: Word)
    requires forall i :: 0 <= i < |more| ==> more[i].query != W
    ensures LastWritten(log + more, kind, index) == LastWritten(log, kind, index)
  {
    if more == [] {
      assert log + more == log;
    } else {
      var n := |more| - 1;
      assert (log + more)[..|log + more| - 1] == log + more[..n];
      NotWritten(log, more[..n], kind, index);
    }
  }

  /** After consecutive writes each register has its own value. */
  lemma {:induction false} EachWritten(log: seq<Args>, f: bv8, index: Word, values: seq<Word>, n: nat, i: nat)
    requires index + |values| <= 0x1_0000 && i < n <= |values|
    ensures LastWritten(log + WriteArgs(W, f, index, values)[..n], WriteKind(f), index + i) == values[i]
  {
    var writes := WriteArgs(W, f, index, values);
    var after := log + writes[..n];
    assert after[|after| - 1] == writes[n - 1];
    assert after[..|after| - 1] == log + writes[..n - 1];
    if i < n - 1 {
      EachWritten(log, f, index, values, n - 1, i);
    }
  }

  /** What reading registers gives right after they were written. */
  lemma ReadAfterWrite(app: Application, log: seq<Args>, wf: bv8, rf: bv8, index: Word, values: seq<Word>)
    requires Keeps(app) && ReadFunction(rf) && ReadKind(rf) == WriteKind(wf) && index + |values| <= 0x1_0000
    ensures var written := log + WriteArgs(W_CHECK, wf, index, values) + WriteArgs(W, wf, index, values);
      var checks, queries := ReadArgs(R_CHECK, rf, index, |values|), ReadArgs(R, rf, index, |values|);
      && Granted(app, log, WriteArgs(W_CHECK, wf, index, values)) && Granted(app, written, checks)
      && Answers(app, written + checks, queries) == values
  {
    hide LastWritten, ReadKind, WriteKind, Keeps, FirstRefused;
    var before := log + WriteArgs(W_CHECK, wf, index, values);
    var writes := WriteArgs(W, wf, index, values);
    KeepsGrants(app, log, WriteArgs(W_CHECK, wf, index, values), 0);
    KeepsGrants(app, before + writes, ReadArgs(R_CHECK, rf, index, |values|), 0);
    forall i: nat | i < |values|
      ensures LastWritten(before + writes, WriteKind(wf), index + i) == values[i]
    {
      assert writes[..|values|] == writes;
      EachWritten(before, wf, index, values, |values|, i);
    }
    ReadsWritten(app, before + writes, rf, index, values);
  }

  lemma ReadsWritten(app: Application, written: seq<Args>, f: bv8, index: Word, values: seq<Word>)
    requires Keeps(app) && ReadFunction(f) && index + |values| <= 0x1_0000
    requires forall i: nat :: i < |values| ==> LastWritten(written, ReadKind(f), index + i) == values[i]
    ensures var checks, queries := ReadArgs(R_CHECK, f, index, |values|), ReadArgs(R, f, index, |values|);
      Answers(app, written + checks, queries) == values
  {
    hide LastWritten, ReadKind;
    var checks, queries := ReadArgs(R_CHECK, f, index, |values|), ReadArgs(R, f, index, |values|);
    forall i: nat | i < |values| ensures app(written + checks + queries[..i], queries[i]).value == values[i] {
      var asked := checks + queries[..i];
      assert written + checks + queries[..i] == written + asked;
      NotWritten(written, asked, ReadKind(f), index + i);
    }
  }

  /** Holding registers: function 16, then function 3. */
  method RegistersRoundTrip(master: Master, slave: Slave, address: bv8, index: Word, values: seq<Word>)
    requires slave.Valid() && Keeps(slave.app) && address != 0
    requires 0 < |values| <= 123 && index + |values| <= 0x1_0000
    modifies master, slave`log, slave`length, slave.resp
    ensures slave.Valid() && master.exceptions == old(master.exceptions)
    ensures old(master.emitted) <= master.emitted && |master.emitted| == |old(master.emitted)| + |values|
    ensures forall i: nat :: i < |values| ==>
      master.emitted[|old(master.emitted)| + i] == Data(HOLDING_REGISTER, index + i, values[i], 3, address)
  {
    hide Keeps, Answers, FirstRefused, Emissions, WriteArgs, ReadArgs, AllCarried;
    ghost var log := slave.log;
    ReadAfterWrite(slave.app, log, 16, 3, index, values);
    var err := WriteHoldingRegisters(master, slave, address, index, values);
    err := ReadRegisters(master, slave, address, 3, index, |values|);
    WordsEmitted(address, 3, index, values);
  }

  lemma WordsEmitted(address: bv8, f: bv8, index: Word, values: seq<Word>)
    requires f == 3 && index + |values| <= 0x1_0000
    ensures var emitted := Emissions(address, f, index, AllCarried(Bitwise(ReadKind(f)), values));
      && |emitted| == |values|
      && forall i: nat :: i < |values| ==> emitted[i] == Data(HOLDING_REGISTER, index + i, values[i], 3, address)
  {
  }

  /** Coils: function 15, then function 1. */
  method CoilsRoundTrip(master: Master, slave: Slave, address: bv8, index: Word, count: Word, values: seq<bv8>)
    requires slave.Valid() && Keeps(slave.app) && address != 0
    requires 0 < count <= 1968 && index + count <= 0x1_0000 && BitsToBytes(count) <= |values|
    modifies master, slave`log, slave`length, slave.resp
    ensures slave.Valid() && master.exceptions == old(master.exceptions)
    ensures old(master.emitted) <= master.emitted && |master.emitted| == |old(master.emitted)| + count
    ensures forall i: nat :: i < count ==>
      master.emitted[|old(master.emitted)| + i] ==
        Data(COIL, index + i, if DataBit(values, i) then 1 else 0, 1, address)
  {
    hide Keeps, Answers, FirstRefused, Emissions, WriteArgs, ReadArgs, AllCarried, BitWords;
    ghost var log, bits := slave.log, BitWords(values, count);
    ReadAfterWrite(slave.app, log, 15, 1, index, bits);
    var err := WriteCoils(master, slave, address, index, count, values);
    err := ReadRegisters(master, slave, address, 1, index, count);
    BitsEmitted(address, index, count, values);
  }

  lemma BitsEmitted(address: bv8, index: Word, count: nat, values: seq<bv8>)
    requires index + count <= 0x1_0000 && BitsToBytes(count) <= |values|
    ensures var emitted := Emissions(address, 1, index, AllCarried(Bitwise(ReadKind(1)), BitWords(values, count)));
      && |emitted| == count
      && forall i: nat :: i < count ==>
           emitted[i] == Data(COIL, index + i, if DataBit(values, i) then 1 else 0, 1, address)
  {
    hide Bit, DataBit;
    forall i: nat | i < count ensures ReadBit(values, i) == DataBit(values, i) {
      DataBitIs(values, i);
    }
  }

  /** One holding register: function 6, then 22, then 3. Each bit is the written one, or the or-mask's. */
  method MaskRoundTrip(master: Master, slave: Slave, address: bv8, index: Word, value: Word,
                       andMask: Word, orMask: Word)
    requires slave.Valid() && Keeps(slave.app) && address != 0
    modifies master, slave`log, slave`length, slave.resp
    ensures slave.Valid() && master.exceptions == old(master.exceptions)
    ensures old(master.emitted) <= master.emitted && |master.emitted| == |old(master.emitted)| + 1
    ensures var d := master.emitted[|old(master.emitted)|];
      && d.kind == HOLDING_REGISTER && d.index == index && d.code == 3 && d.address == address
      && MaskedInto(value, andMask, orMask, d.value)
  {
    hide Keeps, FirstRefused, Emissions, WriteArgs, AllCarried, Answers, ReadArgs, MaskedInto, LastWritten, MaskDone;
    ghost var before := slave.log;
    var err := WriteOne(master, slave, address, 6, index, value);
    KeepsGrants(slave.app, before, WriteArgs(W_CHECK, 6, index, [value]), 0);
    ghost var log, exceptions := slave.log, master.exceptions;
    RegisterHolds(before, index, value, log);
    err := MaskWriteRegister(master, slave, address, index, andMask, orMask);
    ghost var masked := slave.log;
    MaskedHolds(slave.app, log, address, index, value, andMask, orMask, masked, exceptions, master.exceptions);
    ghost var w := LastWritten(masked, HOLDING_REGISTER, index);
    ReadOne(slave.app, masked, index);
    err := ReadRegisters(master, slave, address, 3, index, 1);
    WordsEmitted(address, 3, index, [w]);
  }

  lemma RegisterHolds(before: seq<Args>, index: Word, value: Word, log: seq<Args>)
    requires log == before + WriteArgs(W_CHECK, 6, index, [value]) + WriteArgs(W, 6, index, [value])
    ensures LastWritten(log, HOLDING_REGISTER, index) == value
  {
    var writes := WriteArgs(W, 6, index, [value]);
    assert writes[..1] == writes;
    EachWritten(before + WriteArgs(W_CHECK, 6, index, [value]), 6, index, [value], 1, 0);
  }

  lemma MaskedHolds(app: Application, log: seq<Args>, address: bv8, index: Word, value: Word,
                    andMask: Word, orMask: Word, log': seq<Args>, exceptions: seq<Reported>, exceptions': seq<Reported>)
    requires Keeps(app) && LastWritten(log, HOLDING_REGISTER, index) == value
    requires MaskDone(app, log, address, index, andMask, orMask, log', exceptions, exceptions')
    ensures exceptions' == exceptions && MaskedInto(value, andMask, orMask, LastWritten(log', HOLDING_REGISTER, index))
  {
    hide MaskedInto, Masked;
    var readCheck, read := HoldingArgs(R_CHECK, 22, index, 0), HoldingArgs(R, 22, index, 0);
    NotWritten(log, [readCheck], HOLDING_REGISTER, index);
    MaskedIsInto(value, andMask, orMask);
    assert app(log + [readCheck], read).value == value;
  }

  /** Reading one register gives what was last written to it. */
  lemma ReadOne(app: Application, log: seq<Args>, index: Word)
    requires Keeps(app)
    ensures var checks, queries := ReadArgs(R_CHECK, 3, index, 1), ReadArgs(R, 3, index, 1);
      && Granted(app, log, checks)
      && Answers(app, log + checks, queries) == [LastWritten(log, HOLDING_REGISTER, index)]
  {
    hide LastWritten;
    var checks, queries := ReadArgs(R_CHECK, 3, index, 1), ReadArgs(R, 3, index, 1);
    KeepsGrants(app, log, checks, 0);
    NotWritten(log, checks, HOLDING_REGISTER, index);
    assert log + checks + queries[..0] == log + checks;
    ReadKinds(3);
    assert queries[0] == Args(ReadKind(3), R, index + 0, 0, 3);
    assert app(log + checks, queries[0]).value == LastWritten(log + checks, HOLDING_REGISTER, index);
  }
}
