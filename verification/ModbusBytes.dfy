/**
  Requests and replies told byte by byte, as the Modbus application protocol lays them out: what
  the slave asks of the application and answers, and which error the master finds, with every
  number as its two bytes, high byte first, and every bit as its place in a byte.
 */
module ModbusBytes {
  import opened ByteValues
  import opened RomBytes
  import opened ModbusPdu
  import opened ModbusService

  /** The application's answer lets the request go on. */
  predicate Lets(r: Result) {
    !r.fail && r.exception == 0
  }

  /** The request was answered with an exception, and nothing was asked. */
  ghost predicate Faulty(pdu: seq<bv8>, code: bv8, log: seq<Args>, log': seq<Args>, reply: seq<bv8>)
    requires pdu != []
  {
    log' == log && reply == [pdu[0] | 0x80, code]
  }

  /** The last query was refused, and its exception is the answer; a failure is exception 4. */
  ghost predicate RefusedLast(app: Application, pdu: seq<bv8>, log': seq<Args>, reply: seq<bv8>)
    requires pdu != [] && log' != []
  {
    var r := app(log'[..|log'| - 1], log'[|log'| - 1]);
    !Lets(r) && reply == [pdu[0] | 0x80, if r.fail then 4 else r.exception]
  }

  /** Bit `i` of packed data: eight to a byte, from the low end of each. */
  predicate DataBit(data: seq<bv8>, i: nat)
    requires i / 8 < |data|
  {
    (data[i / 8] >> (i % 8)) & 1 == 1
  }

  lemma DataBitIs(data: seq<bv8>, i: nat)
    requires i / 8 < |data|
    ensures DataBit(data, i) == ReadBit(data, i)
  {
    hide Bit;
    BitShift(data[i / 8], i % 8);
  }

  // ---------------------------------------------------------------------------------------
  // Functions 1 to 4

  ghost predicate ReadByBytes(app: Application, log: seq<Args>, pdu: seq<bv8>, log': seq<Args>, reply: seq<bv8>)
    requires pdu != []
  {
    var f, n := pdu[0], |log|;
    if |pdu| != 5 then Faulty(pdu, 3, log, log', reply)
    else
      var index, count := 256 * FromByte(pdu[1]) + FromByte(pdu[2]), 256 * FromByte(pdu[3]) + FromByte(pdu[4]);
      if count == 0 || count > (if f == 1 || f == 2 then 2000 else 125) then Faulty(pdu, 3, log, log', reply)
      else if index + count > 65536 then Faulty(pdu, 2, log, log', reply)
      else
        && log <= log' && n < |log'|
        && (forall i :: n <= i < |log'| ==> ReadQuery(f, index, count, i - n, log'[i]))
        && (forall i :: n <= i < n + count && i < |log'| - 1 ==> Lets(app(log'[..i], log'[i])))
        && if |log'| != n + 2 * count then |log'| <= n + count && RefusedLast(app, pdu, log', reply)
           else Lets(app(log'[..n + count - 1], log'[n + count - 1])) && ReadData(app, f, log', count, reply)
  }

  /** Query `i` of a read: first each register is asked about, then each is read. */
  ghost predicate ReadQuery(f: bv8, index: nat, count: nat, i: nat, q: Args) {
    && q.kind == (if f == 1 then COIL else if f == 2 then DISCRETE_INPUT
                  else if f == 3 then HOLDING_REGISTER else INPUT_REGISTER)
    && (if i < count then q.query == R_CHECK && q.index == index + i else q.query == R && q.index == index + i - count)
    && q.value == 0 && q.code == f
  }

  /** The reply holds the answers to the last `count` queries: bits from the low end of each byte, or words. */
  ghost predicate ReadData(app: Application, f: bv8, log': seq<Args>, count: nat, reply: seq<bv8>)
    requires count <= |log'|
  {
    var from := |log'| - count;
    if f == 1 || f == 2 then
      && |reply| == 2 + (count + 7) / 8 && reply[0] == f && FromByte(reply[1]) == (count + 7) / 8
      && forall i: nat :: i < 8 * (|reply| - 2) ==>
           (DataBit(reply[2..], i) <==> i < count && app(log'[..from + i], log'[from + i]).value != 0)
    else
      && |reply| == 2 + 2 * count && reply[0] == f && FromByte(reply[1]) == 2 * count
      && forall i: nat :: i < count ==>
           256 * FromByte(reply[2 + 2 * i]) + FromByte(reply[3 + 2 * i]) == app(log'[..from + i], log'[from + i]).value
  }

  lemma ReadKinds(f: bv8)
    requires ReadFunction(f)
    ensures ReadKind(f) == (if f == 1 then COIL else if f == 2 then DISCRETE_INPUT
                            else if f == 3 then HOLDING_REGISTER else INPUT_REGISTER)
    ensures Bitwise(ReadKind(f)) <==> f == 1 || f == 2
    ensures MaxRead(f) == if f == 1 || f == 2 then 2000 else 125
  {
  }

  lemma FirstRefusal(app: Application, log: seq<Args>, args: seq<Args>)
    ensures var k := FirstRefused(app, log, args, 0);
      && (forall i: nat :: i < k ==> Lets(app(log + args[..i], args[i])))
      && (k < |args| ==> !Lets(app(log + args[..k], args[k])))
  {
    RefusalFrom(app, log, args, 0);
  }

  lemma {:induction false} RefusalFrom(app: Application, log: seq<Args>, args: seq<Args>, j: nat)
    requires j <= |args|
    ensures var k := FirstRefused(app, log, args, j);
      && (forall i: nat :: j <= i < k ==> Lets(app(log + args[..i], args[i])))
      && (k < |args| ==> !Lets(app(log + args[..k], args[k])))
    decreases |args| - j
  {
    if j < |args| {
      RefusalFrom(app, log, args, j + 1);
    }
  }

  /** A declined request: all but the last of its queries were granted. */
  lemma DeclinedByBytes(app: Application, pdu: seq<bv8>, log: seq<Args>, checks: seq<Args>, log': seq<Args>,
                        reply: seq<bv8>)
    requires pdu != [] && Declined(app, log, checks, pdu[0], log', reply)
    ensures |log| < |log'| <= |log| + |checks| && log <= log' && RefusedLast(app, pdu, log', reply)
    ensures forall i :: |log| <= i < |log'| ==> log'[i] == checks[i - |log|]
    ensures forall i :: |log| <= i < |log'| - 1 ==> Lets(app(log'[..i], log'[i]))
  {
    hide FirstRefused, Lets;
    FirstRefusal(app, log, checks);
    var n, k := |log|, FirstRefused(app, log, checks, 0);
    forall i | n <= i < |log'| ensures log'[..i] == log + checks[..i - n] && log'[i] == checks[i - n] {
      assert checks[..k + 1][..i - n] == checks[..i - n];
    }
    RefusedIs(app(log + checks[..k], checks[k]));
  }

  lemma RefusedIs(r: Result)
    ensures !Lets(r) <==> Refuses(r)
  {
  }

  lemma GrantedByBytes(app: Application, log: seq<Args>, checks: seq<Args>, after: seq<Args>, log': seq<Args>)
    requires Granted(app, log, checks) && log' == log + checks + after
    ensures forall i :: |log| <= i < |log| + |checks| ==> log'[i] == checks[i - |log|] && Lets(app(log'[..i], log'[i]))
    ensures forall i :: |log| + |checks| <= i < |log'| ==>
      log'[i] == after[i - |log| - |checks|] && log'[..i] == log + checks + after[..i - |log| - |checks|]
  {
    hide FirstRefused, Lets;
    FirstRefusal(app, log, checks);
    forall i | |log| <= i < |log| + |checks| ensures log'[..i] == log + checks[..i - |log|] {
    }
  }

  lemma ReadServedByBytes(app: Application, log: seq<Args>, pdu: seq<bv8>, log': seq<Args>, reply: seq<bv8>)
    requires pdu != [] && ReadFunction(pdu[0]) && ReadServed(app, log, pdu, log', reply)
    ensures ReadByBytes(app, log, pdu, log', reply)
  {
    hide FromByte, ToByte, FirstRefused, Lets, RefusedLast, Answers, Carries, ReadKind, ReadData, ReadReply, ReadArgs,
      ReadQuery, Declined, Granted;
    var f := pdu[0];
    ReadKinds(f);
    if |pdu| == 5 {
      var index, count := ReadWord(pdu, 1), ReadWord(pdu, 3);
      if 0 < count <= MaxRead(f) && index + count <= 0x1_0000 {
        var checks, queries := ReadArgs(R_CHECK, f, index, count), ReadArgs(R, f, index, count);
        if Declined(app, log, checks, f, log', reply) {
          DeclinedByBytes(app, pdu, log, checks, log', reply);
        } else {
          GrantedByBytes(app, log, checks, queries, log');
          DataByBytes(app, f, log + checks, queries, log', reply);
        }
        ReadsInOrder(f, index, count, log, log');
      }
    }
  }

  /** A log that goes on with the queries of a read, or some of them. */
  lemma ReadsInOrder(f: bv8, index: Word, count: nat, log: seq<Args>, log': seq<Args>)
    requires ReadFunction(f) && index + count <= 0x1_0000 && |log'| <= |log| + 2 * count
    requires forall i :: |log| <= i < |log'| && i < |log| + count ==>
      log'[i] == ReadArgs(R_CHECK, f, index, count)[i - |log|]
    requires forall i :: |log| + count <= i < |log'| ==> log'[i] == ReadArgs(R, f, index, count)[i - |log| - count]
    ensures forall i :: |log| <= i < |log'| ==> ReadQuery(f, index, count, i - |log|, log'[i])
  {
    hide ReadKind;
    ReadKinds(f);
  }

  lemma DataByBytes(app: Application, f: bv8, log: seq<Args>, queries: seq<Args>, log': seq<Args>, reply: seq<bv8>)
    requires ReadFunction(f) && log' == log + queries && ReadReply(f, Answers(app, log, queries), reply)
    ensures ReadData(app, f, log', |queries|, reply)
  {
    hide FromByte, ToByte, ReadKind, Bit, Answers, ReadData;
    ReadKinds(f);
    ByteBack(DataLength(Bitwise(ReadKind(f)), |queries|));
    AnswersAre(app, log, queries, log');
    var values := Answers(app, log, queries);
    if f == 1 || f == 2 {
      BitsByBytes(reply, values);
      BitsAreData(app, f, log', reply, values);
    } else {
      WordsByBytes(reply, values);
      WordsAreData(app, f, log', reply, values);
    }
  }

  /** `values` are the answers to the last queries. */
  ghost predicate LastAnswers(app: Application, log': seq<Args>, values: seq<Word>) {
    && |values| <= |log'|
    && var from := |log'| - |values|;
       forall i: nat :: i < |values| ==> values[i] == app(log'[..from + i], log'[from + i]).value
  }

  lemma BitsAreData(app: Application, f: bv8, log': seq<Args>, reply: seq<bv8>, values: seq<Word>)
    requires (f == 1 || f == 2) && LastAnswers(app, log', values)
    requires |reply| == 2 + (|values| + 7) / 8 && reply[0] == f && FromByte(reply[1]) == (|values| + 7) / 8
    requires forall i: nat :: i < 8 * (|reply| - 2) ==>
      (DataBit(reply[2..], i) <==> i < |values| && values[i] != 0)
    ensures ReadData(app, f, log', |values|, reply)
  {
    hide FromByte, DataBit;
    var from := |log'| - |values|;
    forall i: nat | i < 8 * (|reply| - 2)
      ensures DataBit(reply[2..], i) <==> i < |values| && app(log'[..from + i], log'[from + i]).value != 0
    {
      if i < |values| {
        assert values[i] == app(log'[..from + i], log'[from + i]).value;
      }
    }
  }

  lemma WordsAreData(app: Application, f: bv8, log': seq<Args>, reply: seq<bv8>, values: seq<Word>)
    requires !(f == 1 || f == 2) && LastAnswers(app, log', values)
    requires |reply| == 2 + 2 * |values| && reply[0] == f && FromByte(reply[1]) == 2 * |values|
    requires forall i: nat :: i < |values| ==>
      256 * FromByte(reply[2 + 2 * i]) + FromByte(reply[3 + 2 * i]) == values[i]
    ensures ReadData(app, f, log', |values|, reply)
  {
    hide FromByte;
    var from := |log'| - |values|;
    forall i: nat | i < |values|
      ensures 256 * FromByte(reply[2 + 2 * i]) + FromByte(reply[3 + 2 * i]) ==
              app(log'[..from + i], log'[from + i]).value
    {
      assert values[i] == app(log'[..from + i], log'[from + i]).value;
    }
  }

  lemma AnswersAre(app: Application, log: seq<Args>, queries: seq<Args>, log': seq<Args>)
    requires log' == log + queries
    ensures LastAnswers(app, log', Answers(app, log, queries))
  {
    forall i: nat | i < |queries| ensures log'[..|log| + i] == log + queries[..i] {
    }
  }

  lemma BitsByBytes(reply: seq<bv8>, values: seq<Word>)
    requires |reply| >= 2 && HoldsBits(reply[2..], Truths(values))
    ensures |reply| == 2 + (|values| + 7) / 8
    ensures forall i: nat :: i < 8 * (|reply| - 2) ==>
      (DataBit(reply[2..], i) <==> i < |values| && values[i] != 0)
  {
    hide Bit, DataBit;
    var data := reply[2..];
    forall i: nat | i < 8 * |data| ensures DataBit(data, i) <==> i < |values| && values[i] != 0 {
      assert ReadBit(data, i) == (i < |values| && Truths(values)[i]);
      DataBitIs(data, i);
    }
  }

  lemma WordsByBytes(reply: seq<bv8>, values: seq<Word>)
    requires |reply| >= 2 && HoldsWords(reply[2..], values)
    ensures |reply| == 2 + 2 * |values|
    ensures forall i: nat :: i < |values| ==> 256 * FromByte(reply[2 + 2 * i]) + FromByte(reply[3 + 2 * i]) == values[i]
  {
    hide FromByte;
    var data := reply[2..];
    forall i: nat | i < |values| ensures 256 * FromByte(reply[2 + 2 * i]) + FromByte(reply[3 + 2 * i]) == values[i] {
      assert ReadWord(data, 2 * i) == values[i];
    }
  }

  // ---------------------------------------------------------------------------------------
  // Functions 5 and 6

  ghost predicate SingleByBytes(app: Application, log: seq<Args>, pdu: seq<bv8>, log': seq<Args>, reply: seq<bv8>)
    requires pdu != []
  {
    var f := pdu[0];
    if |pdu| != 5 then Faulty(pdu, 3, log, log', reply)
    else
      var index, value := 256 * FromByte(pdu[1]) + FromByte(pdu[2]), 256 * FromByte(pdu[3]) + FromByte(pdu[4]);
      if f == 5 && value != 0 && value != 0xFF00 then Faulty(pdu, 3, log, log', reply)
      else
        var kind := if f == 5 then COIL else HOLDING_REGISTER;
        var v := if f == 6 then value else if value == 0 then 0 else 1;
        var check := Args(kind, W_CHECK, index, v, f);
        if Lets(app(log, check)) then log' == log + [check, Args(kind, W, index, v, f)] && reply == pdu
        else log' == log + [check] && RefusedLast(app, pdu, log', reply)
  }

  lemma SingleServedByBytes(app: Application, log: seq<Args>, pdu: seq<bv8>, log': seq<Args>, reply: seq<bv8>)
    requires pdu != [] && (pdu[0] == 5 || pdu[0] == 6) && SingleServed(app, log, pdu, log', reply)
    ensures SingleByBytes(app, log, pdu, log', reply)
  {
    hide FromByte, FirstRefused, Lets, RefusedLast, Declined, Granted;
    var f := pdu[0];
    if |pdu| == 5 && (f == 6 || ReadWord(pdu, 3) == 0 || ReadWord(pdu, 3) == 0xFF00) {
      var values := [Carried(f == 5, ReadWord(pdu, 3))];
      var checks, writes := WriteArgs(W_CHECK, f, ReadWord(pdu, 1), values), WriteArgs(W, f, ReadWord(pdu, 1), values);
      assert checks == [Args(WriteKind(f), W_CHECK, ReadWord(pdu, 1), values[0], f)];
      assert writes == [Args(WriteKind(f), W, ReadWord(pdu, 1), values[0], f)];
      assert log + checks + writes == log + [checks[0], writes[0]];
      OneCheckByBytes(app, pdu, log, checks[0], log', reply);
    }
  }

  /** A single query: granted, or the request ends with it. */
  lemma OneCheckByBytes(app: Application, pdu: seq<bv8>, log: seq<Args>, check: Args, log': seq<Args>, reply: seq<bv8>)
    requires pdu != []
    ensures Granted(app, log, [check]) <==> Lets(app(log, check))
    ensures Declined(app, log, [check], pdu[0], log', reply) ==>
      !Lets(app(log, check)) && log' == log + [check] && RefusedLast(app, pdu, log', reply)
    ensures forall next :: log + [check] + [next] == log + [check, next]
  {
    hide Lets, FirstRefused;
    FirstRefusal(app, log, [check]);
    assert log + [check][..0] == log;
    if Declined(app, log, [check], pdu[0], log', reply) {
      DeclinedByBytes(app, pdu, log, [check], log', reply);
    }
  }

  // ---------------------------------------------------------------------------------------
  // Functions 15 and 16

  ghost predicate WriteByBytes(app: Application, log: seq<Args>, pdu: seq<bv8>, log': seq<Args>, reply: seq<bv8>)
    requires pdu != []
  {
    var f, n := pdu[0], |log|;
    if |pdu| < 7 then Faulty(pdu, 3, log, log', reply)
    else
      var index, count := 256 * FromByte(pdu[1]) + FromByte(pdu[2]), 256 * FromByte(pdu[3]) + FromByte(pdu[4]);
      if || FromByte(pdu[5]) != |pdu| - 6 || count == 0 || count > (if f == 15 then 1968 else 123)
         || |pdu| - 6 != (if f == 15 then (count + 7) / 8 else 2 * count)
      then Faulty(pdu, 3, log, log', reply)
      else if index + count > 65536 then Faulty(pdu, 2, log, log', reply)
      else
        && log <= log' && n < |log'| <= n + 2 * count
        && (forall i :: n <= i < |log'| ==> WriteQuery(pdu, index, count, i - n, log'[i]))
        && (forall i :: n <= i < n + count && i < |log'| - 1 ==> Lets(app(log'[..i], log'[i])))
        && if |log'| != n + 2 * count then |log'| <= n + count && RefusedLast(app, pdu, log', reply)
           else Lets(app(log'[..n + count - 1], log'[n + count - 1])) && reply == pdu[..5]
  }

  /** Query `i` of a write: first each value is asked about, then each is written. */
  ghost predicate WriteQuery(pdu: seq<bv8>, index: nat, count: nat, i: nat, q: Args)
    requires count > 0 && |pdu| >= 7 && |pdu| - 6 == (if pdu[0] == 15 then (count + 7) / 8 else 2 * count)
    requires i < 2 * count
  {
    var j := if i < count then i else i - count;
    && q.kind == (if pdu[0] == 15 then COIL else HOLDING_REGISTER)
    && q.query == (if i < count then W_CHECK else W)
    && q.index == index + j && q.code == pdu[0]
    && q.value == if pdu[0] == 15 then (if DataBit(pdu[6..], j) then 1 else 0)
                  else 256 * FromByte(pdu[6 + 2 * j]) + FromByte(pdu[7 + 2 * j])
  }

  /** Value `j` of a well-formed request, by bytes. */
  lemma ValueByBytes(pdu: seq<bv8>, j: nat)
    requires pdu != [] && WritesMany(pdu[0]) && WriteFormed(pdu[0], pdu) && j < ReadWord(pdu, 3)
    ensures |pdu| >= 7 && |pdu| - 6 == (if pdu[0] == 15 then (ReadWord(pdu, 3) + 7) / 8 else 2 * ReadWord(pdu, 3))
    ensures Requested(pdu[0], pdu)[j] ==
      if pdu[0] == 15 then (if DataBit(pdu[6..], j) then 1 else 0)
      else 256 * FromByte(pdu[6 + 2 * j]) + FromByte(pdu[7 + 2 * j])
  {
    hide FromByte, Bit;
    if pdu[0] == 15 {
      DataBitIs(pdu[6..], j);
    } else {
      WordAt(pdu, j);
    }
  }

  lemma WordAt(pdu: seq<bv8>, j: nat)
    requires 7 + 2 * j < |pdu|
    ensures ValueAt(false, pdu[6..], j) == 256 * FromByte(pdu[6 + 2 * j]) + FromByte(pdu[7 + 2 * j])
  {
    hide FromByte;
  }

  lemma WriteKinds(f: bv8)
    requires WritesMany(f)
    ensures WriteKind(f) == if f == 15 then COIL else HOLDING_REGISTER
  {
  }

  lemma QueriesByBytes(pdu: seq<bv8>, index: Word, values: seq<Word>, j: nat)
    requires pdu != [] && WritesMany(pdu[0]) && WriteFormed(pdu[0], pdu) && values == Requested(pdu[0], pdu)
    requires index + |values| <= 0x1_0000 && j < |values| == ReadWord(pdu, 3)
    ensures |pdu| >= 7 && |pdu| - 6 == (if pdu[0] == 15 then (|values| + 7) / 8 else 2 * |values|)
    ensures WriteQuery(pdu, index, |values|, j, WriteArgs(W_CHECK, pdu[0], index, values)[j])
    ensures WriteQuery(pdu, index, |values|, |values| + j, WriteArgs(W, pdu[0], index, values)[j])
  {
    hide FromByte, ReadWord, WriteFormed, Requested, WriteKind;
    ValueByBytes(pdu, j);
    WriteKinds(pdu[0]);
  }

  lemma WriteServedByBytes(app: Application, log: seq<Args>, pdu: seq<bv8>, log': seq<Args>, reply: seq<bv8>)
    requires pdu != [] && WritesMany(pdu[0]) && WriteServed(app, log, pdu, log', reply)
    ensures WriteByBytes(app, log, pdu, log', reply)
  {
    hide FromByte, FirstRefused, Lets, RefusedLast, WriteQuery, Requested, WriteArgs, WriteFormed, Written;
    FormedByBytes(pdu);
    if |pdu| >= 7 && WriteFormed(pdu[0], pdu) {
      if ReadWord(pdu, 1) + ReadWord(pdu, 3) <= 0x1_0000 {
        WrittenByBytes(app, log, pdu, ReadWord(pdu, 1), Requested(pdu[0], pdu), log', reply);
      }
    }
  }

  lemma FormedByBytes(pdu: seq<bv8>)
    requires pdu != [] && WritesMany(pdu[0])
    ensures WriteFormed(pdu[0], pdu) <==>
      && |pdu| >= 7 && FromByte(pdu[5]) == |pdu| - 6
      && var count := 256 * FromByte(pdu[3]) + FromByte(pdu[4]);
         && 0 < count <= (if pdu[0] == 15 then 1968 else 123)
         && |pdu| - 6 == (if pdu[0] == 15 then (count + 7) / 8 else 2 * count)
  {
    hide FromByte;
  }

  lemma WrittenByBytes(app: Application, log: seq<Args>, pdu: seq<bv8>, index: Word, values: seq<Word>,
                       log': seq<Args>, reply: seq<bv8>)
    requires pdu != [] && WritesMany(pdu[0]) && WriteFormed(pdu[0], pdu) && values == Requested(pdu[0], pdu)
    requires index == ReadWord(pdu, 1) && index + |values| <= 0x1_0000
    requires Written(app, log, pdu[0], index, values, log', reply, ShortPdu(pdu[0], index, ReadWord(pdu, 3)))
    ensures |pdu| >= 7 && |pdu| - 6 == (if pdu[0] == 15 then (|values| + 7) / 8 else 2 * |values|) && |values| > 0
    ensures var n, count := |log|, |values|;
      && log <= log' && n < |log'| <= n + 2 * count
      && (forall i :: n <= i < |log'| ==> WriteQuery(pdu, index, count, i - n, log'[i]))
      && (forall i :: n <= i < n + count && i < |log'| - 1 ==> Lets(app(log'[..i], log'[i])))
      && if |log'| != n + 2 * count then |log'| <= n + count && RefusedLast(app, pdu, log', reply)
         else Lets(app(log'[..n + count - 1], log'[n + count - 1])) && reply == pdu[..5]
  {
    hide FromByte, FirstRefused, Lets, RefusedLast, WriteQuery, Requested, WriteArgs, WriteFormed, Declined, Granted;
    var f, n, count := pdu[0], |log|, |values|;
    FormedByBytes(pdu);
    EchoedHead(pdu);
    var checks, writes := WriteArgs(W_CHECK, f, index, values), WriteArgs(W, f, index, values);
    if Declined(app, log, checks, f, log', reply) {
      DeclinedByBytes(app, pdu, log, checks, log', reply);
    } else {
      GrantedByBytes(app, log, checks, writes, log');
    }
    QueriesInOrder(pdu, index, values, log, log');
  }

  /** A log that goes on with the queries of a write, or some of them. */
  lemma QueriesInOrder(pdu: seq<bv8>, index: Word, values: seq<Word>, log: seq<Args>, log': seq<Args>)
    requires pdu != [] && WritesMany(pdu[0]) && WriteFormed(pdu[0], pdu) && values == Requested(pdu[0], pdu)
    requires index + |values| <= 0x1_0000 && |values| > 0 && |log'| <= |log| + 2 * |values|
    requires |pdu| >= 7 && |pdu| - 6 == (if pdu[0] == 15 then (|values| + 7) / 8 else 2 * |values|)
    requires forall i :: |log| <= i < |log'| && i < |log| + |values| ==>
      log'[i] == WriteArgs(W_CHECK, pdu[0], index, values)[i - |log|]
    requires forall i :: |log| + |values| <= i < |log'| ==>
      log'[i] == WriteArgs(W, pdu[0], index, values)[i - |log| - |values|]
    ensures forall i :: |log| <= i < |log'| ==> WriteQuery(pdu, index, |values|, i - |log|, log'[i])
  {
    hide FromByte, WriteQuery, WriteArgs, WriteFormed, Requested;
    forall i | |log| <= i < |log'| ensures WriteQuery(pdu, index, |values|, i - |log|, log'[i]) {
      var j := i - |log|;
      QueriesByBytes(pdu, index, values, if j < |values| then j else j - |values|);
    }
  }

  lemma EchoedHead(pdu: seq<bv8>)
    requires |pdu| >= 5
    ensures ShortPdu(pdu[0], ReadWord(pdu, 1), ReadWord(pdu, 3)) == pdu[..5]
  {
    hide ReadWord, ShortPdu;
    var head := pdu[..5];
    SameWordIn(head, pdu, 1);
    SameWordIn(head, pdu, 3);
    ShortPduOf(head);
  }

  lemma SameWordIn(s: seq<bv8>, t: seq<bv8>, at: nat)
    requires at + 1 < |s| && at + 1 < |t| && s[at] == t[at] && s[at + 1] == t[at + 1]
    ensures ReadWord(s, at) == ReadWord(t, at)
  {
    hide FromByte;
  }

  // ---------------------------------------------------------------------------------------
  // Function 22

  /** Bit `k` of a word, counted from the low end. */
  predicate BitAt(w: bv16, k: nat) {
    if k == 0 then w & 1 == 1 else BitAt(w >> 1, k - 1)
  }

  /** Bit by bit, `w` is `v` where the and-mask `a` is set, and the or-mask `o` elsewhere. */
  ghost predicate MixedInto(v: bv16, a: bv16, o: bv16, w: bv16) {
    forall k: nat :: k < 16 ==> BitAt(w, k) == if BitAt(a, k) then BitAt(v, k) else BitAt(o, k)
  }

  ghost predicate MaskedInto(value: Word, andMask: Word, orMask: Word, w: Word) {
    MixedInto(value as bv16, andMask as bv16, orMask as bv16, w as bv16)
  }

  function Mix(v: bv16, a: bv16, o: bv16): bv16 {
    (v & a) | (o & !a)
  }

  lemma MixLow(v: bv16, a: bv16, o: bv16)
    ensures Mix(v, a, o) & 1 == 1 <==> if a & 1 == 1 then v & 1 == 1 else o & 1 == 1
    ensures Mix(v, a, o) >> 1 == Mix(v >> 1, a >> 1, o >> 1)
  {
  }

  lemma {:induction false} MixBits(v: bv16, a: bv16, o: bv16, k: nat)
    ensures BitAt(Mix(v, a, o), k) == if BitAt(a, k) then BitAt(v, k) else BitAt(o, k)
    decreases k
  {
    hide Mix;
    MixLow(v, a, o);
    if k > 0 {
      MixBits(v >> 1, a >> 1, o >> 1, k - 1);
    }
  }

  /** Bit `k` of the word that a masked write stores. */
  lemma MaskedBit(value: Word, andMask: Word, orMask: Word, k: nat)
    requires k < 16
    ensures BitAt(Masked(value, andMask, orMask) as bv16, k) ==
      if BitAt(andMask as bv16, k) then BitAt(value as bv16, k) else BitAt(orMask as bv16, k)
  {
    hide BitAt, Mix, Masked;
    MaskedMix(value, andMask, orMask);
    MixBits(value as bv16, andMask as bv16, orMask as bv16, k);
  }

  lemma MaskedMix(value: Word, andMask: Word, orMask: Word)
    ensures Masked(value, andMask, orMask) as bv16 == Mix(value as bv16, andMask as bv16, orMask as bv16)
  {
    var w := Mix(value as bv16, andMask as bv16, orMask as bv16);
    assert (w as nat) as bv16 == w;
  }

  lemma MaskedIsInto(value: Word, andMask: Word, orMask: Word)
    ensures MaskedInto(value, andMask, orMask, Masked(value, andMask, orMask))
  {
    hide BitAt, Masked;
    var v, a, o, w := value as bv16, andMask as bv16, orMask as bv16, Masked(value, andMask, orMask) as bv16;
    forall k: nat | k < 16 ensures BitAt(w, k) == if BitAt(a, k) then BitAt(v, k) else BitAt(o, k) {
      MaskedBit(value, andMask, orMask, k);
    }
  }

  ghost predicate MaskByBytes(app: Application, log: seq<Args>, pdu: seq<bv8>, log': seq<Args>, reply: seq<bv8>)
    requires pdu != []
  {
    if |pdu| != 7 then Faulty(pdu, 3, log, log', reply)
    else
      var index := 256 * FromByte(pdu[1]) + FromByte(pdu[2]);
      var andMask, orMask := 256 * FromByte(pdu[3]) + FromByte(pdu[4]), 256 * FromByte(pdu[5]) + FromByte(pdu[6]);
      var check, read := Args(HOLDING_REGISTER, R_CHECK, index, 0, pdu[0]), Args(HOLDING_REGISTER, R, index, 0, pdu[0]);
      if !Lets(app(log, check)) then log' == log + [check] && RefusedLast(app, pdu, log', reply)
      else
        exists w: Word :: MaskedInto(app(log + [check], read).value, andMask, orMask, w) &&
          var before, check2 := log + [check, read], Args(HOLDING_REGISTER, W_CHECK, index, w, pdu[0]);
          if !Lets(app(before, check2)) then log' == before + [check2] && RefusedLast(app, pdu, log', reply)
          else log' == before + [check2, Args(HOLDING_REGISTER, W, index, w, pdu[0])] && reply == pdu
  }

  lemma MaskServedByBytes(app: Application, log: seq<Args>, pdu: seq<bv8>, log': seq<Args>, reply: seq<bv8>)
    requires pdu != [] && MaskServed(app, log, pdu, log', reply)
    ensures MaskByBytes(app, log, pdu, log', reply)
  {
    hide FromByte, FirstRefused, Lets, Masked, MaskedInto, Declined, Granted, RefusedLast;
    if |pdu| == 7 {
      var index := ReadWord(pdu, 1);
      var check, read := HoldingArgs(R_CHECK, pdu[0], index, 0), HoldingArgs(R, pdu[0], index, 0);
      OneCheckByBytes(app, pdu, log, check, log', reply);
      var value := app(log + [check], read).value;
      var w := Masked(value, ReadWord(pdu, 3), ReadWord(pdu, 5));
      MaskedIsInto(value, ReadWord(pdu, 3), ReadWord(pdu, 5));
      var before, check2 := log + [check] + [read], HoldingArgs(W_CHECK, pdu[0], index, w);
      OneCheckByBytes(app, pdu, before, check2, log', reply);
      assert before == log + [check, read];
      var write := HoldingArgs(W, pdu[0], index, w);
      assert before + [check2] + [write] == before + [check2, write];
    }
  }

  // ---------------------------------------------------------------------------------------
  // All functions

  /** What each function code is served as; any other gets exception 1 and reaches no register. */
  ghost predicate ByBytes(app: Application, log: seq<Args>, pdu: seq<bv8>, log': seq<Args>, reply: seq<bv8>)
    requires pdu != []
  {
    var f := pdu[0];
    if f == 1 || f == 2 || f == 3 || f == 4 then ReadByBytes(app, log, pdu, log', reply)
    else if f == 5 || f == 6 then SingleByBytes(app, log, pdu, log', reply)
    else if f == 15 || f == 16 then WriteByBytes(app, log, pdu, log', reply)
    else if f == 22 then MaskByBytes(app, log, pdu, log', reply)
    else Faulty(pdu, 1, log, log', reply)
  }

  lemma ServedByBytes(app: Application, log: seq<Args>, pdu: seq<bv8>, log': seq<Args>, reply: seq<bv8>)
    requires pdu != [] && Served(app, log, pdu, log', reply)
    ensures ByBytes(app, log, pdu, log', reply)
  {
    hide ReadServed, SingleServed, WriteServed, MaskServed, ReadByBytes, SingleByBytes, WriteByBytes, MaskByBytes;
    if ReadFunction(pdu[0]) {
      ReadServedByBytes(app, log, pdu, log', reply);
    } else if pdu[0] == 5 || pdu[0] == 6 {
      SingleServedByBytes(app, log, pdu, log', reply);
    } else if WritesMany(pdu[0]) {
      WriteServedByBytes(app, log, pdu, log', reply);
    } else if pdu[0] == 22 {
      MaskServedByBytes(app, log, pdu, log', reply);
    }
  }

  /** The queries of a read: the kind of register that goes with the function, and which register each is for. */
  lemma ReadQueriesAre(app: Application, log: seq<Args>, pdu: seq<bv8>, log': seq<Args>, reply: seq<bv8>, i: nat)
    requires |pdu| == 5 && (pdu[0] == 1 || pdu[0] == 2 || pdu[0] == 3 || pdu[0] == 4)
    requires Served(app, log, pdu, log', reply) && |log| <= i < |log'|
    ensures var index, count := 256 * FromByte(pdu[1]) + FromByte(pdu[2]), 256 * FromByte(pdu[3]) + FromByte(pdu[4]);
      var j := i - |log|;
      && j < 2 * count
      && log'[i].kind == (match pdu[0] case 1 => COIL case 2 => DISCRETE_INPUT
                          case 3 => HOLDING_REGISTER case _ => INPUT_REGISTER)
      && log'[i].query == (if j < count then R_CHECK else R)
      && log'[i].index == index + (if j < count then j else j - count)
  {
    hide FromByte, Served, RefusedLast, ReadData, Lets;
    ServedByBytes(app, log, pdu, log', reply);
    var count := 256 * FromByte(pdu[3]) + FromByte(pdu[4]);
    assert ReadQuery(pdu[0], 256 * FromByte(pdu[1]) + FromByte(pdu[2]), count, i - |log|, log'[i]);
  }

  /** The queries of a write of one value or of many. */
  lemma WriteQueriesAre(app: Application, log: seq<Args>, pdu: seq<bv8>, log': seq<Args>, reply: seq<bv8>, i: nat)
    requires pdu != [] && (pdu[0] == 5 || pdu[0] == 6 || pdu[0] == 15 || pdu[0] == 16)
    requires Served(app, log, pdu, log', reply) && |log| <= i < |log'|
    ensures |pdu| >= 5
    ensures var index := 256 * FromByte(pdu[1]) + FromByte(pdu[2]);
      var count := if pdu[0] == 5 || pdu[0] == 6 then 1 else 256 * FromByte(pdu[3]) + FromByte(pdu[4]);
      var j := i - |log|;
      && j < 2 * count
      && log'[i].kind == (if pdu[0] == 5 || pdu[0] == 15 then COIL else HOLDING_REGISTER)
      && log'[i].query == (if j < count then W_CHECK else W)
      && log'[i].index == index + (if j < count then j else j - count)
  {
    hide FromByte, Served, RefusedLast, Lets;
    ServedByBytes(app, log, pdu, log', reply);
    if pdu[0] == 15 || pdu[0] == 16 {
      var count := 256 * FromByte(pdu[3]) + FromByte(pdu[4]);
      assert WriteQuery(pdu, 256 * FromByte(pdu[1]) + FromByte(pdu[2]), count, i - |log|, log'[i]);
    }
  }

  /** Inputs are never written, whatever the request. */
  lemma InputsAreNotWritten(app: Application, log: seq<Args>, pdu: seq<bv8>, log': seq<Args>, reply: seq<bv8>, i: nat)
    requires pdu != [] && Served(app, log, pdu, log', reply) && |log| <= i < |log'|
    requires log'[i].query == W || log'[i].query == W_CHECK
    ensures log'[i].kind == COIL || log'[i].kind == HOLDING_REGISTER
  {
    hide FromByte, Served, RefusedLast, ReadData, Lets, WriteQuery;
    ServedByBytes(app, log, pdu, log', reply);
    var f := pdu[0];
    if f == 5 || f == 6 || f == 15 || f == 16 {
      WriteQueriesAre(app, log, pdu, log', reply, i);
    } else if f == 1 || f == 2 || f == 3 || f == 4 {
      if |pdu| == 5 {
        ReadQueriesAre(app, log, pdu, log', reply, i);
        assert false;
      }
    }
  }

  /** The exception codes: 1 for an unknown function, 3 for a malformed request, 2 for registers past the last. */
  lemma ErrorReplies(app: Application, log: seq<Args>, pdu: seq<bv8>, log': seq<Args>, reply: seq<bv8>)
    requires pdu != [] && Served(app, log, pdu, log', reply)
    ensures pdu[0] !in {1, 2, 3, 4, 5, 6, 15, 16, 22} ==> log' == log && reply == [pdu[0] | 0x80, 1]
    ensures pdu[0] in {1, 2, 3, 4, 5, 6} && |pdu| != 5 ==> log' == log && reply == [pdu[0] | 0x80, 3]
    ensures pdu[0] in {15, 16} && |pdu| < 7 ==> log' == log && reply == [pdu[0] | 0x80, 3]
    ensures pdu[0] == 22 && |pdu| != 7 ==> log' == log && reply == [pdu[0] | 0x80, 3]
    ensures |pdu| >= 5 ==>
      var index, n := 256 * FromByte(pdu[1]) + FromByte(pdu[2]), 256 * FromByte(pdu[3]) + FromByte(pdu[4]);
      && (pdu[0] == 5 && n != 0 && n != 0xFF00 ==> log' == log && reply == [pdu[0] | 0x80, 3])
      && (pdu[0] in {1, 2} && (n == 0 || n > 2000) ==> log' == log && reply == [pdu[0] | 0x80, 3])
      && (pdu[0] in {3, 4} && (n == 0 || n > 125) ==> log' == log && reply == [pdu[0] | 0x80, 3])
      && (pdu[0] == 15 && (n == 0 || n > 1968) ==> log' == log && reply == [pdu[0] | 0x80, 3])
      && (pdu[0] == 16 && (n == 0 || n > 123) ==> log' == log && reply == [pdu[0] | 0x80, 3])
      && (pdu[0] in {1, 2} && |pdu| == 5 && 0 < n <= 2000 && index + n > 65536 ==>
            log' == log && reply == [pdu[0] | 0x80, 2])
      && (pdu[0] in {3, 4} && |pdu| == 5 && 0 < n <= 125 && index + n > 65536 ==>
            log' == log && reply == [pdu[0] | 0x80, 2])
    ensures pdu[0] in {15, 16} && |pdu| >= 7 ==>
      var index, n := 256 * FromByte(pdu[1]) + FromByte(pdu[2]), 256 * FromByte(pdu[3]) + FromByte(pdu[4]);
      var size := if pdu[0] == 15 then (n + 7) / 8 else 2 * n;
      && (FromByte(pdu[5]) != |pdu| - 6 || size != |pdu| - 6 ==> log' == log && reply == [pdu[0] | 0x80, 3])
      && (|pdu| - 6 == size == FromByte(pdu[5]) && 0 < n <= (if pdu[0] == 15 then 1968 else 123) ==>
            (index + n > 65536 ==> log' == log && reply == [pdu[0] | 0x80, 2]))
  {
    hide FromByte, Served, RefusedLast, ReadData, ReadQuery, WriteQuery, Lets;
    ServedByBytes(app, log, pdu, log', reply);
  }

  /** A request that ends with a check was refused, and answered with the exception; a failure is exception 4. */
  lemma RefusalReply(app: Application, log: seq<Args>, pdu: seq<bv8>, log': seq<Args>, reply: seq<bv8>)
    requires pdu != [] && Served(app, log, pdu, log', reply) && |log| < |log'|
    requires log'[|log'| - 1].query == R_CHECK || log'[|log'| - 1].query == W_CHECK
    ensures var r := app(log'[..|log'| - 1], log'[|log'| - 1]);
      (r.fail || r.exception != 0) && reply == [pdu[0] | 0x80, if r.fail then 4 else r.exception]
  {
    hide FromByte, Served, ReadData, ReadQuery, WriteQuery, MaskedInto;
    ServedByBytes(app, log, pdu, log', reply);
    var i, f := |log'| - 1, pdu[0];
    if (f == 1 || f == 2 || f == 3 || f == 4) && |pdu| == 5 {
      ReadQueriesAre(app, log, pdu, log', reply, i);
    } else if f == 5 || f == 6 || f == 15 || f == 16 {
      WriteQueriesAre(app, log, pdu, log', reply, i);
    }
  }

  // ---------------------------------------------------------------------------------------
  // Whatever the outcome

  lemma ReadOutcomes(app: Application, log: seq<Args>, pdu: seq<bv8>)
    requires pdu != [] && ReadFunction(pdu[0])
    ensures forall log': seq<Args>, reply: seq<bv8> ::
      ReadServed(app, log, pdu, log', reply) ==> ReadByBytes(app, log, pdu, log', reply)
  {
    hide ReadServed, ReadByBytes;
    forall log': seq<Args>, reply: seq<bv8> | ReadServed(app, log, pdu, log', reply)
      ensures ReadByBytes(app, log, pdu, log', reply)
    {
      ReadServedByBytes(app, log, pdu, log', reply);
    }
  }

  lemma SingleOutcomes(app: Application, log: seq<Args>, pdu: seq<bv8>)
    requires pdu != [] && (pdu[0] == 5 || pdu[0] == 6)
    ensures forall log': seq<Args>, reply: seq<bv8> ::
      SingleServed(app, log, pdu, log', reply) ==> SingleByBytes(app, log, pdu, log', reply)
  {
    hide SingleServed, SingleByBytes;
    forall log': seq<Args>, reply: seq<bv8> | SingleServed(app, log, pdu, log', reply)
      ensures SingleByBytes(app, log, pdu, log', reply)
    {
      SingleServedByBytes(app, log, pdu, log', reply);
    }
  }

  lemma WriteOutcomes(app: Application, log: seq<Args>, pdu: seq<bv8>)
    requires pdu != [] && WritesMany(pdu[0])
    ensures forall log': seq<Args>, reply: seq<bv8> ::
      WriteServed(app, log, pdu, log', reply) ==> WriteByBytes(app, log, pdu, log', reply)
  {
    hide WriteServed, WriteByBytes;
    forall log': seq<Args>, reply: seq<bv8> | WriteServed(app, log, pdu, log', reply)
      ensures WriteByBytes(app, log, pdu, log', reply)
    {
      WriteServedByBytes(app, log, pdu, log', reply);
    }
  }

  lemma MaskOutcomes(app: Application, log: seq<Args>, pdu: seq<bv8>)
    requires pdu != []
    ensures forall log': seq<Args>, reply: seq<bv8> ::
      MaskServed(app, log, pdu, log', reply) ==> MaskByBytes(app, log, pdu, log', reply)
  {
    hide MaskServed, MaskByBytes;
    forall log': seq<Args>, reply: seq<bv8> | MaskServed(app, log, pdu, log', reply)
      ensures MaskByBytes(app, log, pdu, log', reply)
    {
      MaskServedByBytes(app, log, pdu, log', reply);
    }
  }
}
