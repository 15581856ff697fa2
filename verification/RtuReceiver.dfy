/**
  The RTU slave receiver as a state machine over atomic steps: a UART interrupt per byte, a
  half-character timer interrupt per tick, and single statements of the main loop in between.
 */
module RtuLine {

  const BUFFER_SIZE := 256
  const T15 := 3
  const T35 := 7

  datatype Status = INIT | IDLE | RECV | CTRL_AND_WAITING | RECV_FINISH

  /** The main-loop statement to run next: the poll, the flag test, the parse, then the four of set_idle. */
  datatype Pc = Poll | Flag | Parse | ClearFlag | ClearCount | ClearLength | ClearStatus

  datatype Event = Byte(d: bv8) | Tick | Main

  /** `handed` lists the requests given to the parser so far. */
  datatype Machine = Machine(
    status: Status, tcnt: nat, frameErr: bool, buf: seq<bv8>,
    running: bool, timerRef: int, pc: Pc, handed: seq<seq<bv8>>)

  function Boot(): Machine {
    Machine(INIT, 0, false, [], false, 0, Poll, [])
  }

  /** An increment or decrement of the signed 8-bit reference count. */
  function Int8(x: int): int {
    if x > 127 then x - 256 else if x < -128 then x + 256 else x
  }

  function Disable(m: Machine): Machine {
    var ref := Int8(m.timerRef - 1);
    m.(timerRef := ref, running := m.running && ref > 0)
  }

  function Enable(m: Machine): Machine {
    m.(timerRef := Int8(m.timerRef + 1), running := true)
  }

  function OnTick(m: Machine): Machine {
    var m := m.(tcnt := m.tcnt + 1);
    match m.status
    case INIT => if m.tcnt >= T35 then m.(tcnt := 0, status := IDLE) else m
    case IDLE => m.(tcnt := 0)
    case RECV_FINISH => m.(tcnt := 0)
    case RECV => if m.tcnt >= T15 then m.(status := CTRL_AND_WAITING) else m
    case CTRL_AND_WAITING =>
      if m.tcnt < T35 then m
      else if m.frameErr then Disable(m.(frameErr := false, tcnt := 0, buf := [], status := IDLE))
      else Disable(m.(status := RECV_FINISH))
  }

  function Stored(m: Machine, d: bv8): Machine {
    match m.status
    case INIT => m.(tcnt := 0, status := RECV, buf := m.buf + [d])
    case IDLE => m.(tcnt := 0, status := RECV, buf := m.buf + [d])
    case RECV => m.(tcnt := 0, buf := if |m.buf| < BUFFER_SIZE then m.buf + [d] else m.buf)
    case CTRL_AND_WAITING => m.(tcnt := 0, frameErr := true)
    case RECV_FINISH => m
  }

  function OnByte(m: Machine, d: bv8): Machine {
    var m := Stored(m, d);
    if |m.buf| == 1 then Enable(m) else m
  }

  function OnMain(m: Machine): Machine {
    match m.pc
    case Poll => if m.status == RECV_FINISH then m.(pc := Flag) else m
    case Flag => m.(pc := if m.frameErr then ClearFlag else Parse)
    case Parse => m.(pc := ClearFlag, handed := m.handed + [m.buf])
    case ClearFlag => m.(pc := ClearCount, frameErr := false)
    case ClearCount => m.(pc := ClearLength, tcnt := 0)
    case ClearLength => m.(pc := ClearStatus, buf := [])
    case ClearStatus => m.(pc := Poll, status := IDLE)
  }

  function Step(m: Machine, e: Event): Machine {
    match e
    case Byte(d) => OnByte(m, d)
    case Tick => OnTick(m)
    case Main => OnMain(m)
  }

  function Run(m: Machine, ev: seq<Event>): Machine
    decreases |ev|
  {
    if ev == [] then m else Run(Step(m, ev[0]), ev[1..])
  }

  lemma {:induction false} RunConcat(m: Machine, a: seq<Event>, b: seq<Event>)
    ensures Run(m, a + b) == Run(Run(m, a), b)
    decreases |a|
  {
    hide Step;
    if a == [] {
      assert a + b == b;
    } else {
      assert (a + b)[0] == a[0] && (a + b)[1..] == a[1..] + b;
      RunConcat(Step(m, a[0]), a[1..], b);
    }
  }

  lemma RunSnoc(m: Machine, ev: seq<Event>, e: Event)
    ensures Run(m, ev + [e]) == Step(Run(m, ev), e)
  {
    hide Step;
    RunConcat(m, ev, [e]);
    assert [e][1..] == [];
  }

  // ---------------------------------------------------------------------------------------
  // What the line carried, without reference to the machine

  /** The number of ticks since the last byte. */
  function Silence(ev: seq<Event>): nat {
    if ev == [] then 0
    else
      var rest := ev[..|ev| - 1];
      match ev[|ev| - 1]
      case Byte(_) => 0
      case Tick => Silence(rest) + 1
      case Main => Silence(rest)
  }

  function Bytes(ev: seq<Event>): seq<bv8> {
    if ev == [] then []
    else
      var rest := Bytes(ev[..|ev| - 1]);
      match ev[|ev| - 1]
      case Byte(d) => rest + [d]
      case _ => rest
  }

  function First256(s: seq<bv8>): seq<bv8> {
    if |s| <= BUFFER_SIZE then s else s[..BUFFER_SIZE]
  }

  /** The byte at `k` came three or more ticks after the one before it. */
  predicate LateAt(ev: seq<Event>, k: nat)
    requires k < |ev|
  {
    ev[k].Byte? && Silence(ev[..k]) >= T15
  }

  ghost predicate HasLate(ev: seq<Event>) {
    exists k: nat :: 0 < k < |ev| && LateAt(ev, k)
  }

  /** A transmission that has not yet been followed by seven silent ticks. */
  ghost predicate Going(ev: seq<Event>) {
    ev != [] && ev[0].Byte? && forall k: nat :: 0 < k <= |ev| ==> Silence(ev[..k]) < T35
  }

  /** A transmission together with the seven silent ticks that end it. */
  ghost predicate Ended(ev: seq<Event>) {
    ev != [] && Going(ev[..|ev| - 1]) && Silence(ev) == T35
  }

  // ---------------------------------------------------------------------------------------
  // One transmission

  predicate Resting(m: Machine) {
    m.status in {INIT, IDLE} && m.buf == [] && !m.frameErr && m.tcnt < T35 && m.pc == Poll
  }

  /** The state of a machine that rested before it saw `ev`. */
  ghost predicate Receiving(m: Machine, ev: seq<Event>) {
    && m.pc == Poll
    && m.tcnt == Silence(ev)
    && m.frameErr == HasLate(ev)
    && m.status == (if HasLate(ev) || Silence(ev) >= T15 then CTRL_AND_WAITING else RECV)
    && m.buf != []
    && m.running
    && (!HasLate(ev) ==> m.buf == First256(Bytes(ev)))
  }

  predicate Holding(m: Machine, frame: seq<bv8>) {
    m.status == RECV_FINISH && m.buf == frame && !m.frameErr && m.tcnt <= T35 && m.pc == Poll
  }

  lemma LateSnoc(ev: seq<Event>, e: Event)
    requires ev != []
    ensures HasLate(ev + [e]) <==> HasLate(ev) || (e.Byte? && Silence(ev) >= T15)
  {
    var after := ev + [e];
    assert after[..|ev|] == ev;
    forall k: nat | k < |ev| ensures LateAt(after, k) <==> LateAt(ev, k) {
      assert after[..k] == ev[..k];
    }
    if HasLate(ev) {
      var k: nat :| 0 < k < |ev| && LateAt(ev, k);
      assert LateAt(after, k);
    }
    if e.Byte? && Silence(ev) >= T15 {
      assert LateAt(after, |ev|);
    }
  }

  lemma FirstByte(m: Machine, d: bv8)
    requires Resting(m)
    ensures Receiving(OnByte(m, d), [Byte(d)]) && OnByte(m, d).handed == m.handed
    ensures Going([Byte(d)])
  {
    var ev := [Byte(d)];
    assert Bytes(ev[..0]) == [];
    assert forall k: nat :: 0 < k <= 1 ==> ev[..k] == ev;
  }

  /** One more event either leaves the transmission going or completes its seven silent ticks. */
  lemma OneMore(m: Machine, ev: seq<Event>, e: Event)
    requires Going(ev) && Receiving(m, ev)
    ensures Step(m, e).handed == m.handed
    ensures var after := ev + [e];
      if Silence(after) < T35 then Going(after) && Receiving(Step(m, e), after)
      else if HasLate(after) then Ended(after) && Resting(Step(m, e))
      else Ended(after) && Holding(Step(m, e), First256(Bytes(after)))
  {
    var after := ev + [e];
    assert after[..|after| - 1] == ev;
    assert ev[..|ev|] == ev;
    assert Silence(ev) < T35;
    forall k: nat | 0 < k <= |ev| ensures after[..k] == ev[..k] {
    }
    if Silence(after) < T35 {
      assert after[..|after|] == after;
    }
    LateSnoc(ev, e);
  }

  lemma {:induction false} WhileGoing(m: Machine, ev: seq<Event>)
    requires Resting(m) && Going(ev)
    ensures Receiving(Run(m, ev), ev) && Run(m, ev).handed == m.handed
    decreases |ev|
  {
    hide Step, Receiving, Resting;
    var n := |ev| - 1;
    assert ev == ev[..n] + [ev[n]];
    RunSnoc(m, ev[..n], ev[n]);
    if n == 0 {
      FirstByte(m, ev[0].d);
      FirstStep(m, ev[0]);
    } else {
      forall k: nat | 0 < k <= n ensures ev[..n][..k] == ev[..k] {
      }
      WhileGoing(m, ev[..n]);
      assert ev[..|ev|] == ev;
      OneMore(Run(m, ev[..n]), ev[..n], ev[n]);
    }
  }

  lemma FirstStep(m: Machine, e: Event)
    requires e.Byte?
    ensures Step(m, e) == OnByte(m, e.d)
  {
  }

  lemma RestingStep(m: Machine, e: Event)
    requires Resting(m) && !e.Byte?
    ensures Resting(Step(m, e)) && Step(m, e).handed == m.handed
  {
  }

  // ---------------------------------------------------------------------------------------
  // Handing a frame to the main loop

  /** How many main-loop statements have run since the frame was complete. */
  function Done(pc: Pc): nat {
    match pc
    case Poll => 0
    case Flag => 1
    case Parse => 2
    case ClearFlag => 3
    case ClearCount => 4
    case ClearLength => 5
    case ClearStatus => 6
  }

  const HANDED_AFTER := 3
  const READY_AFTER := 7

  /** A complete frame is on its way through the main loop. */
  predicate Serving(m: Machine, frame: seq<bv8>) {
    && m.status == RECV_FINISH && !m.frameErr
    && m.tcnt <= T35 && (m.pc in {ClearLength, ClearStatus} ==> m.tcnt == 0)
    && m.buf == (if m.pc == ClearStatus then [] else frame)
  }

  /** Interrupts cannot disturb a frame being served, whichever statement they fall between. */
  lemma ServingStep(m: Machine, frame: seq<bv8>, e: Event)
    requires Serving(m, frame)
    ensures var after := Step(m, e);
      if !e.Main? then Serving(after, frame) && after.pc == m.pc && after.handed == m.handed
      else if m.pc == ClearStatus then Resting(after) && after.status == IDLE && after.handed == m.handed
      else
        && Serving(after, frame) && Done(after.pc) == Done(m.pc) + 1
        && after.handed == m.handed + (if m.pc == Parse then [frame] else [])
  {
  }

  function Mains(ev: seq<Event>): nat {
    if ev == [] then 0 else (if ev[0].Main? then 1 else 0) + Mains(ev[1..])
  }

  /** Seven main-loop statements, with any interrupts among them, hand over the frame once and re-arm the receiver. */
  lemma {:induction false} ServiceCompletes(m: Machine, frame: seq<bv8>, ev: seq<Event>)
    requires Serving(m, frame)
    requires ev != [] && ev[|ev| - 1].Main? && Mains(ev) == READY_AFTER - Done(m.pc)
    ensures Resting(Run(m, ev)) && Run(m, ev).status == IDLE
    ensures Run(m, ev).handed == m.handed + (if Done(m.pc) < HANDED_AFTER then [frame] else [])
    decreases |ev|
  {
    hide Step, Resting, Serving;
    ServingStep(m, frame, ev[0]);
    if |ev| == 1 {
      assert ev[1..] == [];
    } else {
      NoMoreMains(ev[1..]);
      ServiceCompletes(Step(m, ev[0]), frame, ev[1..]);
    }
  }

  lemma {:induction false} NoMoreMains(ev: seq<Event>)
    requires ev != [] && ev[|ev| - 1].Main?
    ensures Mains(ev) > 0
  {
    if |ev| > 1 {
      NoMoreMains(ev[1..]);
    }
  }

  // ---------------------------------------------------------------------------------------
  // Whole runs

  /** The length of the shortest prefix of `ev`, of at least `k` events, that ends in 7 silent ticks; 0 if none. */
  function End(ev: seq<Event>, k: nat): (n: nat)
    ensures n <= |ev|
    decreases |ev| - k
  {
    if k > |ev| then 0
    else if Silence(ev[..k]) >= T35 then k
    else if k == |ev| then 0
    else End(ev, k + 1)
  }

  /**
    The requests that a rested receiver hands over when it sees `ev`: every transmission without
    a late byte, cut to 256 bytes. After it, the line is not listened to until the main loop has
    run seven statements.
   */
  ghost function Deliveries(ev: seq<Event>): seq<seq<bv8>>
    decreases |ev|, 0
  {
    if ev == [] then []
    else if !ev[0].Byte? then Deliveries(ev[1..])
    else
      var n := End(ev, 1);
      if n == 0 then []
      else if HasLate(ev[..n]) then Deliveries(ev[n..])
      else Served(ev[n..], 0, First256(Bytes(ev[..n])))
  }

  ghost function Served(ev: seq<Event>, done: nat, frame: seq<bv8>): seq<seq<bv8>>
    decreases |ev|, 1
  {
    if ev == [] then []
    else if !ev[0].Main? then Served(ev[1..], done, frame)
    else if done + 1 == READY_AFTER then Deliveries(ev[1..])
    else (if done + 1 == HANDED_AFTER then [frame] else []) + Served(ev[1..], done + 1, frame)
  }

  lemma SilenceGrows(ev: seq<Event>)
    requires ev != []
    ensures Silence(ev) <= Silence(ev[..|ev| - 1]) + 1
  {
  }

  lemma {:induction false} EndIsEnd(ev: seq<Event>, k: nat)
    requires ev != [] && ev[0].Byte? && 0 < k <= |ev|
    requires forall j: nat :: 0 < j < k ==> Silence(ev[..j]) < T35
    ensures End(ev, k) == 0 ==> Going(ev)
    ensures var n := End(ev, k); n != 0 ==> n > 1 && Going(ev[..n - 1]) && Silence(ev[..n]) == T35
    decreases |ev| - k
  {
    hide Silence;
    if Silence(ev[..k]) >= T35 {
      OneByteSilence(ev);
      GoingSoFar(ev, k - 1);
      SilenceGrows(ev[..k]);
      assert ev[..k][..k - 1] == ev[..k - 1];
    } else if k < |ev| {
      EndIsEnd(ev, k + 1);
    }
  }

  lemma GoingSoFar(ev: seq<Event>, n: nat)
    requires 0 < n <= |ev| && ev[0].Byte?
    requires forall j: nat :: 0 < j <= n ==> Silence(ev[..j]) < T35
    ensures Going(ev[..n])
  {
    hide Silence;
    forall j: nat | 0 < j <= n ensures ev[..n][..j] == ev[..j] {
    }
  }

  lemma GoingIsShort(ev: seq<Event>)
    requires Going(ev)
    ensures Silence(ev) < T35
  {
    hide Silence;
    assert ev[..|ev|] == ev;
  }

  lemma OneByteSilence(ev: seq<Event>)
    requires ev != [] && ev[0].Byte?
    ensures Silence(ev[..1]) == 0
  {
  }

  lemma OneTransmission(m: Machine, ev: seq<Event>, n: nat)
    requires Resting(m) && 1 < n <= |ev| && Going(ev[..n - 1]) && Silence(ev[..n]) == T35
    ensures Run(m, ev[..n]).handed == m.handed
    ensures
      if HasLate(ev[..n]) then Resting(Run(m, ev[..n]))
      else Holding(Run(m, ev[..n]), First256(Bytes(ev[..n])))
    ensures Run(m, ev) == Run(Run(m, ev[..n]), ev[n..])
  {
    hide Step, Receiving, Resting, HasLate, Holding, Going;
    WhileGoing(m, ev[..n - 1]);
    assert ev[..n - 1] + [ev[n - 1]] == ev[..n];
    OneMore(Run(m, ev[..n - 1]), ev[..n - 1], ev[n - 1]);
    RunSnoc(m, ev[..n - 1], ev[n - 1]);
    RunConcat(m, ev[..n], ev[n..]);
    assert ev[..n] + ev[n..] == ev;
  }

  /** Whatever the interleaving, a rested receiver hands over exactly the deliverable transmissions. */
  lemma {:induction false} HandsOverDeliveries(m: Machine, ev: seq<Event>)
    requires Resting(m)
    ensures Run(m, ev).handed == m.handed + Deliveries(ev)
    decreases |ev|, 0
  {
    hide Step, Receiving, Resting, HasLate, Going, End;
    if ev == [] {
    } else if !ev[0].Byte? {
      RestingStep(m, ev[0]);
      HandsOverDeliveries(Step(m, ev[0]), ev[1..]);
    } else {
      EndIsEnd(ev, 1);
      var n := End(ev, 1);
      if n == 0 {
        WhileGoing(m, ev);
      } else {
        OneTransmission(m, ev, n);
        if HasLate(ev[..n]) {
          HandsOverDeliveries(Run(m, ev[..n]), ev[n..]);
        } else {
          HandsOverServed(Run(m, ev[..n]), ev[n..], First256(Bytes(ev[..n])));
        }
      }
    }
  }

  lemma {:induction false} HandsOverServed(m: Machine, ev: seq<Event>, frame: seq<bv8>)
    requires Serving(m, frame)
    ensures Run(m, ev).handed == m.handed + Served(ev, Done(m.pc), frame)
    decreases |ev|, 1
  {
    hide Step, Resting, Serving;
    if ev != [] {
      ServingStep(m, frame, ev[0]);
      if ev[0].Main? && m.pc == ClearStatus {
        HandsOverDeliveries(Step(m, ev[0]), ev[1..]);
      } else {
        HandsOverServed(Step(m, ev[0]), ev[1..], frame);
      }
    }
  }

  /** Any frame of up to 256 bytes sent without a late byte and followed by silence is handed over as it is. */
  lemma CleanFrameArrives(m: Machine, ev: seq<Event>)
    requires Resting(m) && Ended(ev) && !HasLate(ev) && |Bytes(ev)| <= BUFFER_SIZE
    ensures Run(m, ev + [Main, Main, Main]).handed == m.handed + [Bytes(ev)]
  {
    hide Silence, HasLate, Bytes, Run, Going, Resting, Deliveries;
    var all := ev + [Main, Main, Main];
    GoingStarts(ev[..|ev| - 1]);
    EndIsEnd(all, 1);
    var n := End(all, 1);
    assert all[..|ev|] == ev;
    if n == 0 {
      GoingPrefix(all, |ev|);
      assert false;
    } else if n < |ev| {
      assert ev[..|ev| - 1][..n] == all[..n];
      GoingPrefix(ev[..|ev| - 1], n);
      assert false;
    } else if n > |ev| {
      assert all[..n - 1][..|ev|] == ev;
      GoingPrefix(all[..n - 1], |ev|);
      assert false;
    } else {
      ThreeStatements(all, n, Bytes(ev));
      HandsOverDeliveries(m, all);
    }
  }

  function Ticks(n: nat): (ticks: seq<Event>)
    ensures |ticks| == n
  {
    seq(n, _ => Tick)
  }

  /** Bytes that follow each other with fewer than `n` ticks between them. */
  ghost predicate Close(ev: seq<Event>, n: nat) {
    && ev != [] && ev[0].Byte? && ev[|ev| - 1].Byte?
    && forall k: nat :: 0 < k < |ev| && ev[k].Byte? ==> Silence(ev[..k]) < n
  }

  lemma {:induction false} CloseSilence(ev: seq<Event>, n: nat, k: nat)
    requires n > 0 && Close(ev, n) && 0 < k <= |ev|
    ensures Silence(ev[..k]) < n
    decreases |ev| - k
  {
    if k == |ev| {
      assert ev[..k] == ev;
    } else if !ev[k].Byte? {
      CloseSilence(ev, n, k + 1);
      assert ev[..k + 1][..k] == ev[..k];
    }
  }

  lemma {:induction false} TickSilence(ev: seq<Event>, n: nat)
    requires ev != [] && ev[|ev| - 1].Byte?
    ensures Silence(ev + Ticks(n)) == n && Bytes(ev + Ticks(n)) == Bytes(ev)
  {
    var all := ev + Ticks(n);
    if n == 0 {
      assert all == ev;
    } else {
      assert all[..|all| - 1] == ev + Ticks(n - 1);
      TickSilence(ev, n - 1);
    }
  }

  /** Bytes with fewer than seven ticks between them, and six ticks: a transmission that still goes on. */
  lemma CloseGoes(ev: seq<Event>)
    requires Close(ev, 7)
    ensures Going(ev + Ticks(6))
  {
    hide Silence, Bytes;
    var most := ev + Ticks(6);
    forall k: nat | 0 < k <= |most| ensures Silence(most[..k]) < 7 {
      if k <= |ev| {
        assert most[..k] == ev[..k];
        CloseSilence(ev, 7, k);
      } else {
        assert most[..k] == ev + Ticks(k - |ev|);
        TickSilence(ev, k - |ev|);
      }
    }
  }

  /** A seventh tick ends it. */
  lemma CloseEnds(ev: seq<Event>)
    requires Close(ev, 7)
    ensures Ended(ev + Ticks(7)) && Bytes(ev + Ticks(7)) == Bytes(ev)
  {
    hide Silence, Bytes, Going;
    var all := ev + Ticks(7);
    TickSilence(ev, 7);
    CloseGoes(ev);
    assert all[..|all| - 1] == ev + Ticks(6);
  }

  lemma CloseLate(ev: seq<Event>)
    ensures HasLate(ev + Ticks(7)) <==> exists k: nat :: 0 < k < |ev| && ev[k].Byte? && Silence(ev[..k]) >= 3
  {
    hide Silence;
    var all := ev + Ticks(7);
    forall k: nat | k < |ev| ensures all[..k] == ev[..k] {
    }
    if HasLate(all) {
      var k: nat :| 0 < k < |all| && LateAt(all, k);
      assert ev[k].Byte? && Silence(ev[..k]) >= 3;
    }
    if k: nat :| 0 < k < |ev| && ev[k].Byte? && Silence(ev[..k]) >= 3 {
      assert LateAt(all, k);
    }
  }

  /** At most 256 bytes, never more than two ticks apart, then seven ticks: they are handed over as they are. */
  lemma FrameArrives(m: Machine, ev: seq<Event>)
    requires Resting(m) && Close(ev, 3) && |Bytes(ev)| <= 256
    ensures Run(m, ev + Ticks(7) + [Main, Main, Main]).handed == m.handed + [Bytes(ev)]
  {
    hide Silence, Bytes, Run, Resting, Ended, HasLate;
    CloseEnds(ev);
    CloseLate(ev);
    CleanFrameArrives(m, ev + Ticks(7));
  }

  /** A byte three to six ticks late: nothing of the transmission is handed over, and the receiver rests after it. */
  lemma LateFrameDropped(m: Machine, ev: seq<Event>, k: nat)
    requires Resting(m) && Close(ev, 7) && 0 < k < |ev| && ev[k].Byte? && Silence(ev[..k]) >= 3
    ensures Run(m, ev + Ticks(7)).handed == m.handed && Resting(Run(m, ev + Ticks(7)))
  {
    hide Silence, Bytes, Run, Resting, Going, HasLate;
    CloseEnds(ev);
    CloseLate(ev);
    var all := ev + Ticks(7);
    assert all[..|all|] == all;
    OneTransmission(m, all, |all|);
  }

  /** Six ticks do not end a transmission yet. */
  lemma SixTicksWait(m: Machine, ev: seq<Event>)
    requires Resting(m) && Close(ev, 7)
    ensures var after := Run(m, ev + Ticks(6)); Active(after) && after.handed == m.handed
  {
    hide Silence, Bytes, Run, Resting, HasLate, Going;
    CloseGoes(ev);
    WhileGoing(m, ev + Ticks(6));
  }

  lemma GoingStarts(ev: seq<Event>)
    requires Going(ev)
    ensures ev != [] && ev[0].Byte?
  {
  }

  lemma GoingPrefix(ev: seq<Event>, k: nat)
    requires Going(ev) && 0 < k <= |ev|
    ensures Silence(ev[..k]) < T35
  {
  }

  lemma ThreeStatements(all: seq<Event>, n: nat, frame: seq<bv8>)
    requires n == |all| - 3 && n > 0 && all[n..] == [Main, Main, Main] && all[0].Byte? && End(all, 1) == n
    requires !HasLate(all[..n]) && frame == First256(Bytes(all[..n]))
    ensures Deliveries(all) == [frame]
  {
    hide Silence, HasLate, Bytes, End;
    var rest := all[n..];
    var two, one := rest[1..], rest[1..][1..];
    assert rest[0].Main? && two[0].Main? && one[0].Main? && one[1..] == [];
    assert Served(one, 2, frame) == [frame] + Served(one[1..], 3, frame) == [frame];
    assert Served(two, 1, frame) == [] + Served(one, 2, frame);
    assert Served(rest, 0, frame) == [] + Served(two, 1, frame);
  }

  /**
    A receiver that was booted and saw `ev` rests, or is in the transmission since `i`, or
    serves the one at `i..j`.
   */
  ghost predicate Explains(m: Machine, ev: seq<Event>, i: nat, j: nat)
    requires i <= j <= |ev|
  {
    || Resting(m)
    || (Going(ev[i..]) && Receiving(m, ev[i..]))
    || (Ended(ev[i..j]) && !HasLate(ev[i..j]) && Serving(m, First256(Bytes(ev[i..j]))))
  }

  lemma {:induction false} Explained(ev: seq<Event>) returns (i: nat, j: nat)
    ensures i <= j <= |ev| && Explains(Run(Boot(), ev), ev, i, j)
    decreases |ev|
  {
    if ev == [] {
      return 0, 0;
    }
    var n := |ev| - 1;
    var before := ev[..n];
    i, j := Explained(before);
    assert ev == before + [ev[n]];
    RunSnoc(Boot(), before, ev[n]);
    i, j := ExplainedStep(Run(Boot(), before), before, ev[n], i, j);
  }

  lemma ExplainedStep(m: Machine, ev: seq<Event>, e: Event, i: nat, j: nat) returns (i': nat, j': nat)
    requires i <= j <= |ev| && Explains(m, ev, i, j)
    ensures i' <= j' <= |ev| + 1 && Explains(Step(m, e), ev + [e], i', j')
  {
    hide Step, Silence, HasLate, Bytes, Receiving, Resting, Serving, Going, Ended, First256;
    var after := ev + [e];
    if Resting(m) {
      if e.Byte? {
        FirstByte(m, e.d);
        FirstStep(m, e);
        assert after[|ev|..] == [e];
        return |ev|, |ev|;
      }
      RestingStep(m, e);
      return i, j;
    }
    if Going(ev[i..]) && Receiving(m, ev[i..]) {
      OneMore(m, ev[i..], e);
      assert after[i..] == ev[i..] + [e];
      assert after[i..|after|] == after[i..];
      HoldingIsServing(Step(m, e), First256(Bytes(after[i..])));
      return i, |after|;
    }
    ServingStep(m, First256(Bytes(ev[i..j])), e);
    assert after[i..j] == ev[i..j];
    return i, j;
  }

  lemma HoldingIsServing(m: Machine, frame: seq<bv8>)
    ensures Holding(m, frame) ==> Serving(m, frame)
  {
  }

  /**
    Whenever a frame is finished, it is the first 256 bytes of a transmission without late bytes
    that was followed by seven silent ticks, and the error flag is clear.
   */
  lemma FinishedIsATransmission(ev: seq<Event>) returns (i: nat, j: nat)
    requires Run(Boot(), ev).status == RECV_FINISH
    ensures i <= j <= |ev| && Ended(ev[i..j]) && !HasLate(ev[i..j])
    ensures var m := Run(Boot(), ev);
      !m.frameErr && m.buf == if m.pc == ClearStatus then [] else First256(Bytes(ev[i..j]))
  {
    i, j := Explained(ev);
  }

  predicate Active(m: Machine) {
    m.status in {RECV, CTRL_AND_WAITING}
  }

  /** While a transmission is being received the timer runs, so its interrupts keep coming. */
  lemma TimerRuns(ev: seq<Event>)
    requires Active(Run(Boot(), ev))
    ensures Run(Boot(), ev).running
  {
    var i, j := Explained(ev);
  }

  predicate NoBytes(ev: seq<Event>) {
    forall k :: 0 <= k < |ev| ==> !ev[k].Byte?
  }

  lemma {:induction false} SilenceAdds(a: seq<Event>, b: seq<Event>)
    requires NoBytes(b)
    ensures Silence(a + b) == Silence(a) + Silence(b)
  {
    if b == [] {
      assert a + b == a;
    } else {
      var n := |b| - 1;
      assert (a + b)[..|a + b| - 1] == a + b[..n];
      SilenceAdds(a, b[..n]);
    }
  }

  ghost predicate ActiveThrough(ev: seq<Event>, quiet: seq<Event>) {
    forall k: nat :: k <= |quiet| ==> Active(Run(Boot(), ev + quiet[..k]))
  }

  /** Seven silent ticks end any transmission, at the latest. */
  lemma SilenceEndsIt(ev: seq<Event>, quiet: seq<Event>)
    requires NoBytes(quiet) && Silence(quiet) >= T35
    ensures exists k: nat :: k <= |quiet| && !Active(Run(Boot(), ev + quiet[..k]))
  {
    hide Silence, Run, Going, Receiving, NoBytes, ActiveThrough;
    if ActiveThrough(ev, quiet) {
      var i := ActiveIsReceiving(ev, quiet);
      SilenceAdds(ev[i..], quiet);
      StaysGoing(ev, i, quiet, |quiet|);
      assert false;
    }
    NotActiveThrough(ev, quiet);
  }

  lemma NotActiveThrough(ev: seq<Event>, quiet: seq<Event>)
    requires !ActiveThrough(ev, quiet)
    ensures exists k: nat :: k <= |quiet| && !Active(Run(Boot(), ev + quiet[..k]))
  {
    hide Run, Active;
  }

  lemma ActiveIsReceiving(ev: seq<Event>, quiet: seq<Event>) returns (i: nat)
    requires ActiveThrough(ev, quiet)
    ensures i <= |ev| && Going(ev[i..]) && Receiving(Run(Boot(), ev), ev[i..])
  {
    hide Run, Going, Receiving;
    var j;
    i, j := Explained(ev);
    assert Active(Run(Boot(), ev + quiet[..0]));
    assert ev + quiet[..0] == ev;
  }

  lemma {:induction false} StaysGoing(ev: seq<Event>, i: nat, quiet: seq<Event>, k: nat)
    requires i <= |ev| && k <= |quiet|
    requires Going(ev[i..]) && Receiving(Run(Boot(), ev), ev[i..])
    requires ActiveThrough(ev, quiet)
    ensures Going(ev[i..] + quiet[..k]) && Receiving(Run(Boot(), ev + quiet[..k]), ev[i..] + quiet[..k])
    ensures k == |quiet| ==> Silence(ev[i..] + quiet) < T35
  {
    hide Step, Going, Receiving, Silence, HasLate, Run;
    assert quiet[..|quiet|] == quiet;
    if k == 0 {
      assert ev + quiet[..0] == ev && ev[i..] + quiet[..0] == ev[i..];
    } else {
      StaysGoing(ev, i, quiet, k - 1);
      var seg := ev[i..] + quiet[..k - 1];
      var e := quiet[k - 1];
      assert quiet[..k] == quiet[..k - 1] + [e];
      assert ev + quiet[..k] == (ev + quiet[..k - 1]) + [e];
      assert ev[i..] + quiet[..k] == seg + [e];
      RunSnoc(Boot(), ev + quiet[..k - 1], e);
      OneMore(Run(Boot(), ev + quiet[..k - 1]), seg, e);
      assert Active(Run(Boot(), ev + quiet[..k]));
    }
    GoingIsShort(ev[i..] + quiet[..k]);
  }
}

/** The receiver's fields as the interrupt handlers and the main loop update them. */
module RtuReceiver {
  import opened RtuLine

  class Slave {
    var status: Status
    var tcnt: nat
    var flagFrameErr: bool
    var reqLen: nat
    const reqBuf: array<bv8>
    var timerRunning: bool
    var timerRef: int
    /** Which statement of the main loop runs next, and what the loop has passed to the parser. */
    var pc: Pc
    ghost var handed: seq<seq<bv8>>

    ghost predicate Valid()
      reads this, reqBuf
    {
      && reqBuf.Length == BUFFER_SIZE
      && reqLen <= BUFFER_SIZE
      && -128 <= timerRef <= 127
      && (status in {INIT, IDLE} ==> reqLen == 0)
      && (pc == ClearStatus ==> reqLen == 0)
      && (pc != Poll ==> status == RECV_FINISH)
    }

    ghost function Abstract(): Machine
      reads this, reqBuf
      requires Valid()
    {
      Machine(status, tcnt, flagFrameErr, reqBuf[..reqLen], timerRunning, timerRef, pc, handed)
    }

    constructor ()
      ensures Valid() && fresh(reqBuf) && Abstract() == Boot()
    {
      status := INIT;
      tcnt := 0;
      flagFrameErr := false;
      reqLen := 0;
      reqBuf := new bv8[BUFFER_SIZE];
      timerRunning := false;
      timerRef := 0;
      pc := Poll;
      handed := [];
    }

    method TimerEnable()
      requires Valid()
      modifies this`timerRunning, this`timerRef
      ensures Valid() && Abstract() == Enable(old(Abstract()))
    {
      if !timerRunning {
        timerRunning := true;
      }
      timerRef := if timerRef == 127 then -128 else timerRef + 1;
    }

    method TimerDisable()
      requires Valid()
      modifies this`timerRunning, this`timerRef
      ensures Valid() && Abstract() == Disable(old(Abstract()))
    {
      timerRef := if timerRef == -128 then 127 else timerRef - 1;
      if timerRef <= 0 {
        timerRunning := false;
      }
    }

    method SetIdle()
      requires Valid() && pc == Poll
      modifies this`flagFrameErr, this`tcnt, this`reqLen, this`status
      ensures Valid()
      ensures Abstract() == old(Abstract()).(frameErr := false, tcnt := 0, buf := [], status := IDLE)
    {
      flagFrameErr := false;
      tcnt := 0;
      reqLen := 0;
      status := IDLE;
    }

    /** TMR0_IRQHandler. */
    method TimerInterrupt()
      requires Valid()
      modifies this`status, this`tcnt, this`flagFrameErr, this`reqLen, this`timerRunning, this`timerRef
      ensures Valid() && Abstract() == OnTick(old(Abstract()))
    {
      tcnt := tcnt + 1;
      match status {
        case INIT =>
          if tcnt >= 7 {
            tcnt := 0;
            status := IDLE;
          }
        case IDLE =>
          tcnt := 0;
        case RECV_FINISH =>
          tcnt := 0;
        case RECV =>
          if tcnt >= 3 {
            status := CTRL_AND_WAITING;
          }
        case CTRL_AND_WAITING =>
          if tcnt >= 7 {
            if flagFrameErr {
              SetIdle();
            } else {
              status := RECV_FINISH;
            }
            TimerDisable();
          }
      }
    }

    method Store(d: bv8)
      requires reqLen < reqBuf.Length
      modifies this`reqLen, reqBuf
      ensures reqLen == old(reqLen) + 1 && reqBuf[..reqLen] == old(reqBuf[..reqLen]) + [d]
    {
      reqBuf[reqLen] := d;
      reqLen := reqLen + 1;
    }

    /** What slave_recv does with a byte, status by status. */
    method Accept(d: bv8)
      requires Valid()
      modifies this`status, this`tcnt, this`flagFrameErr, this`reqLen, reqBuf
      ensures Valid() && Abstract() == Stored(old(Abstract()), d)
    {
      match status {
        case INIT =>
          tcnt := 0;
          status := RECV;
          Store(d);
        case IDLE =>
          tcnt := 0;
          status := RECV;
          Store(d);
        case RECV =>
          tcnt := 0;
          if reqLen < reqBuf.Length {
            Store(d);
          }
        case CTRL_AND_WAITING =>
          tcnt := 0;
          flagFrameErr := true;
        case RECV_FINISH =>
      }
    }

    /** slave_recv, with the timer stopped while it works. */
    method SlaveRecv(d: bv8)
      requires Valid()
      modifies this`status, this`tcnt, this`flagFrameErr, this`reqLen, this`timerRunning, this`timerRef, reqBuf
      ensures Valid() && Abstract() == OnByte(old(Abstract()), d)
    {
      var stopped := false;
      if timerRunning {
        timerRunning := false;
        stopped := true;
      }
      Accept(d);
      if stopped {
        timerRunning := true;
      }
      if reqLen == 1 {
        TimerEnable();
      }
    }

    /** The next statement of modbus_frame_check, set_idle included. */
    method FrameCheckStatement()
      requires Valid()
      modifies this`status, this`tcnt, this`flagFrameErr, this`reqLen, this`pc, this`handed
      ensures Valid() && Abstract() == OnMain(old(Abstract()))
    {
      match pc {
        case Poll =>
          if status == RECV_FINISH {
            pc := Flag;
          }
        case Flag =>
          pc := if flagFrameErr then ClearFlag else Parse;
        case Parse =>
          handed := handed + [reqBuf[..reqLen]];
          pc := ClearFlag;
        case ClearFlag =>
          flagFrameErr := false;
          pc := ClearCount;
        case ClearCount =>
          tcnt := 0;
          pc := ClearLength;
        case ClearLength =>
          reqLen := 0;
          pc := ClearStatus;
        case ClearStatus =>
          status := IDLE;
          pc := Poll;
      }
    }
  }

  /** Plays a whole interleaving through the handlers from power-up. */
  method Session(events: seq<Event>) returns (slave: Slave)
    ensures fresh(slave) && fresh(slave.reqBuf) && slave.Valid()
    ensures slave.Abstract() == Run(Boot(), events)
    ensures slave.handed == Deliveries(events)
  {
    hide Step, Run, Deliveries, OnTick, OnByte, OnMain;
    slave := new Slave();
    var k := 0;
    assert Run(Boot(), events[..0]) == Boot() by {
      RunNothing(Boot());
    }
    while k < |events|
      invariant k <= |events|
      invariant fresh(slave) && fresh(slave.reqBuf) && slave.Valid()
      invariant slave.Abstract() == Run(Boot(), events[..k])
    {
      assert events[..k + 1] == events[..k] + [events[k]];
      RunSnoc(Boot(), events[..k], events[k]);
      StepCases(slave.Abstract(), events[k]);
      match events[k] {
        case Byte(d) => slave.SlaveRecv(d);
        case Tick => slave.TimerInterrupt();
        case Main => slave.FrameCheckStatement();
      }
      k := k + 1;
    }
    assert events[..k] == events;
    BootRests();
    HandsOverDeliveries(Boot(), events);
  }

  lemma RunNothing(m: Machine)
    ensures Run(m, []) == m
  {
  }

  lemma BootRests()
    ensures Resting(Boot())
  {
  }

  lemma StepCases(m: Machine, e: Event)
    ensures Step(m, e) == match e case Byte(d) => OnByte(m, d) case Tick => OnTick(m) case Main => OnMain(m)
  {
  }
}
