/** src/ohci.c: bringing a boot keyboard up on an OHCI controller without ever
    waiting, against hardware and a device that may answer anything. */
module Ohci {
  import opened Bytes
  import opened UsbKeyboard

  const MAX_CONFIG: nat := 512
  const GET_DESCRIPTOR: byte := 0x06
  const SET_ADDRESS: byte := 0x05
  const SET_CONFIGURATION: byte := 0x09
  const DT_DEVICE: byte := 1
  const DT_CONFIG: byte := 2

  datatype Stage =
    | Scan | PowerWait | ResetWait | GetDevice | SetAddress | AddressWait | GetDeviceFull
    | GetConfigHead | GetConfig | SetConfig | SetProtocol | SetIdle

  /** A control request as it is queued; `length` bytes of the data buffer. */
  datatype Transfer =
    | Idle
    | Transfer(address: byte, packet: nat, kind: byte, command: byte, value: nat, index: nat, length: nat,
        lowSpeed: bool)

  datatype State = State(stage: Stage, configured: bool, deadline: nat, retryAfter: nat, address: byte, port: nat,
                         lowSpeed: bool, controlPacket: byte, keyboard: Keyboard, transfer: Transfer)

  /** What one poll reads: the timer, three times in this order, the root hub
      and the current port, the condition codes, and the data buffer. */
  datatype World = World(now: nat, checked: nat, submitted: nat, ports: byte, connected: seq<bool>,
                         attached: bool, resetting: bool, enabled: bool, slow: bool,
                         condition: nat, data: bytes, periodic: nat)

  predicate Plausible(w: World) {
    w.now <= w.checked <= w.submitted && |w.connected| == 15 && w.condition < 16 && |w.data| == MAX_CONFIG
  }

  // ----- one poll

  function Submit(c: State, w: World, address: byte, packet: nat, kind: byte, command: byte, value: nat, index: nat,
                  length: nat): State
  {
    c.(transfer := Transfer(address, packet, kind, command, value, index, length, c.lowSpeed),
       deadline := w.submitted + 100000)
  }

  datatype Status = Pending | Done | Failed

  function ControlStatus(c: State, w: World): Status {
    if w.condition == 15 && w.checked < c.deadline then Pending
    else if w.condition == 0 then Done
    else Failed
  }

  function Fail(c: State, w: World): State {
    c.(stage := Scan, address := 0, retryAfter := w.submitted + 500000)
  }

  /** The first connected port below `n`, from port `i` on; `n` if there is none. */
  function FirstPort(connected: seq<bool>, i: nat, n: nat): (p: nat)
    requires i <= n <= |connected|
    ensures i <= p <= n && (p < n ==> connected[p])
    decreases n - i
  {
    if i == n || connected[i] then i else FirstPort(connected, i + 1, n)
  }

  function Ports(w: World): nat {
    if w.ports > 15 then 15 else w.ports
  }

  function Total(data: bytes): nat
    requires |data| >= 4
  {
    data[2] + data[3] as int * 0x100
  }

  function Descriptor(c: State, w: World, kind: byte, length: nat): State {
    Submit(c, w, c.address, c.controlPacket, 0x80, GET_DESCRIPTOR, kind as int * 0x100, 0, length)
  }

  /** What a successful transfer leads to. */
  function Completed(c: State, index: nat, w: World): State
    requires Plausible(w) && index < 255
  {
    match c.stage
    case GetDevice =>
      if w.data[7] !in {8, 16, 32, 64} then Fail(c, w)
      else
        var d := c.(controlPacket := w.data[7], address := index + 1);
        Submit(d, w, 0, d.controlPacket, 0, SET_ADDRESS, index + 1, 0, 0).(stage := SetAddress)
    case SetAddress => c.(deadline := w.now + 2000, stage := AddressWait)
    case GetDeviceFull =>
      if w.data[0] < 18 || w.data[1] != DT_DEVICE then Fail(c, w)
      else Descriptor(c, w, DT_CONFIG, 9).(stage := GetConfigHead)
    case GetConfigHead =>
      if Total(w.data) < 9 || Total(w.data) > MAX_CONFIG then Fail(c, w)
      else Descriptor(c, w, DT_CONFIG, Total(w.data)).(stage := GetConfig)
    case GetConfig =>
      if Total(w.data) < 9 || Total(w.data) > MAX_CONFIG then Fail(c, w)
      else
        var found := SearchFrom(w.data[..Total(w.data)], 0, false, 0);
        if found.NotFound? || w.data[5] == 0 then Fail(c, w)
        else
          var d := c.(keyboard := found.keyboard);
          Submit(d, w, d.address, d.controlPacket, 0, SET_CONFIGURATION, w.data[5], 0, 0).(stage := SetConfig)
    case SetConfig =>
      Submit(c, w, c.address, c.controlPacket, 0x21, 0x0b, 0, c.keyboard.interfaceNumber, 0).(stage := SetProtocol)
    case SetProtocol =>
      Submit(c, w, c.address, c.controlPacket, 0x21, 0x0a, 0, c.keyboard.interfaceNumber, 0).(stage := SetIdle)
    case SetIdle => c.(configured := true)
    case _ => c
  }

  /** enumerate_step. */
  function Enumerate(c: State, index: nat, w: World): State
    requires Plausible(w) && index < 255
  {
    if c.stage == Scan then
      var p := FirstPort(w.connected, 0, Ports(w));
      if w.now < c.retryAfter || p == Ports(w) then c
      else c.(port := p, deadline := w.now + 20000, stage := PowerWait)
    else if !w.attached then c.(stage := Scan, retryAfter := 0)
    else match c.stage
      case PowerWait => if w.now < c.deadline then c else c.(deadline := w.now + 100000, stage := ResetWait)
      case ResetWait =>
        if w.resetting then if w.now >= c.deadline then Fail(c, w) else c
        else if !w.enabled then Fail(c, w)
        else
          var d := c.(lowSpeed := w.slow, controlPacket := 8);
          Submit(d, w, 0, 8, 0x80, GET_DESCRIPTOR, DT_DEVICE as int * 0x100, 0, 8).(stage := GetDevice)
      case AddressWait => if w.now < c.deadline then c else Descriptor(c, w, DT_DEVICE, 18).(stage := GetDeviceFull)
      case _ =>
        var status := ControlStatus(c, w);
        if status.Pending? then c else if status.Failed? then Fail(c, w) else Completed(c, index, w)
  }

  /** periodic_stop. */
  function Stopped(c: State, w: World): State {
    c.(configured := false, stage := Scan, retryAfter := w.submitted + 500000)
  }

  /** ohci_poll_all for one controller. */
  function Poll(c: State, index: nat, w: World): State
    requires Plausible(w) && index < 255
  {
    if c.configured then if !w.attached || w.periodic !in {0, 15} then Stopped(c, w) else c
    else Enumerate(c, index, w)
  }

  // ----- what every poll keeps

  function Order(s: Stage): nat {
    match s
    case Scan => 0 case PowerWait => 1 case ResetWait => 2 case GetDevice => 3 case SetAddress => 4
    case AddressWait => 5 case GetDeviceFull => 6 case GetConfigHead => 7 case GetConfig => 8
    case SetConfig => 9 case SetProtocol => 10 case SetIdle => 11
  }

  /** No transfer can fill more than the data buffer, and only requests towards
      the host carry data. */
  predicate TransferFits(t: Transfer) {
    t.Transfer? ==> t.length <= MAX_CONFIG && (t.kind < 0x80 ==> t.length == 0)
  }

  /** The device is spoken to under the address it has at the stage. */
  predicate Addressed(c: State, index: nat) {
    && (Order(c.stage) >= 4 ==> c.address == index + 1)
    && (Order(c.stage) >= 3 ==> c.transfer.Transfer?)
    && (Order(c.stage) in {3, 4, 5} ==> c.transfer.address == 0)
    && (Order(c.stage) >= 6 ==> c.transfer.address == index + 1)
  }

  predicate Inv(c: State, index: nat) {
    && TransferFits(c.transfer) && Addressed(c, index) && c.port < 15
    && (Order(c.stage) >= 9 ==> Acceptable(c.keyboard) && c.keyboard.endpoint < 16)
    && (c.configured ==> c.stage == SetIdle)
  }

  predicate Initial(c: State) {
    c.stage == Scan && !c.configured && c.transfer.Idle? && c.port == 0
  }

  predicate Advances(c: State, r: State, index: nat) {
    Inv(r, index) && (r.stage == c.stage || Order(r.stage) == Order(c.stage) + 1 || r.stage == Scan)
  }

  lemma CompletedAdvances(c: State, index: nat, w: World)
    requires Plausible(w) && index < 255 && Inv(c, index) && !c.configured
    ensures Advances(c, Completed(c, index, w), index)
    ensures Completed(c, index, w).configured ==> c.stage == SetIdle
  {
    hide SearchFrom;
    if c.stage == GetConfig && Total(w.data) <= MAX_CONFIG {
      var s := w.data[..Total(w.data)];
      if SearchFrom(s, 0, false, 0).Found? { FoundAcceptable(s, 0, false, 0); }
    }
  }

  /** Whatever the hardware answers, a poll keeps the stage, or advances it by
      exactly one, or returns to the scan; and only a poll at the last stage
      makes the keyboard configured. */
  lemma PollAdvances(c: State, index: nat, w: World)
    requires Plausible(w) && index < 255 && Inv(c, index)
    ensures var r := Poll(c, index, w);
            && Inv(r, index)
            && (r.stage == c.stage || Order(r.stage) == Order(c.stage) + 1 || r.stage == Scan)
            && (r.configured && !c.configured ==> c.stage == SetIdle && w.attached && w.condition == 0)
            && (c.configured && !r.configured ==> r.stage == Scan)
  {
    hide FirstPort, Completed;
    if !c.configured { CompletedAdvances(c, index, w); }
  }

  // ----- runs

  function Run(c: State, index: nat, ws: seq<World>): (s: seq<State>)
    requires index < 255 && forall w :: w in ws ==> Plausible(w)
    ensures |s| == |ws| + 1 && s[0] == c
    decreases |ws|
  {
    if ws == [] then [c] else [c] + Run(Poll(c, index, ws[0]), index, ws[1..])
  }

  lemma {:induction false} RunInv(c: State, index: nat, ws: seq<World>, i: nat)
    requires index < 255 && (forall w :: w in ws ==> Plausible(w)) && Inv(c, index) && i <= |ws|
    ensures Inv(Run(c, index, ws)[i], index)
    ensures i < |ws| ==> Run(c, index, ws)[i + 1] == Poll(Run(c, index, ws)[i], index, ws[i])
    decreases |ws|
  {
    hide Poll, Inv;
    if ws != [] {
      PollAdvances(c, index, ws[0]);
      if i > 0 { RunInv(Poll(c, index, ws[0]), index, ws[1..], i - 1); }
    }
  }

  /** Over every run from a fresh controller: the keyboard is configured only at
      the end of the whole chain, walked stage by stage since the last scan, for
      the controller's own address and with an acceptable endpoint. */
  lemma {:induction false} ConfiguredByChain(c: State, index: nat, ws: seq<World>, i: nat) returns (p: nat)
    requires index < 255 && (forall w :: w in ws ==> Plausible(w)) && Initial(c) && i <= |ws|
    ensures var s := Run(c, index, ws);
            && p <= i && s[p].stage == Scan
            && (forall k :: p <= k < i ==> Order(s[k].stage) <= Order(s[k + 1].stage) <= Order(s[k].stage) + 1)
            && TransferFits(s[i].transfer)
            && (s[i].configured ==> s[i].stage == SetIdle && s[i].address == index + 1 && Acceptable(s[i].keyboard))
    decreases i
  {
    hide Poll, Run, Acceptable;
    RunInv(c, index, ws, i);
    p := 0;
    if i > 0 {
      var q := ConfiguredByChain(c, index, ws, i - 1);
      RunInv(c, index, ws, i - 1);
      var s := Run(c, index, ws);
      PollAdvances(s[i - 1], index, ws[i - 1]);
      p := if s[i].stage == Scan then i else q;
    }
  }

  // ----- no attempt hangs

  /** An attempt is over: the keyboard works, or the controller scans again. */
  predicate Over(c: State) {
    c.configured || c.stage == Scan
  }

  /** How many stages are left. */
  function Left(c: State): nat {
    if Over(c) then 0 else 12 - Order(c.stage)
  }

  /** Once the current deadline has passed, the next poll leaves the stage,
      whatever the device does; a poll never goes back within an attempt. */
  lemma NeverSticks(c: State, index: nat, w: World)
    requires Plausible(w) && index < 255 && !Over(c)
    ensures Over(Poll(c, index, w)) || Left(Poll(c, index, w)) <= Left(c)
    ensures w.now >= c.deadline ==> Over(Poll(c, index, w)) || Left(Poll(c, index, w)) == Left(c) - 1
  {
    hide SearchFrom, FirstPort;
  }

  /** The polls of a run that come after the deadline then current. */
  function Late(s: seq<State>, ws: seq<World>): nat
    requires |s| >= |ws|
  {
    if ws == [] then 0 else (if ws[0].now >= s[0].deadline then 1 else 0) + Late(s[1..], ws[1..])
  }

  /** Every attempt ends after at most as many late polls as stages are left:
      eleven from its start. */
  lemma {:induction false} AttemptEnds(c: State, index: nat, ws: seq<World>) returns (i: nat)
    requires index < 255 && (forall w :: w in ws ==> Plausible(w)) && Late(Run(c, index, ws), ws) >= Left(c)
    ensures i <= |ws| && Over(Run(c, index, ws)[i]) && Left(c) <= 11
    decreases |ws|
  {
    hide Poll;
    i := 0;
    if !Over(c) && ws != [] {
      var d := Poll(c, index, ws[0]);
      NeverSticks(c, index, ws[0]);
      assert Run(c, index, ws)[1..] == Run(d, index, ws[1..]);
      if Over(d) {
        i := 1;
      } else {
        i := AttemptEnds(d, index, ws[1..]);
        i := i + 1;
      }
    }
  }

  /** Every deadline is at most 100 ms after the poll that set it. */
  lemma DeadlineSoon(c: State, index: nat, w: World)
    requires Plausible(w) && index < 255
    ensures Poll(c, index, w).deadline == c.deadline || Poll(c, index, w).deadline <= w.submitted + 100000
  {
    hide SearchFrom, FirstPort;
  }

  // ----- the interrupt schedule

  /** The polling period in frames: the power of two that reaches the interval,
      32 at most. */
  function PeriodFrom(period: nat, interval: byte): (p: nat)
    requires period in {1, 2, 4, 8, 16, 32}
    ensures p in {1, 2, 4, 8, 16, 32} && p >= period && (p >= interval || p == 32)
    ensures p == period || p < 2 * interval
    decreases 32 - period
  {
    if period < interval && period < 32 then PeriodFrom(2 * period, interval) else period
  }

  predicate Scheduled(table: seq<bool>, interval: byte) {
    |table| == 32 && forall i :: 0 <= i < 32 ==> (table[i] <==> i % PeriodFrom(1, interval) == 0)
  }

  /** In every run of `period` frames the endpoint is polled exactly once. */
  lemma OncePerPeriod(table: seq<bool>, interval: byte, frame: nat) returns (k: nat)
    requires Scheduled(table, interval)
    ensures var p := PeriodFrom(1, interval);
            && frame <= k < frame + p && table[k % 32]
            && forall j :: frame <= j < frame + p && table[j % 32] ==> j == k
  {
    hide PeriodFrom;
    var p := PeriodFrom(1, interval);
    k := NextMultiple(frame, p);
    forall j: nat ensures table[j % 32] <==> j % p == 0 {
      Residue(j, p);
    }
    forall j | frame <= j < frame + p && table[j % 32] ensures j == k {
      OneMultiple(frame, p, j, k);
    }
  }

  lemma Residue(j: nat, p: nat)
    requires p in {1, 2, 4, 8, 16, 32}
    ensures j % 32 % p == j % p
  {
    var q := j / 32;
    if p == 2 { By2(16 * q, j % 32); }
    else if p == 4 { By4(8 * q, j % 32); }
    else if p == 8 { By8(4 * q, j % 32); }
    else if p == 16 { By16(2 * q, j % 32); }
  }

  lemma By2(q: nat, r: nat)
    ensures (2 * q + r) % 2 == r % 2
  {}

  lemma By4(q: nat, r: nat)
    ensures (4 * q + r) % 4 == r % 4
  {}

  lemma By8(q: nat, r: nat)
    ensures (8 * q + r) % 8 == r % 8
  {}

  lemma By16(q: nat, r: nat)
    ensures (16 * q + r) % 16 == r % 16
  {}

  lemma NextMultiple(frame: nat, p: nat) returns (k: nat)
    requires p in {1, 2, 4, 8, 16, 32}
    ensures frame <= k < frame + p && k % p == 0
  {
    var q, r := frame / p, frame % p;
    k := if r == 0 then frame else frame + (p - r);
    assert k == p * (if r == 0 then q else q + 1);
    Multiples(p, if r == 0 then q else q + 1);
  }

  lemma Multiples(p: nat, q: nat)
    requires p in {1, 2, 4, 8, 16, 32}
    ensures (p * q) % p == 0
  {
    if p == 2 { assert (2 * q) % 2 == 0; }
    else if p == 4 { assert (4 * q) % 4 == 0; }
    else if p == 8 { assert (8 * q) % 8 == 0; }
    else if p == 16 { assert (16 * q) % 16 == 0; }
    else if p == 32 { assert (32 * q) % 32 == 0; }
  }

  lemma OneMultiple(frame: nat, p: nat, j: nat, k: nat)
    requires p in {1, 2, 4, 8, 16, 32} && frame <= j < frame + p && frame <= k < frame + p && j % p == 0 && k % p == 0
    ensures j == k
  {
    SameMultiple(frame, p, j / p, k / p);
    assert j == p * (j / p) && k == p * (k / p);
  }

  lemma SameMultiple(frame: nat, p: nat, x: nat, y: nat)
    requires p in {1, 2, 4, 8, 16, 32} && frame <= p * x < frame + p && frame <= p * y < frame + p
    ensures x == y
  {
    if p == 1 { assert frame <= x < frame + 1 && frame <= y < frame + 1; }
    else if p == 2 { assert frame <= 2 * x < frame + 2 && frame <= 2 * y < frame + 2; }
    else if p == 4 { assert frame <= 4 * x < frame + 4 && frame <= 4 * y < frame + 4; }
    else if p == 8 { assert frame <= 8 * x < frame + 8 && frame <= 8 * y < frame + 8; }
    else if p == 16 { assert frame <= 16 * x < frame + 16 && frame <= 16 * y < frame + 16; }
    else { assert frame <= 32 * x < frame + 32 && frame <= 32 * y < frame + 32; }
  }

  // ----- the C routines

  class Controller {
    var stage: Stage
    var configured: bool
    var deadline: nat
    var retryAfter: nat
    var address: byte
    var port: nat
    var lowSpeed: bool
    var controlPacket: byte
    var keyboard: Keyboard
    var transfer: Transfer
    const table: array<bool>

    function Value(): State
      reads this
    {
      State(stage, configured, deadline, retryAfter, address, port, lowSpeed, controlPacket, keyboard, transfer)
    }

    /** While the keyboard works its endpoint is on the schedule. */
    ghost predicate Valid(index: nat)
      reads this, table
    {
      table.Length == 32 && Inv(Value(), index) && (configured ==> Scheduled(table[..], keyboard.interval))
    }

    constructor (ghost index: nat)
      ensures Valid(index) && Initial(Value()) && fresh(table)
    {
      stage, configured, deadline, retryAfter := Scan, false, 0, 0;
      address, port, lowSpeed, controlPacket := 0, 0, false, 0;
      keyboard, transfer := Keyboard(0, 0, 0, 0), Idle;
      table := new bool[32];
    }

    /** control_submit. */
    method SubmitControl(w: World, to: byte, packet: nat, kind: byte, command: byte, value: nat, at: nat, length: nat)
      modifies this
      ensures Value() == Submit(old(Value()), w, to, packet, kind, command, value, at, length)
    {
      transfer := Transfer(to, packet, kind, command, value, at, length, lowSpeed);
      deadline := w.submitted + 100000;
    }

    /** enumeration_fail. */
    method GiveUp(w: World)
      modifies this
      ensures Value() == Fail(old(Value()), w)
    {
      stage, address, retryAfter := Scan, 0, w.submitted + 500000;
    }

    /** periodic_start. */
    method StartPeriodic()
      requires table.Length == 32
      modifies this`configured, table
      ensures Value() == old(Value()).(configured := true) && Scheduled(table[..], keyboard.interval)
    {
      var period := 1;
      while period < keyboard.interval && period < 32
        invariant period in {1, 2, 4, 8, 16, 32}
            && PeriodFrom(1, keyboard.interval) == PeriodFrom(period, keyboard.interval)
        decreases 32 - period
      {
        period := 2 * period;
      }
      for i := 0 to 32
        invariant forall k :: 0 <= k < i ==> (table[k] <==> k % period == 0)
      {
        table[i] := i % period == 0;
      }
      configured := true;
    }

    /** The search of ENUM_SCAN. */
    method FindPort(w: World) returns (p: nat)
      requires Plausible(w)
      ensures p == FirstPort(w.connected, 0, Ports(w))
    {
      p := 0;
      while p < Ports(w) && !w.connected[p]
        invariant p <= Ports(w) && FirstPort(w.connected, 0, Ports(w)) == FirstPort(w.connected, p, Ports(w))
      {
        p := p + 1;
      }
    }

    /** The stages that wait for a control transfer, once it is done. */
    method OnCompletion(index: nat, w: World)
      requires Plausible(w) && index < 255 && !configured && Valid(index)
      modifies this, table
      ensures Value() == Completed(old(Value()), index, w)
      ensures configured ==> Scheduled(table[..], keyboard.interval)
    {
      hide SearchFrom, Scheduled;
      match stage {
        case GetDevice =>
          if w.data[7] != 8 && w.data[7] != 16 && w.data[7] != 32 && w.data[7] != 64 {
            GiveUp(w);
            return;
          }
          controlPacket, address := w.data[7], index + 1;
          SubmitControl(w, 0, controlPacket, 0, SET_ADDRESS, address, 0, 0);
          stage := SetAddress;
        case SetAddress =>
          deadline, stage := w.now + 2000, AddressWait;
        case GetDeviceFull =>
          if w.data[0] < 18 || w.data[1] != DT_DEVICE {
            GiveUp(w);
            return;
          }
          SubmitControl(w, address, controlPacket, 0x80, GET_DESCRIPTOR, DT_CONFIG as int * 0x100, 0, 9);
          stage := GetConfigHead;
        case GetConfigHead =>
          var total := Total(w.data);
          if total < 9 || total > MAX_CONFIG {
            GiveUp(w);
            return;
          }
          SubmitControl(w, address, controlPacket, 0x80, GET_DESCRIPTOR, DT_CONFIG as int * 0x100, 0, total);
          stage := GetConfig;
        case GetConfig =>
          ReadConfig(w);
        case SetConfig =>
          SubmitControl(w, address, controlPacket, 0x21, 0x0b, 0, keyboard.interfaceNumber, 0);
          stage := SetProtocol;
        case SetProtocol =>
          SubmitControl(w, address, controlPacket, 0x21, 0x0a, 0, keyboard.interfaceNumber, 0);
          stage := SetIdle;
        case SetIdle =>
          StartPeriodic();
        case _ =>
      }
    }

    method ReadConfig(w: World)
      requires Plausible(w) && stage == GetConfig
      modifies this
      ensures forall index :: 0 <= index < 255 ==> Value() == Completed(old(Value()), index, w)
    {
      hide SearchFrom;
      var total := Total(w.data);
      if total < 9 || total > MAX_CONFIG {
        GiveUp(w);
        return;
      }
      var found := FindBootKeyboard(w.data[..total]);
      if found.NotFound? || w.data[5] == 0 {
        GiveUp(w);
        return;
      }
      keyboard := found.keyboard;
      SubmitControl(w, address, controlPacket, 0, SET_CONFIGURATION, w.data[5], 0, 0);
      stage := SetConfig;
    }

    /** enumerate_step. */
    method EnumerateStep(index: nat, w: World)
      requires Plausible(w) && index < 255 && !configured && Valid(index)
      modifies this, table
      ensures Value() == Enumerate(old(Value()), index, w)
      ensures configured ==> Scheduled(table[..], keyboard.interval)
    {
      hide SearchFrom, Scheduled, Completed, FirstPort;
      if stage == Scan {
        if w.now < retryAfter {
          return;
        }
        var p := FindPort(w);
        if p < Ports(w) {
          port, deadline, stage := p, w.now + 20000, PowerWait;
        }
        return;
      }
      if !w.attached {
        stage, retryAfter := Scan, 0;
        return;
      }
      if stage == PowerWait {
        if w.now >= deadline {
          deadline, stage := w.now + 100000, ResetWait;
        }
      } else if stage == ResetWait {
        if w.resetting {
          if w.now >= deadline {
            GiveUp(w);
          }
          return;
        }
        if !w.enabled {
          GiveUp(w);
          return;
        }
        lowSpeed, controlPacket := w.slow, 8;
        SubmitControl(w, 0, 8, 0x80, GET_DESCRIPTOR, DT_DEVICE as int * 0x100, 0, 8);
        stage := GetDevice;
      } else if stage == AddressWait {
        if w.now >= deadline {
          SubmitControl(w, address, controlPacket, 0x80, GET_DESCRIPTOR, DT_DEVICE as int * 0x100, 0, 18);
          stage := GetDeviceFull;
        }
      } else {
        var status := ControlStatus(Value(), w);
        if status.Failed? {
          GiveUp(w);
        } else if status.Done? {
          OnCompletion(index, w);
        }
      }
    }

    /** ohci_poll_all for this controller. */
    method PollOnce(index: nat, w: World)
      requires Plausible(w) && index < 255 && Valid(index)
      modifies this, table
      ensures Value() == Poll(old(Value()), index, w) && Valid(index)
    {
      hide Enumerate, Scheduled;
      PollAdvances(Value(), index, w);
      if configured {
        if !w.attached || (w.periodic != 15 && w.periodic != 0) {
          for i := 0 to 32
            invariant Value() == old(Value())
          {
            table[i] := false;
          }
          configured, stage, retryAfter := false, Scan, w.submitted + 500000;
        }
      } else {
        EnumerateStep(index, w);
      }
    }
  }
}
