/** The other end of the wire: a boot keyboard as section 9.4 of USB 2.0 and
    section 7.2 of HID 1.11 want it to answer, and what the enumeration of
    src/ohci.c comes to with it. */
module UsbDevice {
  import opened Bytes
  import opened UsbKeyboard
  import opened Ohci

  /** `configuration` is 0 until one is chosen; `boot` and `idle` say whether the
      boot protocol and an idle rate of zero were asked for. */
  datatype Device = Device(descriptor: bytes, config: bytes, address: nat, configuration: nat, boot: bool, idle: bool)

  /** A device with one configuration of at most 512 bytes whose first suitable
      endpoint is in range. */
  predicate Conforms(d: Device) {
    && |d.descriptor| == 18 && d.descriptor[0] == 18 && d.descriptor[1] == 1 && d.descriptor[7] in {8, 16, 32, 64}
    && 9 <= |d.config| <= 512 && d.config[2] + d.config[3] as int * 0x100 == |d.config| && d.config[5] != 0
    && Wanted(d.config).Found?
  }

  function Wanted(config: bytes): Search {
    Expected(config, Chain(config, 0), 0)
  }

  datatype Reply = Silence | Stall | Reply(device: Device, data: bytes)

  function Begin(s: bytes, n: nat): (r: bytes) {
    if n < |s| then s[..n] else s
  }

  /** The answer to a control request: none at another address or with a packet
      size that the device does not use, a stall for what it does not know. */
  function Respond(d: Device, t: Transfer): Reply
    requires Conforms(d) && t.Transfer?
  {
    if t.address != d.address || !(t.packet == d.descriptor[7] || (t.packet == 8 && t.length <= 8)) then Silence
    else if t.kind == 0x80 && t.command == 6 && t.index == 0 then
      if t.value == 0x100 then Reply(d, Begin(d.descriptor, t.length))
      else if t.value == 0x200 then Reply(d, Begin(d.config, t.length))
      else Stall
    else if t.length != 0 then Stall
    else if t.kind == 0 && t.command == 5 && t.index == 0 && t.value <= 127 && d.configuration == 0 then
      Reply(d.(address := t.value), [])
    else if t.kind == 0 && t.command == 9 && t.index == 0 && t.value == d.config[5] && d.address != 0 then
      Reply(d.(configuration := t.value), [])
    else if d.configuration != 0 && t.kind == 0x21 && t.value == 0
            && t.index == Wanted(d.config).keyboard.interfaceNumber then
      if t.command == 0x0b then Reply(d.(boot := true), [])
      else if t.command == 0x0a && d.boot then Reply(d.(idle := true), [])
      else Stall
    else Stall
  }

  /** After a reset of its port. */
  function Reset(d: Device): Device {
    d.(address := 0, configuration := 0, boot := false, idle := false)
  }

  /** Stages that wait for the end of a control transfer. */
  predicate Waiting(c: State) {
    !c.configured && c.stage !in {Scan, PowerWait, ResetWait, AddressWait}
  }

  /** What a poll finds when the device stays attached and the hardware works:
      a reset ends in time, a transfer that is answered ends in time with the
      answer in the buffer, one that is not answered does not succeed. */
  predicate Lawful(c: State, d: Device, w: World)
    requires Conforms(d) && (Waiting(c) ==> c.transfer.Transfer?)
  {
    && Plausible(w)
    && (c.configured ==> w.attached && w.periodic in {0, 15})
    && (!c.configured && c.stage != Scan ==> w.attached)
    && (c.stage == ResetWait ==> if w.resetting then w.now < c.deadline else w.enabled)
    && (Waiting(c) ==>
          var r := Respond(d, c.transfer);
          if r.Reply? then (w.condition == 15 && w.checked < c.deadline) || (w.condition == 0 && r.data <= w.data)
          else w.condition != 0)
  }

  /** The device after a poll. */
  function After(c: State, d: Device, w: World): (r: Device)
    requires Conforms(d) && (Waiting(c) ==> c.transfer.Transfer?)
    ensures Conforms(r) && r.descriptor == d.descriptor && r.config == d.config
  {
    if c.stage == ResetWait && !w.resetting then Reset(d)
    else if Waiting(c) && w.condition == 0 && Respond(d, c.transfer).Reply? then Respond(d, c.transfer).device
    else d
  }

  /** A poll that comes late enough for its stage to be over. */
  predicate Prompt(c: State, w: World)
    requires Plausible(w)
  {
    !c.configured &&
    match c.stage
    case Scan => w.now >= c.retryAfter && FirstPort(w.connected, 0, Ports(w)) < Ports(w)
    case PowerWait => w.now >= c.deadline
    case ResetWait => !w.resetting
    case AddressWait => w.now >= c.deadline
    case _ => w.condition == 0
  }

  /** The request that a stage has queued, in full. */
  predicate Asks(t: Transfer, address: nat, packet: nat, kind: byte, command: byte, value: nat, at: nat, length: nat) {
    && t.Transfer? && t.address == address && t.packet == packet && t.kind == kind && t.command == command
    && t.value == value && t.index == at && t.length == length
  }

  /** Controller and device agree on how far they are. */
  predicate InStep(c: State, d: Device, index: nat) {
    && Conforms(d)
    && var size, k := d.descriptor[7], Wanted(d.config).keyboard;
    && (Order(c.stage) == 3 ==>
          d.address == 0 && d.configuration == 0 && !d.boot && !d.idle && Asks(c.transfer, 0, 8, 0x80, 6, 0x100, 0, 8))
    && (Order(c.stage) == 4 ==>
          d.address == 0 && d.configuration == 0 && Asks(c.transfer, 0, size, 0, 5, index + 1, 0, 0))
    && (Order(c.stage) >= 4 ==> c.controlPacket == size && c.address == index + 1)
    && (Order(c.stage) >= 5 ==> d.address == index + 1)
    && (Order(c.stage) == 6 ==> Asks(c.transfer, index + 1, size, 0x80, 6, 0x100, 0, 18))
    && (Order(c.stage) == 7 ==> Asks(c.transfer, index + 1, size, 0x80, 6, 0x200, 0, 9))
    && (Order(c.stage) == 8 ==> Asks(c.transfer, index + 1, size, 0x80, 6, 0x200, 0, |d.config|))
    && (Order(c.stage) == 9 ==> Asks(c.transfer, index + 1, size, 0, 9, d.config[5], 0, 0))
    && (Order(c.stage) >= 9 ==> c.keyboard == k)
    && (Order(c.stage) >= 10 ==> d.configuration == d.config[5])
    && (Order(c.stage) == 10 ==> Asks(c.transfer, index + 1, size, 0x21, 0x0b, 0, k.interfaceNumber, 0))
    && (Order(c.stage) >= 11 ==> d.boot)
    && (Order(c.stage) == 11 ==> Asks(c.transfer, index + 1, size, 0x21, 0x0a, 0, k.interfaceNumber, 0))
    && (c.configured ==> c.stage == SetIdle && d.idle)
  }

  /** From `c` to `r` in one poll: the same stage or the next, and the next if
      the poll was prompt. */
  predicate Moves(c: State, r: State, w: World)
    requires Plausible(w)
  {
    if c.configured then r == c
    else if r.configured then c.stage == SetIdle
    else Order(r.stage) == Order(c.stage) + 1 || (r.stage == c.stage && !Prompt(c, w))
  }

  lemma Transferring(c: State, d: Device, index: nat)
    requires InStep(c, d, index)
    ensures Waiting(c) ==> c.transfer.Transfer?
  {
    hide Conforms, Wanted;
  }

  /** Before the first transfer, and between the address and the next one. */
  lemma EarlyPoll(c: State, d: Device, index: nat, w: World)
    requires index < 127 && InStep(c, d, index) && !Waiting(c) && Lawful(c, d, w)
    ensures var r := Poll(c, index, w);
            InStep(r, After(c, d, w), index) && Moves(c, r, w)
  {
    hide Conforms, Wanted, Expected, Chain, FirstPort, Completed;
  }

  lemma WaitingPoll(c: State, d: Device, index: nat, w: World)
    requires index < 127 && InStep(c, d, index) && Waiting(c) && c.transfer.Transfer? && Lawful(c, d, w)
    requires w.condition == 0
    ensures var r := Poll(c, index, w);
            InStep(r, After(c, d, w), index) && Moves(c, r, w)
  {
    hide InStep, Poll, After, Lawful, Moves;
    if c.stage == GetConfig {
      ConfigPoll(c, d, index, w);
    } else if Order(c.stage) < 5 {
      AddressPoll(c, d, index, w);
    } else if Order(c.stage) < 8 {
      DescriptorPoll(c, d, index, w);
    } else {
      SettingPoll(c, d, index, w);
    }
  }

  lemma AddressPoll(c: State, d: Device, index: nat, w: World)
    requires index < 127 && InStep(c, d, index) && Waiting(c) && c.transfer.Transfer? && Lawful(c, d, w)
    requires w.condition == 0 && Order(c.stage) < 5
    ensures var r := Poll(c, index, w);
            InStep(r, After(c, d, w), index) && Moves(c, r, w)
  {
    hide Expected, Chain, SearchFrom, FirstPort, Wanted;
  }

  lemma DescriptorPoll(c: State, d: Device, index: nat, w: World)
    requires index < 127 && InStep(c, d, index) && Waiting(c) && c.transfer.Transfer? && Lawful(c, d, w)
    requires w.condition == 0 && 5 < Order(c.stage) < 8
    ensures var r := Poll(c, index, w);
            InStep(r, After(c, d, w), index) && Moves(c, r, w)
  {
    hide Expected, Chain, SearchFrom, FirstPort, Wanted;
  }

  lemma ConfigPoll(c: State, d: Device, index: nat, w: World)
    requires index < 127 && InStep(c, d, index) && Waiting(c) && c.transfer.Transfer? && Lawful(c, d, w)
    requires w.condition == 0 && c.stage == GetConfig
    ensures var r := Poll(c, index, w);
            InStep(r, After(c, d, w), index) && Moves(c, r, w)
  {
    hide Expected, Chain, SearchFrom, FirstPort;
    assert Begin(d.config, |d.config|) == d.config;
    assert w.data[..|d.config|] == d.config;
    SearchIs(d.config);
  }

  lemma SettingPoll(c: State, d: Device, index: nat, w: World)
    requires index < 127 && InStep(c, d, index) && Waiting(c) && c.transfer.Transfer? && Lawful(c, d, w)
    requires w.condition == 0 && Order(c.stage) > 8
    ensures var r := Poll(c, index, w);
            InStep(r, After(c, d, w), index) && Moves(c, r, w)
  {
    hide Expected, Chain, SearchFrom, FirstPort, Wanted;
  }

  lemma PendingPoll(c: State, d: Device, index: nat, w: World)
    requires index < 127 && InStep(c, d, index) && Waiting(c) && c.transfer.Transfer? && Lawful(c, d, w)
    requires w.condition != 0
    ensures Poll(c, index, w) == c && After(c, d, w) == d
  {
    hide Expected, Chain, SearchFrom, FirstPort, Completed;
  }

  /** One lawful poll keeps the two in step and never falls back; a prompt one
      moves on by exactly one stage. */
  lemma PollInStep(c: State, d: Device, index: nat, w: World)
    requires index < 127 && InStep(c, d, index) && (Waiting(c) ==> c.transfer.Transfer?) && Lawful(c, d, w)
    ensures var r := Poll(c, index, w);
            InStep(r, After(c, d, w), index) && Moves(c, r, w)
  {
    hide InStep, Poll, After, Lawful;
    if !Waiting(c) {
      EarlyPoll(c, d, index, w);
    } else if w.condition == 0 {
      WaitingPoll(c, d, index, w);
    } else {
      PendingPoll(c, d, index, w);
    }
  }

  // ----- whole runs with a keyboard

  /** Every poll of the run is lawful for what the device has become by then. */
  predicate LawfulRun(c: State, d: Device, index: nat, ws: seq<World>)
    requires index < 127
    decreases |ws|
  {
    ws == [] ||
    (Conforms(d) && (Waiting(c) ==> c.transfer.Transfer?) && Lawful(c, d, ws[0]) &&
     LawfulRun(Poll(c, index, ws[0]), After(c, d, ws[0]), index, ws[1..]))
  }

  /** The polls of the run that come late enough for their stage. */
  function PromptPolls(c: State, d: Device, index: nat, ws: seq<World>): nat
    requires index < 127 && LawfulRun(c, d, index, ws)
    decreases |ws|
  {
    if ws == [] then 0
    else
      (if Prompt(c, ws[0]) then 1 else 0)
      + PromptPolls(Poll(c, index, ws[0]), After(c, d, ws[0]), index, ws[1..])
  }

  /** The device at the end of the run. */
  function DeviceAfter(c: State, d: Device, index: nat, ws: seq<World>): Device
    requires index < 127 && LawfulRun(c, d, index, ws)
    decreases |ws|
  {
    if ws == [] then d else DeviceAfter(Poll(c, index, ws[0]), After(c, d, ws[0]), index, ws[1..])
  }

  lemma {:induction false} ComesUp(c: State, d: Device, index: nat, ws: seq<World>)
    requires index < 127 && InStep(c, d, index) && LawfulRun(c, d, index, ws)
    requires c.configured || PromptPolls(c, d, index, ws) >= 12 - Order(c.stage)
    ensures forall w :: w in ws ==> Plausible(w)
    ensures var r, e := Run(c, index, ws)[|ws|], DeviceAfter(c, d, index, ws);
            r.configured && InStep(r, e, index) && e.descriptor == d.descriptor && e.config == d.config
    decreases |ws|
  {
    hide InStep, Poll, Lawful, After, Prompt;
    if ws == [] {
      assert c.configured;
    } else {
      var w := ws[0];
      PollInStep(c, d, index, w);
      LawfulPlausible(c, d, w);
      PromptUnconfigured(c, w);
      ComesUp(Poll(c, index, w), After(c, d, w), index, ws[1..]);
      assert ws == [w] + ws[1..];
    }
  }

  lemma LawfulPlausible(c: State, d: Device, w: World)
    requires Conforms(d) && (Waiting(c) ==> c.transfer.Transfer?) && Lawful(c, d, w)
    ensures Plausible(w)
  {
    hide Respond;
  }

  lemma PromptUnconfigured(c: State, w: World)
    requires Plausible(w)
    ensures Prompt(c, w) ==> !c.configured
  {
    hide FirstPort;
  }

  /** A conforming boot keyboard that stays attached to working hardware is
      brought up by any run with twelve prompt polls, however many polls come too
      early in between: at the end the controller is configured for the
      keyboard's own endpoint, and the device has the controller's address, the
      configuration of byte 5 of its descriptor, the boot protocol and no idle
      reports. */
  lemma {:induction false} KeyboardComesUp(c: State, d: Device, index: nat, ws: seq<World>)
    requires index < 127 && Initial(c) && Conforms(d) && LawfulRun(c, d, index, ws)
    requires PromptPolls(c, d, index, ws) >= 12
    ensures forall w :: w in ws ==> Plausible(w)
    ensures var r, e := Run(c, index, ws)[|ws|], DeviceAfter(c, d, index, ws);
            && r.configured && Found(r.keyboard) == Expected(d.config, Chain(d.config, 0), 0)
            && e.address == index + 1 && e.configuration == d.config[5] && e.boot && e.idle
  {
    hide Poll, Lawful, After, Prompt, Expected, Chain;
    ComesUp(c, d, index, ws);
  }

  // ----- whole runs with any device

  /** The requests of the stages, whatever the device has answered so far. */
  predicate Requests(c: State, index: nat) {
    var t, size, at := c.transfer, c.controlPacket as nat, c.keyboard.interfaceNumber;
    match c.stage
    case GetDevice => Asks(t, 0, 8, 0x80, 6, 0x100, 0, 8)
    case SetAddress => Asks(t, 0, size, 0, 5, index + 1, 0, 0)
    case GetDeviceFull => Asks(t, index + 1, size, 0x80, 6, 0x100, 0, 18)
    case GetConfigHead => Asks(t, index + 1, size, 0x80, 6, 0x200, 0, 9)
    case GetConfig => t.Transfer? && 9 <= t.length <= 512 && Asks(t, index + 1, size, 0x80, 6, 0x200, 0, t.length)
    case SetConfig => t.Transfer? && 1 <= t.value < 0x100 && Asks(t, index + 1, size, 0, 9, t.value, 0, 0)
    case SetProtocol => Asks(t, index + 1, size, 0x21, 0x0b, 0, at, 0)
    case SetIdle => Asks(t, index + 1, size, 0x21, 0x0a, 0, at, 0)
    case _ => true
  }

  /** What one poll takes over from the answers into the next request. */
  predicate Carries(c: State, r: State, w: World)
    requires Plausible(w)
  {
    && (c.stage == GetDevice && r.stage == SetAddress ==> r.controlPacket == w.data[7])
    && (c.stage == GetConfigHead && r.stage == GetConfig ==>
          r.transfer.Transfer? && r.transfer.length == w.data[2] + w.data[3] as int * 0x100)
    && (c.stage == GetConfig && r.stage == SetConfig ==>
          var n := w.data[2] + w.data[3] as int * 0x100;
          n <= 512 && r.transfer.Transfer? && r.transfer.value == w.data[5] && Found(r.keyboard) == Wanted(w.data[..n]))
    && (Order(c.stage) >= 4 && Order(r.stage) == Order(c.stage) + 1 ==> r.controlPacket == c.controlPacket)
    && (Order(c.stage) >= 9 && Order(r.stage) == Order(c.stage) + 1 ==> r.keyboard == c.keyboard)
  }

  lemma PollRequests(c: State, index: nat, w: World)
    requires Plausible(w) && index < 255 && Inv(c, index) && Requests(c, index)
    ensures Requests(Poll(c, index, w), index) && Carries(c, Poll(c, index, w), w)
  {
    hide SearchFrom, FirstPort, Expected, Chain, Acceptable, Addressed;
    Addresses(c, index);
    if c.stage == GetConfig && Total(w.data) <= 512 { SearchIs(w.data[..Total(w.data)]); }
  }

  lemma Addresses(c: State, index: nat)
    requires Inv(c, index)
    ensures Order(c.stage) >= 4 ==> c.address == index + 1
  {}

  /** Over every run: each stage asks for exactly one thing, of the address that
      SET_ADDRESS has given, and takes lengths, configuration and interface from
      the answers. */
  lemma {:induction false} RunRequests(c: State, index: nat, ws: seq<World>, i: nat)
    requires index < 255 && (forall w :: w in ws ==> Plausible(w)) && Initial(c) && i <= |ws|
    ensures var s := Run(c, index, ws);
            Requests(s[i], index) && (i < |ws| ==> Carries(s[i], s[i + 1], ws[i]))
    decreases i
  {
    hide Poll, Run, Requests, Carries, Acceptable;
    RunInv(c, index, ws, i);
    if i > 0 {
      RunRequests(c, index, ws, i - 1);
      RunInv(c, index, ws, i - 1);
      PollRequests(Run(c, index, ws)[i - 1], index, ws[i - 1]);
    } else {
      NothingAsked(c, index);
    }
    if i < |ws| { PollRequests(Run(c, index, ws)[i], index, ws[i]); }
  }

  lemma NothingAsked(c: State, index: nat)
    requires Initial(c)
    ensures Requests(c, index)
  {}
}
