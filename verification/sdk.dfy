/** The public C API over the device registry. Every entry point checks, in
    order, its output pointer, the id, and (for the calls that talk to the
    instrument) the port, and reports the first failure it meets. */
module Sdk {
  import opened Text
  import opened Angles
  import opened SerialLine
  import opened SdkTypes
  import opened DeviceState
  import opened Protocol

  /** The result of a registry-changing call: the error code and the registry after it. */
  datatype Outcome = Outcome(error: Error, registry: Registry)

  /** `reg'` is `reg` with at most the entry for `id` replaced. */
  predicate OnlyEntryChanged(reg: Registry, reg': Registry, id: int)
  {
    reg'.Keys == reg.Keys && forall k :: k in reg && k != id ==> reg'[k] == reg[k]
  }

  // ---------------------------------------------------------------------------
  // Scan

  /** A serial device the enumeration turns up: its node, what opening it
      answers, and the instrument (if any) behind it. */
  datatype Candidate = Candidate(path: string, open: OpenOutcome, link: Link)

  /** The device a scan builds for a candidate whose port opened. */
  function Probed(c: Candidate): Device
  {
    NewDevice(c.path, Open(NewPort, c.open).port, c.link)
  }

  /** A candidate is a rotator when its port opens and it answers the handshake. */
  predicate Answers(c: Candidate)
  {
    Open(NewPort, c.open).ok && QueryHandshake(Probed(c)).ok
  }

  /** `a` is `b` with some elements left out and the rest in their order. */
  predicate Subsequence<T(==)>(a: seq<T>, b: seq<T>)
    decreases |b|
  {
    |a| == 0 || (|b| > 0 && ((a[0] == b[0] && Subsequence(a[1..], b[1..])) || Subsequence(a, b[1..])))
  }

  /** The rotators among the candidates, in discovery order: every candidate
      that answers is kept, and nothing else. */
  function Rotators(cs: seq<Candidate>): (rs: seq<Candidate>)
    ensures |rs| <= |cs|
    ensures forall i :: 0 <= i < |rs| ==> Answers(rs[i])
    ensures forall i :: 0 <= i < |cs| && Answers(cs[i]) ==> cs[i] in rs
    ensures Subsequence(rs, cs)
  {
    if |cs| == 0 then []
    else
      var rest := Rotators(cs[1..]);
      assert forall i :: 1 <= i < |cs| ==> cs[i] == cs[1..][i - 1];
      if Answers(cs[0]) then
        assert ([cs[0]] + rest)[1..] == rest;
        [cs[0]] + rest
      else rest
  }

  /** The registry entry a scan leaves for a rotator: the device after the
      handshake, with its port closed again. */
  function Registered(c: Candidate): (d: Device)
    requires Answers(c)
    ensures d.portName == c.path && d.port.Some? && !PortReady(d)
    ensures WellFormed(d)
  {
    var h := QueryHandshake(Probed(c));
    h.device.(port := Some(Close(Open(NewPort, c.open).port)))
  }

  /** The registry entries the rotators among `cs` get, in discovery order. */
  function Entries(cs: seq<Candidate>): (es: seq<Device>)
    ensures |es| == |Rotators(cs)|
    ensures forall i :: 0 <= i < |es| ==> es[i] == Registered(Rotators(cs)[i])
    ensures forall i :: 0 <= i < |es| ==> WellFormed(es[i])
  {
    if |cs| == 0 then []
    else if Answers(cs[0]) then
      assert Rotators(cs) == [cs[0]] + Rotators(cs[1..]);
      [Registered(cs[0])] + Entries(cs[1..])
    else
      assert Rotators(cs) == Rotators(cs[1..]);
      Entries(cs[1..])
  }

  function Min(a: int, b: int): int
  {
    if a <= b then a else b
  }

  /** The registering half of the enumeration loop of `WRRotatorScan`: the
      entries `es` go under ids `count`, `count + 1`, ... until `WR_MAX_NUM`
      ids are used; the rest are never registered. */
  function RegisterFrom(reg: Registry, es: seq<Device>, count: nat): (r: (Registry, nat))
    requires count <= MaxDevices
    ensures r.1 == Min(count + |es|, MaxDevices)
    ensures forall i :: count <= i < r.1 ==> i in r.0 && r.0[i] == es[i - count]
    ensures forall k :: k in reg && !(count <= k < r.1) ==> k in r.0 && r.0[k] == reg[k]
    ensures forall k :: k in r.0 ==> k in reg || count <= k < r.1
    ensures RegistryWellFormed(reg) && (forall i :: 0 <= i < |es| ==> WellFormed(es[i])) ==> RegistryWellFormed(r.0)
    decreases |es|
  {
    if |es| == 0 || count >= MaxDevices then (reg, count)
    else RegisterFrom(reg[count := es[0]], es[1..], count + 1)
  }

  /** What `WRRotatorScan` reports. */
  datatype ScanResult = ScanResult(error: Error, registry: Registry, number: int, ids: seq<int>)

  /** `WRRotatorScan`. `candidates` is `None` when the device enumeration cannot
      be set up. Ids 0, 1, ... go to the rotators in discovery order, at most
      `WR_MAX_NUM` of them; entries under other ids are left in place. */
  function Scan(reg: Registry, hasNumber: bool, hasIds: bool, candidates: Option<seq<Candidate>>): (r: ScanResult)
    ensures !hasNumber || !hasIds ==> r.error == NullPointer && r.registry == reg
    ensures hasNumber && hasIds && candidates.None? ==> r.error == Communication && r.registry == reg
    ensures hasNumber && hasIds && candidates.Some? ==>
      && r.error == Success
      && r.number == Min(|Rotators(candidates.value)|, MaxDevices)
      && |r.ids| == r.number
      && (forall i :: 0 <= i < r.number ==>
            r.ids[i] == i && i in r.registry && r.registry[i] == Entries(candidates.value)[i])
      && (forall k :: k in reg && !(0 <= k < r.number) ==> k in r.registry && r.registry[k] == reg[k])
      && (forall k :: k in r.registry ==> k in reg || 0 <= k < r.number)
    ensures 0 <= r.number <= MaxDevices
    ensures RegistryWellFormed(reg) ==> RegistryWellFormed(r.registry)
  {
    if !hasNumber || !hasIds then ScanResult(NullPointer, reg, 0, [])
    else if candidates.None? then ScanResult(Communication, reg, 0, [])
    else
      var s := RegisterFrom(reg, Entries(candidates.value), 0);
      ScanResult(Success, s.0, s.1, seq(s.1, i => i))
  }

  // ---------------------------------------------------------------------------
  // Open and close

  /** The device half of `WRRotatorOpen`: open the port, shake hands, query the
      status; any failure after the port opened closes it again. On success the
      device holds the opened port and what the status query stored; on failure
      the cached status and steps per degree are as before. */
  function Connect(d: Device, os: OpenOutcome): (r: Applied)
    ensures r.error == Success || r.error == Communication
    ensures r.error == Success <==>
      var d1 := d.(port := Some(Open(if d.port.Some? then d.port.value else NewPort, os).port));
      Open(NewPort, os).ok && QueryHandshake(d1).ok && QueryStatus(QueryHandshake(d1).device).ok
    ensures r.error == Success <==> PortReady(r.device)
    ensures r.error == Success ==>
      var h := QueryHandshake(d.(port := Some(SerialPort(os.fd)))).device;
      && r.device.port == Some(SerialPort(os.fd))
      && r.device.link.sent == h.link.sent + [Probe]
      && StatusApplied(h, r.device, DecodeStatus(h.link).value)
      && OnlyStatusChanged(h, r.device)
    ensures r.error != Success ==> r.device.status == d.status && r.device.stepsPerDegree == d.stepsPerDegree
  {
    var o := Open(if d.port.Some? then d.port.value else NewPort, os);
    var d1 := d.(port := Some(o.port));
    if !o.ok then Applied(Communication, d1)
    else
      var h := QueryHandshake(d1);
      if !h.ok then Applied(Communication, h.device.(port := Some(Close(o.port))))
      else
        var q := QueryStatus(h.device);
        if !q.ok then Applied(Communication, q.device.(port := Some(Close(o.port))))
        else Applied(Success, q.device)
  }

  /** Connecting keeps a device well formed, whichever stage fails. */
  lemma ConnectKeepsWellFormed(d: Device, os: OpenOutcome)
    requires WellFormed(d)
    ensures WellFormed(Connect(d, os).device)
  {
    var o := Open(if d.port.Some? then d.port.value else NewPort, os);
    var d1 := d.(port := Some(o.port));
    if o.ok && QueryHandshake(d1).ok {
      QueryStatusWellFormed(QueryHandshake(d1).device);
    }
  }

  /** `WRRotatorOpen`: an unknown id is refused; otherwise the entry is connected. */
  function OpenDevice(reg: Registry, id: int, os: OpenOutcome): (r: Outcome)
    ensures id !in reg ==> r == Outcome(InvalidId, reg)
    ensures id in reg ==> OnlyEntryChanged(reg, r.registry, id)
    ensures id in reg ==> r.error == Connect(reg[id], os).error && r.registry[id] == Connect(reg[id], os).device
    ensures id in reg ==> (r.error == Success <==> PortReady(r.registry[id]))
    ensures r.error == Success || r.error == InvalidId || r.error == Communication
  {
    if id !in reg then Outcome(InvalidId, reg)
    else
      var c := Connect(reg[id], os);
      Outcome(c.error, reg[id := c.device])
  }

  /** Replacing one entry by a well-formed device keeps the registry well formed. */
  lemma UpdateKeepsWellFormed(reg: Registry, id: int, d: Device)
    requires RegistryWellFormed(reg) && WellFormed(d)
    ensures RegistryWellFormed(reg[id := d])
  {
  }

  /** Opening a rotator keeps the registry well formed, whichever stage fails. */
  lemma OpenKeepsWellFormed(reg: Registry, id: int, os: OpenOutcome)
    requires RegistryWellFormed(reg)
    ensures RegistryWellFormed(OpenDevice(reg, id, os).registry)
  {
    if id in reg {
      ConnectKeepsWellFormed(reg[id], os);
      UpdateKeepsWellFormed(reg, id, Connect(reg[id], os).device);
    }
  }

  /** `WRRotatorClose`: stops the listener and closes the port; the entry stays
      registered and can be opened again. */
  function CloseDevice(reg: Registry, id: int): (r: Outcome)
    ensures id !in reg ==> r == Outcome(InvalidId, reg)
    ensures id in reg ==> r.error == Success && OnlyEntryChanged(reg, r.registry, id)
    ensures id in reg ==> !PortReady(r.registry[id]) && !r.registry[id].listenerRunning
    ensures id in reg ==> r.registry[id].port.Some? == reg[id].port.Some?
    ensures id in reg ==> r.registry[id].link == reg[id].link && r.registry[id].status == reg[id].status
    ensures RegistryWellFormed(reg) ==> RegistryWellFormed(r.registry)
  {
    if id !in reg then Outcome(InvalidId, reg)
    else
      var d := StopMoveListener(reg[id]);
      if d.port.Some? then Outcome(Success, reg[id := d.(port := Some(Close(d.port.value)))])
      else Outcome(Success, reg[id := d])
  }

  /** Closing twice is closing once. */
  lemma CloseTwice(reg: Registry, id: int)
    ensures CloseDevice(CloseDevice(reg, id).registry, id) == CloseDevice(reg, id)
  {
    if id in reg {
      var d := reg[id];
      if d.port.Some? {
        CloseIdempotent(d.port.value);
      }
      var r := CloseDevice(reg, id).registry;
      assert r[id := r[id]] == r;
    }
  }

  // ---------------------------------------------------------------------------
  // Reading the cached state

  /** What a getter reports: the error code and the caller's record after the
      call; `None` stands for a null output pointer. */
  datatype Report<T> = Report(error: Error, out: Option<T>)

  /** `WRRotatorGetConfig`: reports the cached direction flag and the cached
      backlash in degrees; only those two fields of the record are written. */
  function GetConfig(reg: Registry, id: int, config: Option<Config>): (r: Report<Config>)
    ensures config.None? ==> r == Report(NullPointer, config)
    ensures config.Some? && id !in reg ==> r == Report(InvalidId, config)
    ensures r.error == Success <==> config.Some? && id in reg
    ensures r.error == Success ==>
      && r.out.Some?
      && r.out.value.reverseDirection == reg[id].rotator.reverseDirection
      && r.out.value.backlash * 10.0 == reg[id].backlash as real
      && r.out.value.mask == config.value.mask && r.out.value.overshoot == config.value.overshoot
      && r.out.value.overshootAngle == config.value.overshootAngle
      && r.out.value.overshotDirection == config.value.overshotDirection
  {
    if config.None? then Report(NullPointer, config)
    else if id !in reg then Report(InvalidId, config)
    else
      var d := reg[id];
      Report(Success, Some(config.value.(reverseDirection := d.rotator.reverseDirection,
                                         backlash := d.backlash as real / 10.0)))
  }

  /** `WRRotatorGetStatus`: the status cached by the last query, sync, move or
      listener report; the instrument is not asked. */
  function GetStatus(reg: Registry, id: int, status: Option<StatusReport>): (r: Report<StatusReport>)
    ensures status.None? ==> r == Report(NullPointer, status)
    ensures status.Some? && id !in reg ==> r == Report(InvalidId, status)
    ensures r.error == Success <==> status.Some? && id in reg
    ensures r.error == Success ==>
      && r.out.Some?
      && r.out.value.position == reg[id].status.position
      && r.out.value.moving == reg[id].status.moving
      && r.out.value.stepsPerRevolution == reg[id].status.stepsPerRevolution
    ensures r.error == Success && WellFormed(reg[id]) ==>
      r.out.value.stepsPerRevolution == 360 * reg[id].stepsPerDegree
  {
    if status.None? then Report(NullPointer, status)
    else if id !in reg then Report(InvalidId, status)
    else
      var st := reg[id].status;
      Report(Success, Some(StatusReport(st.position, st.moving, st.stepsPerRevolution)))
  }

  /** The text `strncpy` leaves in `WR_VERSION.model`: the C string of the model
      name, cut to the seven bytes before the forced terminator. */
  function VersionModel(modelType: string): (m: string)
    ensures |m| == Min(|CStr(modelType)|, VersionModelBytes - 1)
    ensures NUL !in m
    ensures StartsWith(CStr(modelType), m)
    ensures |CStr(modelType)| <= VersionModelBytes - 1 ==> m == CStr(modelType)
  {
    var c := CStr(modelType);
    if |c| <= VersionModelBytes - 1 then c else c[..VersionModelBytes - 1]
  }

  /** `WRRotatorGetVersion`: the firmware number as `unsigned int` and the model name. */
  function GetVersion(reg: Registry, id: int, version: Option<Version>): (r: Report<Version>)
    ensures version.None? ==> r == Report(NullPointer, version)
    ensures version.Some? && id !in reg ==> r == Report(InvalidId, version)
    ensures r.error == Success <==> version.Some? && id in reg
    ensures r.error == Success ==>
      && r.out.Some?
      && r.out.value.firmware == ToUnsigned32(reg[id].firmwareVersion)
      && r.out.value.model == VersionModel(reg[id].modelType)
  {
    if version.None? then Report(NullPointer, version)
    else if id !in reg then Report(InvalidId, version)
    else
      var d := reg[id];
      Report(Success, Some(Version(ToUnsigned32(d.firmwareVersion), VersionModel(d.modelType))))
  }

  /** A well-formed model name without NUL bytes is reported whole, and a
      non-negative firmware number unchanged. */
  lemma VersionReportsModel(reg: Registry, id: int, v: Version)
    requires id in reg && WellFormed(reg[id]) && NUL !in reg[id].modelType
    requires 0 <= reg[id].firmwareVersion < 0x1_0000_0000
    ensures GetVersion(reg, id, Some(v)).out == Some(Version(reg[id].firmwareVersion, reg[id].modelType))
  {
    CStrOfText(reg[id].modelType);
  }

  // ---------------------------------------------------------------------------
  // Configuration

  /** A device after one stage of `WRRotatorSetConfig`, with the error it stops on. */
  datatype Applied = Applied(error: Error, device: Device)

  /** The reverse-direction stage of `WRRotatorSetConfig`. */
  function ApplyReverse(d: Device, c: Config): (r: Applied)
    ensures c.mask & MaskReverseDirection == 0 ==> r == Applied(Success, d)
    ensures c.mask & MaskReverseDirection != 0 ==>
      && (r.error == Success <==> PortReady(d) && WriteCountAt(d.link, 0) == |ReverseDirectionToCommand(c.reverseDirection)|)
      && (r.error == Success || r.error == Communication)
      && (PortReady(d) ==> r.device.link.sent == d.link.sent + [ReverseDirectionToCommand(c.reverseDirection)])
      && (!PortReady(d) ==> r.device.link == d.link)
    ensures r.error == Success ==> r.device.rotator.reverseDirection == (if c.mask & MaskReverseDirection != 0 then c.reverseDirection else d.rotator.reverseDirection)
    ensures r.error == Success ==> r.device.reverseDirection == (if c.mask & MaskReverseDirection != 0 then c.reverseDirection else d.reverseDirection)
    ensures r.error != Success ==> r.device.rotator == d.rotator && r.device.reverseDirection == d.reverseDirection
    ensures r.device.backlash == d.backlash && r.device.status == d.status && r.device.port == d.port
    ensures WellFormed(d) ==> WellFormed(r.device)
  {
    if c.mask & MaskReverseDirection == 0 then Applied(Success, d)
    else
      var s := SendCommand(d, ReverseDirectionToCommand(c.reverseDirection));
      if !s.ok then Applied(Communication, s.device)
      else Applied(Success, s.device.(rotator := s.device.rotator.(reverseDirection := c.reverseDirection),
                                      reverseDirection := c.reverseDirection))
  }

  /** The set-backlash command as `WRRotatorSetConfig` formats it: `%d` and a newline. */
  function BacklashCommand(backlash: real): (cmd: string)
    ensures |cmd| >= 2 && cmd[|cmd| - 1] == '\n'
    ensures ScanInt(cmd) == Some(BacklashToCommand(backlash))
  {
    ScanIntRoundTrip(BacklashToCommand(backlash), "\n");
    IntToString(BacklashToCommand(backlash)) + "\n"
  }

  /** The backlash stage of `WRRotatorSetConfig`: a negative backlash is refused
      before anything is sent; otherwise the cache keeps whole tenths of a degree. */
  function ApplyBacklash(d: Device, c: Config): (r: Applied)
    ensures c.mask & MaskBacklash == 0 ==> r == Applied(Success, d)
    ensures c.mask & MaskBacklash != 0 && c.backlash < 0.0 ==> r == Applied(InvalidParameter, d)
    ensures c.mask & MaskBacklash != 0 && c.backlash >= 0.0 ==>
      && (r.error == Success <==> PortReady(d) && WriteCountAt(d.link, 0) == |BacklashCommand(c.backlash)|)
      && (r.error == Success || r.error == Communication)
      && (PortReady(d) ==> r.device.link.sent == d.link.sent + [BacklashCommand(c.backlash)])
      && (!PortReady(d) ==> r.device.link == d.link)
    ensures r.device.backlash == (if c.mask & MaskBacklash != 0 && r.error == Success then TenthsOf(c.backlash) else d.backlash)
    ensures r.device.rotator == d.rotator && r.device.reverseDirection == d.reverseDirection
    ensures r.device.status == d.status && r.device.port == d.port
    ensures WellFormed(d) ==> WellFormed(r.device)
  {
    if c.mask & MaskBacklash == 0 then Applied(Success, d)
    else if c.backlash < 0.0 then Applied(InvalidParameter, d)
    else
      var s := SendCommand(d, BacklashCommand(c.backlash));
      if !s.ok then Applied(Communication, s.device)
      else Applied(Success, s.device.(backlash := TenthsOf(c.backlash)))
  }

  /** `WRRotatorSetConfig`: the direction first, then the backlash; the overshoot
      fields are accepted and ignored. A stage that fails ends the call, and what
      an earlier stage changed stays changed. */
  function SetConfig(reg: Registry, id: int, config: Option<Config>): (r: Outcome)
    ensures config.None? ==> r == Outcome(NullPointer, reg)
    ensures config.Some? && id !in reg ==> r == Outcome(InvalidId, reg)
    ensures config.Some? && id in reg ==> OnlyEntryChanged(reg, r.registry, id)
    ensures r.error in {Success, InvalidId, InvalidParameter, Communication, NullPointer}
    ensures config.Some? && id in reg ==>
      var a := ApplyReverse(reg[id], config.value);
      (a.error == Success ==> r == Outcome(ApplyBacklash(a.device, config.value).error,
                                           reg[id := ApplyBacklash(a.device, config.value).device]))
      && (a.error != Success ==> r == Outcome(a.error, reg[id := a.device]))
    ensures RegistryWellFormed(reg) ==> RegistryWellFormed(r.registry)
  {
    if config.None? then Outcome(NullPointer, reg)
    else if id !in reg then Outcome(InvalidId, reg)
    else
      var a := ApplyReverse(reg[id], config.value);
      if a.error != Success then Outcome(a.error, reg[id := a.device])
      else
        var b := ApplyBacklash(a.device, config.value);
        Outcome(b.error, reg[id := b.device])
  }

  /** What an accepted configuration with both bits leaves in the cache. */
  lemma SetConfigStores(reg: Registry, id: int, c: Config)
    requires c.mask & MaskReverseDirection != 0 && c.mask & MaskBacklash != 0
    requires SetConfig(reg, id, Some(c)).error == Success
    ensures id in SetConfig(reg, id, Some(c)).registry && c.backlash >= 0.0
    ensures SetConfig(reg, id, Some(c)).registry[id].backlash == TenthsOf(c.backlash)
    ensures SetConfig(reg, id, Some(c)).registry[id].rotator.reverseDirection == c.reverseDirection
  {
    var a := ApplyReverse(reg[id], c);
    assert a.error == Success;
  }

  /** `b` is what a backlash of `x` degrees reads back as: a whole number of
      tenths at most a tenth below `x`, equal to `x` exactly when `x` is a whole
      number of tenths. */
  predicate ReadsBackAsTenths(b: real, x: real)
  {
    && b <= x < b + 0.1
    && (b * 10.0).Floor as real == b * 10.0
    && (b == x <==> (x * 10.0).Floor as real == x * 10.0)
  }

  /** Reading back a backlash stored as the truncated tenths of `x`. */
  lemma StoredBacklashReadsBack(reg: Registry, id: int, g: Config, x: real)
    requires id in reg && reg[id].backlash == TenthsOf(x) && 0.0 <= x
    ensures GetConfig(reg, id, Some(g)).error == Success
    ensures ReadsBackAsTenths(GetConfig(reg, id, Some(g)).out.value.backlash, x)
  {
    var b := GetConfig(reg, id, Some(g)).out.value.backlash;
    var t := TenthsOf(x);
    assert b * 10.0 == t as real;
    assert t == (x * 10.0).Floor;
  }

  /** A configuration that is accepted reads back: the direction as given, the
      backlash rounded down to whole tenths of a degree, and unchanged exactly
      when it is a whole number of tenths. */
  lemma SetThenGetConfig(reg: Registry, id: int, c: Config, g: Config)
    requires c.mask & MaskReverseDirection != 0 && c.mask & MaskBacklash != 0
    requires SetConfig(reg, id, Some(c)).error == Success
    ensures var r := GetConfig(SetConfig(reg, id, Some(c)).registry, id, Some(g));
      && r.error == Success
      && r.out.value.reverseDirection == c.reverseDirection
      && ReadsBackAsTenths(r.out.value.backlash, c.backlash)
  {
    var reg' := SetConfig(reg, id, Some(c)).registry;
    SetConfigStores(reg, id, c);
    StoredBacklashReadsBack(reg', id, g, c.backlash);
  }

  /** A rejected backlash does not undo the direction change sent before it. */
  lemma RejectedBacklashKeepsDirection(reg: Registry, id: int, c: Config)
    requires id in reg && c.mask & MaskReverseDirection != 0 && c.mask & MaskBacklash != 0
    requires c.backlash < 0.0
    requires PortReady(reg[id]) && WriteCountAt(reg[id].link, 0) == |ReverseDirectionToCommand(c.reverseDirection)|
    ensures var r := SetConfig(reg, id, Some(c));
      && r.error == InvalidParameter
      && r.registry[id].reverseDirection == c.reverseDirection
      && r.registry[id].link.sent == reg[id].link.sent + [ReverseDirectionToCommand(c.reverseDirection)]
  {
  }

  // ---------------------------------------------------------------------------
  // Motion

  /** The position-sync command. */
  const SyncZero: string := "1500002"

  /** The stop command. */
  const Stop: string := "stop"

  /** `WRRotatorSyncPosition`: only zero is accepted; the instrument is told to
      take its current position as home and the cached position becomes zero. */
  function SyncPosition(reg: Registry, id: int, angle: real): (r: Outcome)
    ensures id !in reg ==> r == Outcome(InvalidId, reg)
    ensures id in reg && !PortReady(reg[id]) ==> r == Outcome(Communication, reg)
    ensures id in reg && PortReady(reg[id]) && angle != 0.0 ==> r == Outcome(InvalidParameter, reg)
    ensures id in reg ==> OnlyEntryChanged(reg, r.registry, id)
    ensures id in reg && PortReady(reg[id]) && angle == 0.0 ==>
      && r.registry[id].link.sent == reg[id].link.sent + [SyncZero]
      && (r.error == Success <==> WriteCountAt(reg[id].link, 0) == |SyncZero|)
      && (r.error != Success ==> r.error == Communication && r.registry[id].status == reg[id].status)
    ensures r.error == Success ==> r.registry[id].status == reg[id].status.(position := 0.0)
    ensures RegistryWellFormed(reg) ==> RegistryWellFormed(r.registry)
  {
    if id !in reg then Outcome(InvalidId, reg)
    else
      var d := reg[id];
      if !PortReady(d) then Outcome(Communication, reg)
      else if angle != 0.0 then Outcome(InvalidParameter, reg)
      else
        var s := SendCommand(d, SyncZero);
        if !s.ok then Outcome(Communication, reg[id := s.device])
        else Outcome(Success, reg[id := s.device.(status := s.device.status.(position := angle))])
  }

  /** The relative-move command, the full decimal rendering of the value: what
      `WRRotatorMove` evidently means to send, and what it sends whenever the
      rendering fits its buffer. */
  function MoveCommand(v: int): (cmd: string)
    ensures ScanInt(cmd) == Some(v)
    ensures |cmd| >= 1 && (v < 0 <==> cmd[0] == '-')
  {
    ScanIntRoundTrip(v, "");
    assert IntToString(v) + "" == IntToString(v);
    IntToString(v)
  }

  /** `snprintf(cmd, 8, "%d", v)`: the rendering cut to the seven bytes before
      the terminator. */
  function MoveCommandAsWritten(v: int): (cmd: string)
    ensures |cmd| == Min(|IntToString(v)|, 7)
    ensures StartsWith(IntToString(v), cmd)
  {
    var s := IntToString(v);
    if |s| <= 7 then s else s[..7]
  }

  /** `WRRotatorMove`: records the requested angle, sends the relative move as
      the eight-byte buffer holds it and, once it is out, marks the rotator
      moving and starts the listener. */
  function Move(reg: Registry, id: int, angle: real): (r: Outcome)
    ensures id !in reg ==> r == Outcome(InvalidId, reg)
    ensures id in reg && !PortReady(reg[id]) ==> r == Outcome(Communication, reg)
    ensures id in reg ==> OnlyEntryChanged(reg, r.registry, id)
    ensures r.error == Success || r.error == InvalidId || r.error == Communication
    ensures id in reg && PortReady(reg[id]) ==>
      && r.registry[id].targetAngle == angle
      && r.registry[id].link.sent == reg[id].link.sent + [MoveCommandAsWritten(MoveValue(angle, reg[id].stepsPerDegree))]
      && (r.error == Success <==> WriteCountAt(reg[id].link, 0) == |MoveCommandAsWritten(MoveValue(angle, reg[id].stepsPerDegree))|)
      && (r.error == Success ==> r.registry[id].status == reg[id].status.(moving := 1) && r.registry[id].listenerRunning)
      && (r.error != Success ==> r.registry[id].status == reg[id].status && r.registry[id].listenerRunning == reg[id].listenerRunning)
      && r.registry[id].overshooting == reg[id].overshooting
    ensures RegistryWellFormed(reg) ==> RegistryWellFormed(r.registry)
  {
    if id !in reg then Outcome(InvalidId, reg)
    else
      var d := reg[id];
      if !PortReady(d) then Outcome(Communication, reg)
      else
        var s := SendCommand(d.(targetAngle := angle), MoveCommandAsWritten(MoveValue(angle, d.stepsPerDegree)));
        if !s.ok then Outcome(Communication, reg[id := s.device])
        else Outcome(Success, reg[id := StartMoveListener(s.device.(status := s.device.status.(moving := 1)))])
  }

  /** The relative move `WRRotatorMoveTo` sends for `angle`: the shortest one
      from the mechanical angle the status query just reported. */
  function MoveToDelta(angle: real, mechanicalAngle: int): (delta: real)
    ensures -180.0 <= delta < 180.0
    ensures SameDirection(mechanicalAngle as real / 1000.0 + delta, angle)
    ensures delta == 0.0 <==> SameDirection(angle, mechanicalAngle as real / 1000.0)
  {
    var current := mechanicalAngle as real / 1000.0;
    var delta := ShortestDelta(angle, current);
    var k :| delta - (angle - current) == Multiple(k, 360.0);
    assert current + delta - angle == Multiple(k, 360.0);
    ZeroDeltaIffSameDirection(angle, current);
    delta
  }

  /** The second half of `WRRotatorMoveTo`, once the status query has stored the
      mechanical angle: no move when the rotator already points at `angle`,
      otherwise the shortest relative move there. */
  function MoveFromPosition(reg: Registry, id: int, angle: real): (r: Outcome)
    requires id in reg && PortReady(reg[id])
    ensures OnlyEntryChanged(reg, r.registry, id)
    ensures r.error == Success || r.error == Communication
    ensures var d := reg[id];
      var delta := MoveToDelta(angle, d.mechanicalAngle);
      var cmd := MoveCommandAsWritten(MoveValue(delta, d.stepsPerDegree));
      && (delta == 0.0 ==> r == Outcome(Success, reg))
      && (delta != 0.0 ==>
            && r.registry[id].targetAngle == delta
            && r.registry[id].link.sent == d.link.sent + [cmd]
            && (r.error == Success <==> WriteCountAt(d.link, 0) == |cmd|)
            && (r.error == Success ==> IsMoving(r.registry[id].status.moving) && r.registry[id].listenerRunning))
  {
    var delta := MoveToDelta(angle, reg[id].mechanicalAngle);
    if delta == 0.0 then Outcome(Success, reg) else Move(reg, id, delta)
  }

  /** `WRRotatorMoveTo`: an absolute target in [0, 360), checked after the id and
      the port and before anything is written; then the status query, whose
      failure is a communication error, and the move from the position it
      reports. */
  function MoveTo(reg: Registry, id: int, angle: real): (r: Outcome)
    ensures id !in reg ==> r == Outcome(InvalidId, reg)
    ensures id in reg && !PortReady(reg[id]) ==> r == Outcome(Communication, reg)
    ensures id in reg && PortReady(reg[id]) && !(0.0 <= angle < 360.0) ==> r == Outcome(InvalidParameter, reg)
    ensures id in reg ==> OnlyEntryChanged(reg, r.registry, id)
    ensures r.error == Success || r.error == InvalidId || r.error == InvalidParameter || r.error == Communication
    ensures id in reg && PortReady(reg[id]) && 0.0 <= angle < 360.0 ==>
      var q := QueryStatus(reg[id]);
      && (!q.ok ==> r == Outcome(Communication, reg[id := q.device]))
      && (q.ok ==> PortReady(q.device) && r == MoveFromPosition(reg[id := q.device], id, angle))
  {
    if id !in reg then Outcome(InvalidId, reg)
    else if !PortReady(reg[id]) then Outcome(Communication, reg)
    else if angle < 0.0 || angle >= 360.0 then Outcome(InvalidParameter, reg)
    else
      var q := QueryStatus(reg[id]);
      if !q.ok then Outcome(Communication, reg[id := q.device])
      else MoveFromPosition(reg[id := q.device], id, angle)
  }

  /** No rotation from the queried position that reaches the target direction
      is shorter than the one `WRRotatorMoveTo` sends. */
  lemma MoveToDeltaIsShortest(angle: real, mechanicalAngle: int, e: real)
    requires SameDirection(mechanicalAngle as real / 1000.0 + e, angle)
    ensures Abs(MoveToDelta(angle, mechanicalAngle)) <= Abs(e)
  {
    var current := mechanicalAngle as real / 1000.0;
    var k :| current + e - angle == Multiple(k, 360.0);
    assert e - (angle - current) == Multiple(k, 360.0);
    ShortestDeltaIsShortest(angle, current, e);
  }

  /** Moving to an absolute angle keeps the registry well formed. */
  lemma MoveToKeepsWellFormed(reg: Registry, id: int, angle: real)
    requires RegistryWellFormed(reg)
    ensures RegistryWellFormed(MoveTo(reg, id, angle).registry)
  {
    if id in reg && PortReady(reg[id]) && 0.0 <= angle < 360.0 {
      QueryStatusWellFormed(reg[id]);
      UpdateKeepsWellFormed(reg, id, QueryStatus(reg[id]).device);
    }
  }

  /** `WRRotatorFindHome`: a move to 0 degrees, which is always in range. After
      the status query the rotator is left alone when it already points at 0
      degrees, and otherwise turned by the shortest rotation that gets it there. */
  function FindHome(reg: Registry, id: int): (r: Outcome)
    ensures r.error != InvalidParameter
    ensures id !in reg ==> r == Outcome(InvalidId, reg)
    ensures id in reg && !PortReady(reg[id]) ==> r == Outcome(Communication, reg)
    ensures id in reg ==> OnlyEntryChanged(reg, r.registry, id)
    ensures id in reg && PortReady(reg[id]) && !QueryStatus(reg[id]).ok ==>
      r == Outcome(Communication, reg[id := QueryStatus(reg[id]).device])
    ensures id in reg && PortReady(reg[id]) && QueryStatus(reg[id]).ok ==>
      var q := QueryStatus(reg[id]).device;
      var delta := MoveToDelta(0.0, q.mechanicalAngle);
      && (delta == 0.0 ==> r == Outcome(Success, reg[id := q]))
      && (delta != 0.0 ==>
            && r.registry[id].targetAngle == delta
            && r.registry[id].link.sent == q.link.sent + [MoveCommandAsWritten(MoveValue(delta, q.stepsPerDegree))])
  {
    MoveTo(reg, id, 0.0)
  }

  /** `WRRotatorStopMove`: sends the stop command and marks the rotator idle. The
      listener and the overshoot phase are left alone. */
  function StopMove(reg: Registry, id: int): (r: Outcome)
    ensures id !in reg ==> r == Outcome(InvalidId, reg)
    ensures id in reg && !PortReady(reg[id]) ==> r == Outcome(Communication, reg)
    ensures id in reg ==> OnlyEntryChanged(reg, r.registry, id)
    ensures r.error == Success || r.error == InvalidId || r.error == Communication
    ensures id in reg && PortReady(reg[id]) ==>
      && r.registry[id].link.sent == reg[id].link.sent + [Stop]
      && (r.error == Success <==> WriteCountAt(reg[id].link, 0) == |Stop|)
      && (r.error == Success ==> r.registry[id].status == reg[id].status.(moving := 0))
      && (r.error != Success ==> r.registry[id].status == reg[id].status)
      && r.registry[id].listenerRunning == reg[id].listenerRunning
      && r.registry[id].overshooting == reg[id].overshooting
    ensures RegistryWellFormed(reg) ==> RegistryWellFormed(r.registry)
  {
    if id !in reg then Outcome(InvalidId, reg)
    else
      var d := reg[id];
      if !PortReady(d) then Outcome(Communication, reg)
      else
        var s := SendCommand(d, Stop);
        if !s.ok then Outcome(Communication, reg[id := s.device])
        else Outcome(Success, reg[id := s.device.(status := s.device.status.(moving := 0))])
  }

  // ---------------------------------------------------------------------------
  // What the cached status reports after each call

  /** After a successful move the status reports motion; after a successful stop
      it reports none; after a successful sync it reports position 0. */
  lemma StatusAfterMotionCalls(reg: Registry, id: int, angle: real, st: StatusReport)
    ensures Move(reg, id, angle).error == Success ==>
      var g := GetStatus(Move(reg, id, angle).registry, id, Some(st));
      g.error == Success && IsMoving(g.out.value.moving)
    ensures StopMove(reg, id).error == Success ==>
      var g := GetStatus(StopMove(reg, id).registry, id, Some(st));
      g.error == Success && !IsMoving(g.out.value.moving)
    ensures SyncPosition(reg, id, angle).error == Success ==>
      var g := GetStatus(SyncPosition(reg, id, angle).registry, id, Some(st));
      g.error == Success && g.out.value.position == 0.0
  {
  }

  /** A closed rotator refuses every motion call until it is opened again. */
  lemma ClosedRefusesMotion(reg: Registry, id: int, angle: real)
    requires id in reg
    ensures var c := CloseDevice(reg, id).registry;
      && Move(c, id, angle) == Outcome(Communication, c)
      && MoveTo(c, id, angle) == Outcome(Communication, c)
      && StopMove(c, id) == Outcome(Communication, c)
      && SyncPosition(c, id, angle) == Outcome(Communication, c)
  {
  }

  // ---------------------------------------------------------------------------
  // The move command as `WRRotatorMove` formats it

  /** Every value from -999999 to 9999999 fits the buffer whole. */
  lemma MoveCommandAsWrittenInRange(v: int)
    requires -999999 <= v <= 9999999
    ensures MoveCommandAsWritten(v) == MoveCommand(v)
  {
    assert Pow10(7) == 10000000;
    assert Pow10(6) == 1000000;
    if v < 0 {
      NatToDigitsFits(-v, 6);
    } else {
      NatToDigitsFits(v, 7);
    }
  }

  /** A move of less than half a turn at any known steps per degree lies
      between 784180 and 1215820, so it fits the buffer whole. */
  lemma HalfTurnMoveFits(delta: real, steps: int)
    requires -180.0 <= delta < 180.0 && KnownSteps(steps)
    ensures 784180 <= MoveValue(delta, steps) < 1215820
    ensures MoveCommandAsWritten(MoveValue(delta, steps)) == MoveCommand(MoveValue(delta, steps))
  {
    var x := delta * steps as real;
    assert -215820.0 <= x < 215820.0 by {
      if steps == 1142 {
        assert x == delta * 1142.0;
      } else if steps == 1155 {
        assert x == delta * 1155.0;
      } else if steps == 1199 {
        assert x == delta * 1199.0;
      } else {
        assert x == 0.0;
      }
    }
    MoveCommandAsWrittenInRange(MoveValue(delta, steps));
  }

  /** On a well-formed rotator the moves `WRRotatorMoveTo` sends always go out
      whole: the command is the full rendering of the move value. */
  lemma MoveToSendsWholeCommand(reg: Registry, id: int, angle: real)
    requires id in reg && WellFormed(reg[id]) && PortReady(reg[id]) && 0.0 <= angle < 360.0
    requires QueryStatus(reg[id]).ok
    ensures var q := QueryStatus(reg[id]).device;
      var delta := MoveToDelta(angle, q.mechanicalAngle);
      delta != 0.0 ==>
        && 784180 <= MoveValue(delta, q.stepsPerDegree) < 1215820
        && MoveTo(reg, id, angle).registry[id].link.sent == q.link.sent + [MoveCommand(MoveValue(delta, q.stepsPerDegree))]
  {
    var q := QueryStatus(reg[id]).device;
    QueryStatusWellFormed(reg[id]);
    HalfTurnMoveFits(MoveToDelta(angle, q.mechanicalAngle), q.stepsPerDegree);
  }

  /** A move of 8000 degrees on a 1199-steps-per-degree rotator is sent as
      "1059200": the instrument is asked for 59200 steps instead of 9592000. */
  lemma MoveCommandAsWrittenTruncates()
    ensures MoveValue(8000.0, 1199) == 10592000
    ensures MoveCommandAsWritten(10592000) == "1059200"
    ensures ScanInt(MoveCommandAsWritten(10592000)) == Some(1059200)
    ensures ScanInt(MoveCommand(10592000)) == Some(10592000)
  {
    assert NatToDigits(1) == "1";
    assert NatToDigits(10) == "10";
    assert NatToDigits(105) == "105";
    assert NatToDigits(1059) == "1059";
    assert NatToDigits(10592) == "10592";
    assert NatToDigits(105920) == "105920";
    assert NatToDigits(1059200) == "1059200";
    assert NatToDigits(10592000) == "10592000";
    ScanIntRoundTrip(1059200, "");
    assert IntToString(1059200) + "" == "1059200";
  }
}
