/** The public constants and records of the SDK header, and the per-instrument
    `Device` record the registry keeps. */
module SdkTypes {
  import opened Text

  /** `WR_MAX_NUM`: the most rotators one scan reports. */
  const MaxDevices: nat := 32

  /** `WR_ERROR_TYPE`. */
  datatype Error = Success | InvalidId | InvalidParameter | InvalidState | Communication | NullPointer

  /** The numeric value of each `WR_ERROR_TYPE` member. */
  function Code(e: Error): (c: int)
    ensures 0 <= c <= 5
    ensures c == 0 <==> e == Success
  {
    match e
    case Success => 0
    case InvalidId => 1
    case InvalidParameter => 2
    case InvalidState => 3
    case Communication => 4
    case NullPointer => 5
  }

  /** Reads a numeric error code back; codes outside the enumeration have no member. */
  function FromCode(c: int): (e: Option<Error>)
  {
    if c == 0 then Some(Success)
    else if c == 1 then Some(InvalidId)
    else if c == 2 then Some(InvalidParameter)
    else if c == 3 then Some(InvalidState)
    else if c == 4 then Some(Communication)
    else if c == 5 then Some(NullPointer)
    else None
  }

  /** The codes are distinct: each error reads back from its code, and every code
      in 0..5 belongs to exactly one member. */
  lemma CodesAreDistinct(e: Error, c: int)
    ensures FromCode(Code(e)) == Some(e)
    ensures 0 <= c <= 5 <==> FromCode(c).Some?
    ensures FromCode(c).Some? ==> Code(FromCode(c).value) == c
  {
  }

  // `MASK_ROTATOR_*`: the fields `WRRotatorSetConfig` is asked to set.
  const MaskReverseDirection: bv32 := 0x01
  const MaskBacklash: bv32 := 0x02
  const MaskOvershoot: bv32 := 0x04
  const MaskOvershootAngle: bv32 := 0x08
  const MaskOvershootDirection: bv32 := 0x10
  const MaskAll: bv32 := 0x1F

  predicate SingleBit(m: bv32)
  {
    m != 0 && m & (m - 1) == 0
  }

  /** The five masks are single, pairwise disjoint bits whose union is `MASK_ROTATOR_ALL`. */
  lemma MasksPartitionAll()
    ensures SingleBit(MaskReverseDirection) && SingleBit(MaskBacklash) && SingleBit(MaskOvershoot)
    ensures SingleBit(MaskOvershootAngle) && SingleBit(MaskOvershootDirection)
    ensures MaskReverseDirection & MaskBacklash == 0 && MaskBacklash & MaskOvershoot == 0
    ensures MaskOvershoot & MaskOvershootAngle == 0 && MaskOvershootAngle & MaskOvershootDirection == 0
    ensures MaskReverseDirection & (MaskOvershoot | MaskOvershootAngle | MaskOvershootDirection) == 0
    ensures MaskBacklash & (MaskOvershootAngle | MaskOvershootDirection) == 0
    ensures MaskOvershoot & MaskOvershootDirection == 0
    ensures MaskReverseDirection | MaskBacklash | MaskOvershoot | MaskOvershootAngle | MaskOvershootDirection == MaskAll
  {
  }

  /** `WR_ROTATOR_CONFIG`, as the caller fills it in. */
  datatype Config = Config(
    mask: bv32,
    reverseDirection: int,
    backlash: real,
    overshoot: int,
    overshootAngle: real,
    overshotDirection: int)

  /** `WR_ROTATOR_STATUS` without its `stepSize` field. */
  datatype StatusReport = StatusReport(position: real, moving: int, stepsPerRevolution: int)

  /** `WR_VERSION`: the firmware as an `unsigned int` and the model in an 8-byte field. */
  datatype Version = Version(firmware: int, model: string)

  /** Bytes of `WR_VERSION.model`, terminating NUL included. */
  const VersionModelBytes: nat := 8

  /** A `moving` field reads as "moving" whenever it is not zero. */
  predicate IsMoving(moving: int)
  {
    moving != 0
  }

  /** Conversion of an `int` to `unsigned int`: reduction modulo 2^32. */
  function ToUnsigned32(x: int): (u: int)
    ensures 0 <= u < 0x1_0000_0000
    ensures 0 <= x < 0x1_0000_0000 ==> u == x
    ensures -0x1_0000_0000 <= x < 0 ==> u == x + 0x1_0000_0000
  {
    x % 0x1_0000_0000
  }
}

module DeviceState {
  import opened Text
  import opened SerialLine

  /** `Device::RotatorConfig`. */
  datatype RotatorConfig = RotatorConfig(reverseDirection: int, stepRate: int)

  /** `Device::RotatorStatus` without its `stepSize` field. */
  datatype RotatorStatus = RotatorStatus(position: real, moving: int, stepsPerRevolution: int)

  /** One registered rotator. `link` is the conversation with the instrument at
      `portName`; `overshooting` (0 none, 1 outbound move sent, 2 return move
      sent) and `overshootAngle` are the overshoot state the listener consults. */
  datatype Device = Device(
    port: Option<SerialPort>,
    link: Link,
    portName: string,
    modelType: string,
    firmwareVersion: int,
    mechanicalAngle: int,
    backlash: int,
    reverseDirection: int,
    stepsPerDegree: int,
    targetAngle: real,
    lastRotated: real,
    rotator: RotatorConfig,
    status: RotatorStatus,
    listenerRunning: bool,
    overshooting: int,
    overshootAngle: real)

  /** `WRRotatorScan`'s `tempDevice`: a default-constructed `Device` given a port and its path. */
  function NewDevice(portName: string, port: SerialPort, link: Link): (d: Device)
    ensures d.port == Some(port) && d.link == link && d.portName == portName && d.modelType == ""
    ensures d.firmwareVersion == 0 && d.mechanicalAngle == 0 && d.backlash == 0
    ensures d.reverseDirection == 0 && d.stepsPerDegree == 0
    ensures d.targetAngle == 0.0 && d.lastRotated == 0.0
    ensures d.rotator == RotatorConfig(0, 50)
    ensures d.status == RotatorStatus(0.0, 0, 0)
    ensures !d.listenerRunning && d.overshooting == 0 && d.overshootAngle == 0.0
    ensures WellFormed(d)
  {
    Device(Some(port), link, portName, "", 0, 0, 0, 0, 0, 0.0, 0.0,
           RotatorConfig(0, 50), RotatorStatus(0.0, 0, 0), false, 0, 0.0)
  }

  /** The device has a port object and it is open. */
  predicate PortReady(d: Device)
  {
    d.port.Some? && IsOpen(d.port.value)
  }

  /** The steps-per-degree values the firmware models map to; 0 means no model known yet. */
  predicate KnownSteps(steps: int)
  {
    steps == 0 || steps == 1142 || steps == 1155 || steps == 1199
  }

  /** What holds of every device the SDK creates and keeps it through every
      operation: `moving` is 0 or 1, the overshoot phase is one of its three
      values, the revolution size matches the steps per degree, and the model name
      fits `WR_VERSION.model`. */
  predicate WellFormed(d: Device)
  {
    && (d.status.moving == 0 || d.status.moving == 1)
    && 0 <= d.overshooting <= 2
    && KnownSteps(d.stepsPerDegree)
    && d.status.stepsPerRevolution == 360 * d.stepsPerDegree
    && |d.modelType| <= 7
  }

  /** `g_devices`: integer ids to devices. */
  type Registry = map<int, Device>

  predicate RegistryWellFormed(reg: Registry)
  {
    forall id :: id in reg ==> WellFormed(reg[id])
  }
}
