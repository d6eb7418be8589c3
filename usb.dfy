/** Host-side USB vocabulary shared by both driver generations: bytes as Kotlin
    truncates them, the device metadata the drivers read, and a scripted stand-in
    for the bus whose transfer results are inputs of the model. */
module Usb {

  /** An unsigned byte: a Kotlin `Byte` read back as `toInt() and 0xFF`. */
  type byte = x: int | 0 <= x < 256

  datatype Option<T> = None | Some(value: T)

  /** Kotlin's `Int.toByte()` read back unsigned: the low eight bits. */
  function ToByte(x: int): (b: byte)
    ensures (x - b) % 256 == 0
    ensures 0 <= x < 256 ==> b == x
  {
    x % 256
  }

  /** Kotlin's `Int` division, which truncates toward zero (Dafny's `/` is Euclidean). */
  function TruncDiv(a: int, d: int): (q: int)
    requires d > 0
    ensures 0 <= a ==> 0 <= q * d <= a < q * d + d
    ensures a <= 0 ==> q <= 0 && q * d - d < a <= q * d
  {
    if a >= 0 then a / d else -((-a) / d)
  }

  function Drop<T>(s: seq<T>, k: nat): seq<T>
  {
    if k <= |s| then s[k..] else []
  }

  // ---------------------------------------------------------------------------
  // Device metadata (android.hardware.usb.UsbDevice / UsbInterface / UsbEndpoint)
  // ---------------------------------------------------------------------------

  datatype Direction = DirIn | DirOut
  datatype TransferType = Control | Isochronous | Bulk | Interrupt

  datatype Endpoint = Endpoint(address: int, kind: TransferType, direction: Direction, maxPacketSize: int)
  datatype UsbInterface = UsbInterface(endpoints: seq<Endpoint>)
  datatype UsbDevice = UsbDevice(vendorId: int, productId: int, interfaces: seq<UsbInterface>)

  /** An open device handle (UsbDeviceConnection) and the device it was opened on. */
  datatype Connection = Connection(device: UsbDevice)

  /** One bulk-IN read: the count the transfer returned and byte 3 of the
      received report (the acknowledgement's total fragment count). */
  datatype Reply = Reply(bytesRead: int, fragCount: byte)

  // ---------------------------------------------------------------------------
  // The wire: scripted transfer results and the log of what was sent
  // ---------------------------------------------------------------------------

  /** `outResults` are the values successive bulk-OUT transfers return,
      `inReplies` the successive bulk-IN reads, and `written` every OUT transfer
      issued so far, in order.  Once a script runs out, transfers return -1,
      which is what a timed-out bulk transfer returns. */
  datatype Wire = Wire(outResults: seq<int>, inReplies: seq<Reply>, written: seq<seq<byte>>)

  /** The value the i-th next OUT transfer will return. */
  function ResultAt(results: seq<int>, i: nat): int
  {
    if i < |results| then results[i] else -1
  }

  /** The wire after one OUT transfer of `frame`. */
  function AfterWrite(w: Wire, frame: seq<byte>): (w': Wire)
    ensures w'.written == w.written + [frame] && w'.inReplies == w.inReplies
    ensures |w'.outResults| == if w.outResults == [] then 0 else |w.outResults| - 1
  {
    w.(outResults := Drop(w.outResults, 1), written := w.written + [frame])
  }

  /** The next IN read. */
  function NextReply(w: Wire): Reply
  {
    if w.inReplies == [] then Reply(-1, 0) else w.inReplies[0]
  }

  function AfterRead(w: Wire): (w': Wire)
    ensures w'.outResults == w.outResults && w'.written == w.written
    ensures w.inReplies != [] ==> |w'.inReplies| == |w.inReplies| - 1
  {
    w.(inReplies := Drop(w.inReplies, 1))
  }

  /** The Android USB manager and the attached hardware, as far as the drivers
      see them: the enumerated devices, which of them the user has granted,
      whether opening succeeds, and the scripted transfers. */
  class UsbBus {
    var deviceList: seq<UsbDevice>
    var permitted: set<UsbDevice>
    var openable: bool
    var isOpen: bool
    var permissionRequests: seq<UsbDevice>
    var wire: Wire

    constructor (devices: seq<UsbDevice>, granted: set<UsbDevice>, canOpen: bool, script: Wire)
      ensures deviceList == devices && permitted == granted && openable == canOpen
      ensures !isOpen && permissionRequests == [] && wire == script
    {
      deviceList, permitted, openable := devices, granted, canOpen;
      isOpen, permissionRequests, wire := false, [], script;
    }

    /** UsbDeviceConnection.bulkTransfer on an OUT endpoint. */
    method BulkOut(frame: seq<byte>) returns (n: int)
      modifies this`wire
      ensures n == ResultAt(old(wire).outResults, 0)
      ensures wire == AfterWrite(old(wire), frame)
    {
      n := ResultAt(wire.outResults, 0);
      wire := AfterWrite(wire, frame);
    }

    /** UsbDeviceConnection.bulkTransfer on an IN endpoint. */
    method BulkIn() returns (r: Reply)
      modifies this`wire
      ensures r == NextReply(old(wire)) && wire == AfterRead(old(wire))
    {
      r := NextReply(wire);
      wire := AfterRead(wire);
    }

    /** UsbManager.openDevice followed by claimInterface, whose result the
        drivers ignore. */
    method OpenDevice(d: UsbDevice) returns (c: Option<Connection>)
      modifies this`isOpen
      ensures c == (if openable then Some(Connection(d)) else None)
      ensures isOpen == (old(isOpen) || openable)
    {
      if openable {
        c := Some(Connection(d));
        isOpen := true;
      } else {
        c := None;
      }
    }

    /** UsbDeviceConnection.close (releaseInterface has no observable effect here). */
    method Close()
      modifies this`isOpen
      ensures !isOpen
    {
      isOpen := false;
    }

    /** UsbManager.requestPermission: the system prompt is outside the model. */
    method RequestPermission(d: UsbDevice)
      modifies this`permissionRequests
      ensures permissionRequests == old(permissionRequests) + [d]
    {
      permissionRequests := permissionRequests + [d];
    }
  }
}
