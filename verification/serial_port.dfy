/** The serial transport: a port that is open or closed, the conversation with
    the instrument behind it, and the delimiter-framed byte read.

    The operating system is not modelled. What `write()` returns and what each
    framed read delivers are scripted in a `Link`; a script that has run out
    stands for a device that has gone quiet: `write()` fails and reads time out
    with no bytes. */
module SerialLine {
  import opened Text

  /** A `SerialPort` object: its file descriptor, -1 when closed. */
  datatype SerialPort = SerialPort(fd: int)

  /** A freshly constructed `SerialPort`. */
  const NewPort: SerialPort := SerialPort(-1)

  predicate IsOpen(p: SerialPort)
  {
    p.fd >= 0
  }

  /** What the operating system answers while a port is opened: the result of
      `open()` and whether `tcgetattr` and `tcsetattr` succeed. */
  datatype OpenOutcome = OpenOutcome(fd: int, getAttrOk: bool, setAttrOk: bool)

  datatype Opened = Opened(ok: bool, port: SerialPort)

  /** `SerialPort::Open`: every failure leaves the port closed. */
  function Open(p: SerialPort, os: OpenOutcome): (r: Opened)
    ensures r.ok <==> os.fd >= 0 && os.getAttrOk && os.setAttrOk
    ensures r.ok ==> r.port == SerialPort(os.fd)
    ensures IsOpen(r.port) <==> r.ok
  {
    if os.fd < 0 then Opened(false, SerialPort(os.fd))
    else if !os.getAttrOk then Opened(false, SerialPort(-1))
    else if !os.setAttrOk then Opened(false, SerialPort(-1))
    else Opened(true, SerialPort(os.fd))
  }

  /** `SerialPort::Close`: releases an open descriptor; a closed port stays as it is. */
  function Close(p: SerialPort): (q: SerialPort)
    ensures !IsOpen(q)
    ensures !IsOpen(p) ==> q == p
  {
    if p.fd >= 0 then SerialPort(-1) else p
  }

  lemma CloseIdempotent(p: SerialPort)
    ensures Close(Close(p)) == Close(p)
    ensures Close(p).fd == -1 || Close(p) == p
  {
  }

  // ---------------------------------------------------------------------------
  // The conversation with the instrument

  /** `writeCounts[j]` is what the j-th `write()` returns, `replies[j]` the bytes
      the j-th framed read stores, and `sent` every command written so far. */
  datatype Link = Link(writeCounts: seq<int>, replies: seq<seq<char>>, sent: seq<string>)

  /** What the j-th `write()` from now on returns; -1 once the script is exhausted. */
  function WriteCountAt(l: Link, j: nat): int
  {
    if j < |l.writeCounts| then l.writeCounts[j] else -1
  }

  /** The bytes the j-th framed read from now on delivers; none once the script is exhausted. */
  function ReplyAt(l: Link, j: nat): seq<char>
  {
    if j < |l.replies| then l.replies[j] else []
  }

  function Tail<T>(s: seq<T>): seq<T>
  {
    if |s| == 0 then [] else s[1..]
  }

  datatype Written = Written(ok: bool, link: Link)

  /** `SerialPort::Write`: false on a closed port without touching the line;
      otherwise the bytes go out and the result says whether `write()` took all of them. */
  function Write(p: SerialPort, l: Link, data: string): (r: Written)
    ensures !IsOpen(p) ==> !r.ok && r.link == l
    ensures IsOpen(p) ==> r.ok == (WriteCountAt(l, 0) == |data|)
    ensures IsOpen(p) ==> r.link.sent == l.sent + [data] && r.link.replies == l.replies
    ensures IsOpen(p) ==> forall j: nat :: WriteCountAt(r.link, j) == WriteCountAt(l, j + 1)
  {
    if p.fd < 0 then Written(false, l)
    else Written(WriteCountAt(l, 0) == |data|, Link(Tail(l.writeCounts), l.replies, l.sent + [data]))
  }

  datatype Received = Received(bytes: seq<char>, link: Link)

  /** One framed read: the next scripted reply. A read on a closed descriptor fails
      at once and delivers nothing. */
  function Receive(p: SerialPort, l: Link): (r: Received)
    ensures !IsOpen(p) ==> r.bytes == [] && r.link == l
    ensures IsOpen(p) ==> r.bytes == ReplyAt(l, 0)
    ensures IsOpen(p) ==> r.link.sent == l.sent && r.link.writeCounts == l.writeCounts
    ensures IsOpen(p) ==> forall j: nat :: ReplyAt(r.link, j) == ReplyAt(l, j + 1)
  {
    if p.fd < 0 then Received([], l)
    else Received(ReplyAt(l, 0), Link(l.writeCounts, Tail(l.replies), l.sent))
  }

  // ---------------------------------------------------------------------------
  // The framed read itself

  /** The shape of every frame a read with a `cap`-byte payload limit delivers:
      at most `cap` bytes, and the stop byte, if present, only as the last one. */
  predicate IsFrame(f: seq<char>, cap: nat, stop: char)
  {
    |f| <= cap && forall i :: 0 <= i < |f| - 1 ==> f[i] != stop
  }

  /** `SerialPort::Read` into a buffer of `|buf|` bytes (`maxlen`), over the bytes
      the line will deliver (`source`); running out of `source` stands for the
      timeout, a failing `select` or a failing `read`. Returns the new buffer
      contents, the count, and the bytes left unread. */
  method Read(buf: seq<char>, source: seq<char>, stop: char) returns (out: seq<char>, n: int, rest: seq<char>)
    requires |buf| >= 1
    ensures 0 <= n <= |buf| - 1 && n <= |source|
    ensures |out| == |buf| && out[n] == NUL
    ensures out[..n] == source[..n]
    ensures out[n + 1..] == buf[n + 1..]
    ensures rest == source[n..]
    ensures IsFrame(source[..n], |buf| - 1, stop)
    ensures n == |buf| - 1 || n == |source| || (n >= 1 && source[n - 1] == stop)
    ensures (exists k :: 0 <= k < |buf| - 1 && k < |source| && source[k] == stop) ==> n >= 1 && source[n - 1] == stop
  {
    var a := new char[|buf|](i requires 0 <= i < |buf| => buf[i]);
    var count := 0;
    rest := source;
    while count < |buf| - 1
      invariant 0 <= count <= |buf| - 1 && count <= |source|
      invariant rest == source[count..]
      invariant forall i :: 0 <= i < count ==> a[i] == source[i]
      invariant forall i :: count <= i < a.Length ==> a[i] == buf[i]
      invariant forall i :: 0 <= i < count ==> source[i] != stop
    {
      if |rest| == 0 {
        break;
      }
      a[count] := rest[0];
      rest := rest[1..];
      if a[count] == stop {
        count := count + 1;
        a[count] := NUL;
        out, n := a[..], count;
        assert out[..n] == source[..n];
        assert out[n + 1..] == buf[n + 1..];
        return;
      }
      count := count + 1;
    }
    a[count] := NUL;
    out, n := a[..], count;
    assert out[..n] == source[..n];
    assert out[n + 1..] == buf[n + 1..];
  }
}
