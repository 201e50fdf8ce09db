/**
  The UDP sockets the driver talks through, as seen from the driver. The
  operating system and the drone are not modelled; a socket instead carries
  a script of what the network will do (which `sendto` calls fail, what each
  `recvfrom` call delivers) together with the record of what the driver did
  (the datagrams it handed to `sendto`, how many times it polled).
  The i-th `sendto` on a socket fails exactly when the script says so; past
  the script it succeeds. The i-th `recvfrom` delivers the i-th scripted
  entry; past the script nothing is queued, and a non-blocking receive
  (`MSG_DONTWAIT`) fails with -1.
*/
module Net {
  import opened Wrappers
  import opened CppString

  /** The contents of a `sockaddr_storage`: never filled in, or an (ip, port) pair. */
  datatype Address = Unset | Addr(ip: string, port: string)

  /** What one `recvfrom` call finds: an error (nothing queued), or a datagram and its sender. */
  datatype Incoming = NoData | Datagram(sender: Address, payload: seq<byte>)

  /** One `sendto` call: the destination and the bytes handed over. */
  datatype Outgoing = Outgoing(dest: Address, payload: seq<byte>)

  datatype Socket = Socket(
    port: Option<int>,        // local port it is bound to, if any
    inUse: set<int>,          // local ports another socket already holds
    sendFails: seq<bool>,     // script: whether the i-th sendto fails
    sends: seq<Outgoing>,     // every sendto call made, in order
    incoming: seq<Incoming>,  // script: what the i-th recvfrom finds
    polls: nat)               // number of recvfrom calls made
  {
    /** Whether the next `sendto` fails. */
    predicate NextSendFails() {
      |sends| < |sendFails| && sendFails[|sends|]
    }

    /** What the next `recvfrom` finds. */
    function NextIncoming(): Incoming {
      if polls < |incoming| then incoming[polls] else NoData
    }
  }

  /** A socket as `socket()` creates it, facing the given network script. */
  function Fresh(inUse: set<int>, sendFails: seq<bool>, incoming: seq<Incoming>): Socket {
    Socket(None, inUse, sendFails, [], incoming, 0)
  }

  /** `bind()`: succeeds when the socket is unbound and the port is free; returns whether it did. */
  function BindPort(s: Socket, port: int): (bool, Socket) {
    if s.port.None? && port !in s.inUse then (true, s.(port := Some(port))) else (false, s)
  }

  /** `sendto()`: the number of bytes sent (the whole datagram), or -1. */
  function SendTo(s: Socket, dest: Address, message: seq<byte>): (int, Socket) {
    var result := if s.NextSendFails() then -1 else |message|;
    (result, s.(sends := s.sends + [Outgoing(dest, message)]))
  }

  /** The number `recvfrom()` returns for a buffer of `size` bytes: -1, or the bytes it stored. */
  function RecvCount(s: Socket, size: nat): int {
    match s.NextIncoming()
    case NoData => -1
    case Datagram(_, payload) => if |payload| < size then |payload| else size
  }

  /**
    `recvfrom()` into a buffer of `size` bytes: its result, the received bytes
    (a datagram longer than the buffer is cut to its size, as UDP does), and
    the address argument, which a successful call overwrites with the sender.
  */
  function RecvFrom(s: Socket, size: nat, addr: Address): (r: (int, seq<byte>, Address, Socket))
    ensures r.0 == RecvCount(s, size)
    ensures -1 <= r.0 <= size && (r.0 == -1 <==> s.NextIncoming().NoData?)
    ensures |r.1| == if r.0 == -1 then 0 else r.0
    ensures r.0 != -1 ==> r.1 == s.NextIncoming().payload[..r.0] && r.2 == s.NextIncoming().sender
    ensures r.0 == -1 ==> r.2 == addr
    ensures r.3 == s.(polls := s.polls + 1)
  {
    var next := s.(polls := s.polls + 1);
    match s.NextIncoming()
    case NoData => (-1, [], addr, next)
    case Datagram(sender, payload) =>
      var n := RecvCount(s, size);
      (n, payload[..n], sender, next)
  }

  // ---------------------------------------------------------------------------
  // The record of sends

  /** The payloads of a run of `sendto` calls. */
  function Payloads(sends: seq<Outgoing>): (r: seq<seq<byte>>)
    ensures |r| == |sends| && forall i :: 0 <= i < |sends| ==> r[i] == sends[i].payload
  {
    if sends == [] then [] else Payloads(sends[..|sends| - 1]) + [sends[|sends| - 1].payload]
  }

  /** The payloads of two runs of sends, one after the other. */
  lemma PayloadsAppend(a: seq<Outgoing>, b: seq<Outgoing>)
    ensures Payloads(a + b) == Payloads(a) + Payloads(b)
  {
    assert forall i :: 0 <= i < |a + b| ==> Payloads(a + b)[i] == (Payloads(a) + Payloads(b))[i];
  }

  /** Sends that went on from `sends0` with `n` copies of `m`, then with `more`. */
  lemma RepeatThen(sends0: seq<Outgoing>, sends1: seq<Outgoing>, sends2: seq<Outgoing>, more: seq<Outgoing>, n: nat, m: seq<byte>)
    requires |sends0| <= |sends1| && Payloads(sends1[|sends0|..]) == Repeat(n, m) && sends2 == sends1 + more
    ensures Payloads(sends2[|sends0|..]) == Repeat(n, m) + Payloads(more)
  {
    assert sends2[|sends0|..] == sends1[|sends0|..] + more;
    PayloadsAppend(sends1[|sends0|..], more);
  }

  /**
    Sends that went on from `sends0` with `n >= 1` copies of `m`, then with
    `more`: the earlier sends are kept, the first new one is the first copy,
    and the new payloads are the copies followed by those of `more`.
  */
  lemma RepeatThenMore(sends0: seq<Outgoing>, sends1: seq<Outgoing>, sends2: seq<Outgoing>, more: seq<Outgoing>, n: nat, m: seq<byte>)
    requires 1 <= n && |sends1| == |sends0| + n && sends1[..|sends0|] == sends0
    requires Payloads(sends1[|sends0|..]) == Repeat(n, m) && sends2 == sends1 + more
    ensures |sends2| == |sends0| + n + |more|
    ensures sends2[..|sends0|] == sends0
    ensures sends2[|sends0|] == sends1[|sends0|] && sends2[|sends0|].payload == m
    ensures Payloads(sends2[|sends0|..]) == Repeat(n, m) + Payloads(more)
  {
    assert sends1[|sends0|..][0] == sends1[|sends0|];
    RepeatThen(sends0, sends1, sends2, more, n, m);
  }

  /** `n` copies of one message. */
  function Repeat(n: nat, m: seq<byte>): (r: seq<seq<byte>>)
    ensures |r| == n && forall i :: 0 <= i < n ==> r[i] == m
  {
    if n == 0 then [] else Repeat(n - 1, m) + [m]
  }

  /** Four single appends make one append of four. */
  lemma AppendFour<T>(s: seq<T>, t: seq<T>)
    requires |t| == 4
    ensures s + [t[0]] + [t[1]] + [t[2]] + [t[3]] == s + t
  {
  }

  /** Appending keeps a prefix and the element after it. */
  lemma PrefixKept<T>(s: seq<T>, t: seq<T>, n: nat)
    requires n < |s|
    ensures (s + t)[..n] == s[..n] && (s + t)[n] == s[n]
  {
  }
}
