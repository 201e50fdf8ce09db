/**
  The first revision of the `ctello::Tello` client (the top-level
  `ctello.cpp`): one UDP socket both sends commands and receives responses,
  a response is read into a 100-byte character buffer as a C string, and the
  helper functions report success as a `bool` that the callers compare with
  -1.
*/
module TelloLegacy {
  import opened Wrappers
  import opened CppString
  import opened Trim
  import opened Net

  const IP: string := "192.168.10.1"

  /** The size of the character buffer `ReceiveFrom` receives into. */
  const BUFFER_SIZE: nat := 100

  // ---------------------------------------------------------------------------
  // Helpers returning a bool as an int

  /** The `int` a `bool` becomes when returned as the first member of a `std::pair<int, std::string>`. */
  function BoolToInt(b: bool): (n: int)
    ensures n == 0 || n == 1
    ensures n == 1 <==> b
  {
    if b then 1 else 0
  }

  /** The `SendTo` helper: `{false, …}` when `sendto` fails, else `{true, ""}`. */
  function LegacySendTo(s: Socket, dest: Address, command: string): (r: (int, Socket))
    ensures r.1 == s.(sends := s.sends + [Outgoing(dest, Octets(command))])
    ensures r.0 == 0 <==> s.NextSendFails()
  {
    var result := SendTo(s, dest, Octets(command));
    (BoolToInt(result.0 != -1), result.1)
  }

  /** The helper's result is never the -1 that `SendCommand` tests for. */
  lemma SendToNeverMinusOne(s: Socket, dest: Address, command: string)
    ensures LegacySendTo(s, dest, command).0 != -1
    ensures s.NextSendFails() ==> LegacySendTo(s, dest, command).0 == 0
  {
  }

  /** A concrete failing `sendto`: the helper reports 0, not -1. */
  lemma SendFailureUnseen()
    ensures var s := Fresh({}, [true], []);
      s.NextSendFails() && LegacySendTo(s, Unset, "command").0 != -1
  {
  }

  // ---------------------------------------------------------------------------
  // The receive buffer

  /** The bytes `recvfrom` stores into the 100-byte buffer. */
  function Received(payload: seq<byte>): (r: seq<byte>)
    ensures |r| <= BUFFER_SIZE && r <= payload
    ensures |payload| <= BUFFER_SIZE ==> r == payload
    ensures |r| == if |payload| < BUFFER_SIZE then |payload| else BUFFER_SIZE
  {
    if |payload| < BUFFER_SIZE then payload else payload[..BUFFER_SIZE]
  }

  /** `n` NUL characters. */
  function Nuls(n: nat): (r: seq<byte>)
    ensures |r| == n && forall i :: 0 <= i < n ==> r[i] == 0
  {
    if n == 0 then [] else Nuls(n - 1) + [0]
  }

  /** The zero-initialised buffer after `recvfrom` has stored a datagram into it. */
  function BufferAfter(payload: seq<byte>): (r: seq<byte>)
    ensures |r| == BUFFER_SIZE
    ensures r[..|Received(payload)|] == Received(payload)
    ensures forall i :: |Received(payload)| <= i < BUFFER_SIZE ==> r[i] == 0
  {
    Received(payload) + Nuls(BUFFER_SIZE - |Received(payload)|)
  }

  /**
    `strlen` of a character array, as `response = buffer` computes it: the
    index of the first NUL, which must lie inside the array.
  */
  function CStringLength(buf: seq<byte>): (n: nat)
    requires 0 in buf
    ensures n < |buf| && buf[n] == 0
    ensures forall i :: 0 <= i < n ==> buf[i] != 0
  {
    if buf[0] == 0 then 0 else 1 + CStringLength(buf[1..])
  }

  /** A datagram of 100 non-NUL bytes fills the buffer and leaves no terminator for `strlen` to find. */
  lemma BufferOverread()
    ensures var p := seq(BUFFER_SIZE, _ => 65); 0 !in BufferAfter(p)
  {
    var p := seq(BUFFER_SIZE, _ => 65);
    assert BufferAfter(p) == p;
  }

  /** The bytes before the first NUL, or all of them when there is none. */
  function UntilNul(b: seq<byte>): (r: seq<byte>)
    ensures r <= b && 0 !in r
    ensures |r| < |b| ==> b[|r|] == 0
  {
    if b == [] || b[0] == 0 then [] else [b[0]] + UntilNul(b[1..])
  }

  /**
    The text of a received datagram: the received bytes up to the first NUL.
    It is defined for every datagram, also one that fills the buffer.
  */
  function BufferText(payload: seq<byte>): (r: string)
    ensures |r| <= BUFFER_SIZE && |r| <= |payload|
    ensures r == Chars(payload[..|r|])
    ensures |r| < BUFFER_SIZE && |r| < |payload| ==> payload[|r|] == 0
    ensures forall i :: 0 <= i < |r| ==> payload[i] != 0
  {
    Chars(UntilNul(Received(payload)))
  }

  /** Whenever the buffer holds a terminator, `BufferText` is what `response = buffer` reads. */
  lemma BufferTextAgrees(payload: seq<byte>)
    requires 0 in BufferAfter(payload)
    ensures BufferText(payload) == Chars(BufferAfter(payload)[..CStringLength(BufferAfter(payload))])
  {
    var buf := BufferAfter(payload);
    var u := UntilNul(Received(payload));
    var r := Received(payload);
    assert forall i :: 0 <= i < |u| ==> buf[i] == u[i];
    if |u| < |r| {
      assert buf[|u|] == r[|u|];
    } else {
      assert |r| < BUFFER_SIZE;
      assert buf[|u|] == 0;
    }
    assert CStringLength(buf) == |u|;
    assert buf[..|u|] == u;
  }

  /** A datagram shorter than the buffer always leaves a terminator. */
  lemma ShortDatagramTerminated(payload: seq<byte>)
    requires |payload| < BUFFER_SIZE
    ensures 0 in BufferAfter(payload)
  {
    assert BufferAfter(payload)[|payload|] == 0;
  }

  // ---------------------------------------------------------------------------
  // Receiving

  /** The text of a received datagram, trailing whitespace trimmed. */
  function LegacyText(payload: seq<byte>): (r: string)
    ensures |r| <= BUFFER_SIZE && r <= BufferText(payload)
    ensures r == [] || r[|r| - 1] !in TRAILING
    ensures AllTrailing(BufferText(payload)[|r|..])
  {
    TrimTrailing(BufferText(payload))
  }

  /**
    What `ReceiveResponse` makes of the next poll: nothing when `recvfrom`
    fails, otherwise the text of the datagram. An empty datagram gives a
    present, empty response.
  */
  function LegacyReply(s: Socket): (r: Option<string>)
    ensures r.None? <==> s.NextIncoming().NoData?
    ensures r.Some? ==>
      var t := BufferText(s.NextIncoming().payload);
      r.value <= t && (r.value == [] || r.value[|r.value| - 1] !in TRAILING) && AllTrailing(t[|r.value|..])
  {
    match s.NextIncoming()
    case NoData => None
    case Datagram(_, payload) => Some(LegacyText(payload))
  }

  /** Unlike the current revision, an empty datagram already counts as a response. */
  lemma EmptyDatagramAnswers(s: Socket, sender: Address)
    requires s.NextIncoming() == Datagram(sender, [])
    ensures LegacyReply(s) == Some([])
  {
  }

  /** Whether poll `k` is the first at or after `from` that finds a datagram. */
  predicate IsFirstDatagram(incoming: seq<Incoming>, from: nat, k: nat) {
    from <= k < |incoming| && incoming[k].Datagram? &&
    forall i :: from <= i < k ==> incoming[i].NoData?
  }

  /** During a busy-wait for the datagram at poll `k`: each earlier poll yields nothing, poll `k` its text. */
  lemma PollReply(s: Socket, from: nat, k: nat)
    requires IsFirstDatagram(s.incoming, from, k) && from <= s.polls <= k
    ensures s.polls < k ==> LegacyReply(s).None?
    ensures s.polls == k ==> LegacyReply(s) == Some(DatagramText(s.incoming, k))
    ensures s.polls == k ==> s.NextIncoming() == s.incoming[k] && s.incoming[k].Datagram?
  {
  }

  /** Whether `ks` are the polls at which successive busy-waits from poll `from` each get a datagram. */
  predicate DatagramChain(incoming: seq<Incoming>, from: nat, ks: seq<nat>) {
    (|ks| > 0 ==> IsFirstDatagram(incoming, from, ks[0])) &&
    forall j :: 0 < j < |ks| ==> IsFirstDatagram(incoming, ks[j - 1] + 1, ks[j])
  }

  /** After the first busy-wait of a chain, the rest is a chain from the next poll. */
  lemma DatagramChainTail(incoming: seq<Incoming>, from: nat, ks: seq<nat>)
    requires |ks| > 0 && DatagramChain(incoming, from, ks)
    ensures DatagramChain(incoming, ks[0] + 1, ks[1..])
  {
    if |ks| > 1 {
      assert IsFirstDatagram(incoming, ks[0] + 1, ks[1]);
    }
    forall j | 0 < j < |ks| - 1
      ensures IsFirstDatagram(incoming, ks[1..][j - 1] + 1, ks[1..][j])
    {
      assert IsFirstDatagram(incoming, ks[j] + 1, ks[j + 1]);
    }
  }

  /** The four busy-waits of a chain of four, one after the other. */
  lemma ChainOfFour(incoming: seq<Incoming>, from: nat, ks: seq<nat>)
    requires |ks| == 4 && DatagramChain(incoming, from, ks)
    ensures IsFirstDatagram(incoming, from, ks[0]) && IsFirstDatagram(incoming, ks[0] + 1, ks[1])
    ensures IsFirstDatagram(incoming, ks[1] + 1, ks[2]) && IsFirstDatagram(incoming, ks[2] + 1, ks[3])
  {
    assert IsFirstDatagram(incoming, ks[0] + 1, ks[1]);
    assert IsFirstDatagram(incoming, ks[1] + 1, ks[2]);
    assert IsFirstDatagram(incoming, ks[2] + 1, ks[3]);
  }

  /** The text logged for the datagram at poll `k`. */
  function DatagramText(incoming: seq<Incoming>, k: nat): (r: string)
    requires k < |incoming| && incoming[k].Datagram?
    ensures |r| <= BUFFER_SIZE
  {
    LegacyText(incoming[k].payload)
  }

  /** The four info queries: the first to `addr`, each later one to the sender of the previous answer. */
  function InfoQueries(addr: Address, incoming: seq<Incoming>, from: nat, ks: seq<nat>): (r: seq<Outgoing>)
    requires |ks| == 4 && DatagramChain(incoming, from, ks)
    ensures |r| == 4 && r[0].dest == addr
    ensures Payloads(r) == [Octets("sn?"), Octets("sdk?"), Octets("wifi?"), Octets("battery?")]
  {
    [Outgoing(addr, Octets("sn?")), Outgoing(incoming[ks[0]].sender, Octets("sdk?")),
     Outgoing(incoming[ks[1]].sender, Octets("wifi?")), Outgoing(incoming[ks[2]].sender, Octets("battery?"))]
  }

  /**
    The sends of a handshake, from the socket `s0` before the busy-wait for
    the first datagram (with destination `a0`), `s1` after it (with
    destination `a1`, the datagram's sender) and `s2` after the four info
    queries.
  */
  lemma HandshakeSends(s0: Socket, a0: Address, s1: Socket, a1: Address, s2: Socket, ks: seq<nat>)
    requires |ks| == 5 && DatagramChain(s0.incoming, s0.polls, ks)
    requires s1 == s0.(polls := ks[0] + 1, sends := s1.sends)
    requires |s1.sends| == |s0.sends| + (ks[0] + 1 - s0.polls)
    requires s1.sends[..|s0.sends|] == s0.sends
    requires Payloads(s1.sends[|s0.sends|..]) == Repeat(ks[0] + 1 - s0.polls, Octets("command"))
    requires s1.sends[|s0.sends|].dest == a0
    requires a1 == s1.incoming[ks[0]].sender
    requires DatagramChain(s1.incoming, s1.polls, ks[1..])
    requires s2 == s1.(polls := ks[1..][3] + 1, sends := s1.sends + InfoQueries(a1, s1.incoming, s1.polls, ks[1..]))
    ensures s2 == s0.(polls := ks[4] + 1, sends := s2.sends)
    ensures |s2.sends| == |s0.sends| + (ks[0] + 1 - s0.polls) + 4
    ensures s2.sends[..|s0.sends|] == s0.sends
    ensures Payloads(s2.sends[|s0.sends|..]) ==
      Repeat(ks[0] + 1 - s0.polls, Octets("command")) +
      Payloads(InfoQueries(s0.incoming[ks[0]].sender, s0.incoming, ks[0] + 1, ks[1..]))
    ensures s2.sends[|s0.sends|] == Outgoing(a0, Octets("command"))
  {
    ghost var queries := InfoQueries(a1, s1.incoming, s1.polls, ks[1..]);
    RepeatThenMore(s0.sends, s1.sends, s2.sends, queries, ks[0] + 1 - s0.polls, Octets("command"));
  }

  // ---------------------------------------------------------------------------
  // The client

  class Tello {
    var sock: Socket
    var destAddr: Address

    /** Opens the socket (given, with its network script). */
    constructor (net: Socket)
      ensures sock == net && destAddr == Unset
    {
      sock := net;
      destAddr := Unset;
    }

    /** Whether both steps of `Bind` would succeed. */
    predicate BindGoesThrough(fromPort: int, resolves: bool)
      reads this
    {
      BindPort(sock, fromPort).0 && resolves
    }

    /**
      Sends the command to the destination address. The helper never returns
      -1, so the failure branch is dead and the result is always true.
    */
    method SendCommand(command: string) returns (ok: bool)
      modifies this`sock
      ensures sock == old(sock).(sends := old(sock).sends + [Outgoing(destAddr, Octets(command))])
      ensures ok
    {
      var result := LegacySendTo(sock, destAddr, command);
      sock := result.1;
      ok := result.0 != -1;
    }

    /**
      Polls the socket once. `ReceiveFrom` reports success as 1 and failure as
      0 (`BoolToInt`), so its -1 test never fires and only its 0 leads to no
      response; `recvfrom` stores the sender into the destination address.
    */
    method ReceiveResponse() returns (r: Option<string>)
      modifies this`sock, this`destAddr
      ensures r == LegacyReply(old(sock))
      ensures sock == old(sock).(polls := old(sock).polls + 1)
      ensures destAddr == if old(sock).NextIncoming().Datagram? then old(sock).NextIncoming().sender else old(destAddr)
    {
      var response: string := "";
      ghost var next := sock.NextIncoming();
      var result := RecvFrom(sock, BUFFER_SIZE, destAddr);
      sock, destAddr := result.3, result.2;
      var first := BoolToInt(result.0 != -1);
      if first == 1 {
        response := BufferText(result.1);
      }
      if first == -1 {
        return None;
      }
      if first == 0 {
        return None;
      }
      assert result.1 == Received(next.payload);
      response := TrimTrailing(response);
      return Some(response);
    }

    /** Polls until a datagram comes, which the script has at poll `k`. */
    method AwaitResponse(ghost k: nat) returns (response: string)
      requires IsFirstDatagram(sock.incoming, sock.polls, k)
      modifies this`sock, this`destAddr
      ensures sock == old(sock).(polls := k + 1)
      ensures response == DatagramText(sock.incoming, k)
      ensures destAddr == sock.incoming[k].sender
    {
      ghost var from := sock.polls;
      PollReply(sock, from, k);
      var r := ReceiveResponse();
      while r.None?
        invariant sock == old(sock).(polls := sock.polls)
        invariant from < sock.polls <= k + 1
        invariant r.None? ==> sock.polls <= k
        invariant r.Some? ==> sock.polls == k + 1
        invariant r.Some? ==> r.value == DatagramText(sock.incoming, k) && destAddr == sock.incoming[k].sender
        decreases k + 1 - sock.polls
      {
        PollReply(sock, from, k);
        r := ReceiveResponse();
      }
      response := r.value;
    }

    /** Sends "command" once per poll until a datagram comes, which the script has at poll `k`. */
    method FindTello(ghost k: nat)
      requires IsFirstDatagram(sock.incoming, sock.polls, k)
      modifies this`sock, this`destAddr
      ensures sock == old(sock).(polls := k + 1, sends := sock.sends)
      ensures |sock.sends| == |old(sock).sends| + (k + 1 - old(sock).polls)
      ensures sock.sends[..|old(sock).sends|] == old(sock).sends
      ensures Payloads(sock.sends[|old(sock).sends|..]) == Repeat(k + 1 - old(sock).polls, Octets("command"))
      ensures sock.sends[|old(sock).sends|].dest == old(destAddr)
      ensures destAddr == sock.incoming[k].sender
    {
      ghost var sends0, polls0, addr0 := sock.sends, sock.polls, destAddr;
      var r: Option<string>;
      var _ := SendCommand("command");
      r := ReceiveResponse();
      while r.None?
        invariant sock == old(sock).(polls := sock.polls, sends := sock.sends)
        invariant polls0 < sock.polls <= k + 1
        invariant |sock.sends| == |sends0| + (sock.polls - polls0)
        invariant sock.sends[..|sends0|] == sends0
        invariant forall i :: |sends0| <= i < |sock.sends| ==> sock.sends[i].payload == Octets("command")
        invariant sock.sends[|sends0|].dest == addr0
        invariant r.None? ==> sock.polls <= k
        invariant r.Some? ==> sock.polls == k + 1 && destAddr == sock.incoming[k].sender
        decreases k + 1 - sock.polls
      {
        var _ := SendCommand("command");
        r := ReceiveResponse();
      }
    }

    /** One query: send `command`, then busy-wait for the datagram at poll `k`. */
    method Query(command: string, ghost k: nat) returns (response: string)
      requires IsFirstDatagram(sock.incoming, sock.polls, k)
      modifies this`sock, this`destAddr
      ensures sock == old(sock).(polls := k + 1, sends := old(sock).sends + [Outgoing(old(destAddr), Octets(command))])
      ensures response == DatagramText(sock.incoming, k)
      ensures destAddr == sock.incoming[k].sender
    {
      var _ := SendCommand(command);
      response := AwaitResponse(k);
    }

    /** Queries serial number, SDK version, Wi-Fi signal and battery, and returns the four answers it prints. */
    method ShowTelloInfo(ghost ks: seq<nat>) returns (info: seq<string>)
      requires |ks| == 4 && DatagramChain(sock.incoming, sock.polls, ks)
      modifies this`sock, this`destAddr
      ensures sock == old(sock).(polls := ks[3] + 1, sends := old(sock).sends + InfoQueries(old(destAddr), old(sock).incoming, old(sock).polls, ks))
      ensures destAddr == sock.incoming[ks[3]].sender
      ensures info == [DatagramText(sock.incoming, ks[0]), DatagramText(sock.incoming, ks[1]),
                       DatagramText(sock.incoming, ks[2]), DatagramText(sock.incoming, ks[3])]
    {
      ghost var incoming, sends0, addr0 := sock.incoming, sock.sends, destAddr;
      ChainOfFour(incoming, sock.polls, ks);
      var serial := Query("sn?", ks[0]);
      ghost var addr1 := destAddr;
      var sdk := Query("sdk?", ks[1]);
      ghost var addr2 := destAddr;
      var wifi := Query("wifi?", ks[2]);
      ghost var addr3 := destAddr;
      var battery := Query("battery?", ks[3]);
      ghost var queries := InfoQueries(addr0, incoming, old(sock).polls, ks);
      assert queries == [Outgoing(addr0, Octets("sn?")), Outgoing(addr1, Octets("sdk?")),
                         Outgoing(addr2, Octets("wifi?")), Outgoing(addr3, Octets("battery?"))];
      AppendFour(sends0, queries);
      info := [serial, sdk, wifi, battery];
    }

    /**
      Binds the socket to `fromPort`, resolves the drone's address at
      `toPort` (`resolves` is whether `getaddrinfo` succeeds), then performs
      the handshake and the info queries, whose five answers the script has
      at polls `ks`. Stops with false at the first step that fails.
    */
    method Bind(fromPort: int, toPort: string, resolves: bool, ghost ks: seq<nat>) returns (ok: bool)
      requires BindGoesThrough(fromPort, resolves) ==> |ks| == 5 && DatagramChain(sock.incoming, sock.polls, ks)
      modifies this`sock, this`destAddr
      ensures ok <==> old(BindGoesThrough(fromPort, resolves))
      ensures !BindPort(old(sock), fromPort).0 ==> sock == old(sock) && destAddr == old(destAddr)
      ensures BindPort(old(sock), fromPort).0 ==> sock.port == Some(fromPort)
      ensures BindPort(old(sock), fromPort).0 && !resolves ==>
        sock == old(sock).(port := Some(fromPort)) && destAddr == old(destAddr)
      ensures ok ==> sock == old(sock).(port := Some(fromPort), polls := ks[4] + 1, sends := sock.sends)
      ensures ok ==> |sock.sends| == |old(sock).sends| + (ks[0] + 1 - old(sock).polls) + 4
      ensures ok ==> sock.sends[..|old(sock).sends|] == old(sock).sends
      ensures ok ==> (Payloads(sock.sends[|old(sock).sends|..]) ==
        Repeat(ks[0] + 1 - old(sock).polls, Octets("command")) +
        Payloads(InfoQueries(sock.incoming[ks[0]].sender, sock.incoming, ks[0] + 1, ks[1..])))
      ensures ok ==> sock.sends[|old(sock).sends|] == Outgoing(Addr(IP, toPort), Octets("command"))
    {
      var result := BindPort(sock, fromPort);
      sock := result.1;
      if !result.0 {
        return false;
      }
      if !resolves {
        return false;
      }
      destAddr := Addr(IP, toPort);
      Handshake(ks);
      return true;
    }

    /**
      The part of `Bind` after the address is resolved: `FindTello`, then
      `ShowTelloInfo`, whose five datagrams the script has at polls `ks`.
    */
    method Handshake(ghost ks: seq<nat>)
      requires |ks| == 5 && DatagramChain(sock.incoming, sock.polls, ks)
      modifies this`sock, this`destAddr
      ensures sock == old(sock).(polls := ks[4] + 1, sends := sock.sends)
      ensures |sock.sends| == |old(sock).sends| + (ks[0] + 1 - old(sock).polls) + 4
      ensures sock.sends[..|old(sock).sends|] == old(sock).sends
      ensures Payloads(sock.sends[|old(sock).sends|..]) ==
        Repeat(ks[0] + 1 - old(sock).polls, Octets("command")) +
        Payloads(InfoQueries(old(sock).incoming[ks[0]].sender, old(sock).incoming, ks[0] + 1, ks[1..]))
      ensures sock.sends[|old(sock).sends|] == Outgoing(old(destAddr), Octets("command"))
    {
      ghost var s0, a0 := sock, destAddr;
      FindTello(ks[0]);
      ghost var s1, a1 := sock, destAddr;
      DatagramChainTail(s0.incoming, s0.polls, ks);
      var _ := ShowTelloInfo(ks[1..]);
      HandshakeSends(s0, a0, s1, a1, sock, ks);
    }
  }
}
