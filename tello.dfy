/**
  The `ctello::Tello` client of the current revision: two UDP sockets, one to
  send commands to the drone and receive its responses, one to receive the
  telemetry the drone pushes. Socket calls go through the scripted sockets
  of module Net.
*/
module Tello {
  import opened Wrappers
  import opened CppString
  import opened Trim
  import opened Net

  const TELLO_SERVER_IP: string := "192.168.10.1"
  const TELLO_SERVER_COMMAND_PORT: string := "8889"
  const LOCAL_CLIENT_COMMAND_PORT: int := 9000
  const LOCAL_SERVER_STATE_PORT: int := 8890

  /** Buffer sizes handed to `recvfrom` by `ReceiveResponse` and `GetState`. */
  const RESPONSE_BUFFER_SIZE: nat := 32
  const STATE_BUFFER_SIZE: nat := 1024

  /** The environment variable the log level is read from. */
  const LOG_LEVEL_VARIABLE: string := "SPDLOG_LEVEL"

  // ---------------------------------------------------------------------------
  // Log level from the environment

  /** spdlog's `level_enum`, in the order of its underlying values 0..6. */
  datatype LogLevel = Trace | Debug | Info | Warn | Err | Critical | Off

  /** The underlying integer of a level. */
  function Ordinal(l: LogLevel): (n: nat)
    ensures n < 7
  {
    match l
    case Trace => 0 case Debug => 1 case Info => 2 case Warn => 3
    case Err => 4 case Critical => 5 case Off => 6
  }

  /** The level with a given underlying integer. */
  function LevelOf(n: nat): (l: LogLevel)
    requires n < 7
    ensures Ordinal(l) == n
  {
    if n == 0 then Trace else if n == 1 then Debug else if n == 2 then Info
    else if n == 3 then Warn else if n == 4 then Err else if n == 5 then Critical else Off
  }

  /** A value-initialised `level_enum`: the one whose underlying integer is 0. */
  const DEFAULT_LEVEL: LogLevel := LevelOf(0)

  /** The name table of `GetLogLevelFromEnv`. */
  const LEVEL_NAMES: map<string, LogLevel> := map[
    "trace" := Trace, "debug" := Debug, "info" := Info, "warn" := Warn,
    "error" := Err, "critical" := Critical, "off" := Off]

  /**
    `std::unordered_map::operator[]`: the value under the key and the map
    afterwards, with a value-initialised entry inserted when the key is absent.
  */
  function Subscript(m: map<string, LogLevel>, key: string): (r: (LogLevel, map<string, LogLevel>))
    ensures key in r.1 && r.1[key] == r.0
    ensures r.1.Keys == m.Keys + {key}
    ensures forall k :: k in m ==> k in r.1 && r.1[k] == m[k]
    ensures key !in m ==> r.0 == DEFAULT_LEVEL
  {
    if key in m then (m[key], m) else (DEFAULT_LEVEL, m[key := DEFAULT_LEVEL])
  }

  /**
    The level named by the environment variable `varName`; `env` holds the
    process environment that `getenv` reads.
  */
  function GetLogLevelFromEnv(env: map<string, string>, varName: string): (r: LogLevel)
    ensures varName !in env ==> r == Info
    ensures varName in env && env[varName] in LEVEL_NAMES ==> r == LEVEL_NAMES[env[varName]]
    ensures varName in env && env[varName] !in LEVEL_NAMES ==> r == Trace
  {
    if varName !in env then Info else Subscript(LEVEL_NAMES, env[varName]).0
  }

  /** Each of the seven names selects its own level, and nothing else selects `info` but "info" and an unset variable. */
  lemma LogLevelNames(env: map<string, string>, varName: string)
    requires varName in env
    ensures GetLogLevelFromEnv(env, varName) == Info <==> env[varName] == "info"
    ensures GetLogLevelFromEnv(env, varName) == Off <==> env[varName] == "off"
    ensures GetLogLevelFromEnv(env, varName) == Err <==> env[varName] == "error"
    ensures GetLogLevelFromEnv(env, varName) == Trace <==> env[varName] == "trace" || env[varName] !in LEVEL_NAMES
  {
  }

  // ---------------------------------------------------------------------------
  // Receiving

  /**
    What `ReceiveResponse` and `GetState` make of the next `recvfrom` into a
    buffer of `size` bytes: nothing when it returns fewer than 1 byte, else the
    received bytes as text with trailing whitespace trimmed.
  */
  function Reply(s: Socket, size: nat): (r: Option<string>)
    requires 0 < size < NPOS
    ensures r.None? <==> RecvCount(s, size) < 1
    ensures r.None? <==> s.NextIncoming().NoData? || s.NextIncoming().payload == []
    ensures r.Some? ==> |r.value| <= size && |r.value| <= |s.NextIncoming().payload|
    ensures r.Some? ==> r.value == Chars(s.NextIncoming().payload)[..|r.value|]
    ensures r.Some? ==> r.value == [] || r.value[|r.value| - 1] !in TRAILING
    ensures r.Some? ==> AllTrailing(Chars(s.NextIncoming().payload[..RecvCount(s, size)])[|r.value|..])
  {
    match s.NextIncoming()
    case NoData => None
    case Datagram(_, payload) => if |payload| == 0 then None else Some(ReplyText(payload, size))
  }

  /** The text of a response datagram as a buffer of `size` bytes receives it, trimmed. */
  function ReplyText(payload: seq<byte>, size: nat): string
    requires 0 < size < NPOS
  {
    TrimTrailing(Chars(payload[..if |payload| < size then |payload| else size]))
  }

  /** A datagram that fits the buffer and is all whitespace gives a present, empty text. */
  lemma WhitespaceReplyIsEmpty(s: Socket, size: nat)
    requires 0 < size < NPOS
    requires s.NextIncoming().Datagram? && 0 < |s.NextIncoming().payload| <= size
    requires AllTrailing(Chars(s.NextIncoming().payload))
    ensures Reply(s, size) == Some([])
  {
    var payload := s.NextIncoming().payload;
    assert payload[..|payload|] == payload;
    AllTrailingTrimsToEmpty(Chars(payload));
  }

  /** A datagram that fits the buffer and does not end in whitespace arrives as it was sent. */
  lemma CleanReplyIsWhole(s: Socket, size: nat)
    requires 0 < size < NPOS
    requires s.NextIncoming().Datagram? && 0 < |s.NextIncoming().payload| <= size
    requires Chars(s.NextIncoming().payload)[|s.NextIncoming().payload| - 1] !in TRAILING
    ensures Reply(s, size) == Some(Chars(s.NextIncoming().payload))
  {
    var payload := s.NextIncoming().payload;
    assert payload[..|payload|] == payload;
    TrimKeepsCleanText(Chars(payload));
  }

  /** Whether a scripted poll yields a response: a datagram of at least one byte. */
  predicate Answers(e: Incoming) {
    e.Datagram? && |e.payload| >= 1
  }

  /** Whether poll `k` is the first at or after `from` that yields a response. */
  predicate IsFirstAnswer(incoming: seq<Incoming>, from: nat, k: nat) {
    from <= k < |incoming| && Answers(incoming[k]) &&
    forall i :: from <= i < k ==> !Answers(incoming[i])
  }

  /** The first answering poll is determined by the script. */
  lemma FirstAnswerUnique(incoming: seq<Incoming>, from: nat, k: nat, k': nat)
    requires IsFirstAnswer(incoming, from, k) && IsFirstAnswer(incoming, from, k')
    ensures k == k'
  {
  }

  /** During a busy-wait for the answer at poll `k`: each earlier poll yields nothing, poll `k` the answer. */
  lemma PollReply(s: Socket, from: nat, k: nat)
    requires IsFirstAnswer(s.incoming, from, k) && from <= s.polls <= k
    ensures s.polls < k ==> Reply(s, RESPONSE_BUFFER_SIZE).None?
    ensures s.polls == k ==> Reply(s, RESPONSE_BUFFER_SIZE) == Some(AnswerText(s.incoming, k))
    ensures s.polls == k ==> s.NextIncoming() == s.incoming[k] && s.incoming[k].Datagram?
  {
  }

  /**
    Whether `ks` are the polls at which successive busy-waits, the first
    starting at poll `from`, each get their response.
  */
  predicate AnswerChain(incoming: seq<Incoming>, from: nat, ks: seq<nat>) {
    (|ks| > 0 ==> IsFirstAnswer(incoming, from, ks[0])) &&
    forall j :: 0 < j < |ks| ==> IsFirstAnswer(incoming, ks[j - 1] + 1, ks[j])
  }

  /** The four busy-waits of a chain of four, one after the other. */
  lemma ChainOfFour(incoming: seq<Incoming>, from: nat, ks: seq<nat>)
    requires |ks| == 4 && AnswerChain(incoming, from, ks)
    ensures IsFirstAnswer(incoming, from, ks[0]) && IsFirstAnswer(incoming, ks[0] + 1, ks[1])
    ensures IsFirstAnswer(incoming, ks[1] + 1, ks[2]) && IsFirstAnswer(incoming, ks[2] + 1, ks[3])
  {
    assert IsFirstAnswer(incoming, ks[0] + 1, ks[1]);
    assert IsFirstAnswer(incoming, ks[1] + 1, ks[2]);
    assert IsFirstAnswer(incoming, ks[2] + 1, ks[3]);
  }

  /** The logged text of the answer the script has at poll `k`. */
  function AnswerText(incoming: seq<Incoming>, k: nat): (r: string)
    requires k < |incoming| && incoming[k].Datagram?
    ensures |r| <= RESPONSE_BUFFER_SIZE
  {
    ReplyText(incoming[k].payload, RESPONSE_BUFFER_SIZE)
  }

  /**
    The four info queries `ShowTelloInfo` sends: the first to `addr`, each
    later one to the sender of the previous answer.
  */
  function InfoQueries(addr: Address, incoming: seq<Incoming>, from: nat, ks: seq<nat>): (r: seq<Outgoing>)
    requires |ks| == 4 && AnswerChain(incoming, from, ks)
    ensures |r| == |INFO_QUERIES| && r[0].dest == addr
    ensures forall j :: 0 <= j < |r| ==> r[j].payload == Octets(INFO_QUERIES[j])
  {
    [Outgoing(addr, Octets("sn?")), Outgoing(incoming[ks[0]].sender, Octets("sdk?")),
     Outgoing(incoming[ks[1]].sender, Octets("wifi?")), Outgoing(incoming[ks[2]].sender, Octets("battery?"))]
  }

  /** After the first busy-wait of a chain, the rest is a chain from the next poll. */
  lemma AnswerChainTail(incoming: seq<Incoming>, from: nat, ks: seq<nat>)
    requires |ks| > 0 && AnswerChain(incoming, from, ks)
    ensures AnswerChain(incoming, ks[0] + 1, ks[1..])
  {
    if |ks| > 1 {
      assert IsFirstAnswer(incoming, ks[0] + 1, ks[1]);
    }
    forall j | 0 < j < |ks| - 1
      ensures IsFirstAnswer(incoming, ks[1..][j - 1] + 1, ks[1..][j])
    {
      assert IsFirstAnswer(incoming, ks[j] + 1, ks[j + 1]);
    }
  }

  /** `n` polls that find nothing. */
  function Silence(n: nat): (r: seq<Incoming>)
    ensures |r| == n && forall i :: 0 <= i < n ==> r[i] == NoData
  {
    if n == 0 then [] else Silence(n - 1) + [NoData]
  }

  /**
    The handshake has no attempt limit: for every `n` there is a network on
    which the first response comes only at poll `n`, so that `FindTello`
    sends `n + 1` times.
  */
  lemma HandshakeUnbounded(n: nat, ack: Incoming)
    requires Answers(ack)
    ensures IsFirstAnswer(Silence(n) + [ack], 0, n)
  {
  }

  /** The four queries `ShowTelloInfo` makes, in order. */
  const INFO_QUERIES: seq<string> := ["sn?", "sdk?", "wifi?", "battery?"]

  // ---------------------------------------------------------------------------
  // The client

  class Tello {
    var commandSock: Socket
    var stateSock: Socket
    var localClientCommandPort: int
    var serverCommandAddr: Address
    /** The level handed to `spdlog::set_level`. */
    var logLevel: LogLevel

    /** Opens the two sockets (given, with their network scripts) and sets the log level from `env`. */
    constructor (commandNet: Socket, stateNet: Socket, env: map<string, string>)
      ensures commandSock == commandNet && stateSock == stateNet
      ensures localClientCommandPort == LOCAL_CLIENT_COMMAND_PORT
      ensures serverCommandAddr == Unset
      ensures logLevel == GetLogLevelFromEnv(env, LOG_LEVEL_VARIABLE)
    {
      commandSock := commandNet;
      stateSock := stateNet;
      localClientCommandPort := LOCAL_CLIENT_COMMAND_PORT;
      serverCommandAddr := Unset;
      logLevel := GetLogLevelFromEnv(env, LOG_LEVEL_VARIABLE);
    }

    /** Whether all three steps of `Bind(localPort)` would succeed. */
    predicate BindGoesThrough(localPort: int, resolves: bool)
      reads this
    {
      BindPort(commandSock, localPort).0 && resolves && BindPort(stateSock, LOCAL_SERVER_STATE_PORT).0
    }

    /**
      Sends the command's characters as one datagram to the server address;
      false exactly when `sendto` returns -1.
    */
    method SendCommand(command: string) returns (ok: bool)
      modifies this`commandSock
      ensures commandSock == old(commandSock).(sends := old(commandSock.sends) + [Outgoing(serverCommandAddr, Octets(command))])
      ensures ok <==> !old(commandSock).NextSendFails()
    {
      var message := Octets(command);
      var result := SendTo(commandSock, serverCommandAddr, message);
      commandSock := result.1;
      var bytes := result.0;
      if bytes == -1 {
        return false;
      }
      return true;
    }

    /**
      Polls the command socket once. `recvfrom` stores the sender of a datagram
      into the server address it is handed, so that field follows the sender.
    */
    method ReceiveResponse() returns (r: Option<string>)
      modifies this`commandSock, this`serverCommandAddr
      ensures r == Reply(old(commandSock), RESPONSE_BUFFER_SIZE)
      ensures commandSock == old(commandSock).(polls := old(commandSock).polls + 1)
      ensures serverCommandAddr == if old(commandSock).NextIncoming().Datagram?
        then old(commandSock).NextIncoming().sender else old(serverCommandAddr)
    {
      ghost var next := commandSock.NextIncoming();
      var result := RecvFrom(commandSock, RESPONSE_BUFFER_SIZE, serverCommandAddr);
      commandSock, serverCommandAddr := result.3, result.2;
      var bytes := result.0;
      if bytes < 1 {
        return None;
      }
      assert result.1[..bytes] == next.payload[..bytes];
      var response := Chars(result.1[..bytes]);
      response := TrimTrailing(response);
      return Some(response);
    }

    /** Polls the telemetry socket once (the sender goes to a local address and is dropped). */
    method GetState() returns (r: Option<string>)
      modifies this`stateSock
      ensures r == Reply(old(stateSock), STATE_BUFFER_SIZE)
      ensures stateSock == old(stateSock).(polls := old(stateSock).polls + 1)
    {
      ghost var next := stateSock.NextIncoming();
      var result := RecvFrom(stateSock, STATE_BUFFER_SIZE, Unset);
      stateSock := result.3;
      var bytes := result.0;
      if bytes < 1 {
        return None;
      }
      assert result.1[..bytes] == next.payload[..bytes];
      var response := Chars(result.1[..bytes]);
      response := TrimTrailing(response);
      return Some(response);
    }

    /**
      `while (!(response = ReceiveResponse())) ;`: polls until a response
      comes, which the network script has at poll `k`.
    */
    method AwaitResponse(ghost k: nat) returns (response: string)
      requires IsFirstAnswer(commandSock.incoming, commandSock.polls, k)
      modifies this`commandSock, this`serverCommandAddr
      ensures commandSock == old(commandSock).(polls := k + 1)
      ensures response == AnswerText(commandSock.incoming, k)
      ensures serverCommandAddr == commandSock.incoming[k].sender
    {
      ghost var from := commandSock.polls;
      PollReply(commandSock, from, k);
      var r := ReceiveResponse();
      while r.None?
        invariant commandSock == old(commandSock).(polls := commandSock.polls)
        invariant from < commandSock.polls <= k + 1
        invariant r.None? ==> commandSock.polls <= k
        invariant r.Some? ==> commandSock.polls == k + 1
        invariant r.Some? ==> r.value == AnswerText(commandSock.incoming, k)
        invariant r.Some? ==> serverCommandAddr == commandSock.incoming[k].sender
        decreases k + 1 - commandSock.polls
      {
        PollReply(commandSock, from, k);
        r := ReceiveResponse();
      }
      response := r.value;
    }

    /**
      Repeatedly sends "command", one per poll, until a poll yields a
      response, which the network script has at poll `k`.
    */
    method FindTello(ghost k: nat)
      requires IsFirstAnswer(commandSock.incoming, commandSock.polls, k)
      modifies this`commandSock, this`serverCommandAddr
      ensures commandSock == old(commandSock).(polls := k + 1, sends := commandSock.sends)
      ensures |commandSock.sends| == |old(commandSock).sends| + (k + 1 - old(commandSock).polls)
      ensures commandSock.sends[..|old(commandSock).sends|] == old(commandSock).sends
      ensures Payloads(commandSock.sends[|old(commandSock).sends|..]) == Repeat(k + 1 - old(commandSock).polls, Octets("command"))
      ensures commandSock.sends[|old(commandSock).sends|].dest == old(serverCommandAddr)
      ensures serverCommandAddr == commandSock.incoming[k].sender
    {
      ghost var sends0 := commandSock.sends;
      ghost var polls0 := commandSock.polls;
      ghost var addr0 := serverCommandAddr;
      var r: Option<string>;
      var _ := SendCommand("command");
      r := ReceiveResponse();
      while r.None?
        invariant commandSock == old(commandSock).(polls := commandSock.polls, sends := commandSock.sends)
        invariant polls0 < commandSock.polls <= k + 1
        invariant |commandSock.sends| == |sends0| + (commandSock.polls - polls0)
        invariant commandSock.sends[..|sends0|] == sends0
        invariant forall i :: |sends0| <= i < |commandSock.sends| ==> commandSock.sends[i].payload == Octets("command")
        invariant commandSock.sends[|sends0|].dest == addr0
        invariant r.None? ==> commandSock.polls <= k
        invariant r.Some? ==> commandSock.polls == k + 1 && serverCommandAddr == commandSock.incoming[k].sender
        decreases k + 1 - commandSock.polls
      {
        var _ := SendCommand("command");
        r := ReceiveResponse();
      }
    }

    /** One query of `ShowTelloInfo`: send `command`, then busy-wait for the answer at poll `k`. */
    method Query(command: string, ghost k: nat) returns (response: string)
      requires IsFirstAnswer(commandSock.incoming, commandSock.polls, k)
      modifies this`commandSock, this`serverCommandAddr
      ensures commandSock == old(commandSock).(polls := k + 1, sends := old(commandSock).sends + [Outgoing(old(serverCommandAddr), Octets(command))])
      ensures response == AnswerText(commandSock.incoming, k)
      ensures serverCommandAddr == commandSock.incoming[k].sender
    {
      var _ := SendCommand(command);
      response := AwaitResponse(k);
    }

    /**
      Sends each of the four queries and busy-waits for its answer, which the
      script has at polls `ks`; returns the four answers it logs.
    */
    method ShowTelloInfo(ghost ks: seq<nat>) returns (info: seq<string>)
      requires |ks| == 4 && AnswerChain(commandSock.incoming, commandSock.polls, ks)
      modifies this`commandSock, this`serverCommandAddr
      ensures commandSock == old(commandSock).(polls := ks[3] + 1, sends := old(commandSock).sends + InfoQueries(old(serverCommandAddr), old(commandSock).incoming, old(commandSock).polls, ks))
      ensures serverCommandAddr == commandSock.incoming[ks[3]].sender
      ensures info == [AnswerText(commandSock.incoming, ks[0]), AnswerText(commandSock.incoming, ks[1]),
                       AnswerText(commandSock.incoming, ks[2]), AnswerText(commandSock.incoming, ks[3])]
    {
      ghost var incoming, sends0, addr0 := commandSock.incoming, commandSock.sends, serverCommandAddr;
      ChainOfFour(incoming, commandSock.polls, ks);
      var serial := Query("sn?", ks[0]);
      ghost var addr1 := serverCommandAddr;
      var sdk := Query("sdk?", ks[1]);
      ghost var addr2 := serverCommandAddr;
      var wifi := Query("wifi?", ks[2]);
      ghost var addr3 := serverCommandAddr;
      var battery := Query("battery?", ks[3]);
      ghost var queries := InfoQueries(addr0, incoming, old(commandSock).polls, ks);
      assert queries == [Outgoing(addr0, Octets("sn?")), Outgoing(addr1, Octets("sdk?")),
                         Outgoing(addr2, Octets("wifi?")), Outgoing(addr3, Octets("battery?"))];
      AppendFour(sends0, queries);
      info := [serial, sdk, wifi, battery];
    }

    /**
      Binds the command socket to `localPort`, resolves the server address
      (`resolves` is whether `getaddrinfo` succeeds), binds the telemetry
      socket, then performs the handshake and queries the drone's info, whose
      five answers the script has at polls `ks`. Stops with false at the first
      step that fails.
    */
    method Bind(localPort: int, resolves: bool, ghost ks: seq<nat>) returns (ok: bool)
      requires BindGoesThrough(localPort, resolves) ==> |ks| == 5 && AnswerChain(commandSock.incoming, commandSock.polls, ks)
      modifies this`commandSock, this`stateSock, this`localClientCommandPort, this`serverCommandAddr
      ensures ok <==> old(BindGoesThrough(localPort, resolves))
      ensures !BindPort(old(commandSock), localPort).0 ==>
        commandSock == old(commandSock) && stateSock == old(stateSock) &&
        localClientCommandPort == old(localClientCommandPort) && serverCommandAddr == old(serverCommandAddr)
      ensures BindPort(old(commandSock), localPort).0 ==> localClientCommandPort == localPort && commandSock.port == Some(localPort)
      ensures BindPort(old(commandSock), localPort).0 && !resolves ==>
        commandSock == old(commandSock).(port := Some(localPort)) && stateSock == old(stateSock) &&
        serverCommandAddr == old(serverCommandAddr)
      ensures BindPort(old(commandSock), localPort).0 && resolves && !ok ==>
        commandSock == old(commandSock).(port := Some(localPort)) && stateSock == old(stateSock) &&
        serverCommandAddr == Addr(TELLO_SERVER_IP, TELLO_SERVER_COMMAND_PORT)
      ensures ok ==> stateSock == old(stateSock).(port := Some(LOCAL_SERVER_STATE_PORT))
      ensures ok ==> commandSock == old(commandSock).(port := Some(localPort), polls := ks[4] + 1, sends := commandSock.sends)
      ensures ok ==> |commandSock.sends| == |old(commandSock).sends| + (ks[0] + 1 - old(commandSock).polls) + 4
      ensures ok ==> commandSock.sends[..|old(commandSock).sends|] == old(commandSock).sends
      ensures ok ==> (Payloads(commandSock.sends[|old(commandSock).sends|..]) ==
        Repeat(ks[0] + 1 - old(commandSock).polls, Octets("command")) +
        Payloads(InfoQueries(commandSock.incoming[ks[0]].sender, commandSock.incoming, ks[0] + 1, ks[1..])))
      ensures ok ==> commandSock.sends[|old(commandSock).sends|] == Outgoing(Addr(TELLO_SERVER_IP, TELLO_SERVER_COMMAND_PORT), Octets("command"))
    {
      var result := BindPort(commandSock, localPort);
      commandSock := result.1;
      if !result.0 {
        return false;
      }
      localClientCommandPort := localPort;
      if !resolves {
        return false;
      }
      serverCommandAddr := Addr(TELLO_SERVER_IP, TELLO_SERVER_COMMAND_PORT);
      result := BindPort(stateSock, LOCAL_SERVER_STATE_PORT);
      stateSock := result.1;
      if !result.0 {
        return false;
      }
      ghost var sends0 := commandSock.sends;
      FindTello(ks[0]);
      ghost var sends1 := commandSock.sends;
      AnswerChainTail(commandSock.incoming, old(commandSock).polls, ks);
      ghost var queries := InfoQueries(serverCommandAddr, commandSock.incoming, commandSock.polls, ks[1..]);
      var _ := ShowTelloInfo(ks[1..]);
      PrefixKept(sends1, commandSock.sends[|sends1|..], |sends0|);
      RepeatThen(sends0, sends1, commandSock.sends, queries, ks[0] + 1 - old(commandSock).polls, Octets("command"));
      return true;
    }
  }
}
