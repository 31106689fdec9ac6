/** The vendor interface of the HAL within one session: wake control around the packets sent, the
    idle timer, and the completion of internal commands. What it does to the outside is logged. */
module VendorInterface {
  import opened Bits

  const HCI_COMMAND_COMPLETE_EVENT: byte := 0x0E

  /** Operations of the vendor library, packets handed to the protocol, and runs of OnTimeout. */
  datatype Action = Assert | Deassert | Packet(kind: byte, data: seq<byte>) | Timeout

  /** Whether the last wake operation, if any, was ASSERT. */
  function Awake(log: seq<Action>): bool {
    if log == [] then false
    else
      match log[|log| - 1]
      case Assert => true
      case Deassert => false
      case _ => Awake(log[..|log| - 1])
  }

  /** Whether a packet was sent since the last timeout; before the first, `stale` is the answer
      until something is sent. */
  function Active(log: seq<Action>, stale: bool): bool {
    if log == [] then stale
    else
      match log[|log| - 1]
      case Packet(_, _) => true
      case Timeout => false
      case _ => Active(log[..|log| - 1], stale)
  }

  /** Low-power wake safety, action by action: a packet leaves awake, ASSERT is never repeated, and
      DEASSERT comes only from a timeout with no packet since the previous one. */
  predicate MayFollow(log: seq<Action>, next: Action, stale: bool) {
    match next
    case Packet(_, _) => Awake(log)
    case Assert => !Awake(log)
    case Deassert => log != [] && log[|log| - 1] == Timeout && !Active(log[..|log| - 1], stale)
    case Timeout => true
  }

  predicate WakeSafe(log: seq<Action>, stale: bool) {
    forall k :: 0 <= k < |log| ==> MayFollow(log[..k], log[k], stale)
  }

  /** Each timeout with no packet since the previous one is answered by DEASSERT. */
  predicate IdleAnswered(log: seq<Action>, stale: bool) {
    forall k :: 0 <= k < |log| && log[k] == Timeout && !Active(log[..k], stale) ==> k + 1 < |log| && log[k + 1] == Deassert
  }

  lemma SafeExtends(log: seq<Action>, next: Action, stale: bool)
    requires WakeSafe(log, stale) && MayFollow(log, next, stale)
    ensures WakeSafe(log + [next], stale)
  {
    hide MayFollow;
    forall k | 0 <= k < |log| + 1 ensures MayFollow((log + [next])[..k], (log + [next])[k], stale) {
      assert (log + [next])[..k] == log[..k];
    }
    assert log[..|log|] == log;
  }

  lemma IdleExtends(log: seq<Action>, more: Action, stale: bool)
    requires IdleAnswered(log, stale) && more != Timeout
    ensures IdleAnswered(log + [more], stale)
  {
    forall k | 0 <= k < |log| && log[k] == Timeout && !Active((log + [more])[..k], stale)
      ensures k + 1 < |log| && log[k + 1] == Deassert
    {
      assert (log + [more])[..k] == log[..k];
    }
  }

  /** Between two ASSERTs there is always a DEASSERT. */
  lemma {:induction false} DeassertBetweenAsserts(log: seq<Action>, stale: bool, j: nat, k: nat)
    requires WakeSafe(log, stale) && j < k < |log| && log[j] == log[k] == Assert
    ensures Deassert in log[j..k]
  {
    assert MayFollow(log[..k], log[k], stale);
    SleepsBetween(log[..k], j);
    assert log[..k][j..] == log[j..k];
  }

  lemma {:induction false} SleepsBetween(log: seq<Action>, j: nat)
    requires j < |log| && log[j] == Assert && !Awake(log)
    ensures Deassert in log[j..]
  {
    var n := |log| - 1;
    if log[n] == Deassert {
      assert log[j..][n - j] == Deassert;
    } else if j < n {
      SleepsBetween(log[..n], j);
      assert log[j..] == log[..n][j..] + [log[n]];
    }
  }

  /** A DEASSERT directly follows a timeout, and no packet was sent since the timeout before it. */
  lemma {:induction false} DeassertWhenIdle(log: seq<Action>, stale: bool, k: nat, j: nat)
    requires WakeSafe(log, stale) && k < |log| && log[k] == Deassert && j < k && log[j].Packet?
    ensures k > 0 && log[k - 1] == Timeout && Timeout in log[j..k - 1]
  {
    assert MayFollow(log[..k], log[k], stale) && log[..k][..k - 1] == log[..k - 1];
    IdleSince(log[..k - 1], stale, j);
    assert log[..k - 1][j..] == log[j..k - 1];
  }

  lemma {:induction false} IdleSince(log: seq<Action>, stale: bool, j: nat)
    requires j < |log| && log[j].Packet? && !Active(log, stale)
    ensures Timeout in log[j..]
  {
    var n := |log| - 1;
    if log[n] == Timeout {
      assert log[j..][n - j] == Timeout;
    } else if j < n {
      IdleSince(log[..n], stale, j);
      assert log[j..] == log[..n][j..] + [log[n]];
    }
  }

  class VendorInterface {
    var lpmWakeDeasserted: bool
    var recentActivityFlag: bool
    var timerArmed: bool
    var initializeCompleteCb: bool
    var internalCb: bool
    var internalOpcode: nat

    ghost var log: seq<Action>
    ghost const stale: bool

    /** The flags say what the log says; awake, the idle timer runs. */
    ghost predicate Valid()
      reads this
    {
      && lpmWakeDeasserted == !Awake(log) && recentActivityFlag == Active(log, stale)
      && (!lpmWakeDeasserted ==> timerArmed)
      && WakeSafe(log, stale) && IdleAnswered(log, stale)
    }

    /** Open: recent_activity_flag and the internal command are left from the session before. */
    constructor (recentActivityFlag: bool, internalCb: bool, internalOpcode: nat)
      ensures Valid() && log == [] && stale == recentActivityFlag && initializeCompleteCb
    {
      lpmWakeDeasserted, timerArmed, initializeCompleteCb := true, false, true;
      this.recentActivityFlag, this.internalCb, this.internalOpcode := recentActivityFlag, internalCb, internalOpcode;
      log, stale := [], recentActivityFlag;
    }

    /** Send wakes the controller when the last wake operation was not ASSERT. */
    method Send(kind: byte, data: seq<byte>)
      requires Valid()
      modifies this`recentActivityFlag, this`timerArmed, this`lpmWakeDeasserted, this`log
      ensures Valid()
      ensures log == old(log) + (if Awake(old(log)) then [] else [Assert]) + [Packet(kind, data)]
    {
      hide WakeSafe, IdleAnswered;
      recentActivityFlag := true;
      if lpmWakeDeasserted {
        timerArmed := true;
        lpmWakeDeasserted := false;
        SafeExtends(log, Assert, stale);
        IdleExtends(log, Assert, stale);
        log := log + [Assert];
      }
      SafeExtends(log, Packet(kind, data), stale);
      IdleExtends(log, Packet(kind, data), stale);
      log := log + [Packet(kind, data)];
    }

    /** OnTimeout, which the armed timer runs. */
    method OnTimeout()
      requires Valid() && timerArmed
      modifies this`recentActivityFlag, this`timerArmed, this`lpmWakeDeasserted, this`log
      ensures Valid()
      ensures log == old(log) + [Timeout] + if Active(old(log), stale) then [] else [Deassert]
      ensures timerArmed == Active(old(log), stale)
    {
      hide WakeSafe, IdleAnswered;
      ghost var before := log;
      SafeExtends(before, Timeout, stale);
      log := log + [Timeout];
      if !recentActivityFlag {
        lpmWakeDeasserted := true;
        assert log[..|before|] == before;
        SafeExtends(log, Deassert, stale);
        log := log + [Deassert];
        assert log[..|before| + 1] == before + [Timeout];
        timerArmed := false;
      }
      recentActivityFlag := false;
      TimeoutAnswered(before, stale);
      assert lpmWakeDeasserted == !Awake(log);
      assert recentActivityFlag == Active(log, stale);
      assert WakeSafe(log, stale);
      assert IdleAnswered(log, stale);
    }

    /** OnFirmwareConfigured: the initialization callback is run once, with the result. */
    method OnFirmwareConfigured(result: nat) returns (completed: bool, success: bool)
      requires Valid()
      modifies this`initializeCompleteCb, this`timerArmed
      ensures Valid() && timerArmed && !initializeCompleteCb
      ensures completed == old(initializeCompleteCb) && success == (result == 0)
    {
      completed, success := initializeCompleteCb, result == 0;
      initializeCompleteCb := false;
      timerArmed := true;
    }

    /** transmit_cb: the command's completion is expected from here on. */
    method Transmit(opcode: nat, data: seq<byte>)
      requires Valid()
      modifies this`recentActivityFlag, this`timerArmed, this`lpmWakeDeasserted, this`log, this`internalCb, this`internalOpcode
      ensures Valid() && internalCb && internalOpcode == opcode
      ensures log == old(log) + (if Awake(old(log)) then [] else [Assert]) + [Packet(1, data)]
    {
      internalCb := true;
      internalOpcode := opcode;
      Send(1, data);
    }

    /** HandleIncomingEvent: the Command Complete event of the internal command goes to its callback,
        which is used once; every other event goes to the stack. `behind` is what lies behind the
        packet in memory: the opcode of a packet shorter than five bytes is read from there. */
    method HandleIncomingEvent(packet: seq<byte>, behind: seq<byte>) returns (toLibrary: bool)
      requires |packet| > 0 && |packet| + |behind| >= 5
      modifies this`internalCb
      ensures toLibrary <==> old(internalCb) && CompletionOf(packet + behind) == Some(internalOpcode)
      ensures internalCb == (old(internalCb) && !toLibrary)
      ensures |packet| >= 5 ==> (toLibrary <==> old(internalCb) && CompletionOf(packet) == Some(internalOpcode))
    {
      toLibrary := false;
      if internalCb && packet[0] == HCI_COMMAND_COMPLETE_EVENT {
        var memory := packet + behind;
        var opcode := memory[3] + 256 * (memory[4] as int);
        if opcode == internalOpcode {
          internalCb := false;
          toLibrary := true;
        }
      }
    }
  }

  datatype Option<T> = None | Some(value: T)

  /** The command whose completion an event reports. */
  function CompletionOf(event: seq<byte>): Option<nat>
    requires |event| >= 5
  {
    if event[0] == HCI_COMMAND_COMPLETE_EVENT then Some(event[3] + 256 * (event[4] as int)) else None
  }

  /** A Command Complete event carries the opcode, low byte first, behind code, length and number of
      packets; no other event completes a command. */
  lemma CompletionLayout(code: byte, length: byte, packets: byte, opcode: nat, rest: seq<byte>)
    requires opcode < 0x1_0000
    ensures CompletionOf([code, length, packets, opcode % 256, opcode / 256] + rest) == if code == 0x0E then Some(opcode) else None
  {
    var event: seq<byte> := [code, length, packets, opcode % 256, opcode / 256] + rest;
    assert event[3] == opcode % 256 && event[4] == opcode / 256;
  }

  lemma TimeoutAnswered(before: seq<Action>, stale: bool)
    requires IdleAnswered(before, stale)
    ensures Active(before, stale) ==> IdleAnswered(before + [Timeout], stale)
    ensures !Active(before, stale) ==> IdleAnswered(before + [Timeout] + [Deassert], stale)
  {
    hide Active;
    var log := before + [Timeout] + [Deassert];
    assert before[..|before|] == before;
    forall k | 0 <= k <= |before| ensures log[..k] == before[..k] && (before + [Timeout])[..k] == before[..k] {
    }
  }
}
