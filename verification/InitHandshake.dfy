/** The firmware start-up handshake: a worker thread that sends the commands of a script one by one,
    the thread that reads events and runs the completion callback, and the notification that asks
    the worker to exit. The state is what the threads share, and where each of them is; a run is any
    interleaving of their atomic steps. */
module InitHandshake {

  datatype Option<T> = None | Some(value: T)

  datatype Command =
    | GetLocalBdAddr | SetLocalBdAddr | SetLinkKeyType | SetUnitKey | SetEncryption | SetPinCodeType
    | SetVoice | SetPcm | SetRadio | SetTxPowerOffset | SetSleepTimeout | CoexPerformanceAdjust
    | SetBtFtr | SetOscInfo | SetLpoInfo | SetPta | SetBlePta | SetInternalPta1 | SetInternalPta2
    | SetRfReg100 | Reset | SetFwSysLog | SetSspDebugMode

  function Opcode(c: Command): nat {
    match c
    case GetLocalBdAddr => 0x1009
    case SetLocalBdAddr => 0xFC1A
    case SetLinkKeyType => 0xFC1B
    case SetUnitKey => 0xFC75
    case SetEncryption => 0xFC76
    case SetPinCodeType => 0x0C0A
    case SetVoice => 0x0C26
    case SetPcm => 0xFC72
    case SetRadio => 0xFC79
    case SetTxPowerOffset => 0xFC93
    case SetSleepTimeout => 0xFC7A
    case CoexPerformanceAdjust => 0xFC22
    case SetBtFtr => 0xFC7D
    case SetOscInfo => 0xFC7B
    case SetLpoInfo => 0xFC7C
    case SetPta => 0xFC74
    case SetBlePta => 0xFCFC
    case SetInternalPta1 => 0xFCFB
    case SetInternalPta2 => 0xFCFB
    case SetRfReg100 => 0xFCB0
    case Reset => 0x0C03
    case SetFwSysLog => 0xFCBE
    case SetSspDebugMode => 0x1804
  }

  /** Commands that are sent only when a system property asks for them. */
  predicate ByRequest(c: Command) {
    c == SetFwSysLog || c == SetSspDebugMode
  }

  // ----- the scripts

  const SCRIPT_6628: seq<Command> := [
    GetLocalBdAddr, SetLocalBdAddr, SetLinkKeyType, SetUnitKey, SetEncryption, SetPinCodeType, SetVoice,
    SetPcm, SetRadio, SetTxPowerOffset, SetSleepTimeout, SetBtFtr, SetOscInfo, SetLpoInfo, SetPta,
    SetBlePta, Reset, SetInternalPta1, SetInternalPta2, SetRfReg100, SetFwSysLog]
  const SCRIPT_6630: seq<Command> := [
    GetLocalBdAddr, SetLocalBdAddr, SetPcm, SetRadio, SetTxPowerOffset, SetSleepTimeout,
    CoexPerformanceAdjust, SetFwSysLog, SetSspDebugMode]
  const SCRIPT_6632: seq<Command> := [
    GetLocalBdAddr, SetLocalBdAddr, SetPcm, SetRadio, SetTxPowerOffset, SetSleepTimeout,
    Reset, SetFwSysLog, SetSspDebugMode]
  const SCRIPT_7662: seq<Command> := [
    SetLocalBdAddr, SetRadio, SetTxPowerOffset, SetSleepTimeout, SetFwSysLog]
  const SCRIPT_CONSYS: seq<Command> := [
    SetLocalBdAddr, SetRadio, SetTxPowerOffset, SetSleepTimeout, Reset, SetFwSysLog, SetSspDebugMode]

  function Opcodes(script: seq<Command>): (r: seq<nat>)
    ensures |r| == |script|
  {
    seq(|script|, k requires 0 <= k < |script| => Opcode(script[k]))
  }

  predicate Consys(chip: nat) {
    chip in {0x8163, 0x8127, 0x8167, 0x6582, 0x6592, 0x6752, 0x0321, 0x0335, 0x0337, 0x6580, 0x6570, 0x6755,
             0x6797, 0x6757, 0x6759, 0x6763, 0x6758, 0x6739, 0x6771, 0x6775}
  }

  function ScriptOf(chip: nat): Option<seq<Command>> {
    if chip == 0x6628 then Some(SCRIPT_6628)
    else if chip == 0x6630 then Some(SCRIPT_6630)
    else if chip == 0x6632 then Some(SCRIPT_6632)
    else if chip == 0x7662 then Some(SCRIPT_7662)
    else if Consys(chip) then Some(SCRIPT_CONSYS)
    else None
  }

  /** The opcodes that go out for a chip, in order, when nothing is left out. */
  function OpcodesOf(chip: nat): seq<nat> {
    match ScriptOf(chip)
    case Some(script) => Opcodes(script)
    case None => []
  }

  lemma ScriptOpcodes(chip: nat)
    requires Consys(chip)
    ensures OpcodesOf(chip) == [0xFC1A, 0xFC79, 0xFC93, 0xFC7A, 0x0C03, 0xFCBE, 0x1804]
    ensures OpcodesOf(0x6630) == [0x1009, 0xFC1A, 0xFC72, 0xFC79, 0xFC93, 0xFC7A, 0xFC22, 0xFCBE, 0x1804]
    ensures OpcodesOf(0x6632) == [0x1009, 0xFC1A, 0xFC72, 0xFC79, 0xFC93, 0xFC7A, 0x0C03, 0xFCBE, 0x1804]
    ensures OpcodesOf(0x7662) == [0xFC1A, 0xFC79, 0xFC93, 0xFC7A, 0xFCBE]
  {
  }

  lemma ScriptOpcodes6628()
    ensures OpcodesOf(0x6628) == [
      0x1009, 0xFC1A, 0xFC1B, 0xFC75, 0xFC76, 0x0C0A, 0x0C26, 0xFC72, 0xFC79, 0xFC93, 0xFC7A,
      0xFC7D, 0xFC7B, 0xFC7C, 0xFC74, 0xFCFC, 0x0C03, 0xFCFB, 0xFCFB, 0xFCB0, 0xFCBE]
  {
  }

  /** Combo chips start behind Get_Local_BD_Addr unless the eFUSE address is wanted. */
  function StartIndex(chip: nat, getEfuse: bool): nat {
    if Consys(chip) || getEfuse then 0 else 1
  }

  // ----- the state

  datatype Status = Success | Fail | Pending | Terminate

  /** What the worker does next. */
  datatype Worker = Loop | Alloc | SetPending | SetWord | SetCallback | SetOpcode | Transmit | Wait | Leave | Gone

  datatype Callback = NoCallback | GetAddrComplete | CommonComplete

  /** A Command Complete event. */
  datatype Event = Event(opcode: nat, status: nat)

  /** Where the reading thread is with an event meant for the vendor library. */
  datatype Handler = Idle | Matched(event: Event) | Running(event: Event, cb: Callback) | Judged(event: Event, ok: bool)

  /** The shared variables and program counters; then the history: script indices of the commands
      sent, the completions accepted, and the results reported by fwcfg_cb. */
  datatype State = State(
    script: seq<Command>, worker: Worker, i: nat, status: Status, word: nat, cb: Callback, opcode: nat, handler: Handler,
    sent: seq<nat>, acks: seq<Event>, results: seq<bool>)

  /** The state in which the worker enters its loop, or leaves at once for want of a script. */
  function Initial(chip: nat, getEfuse: bool, status: Status, word: nat, opcode: nat): (s: State)
    ensures s.i <= |s.script|
  {
    match ScriptOf(chip)
    case Some(script) =>
      State(script, Loop, StartIndex(chip, getEfuse), status, word, NoCallback, opcode, Idle, [], [], [])
    case None => State([], Gone, 0, status, word, NoCallback, opcode, Idle, [], [], [false])
  }

  // ----- the steps

  /** One step of the worker. `choice` is what the environment answers: whether a command by request
      is asked for, or whether the buffer is allocated. A step that is not enabled changes nothing. */
  function WorkerStep(s: State, choice: bool): State {
    match s.worker
    case Loop =>
      if s.i >= |s.script| || s.status == Terminate then s.(worker := Leave)
      else if ByRequest(s.script[s.i]) && !choice then s.(i := s.i + 1)
      else s.(worker := Alloc)
    case Alloc => s.(worker := if choice then SetPending else Leave)
    case SetPending => if s.status == Terminate then s.(worker := Leave) else s.(status := Pending, worker := SetWord)
    case SetWord => if s.i < |s.script| then s.(word := Opcode(s.script[s.i]), worker := SetCallback) else s
    case SetCallback =>
      if s.i < |s.script| then
        s.(cb := if s.script[s.i] == GetLocalBdAddr then GetAddrComplete else CommonComplete, worker := SetOpcode)
      else s
    case SetOpcode => s.(opcode := s.word, worker := Transmit)
    case Transmit => s.(sent := s.sent + [s.i], worker := Wait)
    case Wait =>
      (match s.status
       case Pending => s
       case Success => s.(i := s.i + 1, worker := Loop)
       case Fail => s.(worker := Leave)
       case Terminate => s.(status := Success, worker := Leave))
    case Leave => s.(results := s.results + [s.i >= |s.script|], worker := Gone)
    case Gone => s
  }

  /** HandleIncomingEvent compares the event with the internal command. */
  function Arrive(s: State, e: Event): State {
    if s.handler.Idle? && s.cb != NoCallback && e.opcode == s.opcode then s.(handler := Matched(e)) else s
  }

  /** One step of the reading thread inside the callback: it takes and clears the callback, judges
      the event, and reports to the worker. */
  function HandlerStep(s: State): State {
    match s.handler
    case Idle => s
    case Matched(e) => s.(handler := Running(e, s.cb), cb := NoCallback)
    case Running(e, cb) =>
      s.(handler := Judged(e, e.opcode == (if cb == GetAddrComplete then 0x1009 else s.word) && e.status == 0))
    case Judged(e, ok) =>
      if ok then s.(status := Success, handler := Idle, acks := s.acks + [e]) else s.(status := Fail, handler := Idle)
  }

  datatype Action = Work(choice: bool) | Arrives(e: Event) | Handle | Notify

  function Step(s: State, a: Action): State {
    match a
    case Work(choice) => WorkerStep(s, choice)
    case Arrives(e) => Arrive(s, e)
    case Handle => HandlerStep(s)
    case Notify => s.(status := Terminate)
  }

  function Run(s: State, actions: seq<Action>): State {
    if actions == [] then s else Step(Run(s, actions[..|actions| - 1]), actions[|actions| - 1])
  }

  // ----- the invariant

  /** The commands sent are, in script order from `start` and before `upto`, all but some of those
      sent by request. */
  predicate InScriptOrder(script: seq<Command>, sent: seq<nat>, start: nat, upto: nat) {
    && (forall k :: 0 <= k < |sent| ==> start <= sent[k] < upto <= |script|)
    && (forall j, k :: 0 <= j < k < |sent| ==> sent[j] < sent[k])
    && (forall n :: start <= n < upto && n < |script| && !ByRequest(script[n]) ==> n in sent)
  }

  /** Completion k has status 0 and the opcode of command k. */
  predicate Acknowledged(script: seq<Command>, sent: seq<nat>, acks: seq<Event>) {
    forall k :: 0 <= k < |acks| && k < |sent| && sent[k] < |script| ==> acks[k] == Event(Opcode(script[sent[k]]), 0)
  }

  /** The worker is at a command: its completion callback may be registered. */
  predicate AtCommand(s: State) {
    s.worker in {SetOpcode, Transmit, Wait}
  }

  predicate BeforeCommand(s: State) {
    s.worker in {Alloc, SetPending, SetWord, SetCallback}
  }

  /** The script indices of the commands registered: those sent, and the one about to be. */
  function Registered(s: State): seq<nat> {
    if s.worker == SetOpcode || s.worker == Transmit then s.sent + [s.i] else s.sent
  }

  /** No completion is registered or under way. */
  predicate Quiet(s: State) {
    s.cb == NoCallback && s.handler == Idle
  }

  predicate OrderInv(s: State, start: nat) {
    && s.i <= |s.script| && (s.worker == Gone || start <= s.i)
    && (BeforeCommand(s) || AtCommand(s) ==> s.i < |s.script|)
    && (s.worker == Loop || BeforeCommand(s) || AtCommand(s) ==>
      InScriptOrder(s.script, Registered(s), start, if AtCommand(s) then s.i + 1 else s.i))
    && (s.worker == Leave || s.worker == Gone ==>
      InScriptOrder(s.script, s.sent, start, s.i) || (s.i < |s.script| && InScriptOrder(s.script, s.sent, start, s.i + 1)))
    && (s.worker == Wait ==> s.sent != [] && s.sent[|s.sent| - 1] == s.i)
  }

  /** While a completion is awaited, exactly one of: not yet accepted, with the callback registered or
      under way or failed; or accepted. */
  predicate AckInv(s: State) {
    && Acknowledged(s.script, Registered(s), s.acks)
    && (s.worker == Loop || BeforeCommand(s) ==> Quiet(s) && |s.acks| == |s.sent|)
    && (s.worker in {SetWord, SetCallback} ==> s.status in {Pending, Terminate})
    && (s.worker == SetCallback || AtCommand(s) ==> s.i < |s.script| && s.word == Opcode(s.script[s.i]))
    && (AtCommand(s) ==> |Registered(s)| - 1 <= |s.acks| <= |Registered(s)|)
    && (AtCommand(s) && |s.acks| == |Registered(s)| ==> Quiet(s) && s.status in {Success, Terminate})
    && (AtCommand(s) && |s.acks| < |Registered(s)| ==> s.status in {Pending, Fail, Terminate})
    && (AtCommand(s) && s.status == Pending ==> !Quiet(s))
  }

  predicate HandlerInv(s: State) {
    && (s.handler.Running? || s.handler.Judged? ==> s.cb == NoCallback)
    && (s.handler.Matched? ==> s.cb != NoCallback)
    && (s.handler.Running? ==> s.handler.cb != NoCallback)
    && (!Quiet(s) ==> |s.acks| + 1 == |Registered(s)| && Registered(s)[|s.acks|] == s.i < |s.script| && s.word == Opcode(s.script[s.i]))
    && (s.cb == GetAddrComplete || (s.handler.Running? && s.handler.cb == GetAddrComplete) ==> s.word == 0x1009)
    && (s.handler.Judged? && s.handler.ok ==> s.handler.event == Event(s.word, 0))
    && (s.worker in {Transmit, Wait} ==> s.opcode == s.word)
  }

  predicate ResultInv(s: State) {
    && (s.worker != Gone ==> s.results == [])
    && (s.worker == Gone ==> |s.results| == 1)
    && (s.worker == Leave || s.worker == Gone ==> |s.acks| <= |s.sent| <= |s.acks| + 1)
    && (s.worker == Leave && s.i >= |s.script| ==> Quiet(s) && |s.acks| == |s.sent|)
    && (s.worker == Gone && s.results[0] ==> s.i == |s.script| && Quiet(s) && |s.acks| == |s.sent|)
  }

  predicate Inv(s: State, start: nat) {
    OrderInv(s, start) && AckInv(s) && HandlerInv(s) && ResultInv(s)
  }

  lemma InitialInv(chip: nat, getEfuse: bool, status: Status, word: nat, opcode: nat)
    ensures Inv(Initial(chip, getEfuse, status, word, opcode), StartIndex(chip, getEfuse))
  {
  }

  /** A command by request that is not asked for may be left out. */
  lemma OrderSkips(script: seq<Command>, sent: seq<nat>, start: nat, i: nat)
    requires InScriptOrder(script, sent, start, i) && i < |script| && ByRequest(script[i])
    ensures InScriptOrder(script, sent, start, i + 1)
  {
  }

  lemma OrderAdds(script: seq<Command>, sent: seq<nat>, start: nat, i: nat)
    requires InScriptOrder(script, sent, start, i) && start <= i < |script|
    ensures InScriptOrder(script, sent + [i], start, i + 1)
  {
    assert forall n :: n in sent ==> n in sent + [i];
  }

  lemma RegisteringKeepsAcks(script: seq<Command>, sent: seq<nat>, acks: seq<Event>, i: nat)
    requires Acknowledged(script, sent, acks) && |acks| <= |sent|
    ensures Acknowledged(script, sent + [i], acks)
  {
  }

  lemma AcceptingKeepsAcks(script: seq<Command>, registered: seq<nat>, acks: seq<Event>, e: Event)
    requires Acknowledged(script, registered, acks) && |acks| < |registered| && registered[|acks|] < |script|
    requires e == Event(Opcode(script[registered[|acks|]]), 0)
    ensures Acknowledged(script, registered, acks + [e])
  {
  }

  /** From the head of the loop to the point where the callback is registered. */
  lemma ApproachKeepsInv(s: State, start: nat, choice: bool)
    requires Inv(s, start) && s.worker in {Loop, Alloc, SetPending, SetWord}
    ensures Inv(WorkerStep(s, choice), start)
  {
    hide InScriptOrder, Opcode, Acknowledged;
    if s.worker == Loop && s.i < |s.script| && ByRequest(s.script[s.i]) {
      OrderSkips(s.script, s.sent, start, s.i);
    }
  }

  lemma RegisteringKeepsInv(s: State, start: nat, choice: bool)
    requires Inv(s, start) && s.worker == SetCallback
    ensures Inv(WorkerStep(s, choice), start)
  {
    hide WorkerStep, OrderInv, AckInv, HandlerInv, ResultInv;
    RegisteringKeepsOrder(s, start, choice);
    RegisteringKeepsRest(s, start, choice);
  }

  lemma RegisteringKeepsOrder(s: State, start: nat, choice: bool)
    requires Inv(s, start) && s.worker == SetCallback
    ensures OrderInv(WorkerStep(s, choice), start) && ResultInv(WorkerStep(s, choice))
  {
    hide InScriptOrder, Opcode, Acknowledged, HandlerInv;
    OrderAdds(s.script, s.sent, start, s.i);
  }

  lemma RegisteringKeepsRest(s: State, start: nat, choice: bool)
    requires Inv(s, start) && s.worker == SetCallback
    ensures AckInv(WorkerStep(s, choice)) && HandlerInv(WorkerStep(s, choice))
  {
    hide InScriptOrder, Opcode, Acknowledged;
    RegisteringKeepsAcks(s.script, s.sent, s.acks, s.i);
    GetAddrOpcode();
  }

  lemma GetAddrOpcode()
    ensures Opcode(GetLocalBdAddr) == 0x1009
  {
  }

  /** While the command is sent and its completion awaited, and afterwards. */
  lemma CommandKeepsInv(s: State, start: nat, choice: bool)
    requires Inv(s, start) && s.worker != Loop && !BeforeCommand(s)
    ensures Inv(WorkerStep(s, choice), start)
  {
    hide InScriptOrder, Opcode, Acknowledged;
  }

  lemma HandlerKeepsInv(s: State, start: nat)
    requires Inv(s, start)
    ensures Inv(HandlerStep(s), start)
  {
    hide InScriptOrder, Opcode, Acknowledged;
    if s.handler.Judged? && s.handler.ok {
      AcceptingKeepsAcks(s.script, Registered(s), s.acks, s.handler.event);
    }
  }

  lemma OthersKeepInv(s: State, start: nat, a: Action)
    requires Inv(s, start) && (a.Arrives? || a.Notify?)
    ensures Inv(Step(s, a), start)
  {
    hide InScriptOrder, Opcode, Acknowledged;
  }

  lemma StepKeepsInv(s: State, start: nat, a: Action)
    requires Inv(s, start)
    ensures Inv(Step(s, a), start)
  {
    hide Inv, HandlerStep, Arrive;
    match a
    case Work(choice) =>
      if s.worker == SetCallback {
        RegisteringKeepsInv(s, start, choice);
      } else if s.worker == Loop || BeforeCommand(s) {
        ApproachKeepsInv(s, start, choice);
      } else if s.worker != Gone {
        CommandKeepsInv(s, start, choice);
      }
    case Handle => HandlerKeepsInv(s, start);
    case _ => OthersKeepInv(s, start, a);
  }

  /** The invariant holds in every state of every run. */
  lemma {:induction false} RunKeepsInv(s: State, start: nat, actions: seq<Action>)
    requires Inv(s, start)
    ensures Inv(Run(s, actions), start)
    ensures Run(s, actions).script == s.script
  {
    hide Inv;
    if actions != [] {
      var n := |actions| - 1;
      RunKeepsInv(s, start, actions[..n]);
      StepKeepsInv(Run(s, actions[..n]), start, actions[n]);
    }
  }

  // ----- what every run keeps

  /** A run from the start of the worker. */
  function Started(chip: nat, getEfuse: bool, status: Status, word: nat, opcode: nat, actions: seq<Action>): State {
    Run(Initial(chip, getEfuse, status, word, opcode), actions)
  }

  lemma StartedInv(chip: nat, getEfuse: bool, status: Status, word: nat, opcode: nat, actions: seq<Action>)
    ensures Inv(Started(chip, getEfuse, status, word, opcode, actions), StartIndex(chip, getEfuse))
    ensures Started(chip, getEfuse, status, word, opcode, actions).script == Initial(chip, getEfuse, status, word, opcode).script
  {
    hide Inv, Run;
    InitialInv(chip, getEfuse, status, word, opcode);
    RunKeepsInv(Initial(chip, getEfuse, status, word, opcode), StartIndex(chip, getEfuse), actions);
  }

  lemma OrderDrops(script: seq<Command>, sent: seq<nat>, start: nat, i: nat)
    requires InScriptOrder(script, sent + [i], start, i + 1)
    ensures InScriptOrder(script, sent, start, i)
  {
    var all := sent + [i];
    assert all[|sent|] == i;
    forall k | 0 <= k < |sent| ensures start <= sent[k] < i {
      assert all[k] == sent[k] && all[k] < all[|sent|];
    }
    assert forall j, k :: 0 <= j < k < |sent| ==> all[j] == sent[j] && all[k] == sent[k];
    assert forall n :: n in all && n != i ==> n in sent;
  }

  /** The commands sent are in order up to the last of them. */
  lemma OrderUpToLast(script: seq<Command>, sent: seq<nat>, start: nat, upto: nat)
    requires InScriptOrder(script, sent, start, upto) && sent != []
    ensures InScriptOrder(script, sent, start, sent[|sent| - 1] + 1)
  {
  }

  lemma SentInOrder(s: State, start: nat) returns (upto: nat)
    requires Inv(s, start)
    ensures InScriptOrder(s.script, s.sent, start, upto) && Acknowledged(s.script, s.sent, s.acks)
    ensures s.worker == Gone && s.i == |s.script| ==> upto == |s.script|
  {
    hide InScriptOrder, HandlerInv, Opcode;
    upto := s.i;
    if s.worker == SetOpcode || s.worker == Transmit {
      OrderDrops(s.script, s.sent, start, s.i);
    } else if !InScriptOrder(s.script, s.sent, start, s.i) {
      upto := s.i + 1;
    }
  }

  /** Commands go out in script order from the start index, only those by request being left out;
      each is sent after all earlier ones were acknowledged, so that at most one is outstanding; the
      result is reported at most once, and exactly once when the worker has gone. */
  lemma OneAtATime(chip: nat, getEfuse: bool, status: Status, word: nat, opcode: nat, actions: seq<Action>)
    ensures var s := Started(chip, getEfuse, status, word, opcode, actions);
      && (s.sent != [] ==> InScriptOrder(s.script, s.sent, StartIndex(chip, getEfuse), s.sent[|s.sent| - 1] + 1))
      && |s.acks| <= |s.sent| + 1 && |s.sent| <= |s.acks| + 1
      && (s.worker == Transmit ==> |s.acks| >= |s.sent|)
      && Acknowledged(s.script, s.sent, s.acks)
      && |s.results| == if s.worker == Gone then 1 else 0
  {
    hide Started, InScriptOrder, Acknowledged, HandlerInv, Opcode, ScriptOf;
    StartedInv(chip, getEfuse, status, word, opcode, actions);
    var s := Started(chip, getEfuse, status, word, opcode, actions);
    var upto := SentInOrder(s, StartIndex(chip, getEfuse));
    if s.sent != [] {
      OrderUpToLast(s.script, s.sent, StartIndex(chip, getEfuse), upto);
    }
  }

  /** When the worker has gone it does nothing more. */
  lemma {:induction false} GoneStays(s: State, actions: seq<Action>)
    requires s.worker == Gone
    ensures Run(s, actions).worker == Gone && Run(s, actions).results == s.results && Run(s, actions).sent == s.sent
  {
    if actions != [] {
      GoneStays(s, actions[..|actions| - 1]);
    }
  }

  /** SUCCESS is reported only when every command of the script from the start index on was sent,
      but for those by request that were not asked for, and every command sent was acknowledged with
      its own opcode and status 0. When an acknowledgement follows its command: EventAfterCommand. */
  lemma SuccessMeansAcknowledged(chip: nat, getEfuse: bool, status: Status, word: nat, opcode: nat, actions: seq<Action>)
    requires Started(chip, getEfuse, status, word, opcode, actions).results == [true]
    ensures var s := Started(chip, getEfuse, status, word, opcode, actions);
      && ScriptOf(chip) == Some(s.script)
      && InScriptOrder(s.script, s.sent, StartIndex(chip, getEfuse), |s.script|)
      && |s.acks| == |s.sent|
      && forall k :: 0 <= k < |s.sent| ==> s.sent[k] < |s.script| && s.acks[k] == Event(Opcode(s.script[s.sent[k]]), 0)
  {
    hide HandlerInv, Opcode, Run;
    var s := Started(chip, getEfuse, status, word, opcode, actions);
    StartedInv(chip, getEfuse, status, word, opcode, actions);
    var upto := SentInOrder(s, StartIndex(chip, getEfuse));
    if ScriptOf(chip) == None {
      GoneStays(Initial(chip, getEfuse, status, word, opcode), actions);
    }
  }

  /** Every command by request is asked for, and every buffer allocated. */
  predicate NothingRefused(actions: seq<Action>) {
    Work(false) !in actions
  }

  /** Commands are left out only when they are not asked for. */
  lemma {:induction false} NothingLeftOut(s: State, start: nat, actions: seq<Action>)
    requires Inv(s, start) && s.i == start && NothingRefused(actions)
    ensures forall n :: start <= n < Run(s, actions).i ==> n in Run(s, actions).sent
  {
    hide Inv, Step;
    if actions != [] {
      var m := |actions| - 1;
      assert actions[m] in actions && forall a :: a in actions[..m] ==> a in actions;
      NothingLeftOut(s, start, actions[..m]);
      RunKeepsInv(s, start, actions[..m]);
      StepLeavesNothingOut(Run(s, actions[..m]), start, actions[m]);
    }
  }

  lemma StepLeavesNothingOut(s: State, start: nat, a: Action)
    requires Inv(s, start) && a != Work(false) && forall n :: start <= n < s.i ==> n in s.sent
    ensures forall n :: start <= n < Step(s, a).i ==> n in Step(s, a).sent
  {
    hide InScriptOrder, Opcode, Acknowledged, AckInv, HandlerInv, ResultInv;
  }

  /** So a start-up that is refused nothing and succeeds has sent the whole script from the start index on,
      in order. */
  lemma WholeScriptSent(chip: nat, getEfuse: bool, status: Status, word: nat, opcode: nat, actions: seq<Action>)
    requires Started(chip, getEfuse, status, word, opcode, actions).results == [true] && NothingRefused(actions)
    ensures var s := Started(chip, getEfuse, status, word, opcode, actions);
      && StartIndex(chip, getEfuse) <= |s.script|
      && s.sent == seq(|s.script| - StartIndex(chip, getEfuse), k => StartIndex(chip, getEfuse) + k)
  {
    hide Inv, Opcode, Run, Started;
    var s := Started(chip, getEfuse, status, word, opcode, actions);
    var start := StartIndex(chip, getEfuse);
    SuccessMeansAcknowledged(chip, getEfuse, status, word, opcode, actions);
    StartedAtEnd(chip, getEfuse, status, word, opcode, actions);
    Consecutive(s.script, s.sent, start);
  }

  lemma StartedAtEnd(chip: nat, getEfuse: bool, status: Status, word: nat, opcode: nat, actions: seq<Action>)
    requires Started(chip, getEfuse, status, word, opcode, actions).results == [true] && NothingRefused(actions)
    requires ScriptOf(chip).Some?
    ensures var s := Started(chip, getEfuse, status, word, opcode, actions);
      StartIndex(chip, getEfuse) <= |s.script| && forall n :: StartIndex(chip, getEfuse) <= n < |s.script| ==> n in s.sent
  {
    hide OrderInv, AckInv, HandlerInv, Run;
    InitialInv(chip, getEfuse, status, word, opcode);
    StartedInv(chip, getEfuse, status, word, opcode, actions);
    NothingLeftOut(Initial(chip, getEfuse, status, word, opcode), StartIndex(chip, getEfuse), actions);
  }

  /** Increasing indices that leave nothing out are consecutive. */
  lemma {:induction false} Consecutive(script: seq<Command>, sent: seq<nat>, start: nat)
    requires InScriptOrder(script, sent, start, |script|) && start <= |script|
    requires forall n :: start <= n < |script| ==> n in sent
    ensures sent == seq(|script| - start, k => start + k)
  {
    forall k | 0 <= k < |sent| ensures sent[k] == start + k {
      ConsecutiveAt(script, sent, start, k);
    }
    assert sent != [] ==> sent[|sent| - 1] < |script|;
    assert start + |sent| !in sent;
  }

  lemma {:induction false} ConsecutiveAt(script: seq<Command>, sent: seq<nat>, start: nat, k: nat)
    requires InScriptOrder(script, sent, start, |script|) && k < |sent|
    requires forall n :: start <= n < |script| ==> n in sent
    ensures sent[k] == start + k
  {
    if k > 0 {
      ConsecutiveAt(script, sent, start, k - 1);
    }
    assert start <= sent[k] < |script|;
    assert start + k <= sent[k];
    assert start + k in sent;
  }

  /** A completion counts for the command at which the worker is. Its event came after that command
      was sent if and only if the worker was past sending it when the event was taken up. */
  lemma EventAfterCommand(s: State, start: nat, e: Event)
    requires Inv(s, start) && Arrive(s, e) != s
    ensures Registered(s)[..|s.acks|] + [s.i] == Registered(s)
    ensures |s.acks| < |s.sent| <==> !(s.worker in {SetOpcode, Transmit})
  {
    hide InScriptOrder, Opcode, Acknowledged;
  }

  /** No event is taken up between the registration of a callback and the sending of its command. */
  predicate NoEarlyEvent(s: State, actions: seq<Action>) {
    if actions == [] then true
    else
      var before := actions[..|actions| - 1];
      var t := Run(s, before);
      && NoEarlyEvent(s, before)
      && !(Step(t, actions[|actions| - 1]).handler.Matched? && t.handler == Idle && t.worker in {SetOpcode, Transmit})
  }

  /** In a run without early events every acknowledgement follows its own command. */
  lemma {:induction false} AcksFollowCommands(s: State, start: nat, actions: seq<Action>)
    requires Inv(s, start) && s.worker == Loop && NoEarlyEvent(s, actions)
    ensures var t := Run(s, actions);
      |t.acks| <= |t.sent| && (t.worker in {SetOpcode, Transmit} ==> t.handler == Idle && |t.acks| == |t.sent|)
  {
    hide Inv, WorkerStep, HandlerStep, Arrive;
    if actions == [] {
      assert |s.acks| == |s.sent| by { LoopIsAcknowledged(s, start); }
    } else {
      var n := |actions| - 1;
      AcksFollowCommands(s, start, actions[..n]);
      RunKeepsInv(s, start, actions[..n]);
      StepFollows(Run(s, actions[..n]), start, actions[n]);
    }
  }

  lemma LoopIsAcknowledged(s: State, start: nat)
    requires Inv(s, start) && s.worker == Loop
    ensures |s.acks| == |s.sent|
  {
  }

  lemma StepFollows(t: State, start: nat, a: Action)
    requires Inv(t, start) && |t.acks| <= |t.sent|
    requires t.worker in {SetOpcode, Transmit} ==> t.handler == Idle && |t.acks| == |t.sent|
    requires !(Step(t, a).handler.Matched? && t.handler == Idle && t.worker in {SetOpcode, Transmit})
    ensures var u := Step(t, a);
      |u.acks| <= |u.sent| && (u.worker in {SetOpcode, Transmit} ==> u.handler == Idle && |u.acks| == |u.sent|)
  {
    hide InScriptOrder, Opcode, Acknowledged;
  }

  /** An event that comes early is accepted for a command not yet sent. */
  lemma EarlyEventAccepted(s: State, start: nat)
    requires Inv(s, start) && s.worker == Transmit && s.cb != NoCallback && s.handler == Idle
    ensures var t := HandlerStep(HandlerStep(HandlerStep(Arrive(s, Event(s.word, 0)))));
      t.worker == Transmit && t.status == Success && |t.acks| == |t.sent| + 1
  {
    hide InScriptOrder, Opcode, Acknowledged;
  }

  /** The device address is set by every successful start-up but one: the 7662 script does not begin
      with Get_Local_BD_Addr, so that the start index of combo chips skips Set_Local_BD_Addr. */
  lemma AddressIsSetUnless7662(chip: nat, getEfuse: bool, status: Status, word: nat, opcode: nat, actions: seq<Action>)
    requires Started(chip, getEfuse, status, word, opcode, actions).results == [true]
    ensures var s := Started(chip, getEfuse, status, word, opcode, actions);
      (exists n :: n in s.sent && n < |s.script| && s.script[n] == SetLocalBdAddr) <==> !(chip == 0x7662 && !getEfuse)
  {
    hide Started, Opcode;
    SuccessMeansAcknowledged(chip, getEfuse, status, word, opcode, actions);
    var s := Started(chip, getEfuse, status, word, opcode, actions);
    AddressIndex(chip);
    if chip == 0x7662 && !getEfuse {
      forall n | n in s.sent && n < |s.script| ensures s.script[n] != SetLocalBdAddr {
        assert n >= 1;
      }
    } else {
      var n := if chip == 0x7662 || Consys(chip) then 0 else 1;
      assert n in s.sent;
    }
  }

  lemma AddressIndex(chip: nat)
    requires ScriptOf(chip).Some?
    ensures var script := ScriptOf(chip).value; var n := if chip == 0x7662 || Consys(chip) then 0 else 1;
      && n < |script| && script[n] == SetLocalBdAddr
      && forall k :: 0 <= k < |script| && script[k] == SetLocalBdAddr ==> k == n
  {
  }

  // ----- progress

  /** The steps the worker can still take at most. */
  function Remaining(s: State): int {
    var rest := 10 * (|s.script| - s.i);
    match s.worker
    case Loop => rest + 2
    case Alloc => rest + 1
    case SetPending => rest
    case SetWord => rest - 1
    case SetCallback => rest - 2
    case SetOpcode => rest - 3
    case Transmit => rest - 4
    case Wait => rest - 5
    case Leave => 1
    case Gone => 0
  }

  /** The worker can always go on, except where it waits for a completion whose callback is still
      registered or under way. */
  lemma WorkerIsNeverStuck(s: State, start: nat, choice: bool)
    requires Inv(s, start)
    ensures WorkerStep(s, choice) == s <==> s.worker == Gone || (s.worker == Wait && s.status == Pending)
    ensures WorkerStep(s, choice) != s ==> 0 <= Remaining(WorkerStep(s, choice)) < Remaining(s)
    ensures s.worker == Wait && s.status == Pending ==> !Quiet(s)
  {
    hide InScriptOrder, Opcode, Acknowledged, HandlerInv;
  }

  /** The steps of a run that the worker could take. */
  function Worked(s: State, actions: seq<Action>): nat {
    if actions == [] then 0
    else
      var before := actions[..|actions| - 1];
      var a := actions[|actions| - 1];
      Worked(s, before) + if a.Work? && Step(Run(s, before), a) != Run(s, before) then 1 else 0
  }

  /** So the worker reports after a bounded number of steps, if its completions come. */
  lemma {:induction false} WorkIsBounded(s: State, start: nat, actions: seq<Action>)
    requires Inv(s, start)
    ensures 0 <= Remaining(Run(s, actions)) <= Remaining(s) - Worked(s, actions)
  {
    hide Inv, Step, WorkerStep, Remaining;
    if actions == [] {
      assert Remaining(s) >= 0 by { RemainingNonNegative(s, start); }
    } else {
      var n := |actions| - 1;
      WorkIsBounded(s, start, actions[..n]);
      RunKeepsInv(s, start, actions[..n]);
      var t := Run(s, actions[..n]);
      WorkStep(t, start, actions[n]);
    }
  }

  lemma WorkStep(s: State, start: nat, a: Action)
    requires Inv(s, start)
    ensures 0 <= Remaining(Step(s, a)) <= Remaining(s) - (if a.Work? && Step(s, a) != s then 1 else 0)
  {
    hide Inv, WorkerStep;
    RemainingNonNegative(s, start);
    match a
    case Work(choice) => WorkerIsNeverStuck(s, start, choice);
    case _ => OthersLeaveWorker(s, a);
  }

  lemma RemainingNonNegative(s: State, start: nat)
    requires Inv(s, start)
    ensures Remaining(s) >= 0
  {
    hide InScriptOrder, Opcode, Acknowledged, HandlerInv, AckInv;
  }

  lemma OthersLeaveWorker(s: State, a: Action)
    requires !a.Work?
    ensures var t := Step(s, a);
      t.worker == s.worker && t.i == s.i && t.script == s.script && t.sent == s.sent && t.results == s.results
  {
  }
}
