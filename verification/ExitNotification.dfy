/** The notification that asks the start-up worker to exit, and the completions that overwrite it. */
module ExitNotification {
  import opened InitHandshake

  // ----- what it means to obey

  /** Past the last check of the notification: this command will still be sent. */
  predicate Committed(s: State) {
    s.worker in {SetWord, SetCallback, SetOpcode, Transmit}
  }

  /** What a worker that was notified in state s has done since: but for a command it was committed
      to, it has sent nothing more, and it reports SUCCESS only if the script was already at its end. */
  predicate Stopped(s: State, t: State) {
    && t.i == s.i && t.script == s.script
    && |t.sent| + (if Committed(t) then 1 else 0) <= |s.sent| + (if Committed(s) then 1 else 0)
    && (t.results != [] && t.results[0] ==> s.i >= |s.script|)
  }

  /** It has stopped, and the notification is still there or has had its effect. */
  predicate Obeyed(s: State, t: State) {
    && Stopped(s, t)
    && (t.status == Terminate || t.worker == Leave || t.worker == Gone)
    && |t.results| == (if t.worker == Gone then 1 else 0)
  }

  predicate TooLate(s: State) {
    s.worker == Leave || s.worker == Gone
  }

  lemma ObeyedAtFirst(s: State, start: nat)
    requires Inv(s, start)
    ensures Obeyed(Step(s, Notify), Step(s, Notify))
  {
    hide InScriptOrder, Opcode, Acknowledged;
  }

  lemma StepObeys(s: State, t: State, a: Action)
    requires Obeyed(s, t) && (TooLate(t) || !(a == Handle && t.handler.Judged?))
    ensures Obeyed(s, Step(t, a))
  {
    hide Opcode;
  }

  // ----- runs

  lemma {:induction false} RunConcat(s: State, a: seq<Action>, b: seq<Action>)
    ensures Run(s, a + b) == Run(Run(s, a), b)
    decreases |b|
  {
    hide Step;
    if b == [] {
      assert a + b == a;
    } else {
      var n := |b| - 1;
      RunConcat(s, a, b[..n]);
      assert (a + b)[..|a| + n] == a + b[..n];
    }
  }

  lemma RunFirst(s: State, a: Action, rest: seq<Action>)
    ensures Run(s, [a] + rest) == Run(Step(s, a), rest)
  {
    hide Step;
    RunConcat(s, [a], rest);
    assert [a][..0] == [];
  }

  lemma RunLast(s: State, before: seq<Action>, a: Action)
    ensures Run(s, before + [a]) == Step(Run(s, before), a)
  {
    hide Step;
    assert (before + [a])[..|before|] == before;
  }

  // ----- while nothing is reported

  /** No completion is reported during the run. */
  predicate NothingReported(s: State, actions: seq<Action>) {
    if actions == [] then true
    else
      var before := actions[..|actions| - 1];
      NothingReported(s, before) && !(actions[|actions| - 1] == Handle && Run(s, before).handler.Judged?)
  }

  /** As long as no completion is reported after it, the notification is obeyed. */
  lemma {:induction false} NotificationObeyed(s: State, start: nat, actions: seq<Action>)
    requires Inv(s, start) && NothingReported(Step(s, Notify), actions)
    ensures Obeyed(Step(s, Notify), Run(Step(s, Notify), actions))
  {
    hide Step, Obeyed, Inv;
    if actions == [] {
      ObeyedAtFirst(s, start);
    } else {
      var n := |actions| - 1;
      NotificationObeyed(s, start, actions[..n]);
      StepObeys(Step(s, Notify), Run(Step(s, Notify), actions[..n]), actions[n]);
    }
  }

  // ----- when nothing can be reported

  /** No completion can overwrite a notification in this state: none is registered or under way, and
      none is going to be registered before the next check; or the worker leaves anyway. */
  predicate Final(s: State) {
    TooLate(s) || (Quiet(s) && !(s.worker in {SetWord, SetCallback}))
  }

  lemma StepKeepsFinal(s: State, t: State, a: Action)
    requires Obeyed(s, t) && Final(t)
    ensures Obeyed(s, Step(t, a)) && Final(Step(t, a))
  {
    hide Opcode;
    StepObeys(s, t, a);
  }

  lemma {:induction false} FinalIsObeyed(s: State, start: nat, actions: seq<Action>)
    requires Inv(s, start) && Final(s)
    ensures var n := Step(s, Notify); Obeyed(n, Run(n, actions)) && Final(Run(n, actions))
  {
    if actions == [] {
      ObeyedAtFirst(s, start);
    } else {
      hide Step, Obeyed, Inv, Final;
      var m := |actions| - 1;
      FinalIsObeyed(s, start, actions[..m]);
      StepKeepsFinal(Step(s, Notify), Run(Step(s, Notify), actions[..m]), actions[m]);
    }
  }

  // ----- when a completion can still succeed

  /** A successful completion of the command under way can still be reported. */
  predicate MayStillSucceed(s: State) {
    match s.handler
    case Idle => s.cb != NoCallback || s.worker in {SetWord, SetCallback}
    case Matched(e) => e == Event(s.word, 0)
    case Running(e, _) => e == Event(s.word, 0)
    case Judged(_, ok) => ok
  }

  /** On the way to the next command: a success is reported, or can still be. */
  predicate OnTheWay(s: State) {
    (s.worker in {SetWord, SetCallback} || AtCommand(s)) && (s.status == Success || MayStillSucceed(s))
  }

  /** The next step of a run in which the worker goes on as if it had not been notified. */
  function NextMove(s: State): Action {
    if s.handler != Idle then Handle
    else if s.worker != Wait || s.status == Success then Work(true)
    else Arrives(Event(s.word, 0))
  }

  function Distance(s: State): nat {
    (match s.worker
     case SetWord => 5
     case SetCallback => 4
     case SetOpcode => 3
     case Transmit => 2
     case _ => 1)
    + (match s.handler
       case Idle => if s.cb != NoCallback then 4 else if s.worker in {SetWord, SetCallback} then 5 else 0
       case Matched(_) => 3
       case Running(_, _) => 2
       case Judged(_, _) => 1)
  }

  lemma MoveGoesOn(s: State, start: nat)
    requires Inv(s, start) && OnTheWay(s)
    ensures var t := Step(s, NextMove(s));
      if t.worker == Loop then t.i == s.i + 1 else OnTheWay(t) && t.i == s.i && Distance(t) < Distance(s)
  {
    hide InScriptOrder, Opcode, Acknowledged;
  }

  lemma {:induction false} LosingRun(s: State, start: nat) returns (actions: seq<Action>)
    requires Inv(s, start) && OnTheWay(s)
    ensures Run(s, actions).i == s.i + 1 && Run(s, actions).worker == Loop
    decreases Distance(s)
  {
    hide Inv, OnTheWay, Step, Distance;
    var a := NextMove(s);
    var t := Step(s, a);
    MoveGoesOn(s, start);
    StepKeepsInv(s, start, a);
    if t.worker == Loop {
      actions := [a];
      RunLast(s, [], a);
      assert [] + [a] == [a];
    } else {
      var rest := LosingRun(t, start);
      actions := [a] + rest;
      RunFirst(s, a, rest);
    }
  }

  /** A completion under way is reported, with success or failure, before the worker moves. */
  lemma {:induction false} ReportingRun(s: State) returns (actions: seq<Action>)
    requires s.handler != Idle
    ensures Run(s, actions).status in {Success, Fail} && Run(s, actions).worker == s.worker
    decreases if s.handler.Matched? then 3 else if s.handler.Running? then 2 else 1
  {
    var t := Step(s, Handle);
    if s.handler.Judged? {
      actions := [Handle];
      RunLast(s, [], Handle);
      assert [] + [Handle] == [Handle];
    } else {
      var rest := ReportingRun(t);
      actions := [Handle] + rest;
      RunFirst(s, Handle, rest);
    }
  }

  /** A state after the notification from which it can be lost. */
  lemma NotifiedOnTheWay(s: State, start: nat)
    requires Inv(s, start) && !TooLate(s)
    ensures Inv(Step(s, Notify), start)
    ensures MayStillSucceed(s) ==> OnTheWay(Step(s, Notify))
  {
    hide InScriptOrder, Opcode, Acknowledged;
    OthersKeepInv(s, start, Notify);
  }

  /** A notification survives every continuation if and only if no completion can overwrite it: the
      worker leaves anyway, or no completion is registered or under way and the worker is not about
      to register one. */
  lemma ObeyedExactlyWhen(s: State, start: nat)
    requires Inv(s, start)
    ensures var n := Step(s, Notify);
      (forall actions :: Obeyed(n, Run(n, actions))) <==>
      s.worker in {Leave, Gone} || (Quiet(s) && !(s.worker in {SetWord, SetCallback}))
  {
    hide Inv, Run;
    var n := Step(s, Notify);
    if Final(s) {
      forall actions ensures Obeyed(n, Run(n, actions)) {
        FinalIsObeyed(s, start, actions);
      }
    } else {
      NotifiedOnTheWay(s, start);
      var actions;
      if MayStillSucceed(s) {
        actions := LosingRun(n, start);
      } else {
        actions := ReportingRun(n);
      }
      assert !Obeyed(n, Run(n, actions));
    }
  }

  // ----- whether the worker goes on

  /** The notification has had its effect, or the command under way is bound to fail. */
  predicate Hopeless(s: State) {
    TooLate(s) || (!MayStillSucceed(s) && (s.status == Terminate || (s.status == Fail && AtCommand(s))))
  }

  lemma StepKeepsHopeless(s: State, t: State, start: nat, a: Action)
    requires Inv(t, start) && Stopped(s, t) && Hopeless(t) && (t.worker == Gone || t.results == [])
    ensures var u := Step(t, a); Stopped(s, u) && Hopeless(u) && (u.worker == Gone || u.results == [])
  {
    hide InScriptOrder, Opcode, Acknowledged;
  }

  lemma {:induction false} HopelessStops(s: State, start: nat, actions: seq<Action>)
    requires Inv(s, start) && (TooLate(s) || !MayStillSucceed(s))
    ensures var t := Run(Step(s, Notify), actions);
      Stopped(Step(s, Notify), t) && Hopeless(t) && (t.worker == Gone || t.results == [])
  {
    var n := Step(s, Notify);
    if actions == [] {
      ObeyedAtFirst(s, start);
    } else {
      hide Step, Stopped, Inv, Hopeless;
      var m := |actions| - 1;
      HopelessStops(s, start, actions[..m]);
      StepKeepsInv(s, start, Notify);
      RunKeepsInv(n, start, actions[..m]);
      StepKeepsHopeless(n, Run(n, actions[..m]), start, actions[m]);
    }
  }

  /** A notified worker stops in every continuation if and only if it leaves anyway or no successful
      completion of its command can still be reported; a failing one stops it as well. */
  lemma StopsExactlyWhen(s: State, start: nat)
    requires Inv(s, start)
    ensures var n := Step(s, Notify);
      (forall actions :: Stopped(n, Run(n, actions))) <==> s.worker in {Leave, Gone} || !MayStillSucceed(s)
  {
    hide Inv, Run;
    var n := Step(s, Notify);
    if TooLate(s) || !MayStillSucceed(s) {
      forall actions ensures Stopped(n, Run(n, actions)) {
        HopelessStops(s, start, actions);
      }
    } else {
      NotifiedOnTheWay(s, start);
      var actions := LosingRun(n, start);
      assert !Stopped(n, Run(n, actions));
    }
  }

  // ----- a run that loses it

  /** A start-up of chip 7662 up to the point where it waits for its first completion, and one in
      which that completion is judged, reported and acted upon after the notification. */
  const APPROACH: seq<Action> := [Work(true), Work(true), Work(true), Work(true), Work(true), Work(true), Work(true)]
  const LOSS: seq<Action> := [Notify, Arrives(Event(0xFC1A, 0)), Handle, Handle, Handle, Work(true), Work(true)]
  const WAITING := State(SCRIPT_7662, Wait, 0, Pending, 0xFC1A, CommonComplete, 0xFC1A, Idle, [0], [], [])

  /** Nothing has been judged when the notification comes, and yet it is lost. */
  lemma NotificationLost()
    ensures Started(0x7662, true, Success, 0, 0, APPROACH) == WAITING
    ensures var s := Started(0x7662, true, Success, 0, 0, APPROACH + LOSS);
      s.status == Success && s.i == 1 && s.worker == Alloc
  {
    Approach();
    Loss();
    RunConcat(Initial(0x7662, true, Success, 0, 0), APPROACH, LOSS);
  }

  lemma Forward(s: State, actions: seq<Action>, k: nat) returns (t: State)
    requires k < |actions|
    ensures t == Step(s, actions[k]) && Run(s, actions[k..]) == Run(t, actions[k + 1..])
  {
    hide Run, Step;
    t := Step(s, actions[k]);
    RunFirst(s, actions[k], actions[k + 1..]);
    assert actions[k..] == [actions[k]] + actions[k + 1..];
  }

  function CallbackOf(c: Command): Callback {
    if c == GetLocalBdAddr then GetAddrComplete else CommonComplete
  }

  /** From the head of its loop, asked for everything, the worker sends the next command and waits. */
  lemma SendsNext(s: State)
    requires s.worker == Loop && s.i < |s.script| && s.status != Terminate
    ensures Run(s, APPROACH) ==
      s.(worker := Wait, status := Pending, word := Opcode(s.script[s.i]), opcode := Opcode(s.script[s.i]),
         cb := CallbackOf(s.script[s.i]), sent := s.sent + [s.i])
  {
    hide Run, Opcode;
    var opcode := Opcode(s.script[s.i]);
    var t := Forward(s, APPROACH, 0);
    assert t == s.(worker := Alloc);
    t := Forward(t, APPROACH, 1);
    assert t == s.(worker := SetPending);
    t := Forward(t, APPROACH, 2);
    assert t == s.(worker := SetWord, status := Pending);
    t := Forward(t, APPROACH, 3);
    assert t == s.(worker := SetCallback, status := Pending, word := opcode);
    t := Forward(t, APPROACH, 4);
    assert t == s.(worker := SetOpcode, status := Pending, word := opcode, cb := CallbackOf(s.script[s.i]));
    t := Forward(t, APPROACH, 5);
    t := Forward(t, APPROACH, 6);
    RunNothing(t);
    assert APPROACH[0..] == APPROACH && APPROACH[7..] == [];
  }

  lemma Approach()
    ensures Run(Initial(0x7662, true, Success, 0, 0), APPROACH) == WAITING
  {
    hide Run;
    SendsNext(Initial(0x7662, true, Success, 0, 0));
  }

  lemma Loss()
    ensures var s := Run(WAITING, LOSS); s.status == Success && s.i == 1 && s.worker == Alloc
  {
    hide Run;
    var s := Forward(WAITING, LOSS, 0);
    assert s == WAITING.(status := Terminate);
    s := Forward(s, LOSS, 1);
    assert s == WAITING.(status := Terminate, handler := Matched(Event(0xFC1A, 0)));
    s := Forward(s, LOSS, 2);
    s := Forward(s, LOSS, 3);
    assert s == WAITING.(status := Terminate, handler := Judged(Event(0xFC1A, 0), true), cb := NoCallback);
    s := Forward(s, LOSS, 4);
    s := Forward(s, LOSS, 5);
    s := Forward(s, LOSS, 6);
    RunNothing(s);
    assert LOSS[7..] == [];
    assert s.status == Success && s.i == 1 && s.worker == Alloc;
  }

  lemma RunNothing(s: State)
    ensures Run(s, []) == s
  {
  }

  // ----- what a notification leaves behind

  /** A notification that the worker notices anywhere but while waiting stays in the shared status, and
      the next start-up obeys it: a start-up sends nothing, whatever happens, if and only if it has no
      script or finds the status of an exit notification. */
  lemma StaleNotification(chip: nat, getEfuse: bool, status: Status, word: nat, opcode: nat)
    ensures (forall actions :: Started(chip, getEfuse, status, word, opcode, actions).sent == [])
            <==> ScriptOf(chip) == None || status == Terminate
  {
    hide Run, Inv;
    var s := Initial(chip, getEfuse, status, word, opcode);
    InitialInv(chip, getEfuse, status, word, opcode);
    if ScriptOf(chip) == None {
      forall actions ensures Started(chip, getEfuse, status, word, opcode, actions).sent == [] {
        GoneStays(s, actions);
      }
    } else if status == Terminate {
      forall actions ensures Started(chip, getEfuse, status, word, opcode, actions).sent == [] {
        FinalIsObeyed(s, StartIndex(chip, getEfuse), actions);
        assert Step(s, Notify) == s;
      }
    } else {
      SendsNext(s);
      assert Started(chip, getEfuse, status, word, opcode, APPROACH).sent != [];
    }
  }

  /** The status is left behind like this, for instance, when the worker notices it at the head of its
      loop; while it waits, the worker resets it. */
  lemma LeavesStatus(s: State, choice: bool)
    requires s.status == Terminate
    ensures s.worker == Loop || s.worker == SetPending ==>
      WorkerStep(s, choice).worker == Leave && WorkerStep(s, choice).status == Terminate
    ensures s.worker == Wait ==> WorkerStep(s, choice).worker == Leave && WorkerStep(s, choice).status == Success
  {
  }
}
