/** Operator commands and the session state they drive. */
module Session {
  import opened Gcmd
  import opened Engine

  datatype Command = HaltCommand | OpenCommand | CloseCommand | UnknownCommand

  function Parse(line: string): Command {
    if line == "HALT" then HaltCommand
    else if line == "OPEN" then OpenCommand
    else if line == "CLOSE" then CloseCommand
    else UnknownCommand
  }

  /** What closing the session sets off elsewhere. */
  datatype Signal = StopOrderReceiver | StopMarketDataReceiver | ShutDown

  const CLOSING := [StopOrderReceiver, StopMarketDataReceiver, ShutDown]

  /** The session as the commands see it: its state, the stop flag, the engine's halt flag, and the
      signals given so far, in order. */
  datatype Control = Control(state: SessionState, stopped: bool, halted: bool, signals: seq<Signal>)

  function Obey(c: Control, cmd: Command): Control {
    match cmd
    case HaltCommand => if c.state.Open? then c.(state := Halt, halted := true) else c
    case OpenCommand => if c.state.Halt? then c.(state := Open, halted := false) else c
    case CloseCommand =>
      if c.state.Close? then c else c.(state := Close, stopped := true, signals := c.signals + CLOSING)
    case UnknownCommand => c
  }

  /** The command loop: lines are read until the stop flag is up. */
  function ObeyAll(c: Control, lines: seq<string>): Control
    decreases |lines|
  {
    if c.stopped || |lines| == 0 then c else ObeyAll(Obey(c, Parse(lines[0])), lines[1..])
  }

  ghost predicate Consistent(c: Control) {
    && (c.stopped <==> c.state.Close?)
    && c.signals == (if c.state.Close? then CLOSING else [])
    && (c.state.Halt? ==> c.halted)
    && (c.state.Open? ==> !c.halted)
  }

  /** Over any commands: the engine is halted while the session is, not while it is open, the loop
      stops exactly at CLOSE, the closing signals go out exactly once and then, and nothing after that
      changes state or halt flag. */
  lemma {:induction false} SessionInvariant(c: Control, lines: seq<string>)
    requires Consistent(c)
    ensures Consistent(ObeyAll(c, lines))
    ensures c.state.Close? ==> ObeyAll(c, lines) == c
    decreases |lines|
  {
    if !c.stopped && |lines| > 0 {
      SessionInvariant(Obey(c, Parse(lines[0])), lines[1..]);
    }
  }

  /** What each line does, in every state: HALT when open, OPEN when halted, CLOSE when not closed;
      nothing else does anything, and nothing is read after CLOSE. */
  lemma EachLine(c: Control, line: string, rest: seq<string>)
    requires !c.stopped
    ensures var all := ObeyAll(c, [line] + rest);
      if line == "HALT" && c.state.Open? then all == ObeyAll(c.(state := Halt, halted := true), rest)
      else if line == "OPEN" && c.state.Halt? then all == ObeyAll(c.(state := Open, halted := false), rest)
      else if line == "CLOSE" && !c.state.Close? then
        all == c.(state := Close, stopped := true,
                  signals := c.signals + [StopOrderReceiver, StopMarketDataReceiver, ShutDown])
      else all == ObeyAll(c, rest)
    ensures ObeyAll(c, []) == c
  {
    assert ([line] + rest)[1..] == rest;
  }

  class SessionControlHandler {
    var currentState: SessionState
    var shouldStop: bool
    var signals: seq<Signal>
    const executionEngine: ExecutionEngine

    ghost function Now(): Control
      reads this, executionEngine
    {
      Control(currentState, shouldStop, executionEngine.isHalted, signals)
    }

    constructor (engine: ExecutionEngine)
      requires !engine.isHalted
      ensures executionEngine == engine && Now() == Control(Open, false, false, [])
    {
      executionEngine, currentState, shouldStop, signals := engine, Open, false, [];
    }

    method RunSession(lines: seq<string>)
      modifies this, executionEngine`isHalted
      ensures Now() == ObeyAll(old(Now()), lines)
    {
      var i := 0;
      while !shouldStop && i < |lines|
        invariant 0 <= i <= |lines|
        invariant ObeyAll(Now(), lines[i..]) == ObeyAll(old(Now()), lines)
      {
        assert lines[i..][1..] == lines[i + 1..];
        match Parse(lines[i]) {
          case HaltCommand => HandleHalt();
          case OpenCommand => HandleOpen();
          case CloseCommand => HandleClose();
          case UnknownCommand =>
        }
        i := i + 1;
      }
    }

    method HandleHalt()
      modifies this`currentState, executionEngine`isHalted
      ensures Now() == Obey(old(Now()), HaltCommand)
      ensures old(currentState).Open? ==> currentState.Halt? && executionEngine.isHalted
      ensures !old(currentState).Open? ==>
        currentState == old(currentState) && executionEngine.isHalted == old(executionEngine.isHalted)
    {
      if !currentState.Open? {
        return;
      }
      executionEngine.HaltTrading();
      currentState := Halt;
    }

    method HandleOpen()
      modifies this`currentState, executionEngine`isHalted
      ensures Now() == Obey(old(Now()), OpenCommand)
      ensures old(currentState).Halt? ==> currentState.Open? && !executionEngine.isHalted
      ensures !old(currentState).Halt? ==>
        currentState == old(currentState) && executionEngine.isHalted == old(executionEngine.isHalted)
    {
      if !currentState.Halt? {
        return;
      }
      executionEngine.ResumeTrading();
      currentState := Open;
    }

    method HandleClose()
      modifies this
      ensures Now() == Obey(old(Now()), CloseCommand)
      ensures old(currentState).Close? ==> unchanged(this)
      ensures !old(currentState).Close? ==>
        && currentState.Close? && shouldStop
        && signals == old(signals) + [StopOrderReceiver, StopMarketDataReceiver, ShutDown]
    {
      if currentState.Close? {
        return;
      }
      currentState := Close;
      shouldStop := true;
      signals := signals + CLOSING;
    }
  }
}
