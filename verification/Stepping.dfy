/** The step debugger in bytecode mode: hook events change a pending step command, and the debugger stops at
    instructions. The reference looks at the real call stack instead. */
module Stepping {

  /** A function, known by its source and the line of its definition. */
  type FuncId = (string, nat)

  datatype Cmd = StepNext | StepOver | StepOut | RunToBreakPoint

  /** Hook events: a Lua function is entered, the current one is about to be left, an instruction is about to be
      executed. */
  datatype Event = Call(f: FuncId) | Ret | Instr

  /** The current Lua functions, the innermost one last. */
  type Stack = seq<FuncId>

  function Moved(stack: Stack, ev: Event): Stack {
    match ev
    case Call(f) => stack + [f]
    case Ret => if stack == [] then [] else stack[..|stack| - 1]
    case Instr => stack
  }

  /** Returns and instructions happen inside a function only. */
  predicate Bracketed(stack: Stack, evs: seq<Event>)
    decreases |evs|
  {
    evs != [] ==> (evs[0].Call? || stack != []) && Bracketed(Moved(stack, evs[0]), evs[1..])
  }

  function Top(stack: Stack): FuncId
    requires stack != []
  {
    stack[|stack| - 1]
  }

  // ---------------------------------------------------------------- the debugger

  /** The pending command, the counted depth and the function where the command was given. */
  datatype Dbg = Dbg(cmd: Cmd, depth: int, brk: FuncId)

  /** A command given while the current function is `here`. */
  function Given(cmd: Cmd, here: FuncId, d: Dbg): Dbg {
    if cmd == RunToBreakPoint then d.(cmd := cmd) else Dbg(cmd, 0, if cmd == StepNext then ("", 0) else here)
  }

  predicate Pending(d: Dbg) { d.cmd == StepOver || d.cmd == StepOut }

  function Hooked(d: Dbg, stack: Stack, ev: Event): Dbg
    requires !ev.Call? ==> stack != []
  {
    if !Pending(d) then d
    else
      match ev
      case Call(_) => d.(depth := d.depth + 1)
      case Ret =>
        var n := d.depth - 1;
        if (n < 0 && d.brk == Top(stack)) || (d.cmd == StepOver && n == 0) then d.(cmd := StepNext, depth := n)
        else d.(depth := n)
      case Instr => d
  }

  predicate Stops(d: Dbg, stack: Stack)
    requires stack != []
  {
    d.cmd == StepNext || (d.cmd == StepOver && d.depth == 0 && d.brk == Top(stack))
  }

  /** The instructions at which a session stops, as indices of events counted from `k`; the user answers the
      stops with the commands `cmds` and lets the program run when they are used up. */
  function Session(d: Dbg, stack: Stack, evs: seq<Event>, cmds: seq<Cmd>, k: nat): seq<nat>
    requires Bracketed(stack, evs)
    decreases |evs|
  {
    if evs == [] then []
    else
      var d1 := Hooked(d, stack, evs[0]);
      var stack1 := Moved(stack, evs[0]);
      if evs[0].Instr? && Stops(d, stack) then
        [k] + Session(Given(Next(cmds), Top(stack), d1), stack1, evs[1..], Rest(cmds), k + 1)
      else Session(d1, stack1, evs[1..], cmds, k + 1)
  }

  function Next(cmds: seq<Cmd>): Cmd {
    if cmds == [] then RunToBreakPoint else cmds[0]
  }

  function Rest(cmds: seq<Cmd>): seq<Cmd> {
    if cmds == [] then [] else cmds[1..]
  }

  // ---------------------------------------------------------------- the reference

  /** The command and the depth of the call stack where it was given. */
  datatype Ref = Ref(cmd: Cmd, base: int)

  /** Into: the next instruction. Over: the next one of this activation or of a caller. Out: the next one of a
      caller. */
  predicate Wanted(r: Ref, depth: int) {
    match r.cmd
    case StepNext => true
    case StepOver => depth <= r.base
    case StepOut => depth < r.base
    case RunToBreakPoint => false
  }

  function DepthAfter(depth: int, ev: Event): int {
    if ev.Call? then depth + 1 else if ev.Ret? then depth - 1 else depth
  }

  /** The instructions to stop at, from the depth of the call stack alone; stop number `n` is answered with command
      number `n`, and stops behind the last command are not wanted. */
  function RefSession(r: Ref, depth: int, evs: seq<Event>, cmds: seq<Cmd>, n: nat, k: nat): seq<nat>
    decreases |evs|
  {
    if evs == [] then []
    else
      var depth1 := DepthAfter(depth, evs[0]);
      if evs[0].Instr? && Wanted(r, depth) then
        var cmd := if n < |cmds| then cmds[n] else RunToBreakPoint;
        [k] + RefSession(Ref(cmd, depth), depth1, evs[1..], cmds, n + 1, k + 1)
      else RefSession(r, depth1, evs[1..], cmds, n, k + 1)
  }

  /** While a step is pending, the counted depth is the real one relative to the activation where the command was
      given. */
  predicate Counted(d: Dbg, r: Ref, stack: Stack) {
    && d.cmd == r.cmd && Pending(d)
    && 1 <= r.base <= |stack| && d.depth == |stack| - r.base && stack[r.base - 1] == d.brk
  }

  /** The step is over and the next instruction is wanted. */
  predicate Ended(d: Dbg, r: Ref, stack: Stack) {
    d.cmd == StepNext && Wanted(r, |stack|)
  }

  predicate Matches(d: Dbg, r: Ref, stack: Stack) {
    Counted(d, r, stack) || Ended(d, r, stack) || d.cmd == r.cmd == RunToBreakPoint
  }

  lemma GivenMatches(cmd: Cmd, d: Dbg, stack: Stack)
    requires stack != []
    ensures Matches(Given(cmd, Top(stack), d), Ref(cmd, |stack|), stack)
  {
  }

  /** An event keeps the match, unless a function is called when the step has ended. */
  lemma HookMatches(d: Dbg, r: Ref, stack: Stack, ev: Event)
    requires Matches(d, r, stack) && (!ev.Call? ==> stack != [])
    requires Ended(d, r, stack) && ev.Call? ==> Wanted(r, |stack| + 1)
    ensures Matches(Hooked(d, stack, ev), r, Moved(stack, ev))
    ensures Ended(Hooked(d, stack, ev), r, Moved(stack, ev)) && !Ended(d, r, stack) ==> ev.Ret?
    ensures ev.Instr? ==> (Stops(d, stack) <==> Wanted(r, |stack|))
  {
  }

  /** A call never comes directly after a return: the caller is a Lua function and has an instruction in between. */
  predicate NoReentry(afterRet: bool, evs: seq<Event>)
    decreases |evs|
  {
    evs != [] ==> !(afterRet && evs[0].Call?) && NoReentry(evs[0].Ret?, evs[1..])
  }

  /** Over every well-bracketed run without re-entry and for every sequence of commands, the debugger stops at
      exactly the instructions that the reference wants. */
  lemma {:induction false} SessionIsExact(d: Dbg, r: Ref, stack: Stack, evs: seq<Event>, cmds: seq<Cmd>, n: nat, k: nat,
                                          afterRet: bool)
    requires Bracketed(stack, evs) && Matches(d, r, stack) && NoReentry(afterRet, evs)
    requires Ended(d, r, stack) && r.cmd != StepNext ==> afterRet
    ensures Session(d, stack, evs, From(cmds, n), k) == RefSession(r, |stack|, evs, cmds, n, k)
    decreases |evs|
  {
    hide Hooked, Matches;
    if evs != [] {
      var ev := evs[0];
      HookMatches(d, r, stack, ev);
      var stack1 := Moved(stack, ev);
      if ev.Instr? && Stops(d, stack) {
        var cmd := if n < |cmds| then cmds[n] else RunToBreakPoint;
        NextFrom(cmds, n);
        GivenMatches(cmd, d, stack);
        assert Ended(Given(cmd, Top(stack), d), Ref(cmd, |stack|), stack) ==> cmd == StepNext;
        assert Hooked(d, stack, ev) == d by { InstrKeeps(d, stack); }
        SessionIsExact(Given(cmd, Top(stack), d), Ref(cmd, |stack|), stack1, evs[1..], cmds, n + 1, k + 1, false);
      } else {
        SessionIsExact(Hooked(d, stack, ev), r, stack1, evs[1..], cmds, n, k + 1, ev.Ret?);
      }
    }
  }

  lemma InstrKeeps(d: Dbg, stack: Stack)
    requires stack != []
    ensures Hooked(d, stack, Instr) == d
  {
  }

  /** The commands from number `n` on. */
  function From(cmds: seq<Cmd>, n: nat): seq<Cmd> { if n <= |cmds| then cmds[n..] else [] }

  lemma NextFrom(cmds: seq<Cmd>, n: nat)
    ensures Next(From(cmds, n)) == (if n < |cmds| then cmds[n] else RunToBreakPoint)
    ensures Rest(From(cmds, n)) == From(cmds, n + 1)
  {
  }

  // ---------------------------------------------------------------- one command, any run

  /** The first instruction at which a command makes the debugger stop. */
  function FirstStop(d: Dbg, stack: Stack, evs: seq<Event>, k: nat): int
    requires Bracketed(stack, evs)
    decreases |evs|
  {
    if evs == [] then -1
    else if evs[0].Instr? && Stops(d, stack) then k
    else FirstStop(Hooked(d, stack, evs[0]), Moved(stack, evs[0]), evs[1..], k + 1)
  }

  function FirstWanted(r: Ref, depth: int, evs: seq<Event>, k: nat): int
    decreases |evs|
  {
    if evs == [] then -1
    else if evs[0].Instr? && Wanted(r, depth) then k
    else FirstWanted(r, DepthAfter(depth, evs[0]), evs[1..], k + 1)
  }

  /** The next instruction, if there is one, is executed deeper than the reference wants. */
  predicate CalledAgain(r: Ref, depth: int, evs: seq<Event>)
    decreases |evs|
  {
    evs != [] && if evs[0].Instr? then !Wanted(r, depth) else CalledAgain(r, DepthAfter(depth, evs[0]), evs[1..])
  }

  /** The return that ends the step is followed by calls before the next instruction: native code calls back. */
  predicate Reentered(r: Ref, depth: int, evs: seq<Event>)
    decreases |evs|
  {
    && evs != []
    && !(evs[0].Instr? && Wanted(r, depth))
    && var depth1 := DepthAfter(depth, evs[0]);
    if evs[0].Ret? && Wanted(r, depth1) then CalledAgain(r, depth1, evs[1..]) else Reentered(r, depth1, evs[1..])
  }

  lemma {:induction false} NextStop(d: Dbg, r: Ref, stack: Stack, evs: seq<Event>, k: nat)
    requires Bracketed(stack, evs) && d.cmd == StepNext
    ensures FirstStop(d, stack, evs, k) == FirstWanted(r, |stack|, evs, k) <==> !CalledAgain(r, |stack|, evs)
    decreases |evs|
  {
    if evs != [] {
      if evs[0].Instr? {
        FromHereOn(r, |stack|, evs[1..], k + 1);
      } else {
        NextStop(d, r, Moved(stack, evs[0]), evs[1..], k + 1);
      }
    }
  }

  lemma {:induction false} FromHereOn(r: Ref, depth: int, evs: seq<Event>, k: nat)
    ensures FirstWanted(r, depth, evs, k) == -1 || FirstWanted(r, depth, evs, k) >= k
    decreases |evs|
  {
    if evs != [] {
      FromHereOn(r, DepthAfter(depth, evs[0]), evs[1..], k + 1);
    }
  }

  /** A pending step stops where it should if and only if its last return does not lead into another call. */
  lemma {:induction false} PendingStop(d: Dbg, r: Ref, stack: Stack, evs: seq<Event>, k: nat)
    requires Bracketed(stack, evs) && Counted(d, r, stack)
    ensures FirstStop(d, stack, evs, k) == FirstWanted(r, |stack|, evs, k) <==> !Reentered(r, |stack|, evs)
    decreases |evs|
  {
    if evs != [] {
      var d1, stack1 := Hooked(d, stack, evs[0]), Moved(stack, evs[0]);
      HookMatches(d, r, stack, evs[0]);
      if evs[0].Instr? && Stops(d, stack) {
      } else if evs[0].Ret? && Wanted(r, |stack1|) {
        NextStop(d1, r, stack1, evs[1..], k + 1);
      } else {
        PendingStop(d1, r, stack1, evs[1..], k + 1);
      }
    }
  }

  /** Step over stops at the first instruction at or above the depth of the command, step out at the first above
      it, if and only if the return that ends the step does not lead into another call. */
  lemma StepIsExact(cmd: Cmd, d: Dbg, stack: Stack, evs: seq<Event>)
    requires cmd == StepOver || cmd == StepOut
    requires stack != [] && Bracketed(stack, evs)
    ensures FirstStop(Given(cmd, Top(stack), d), stack, evs, 0) == FirstWanted(Ref(cmd, |stack|), |stack|, evs, 0)
            <==> !Reentered(Ref(cmd, |stack|), |stack|, evs)
  {
    PendingStop(Given(cmd, Top(stack), d), Ref(cmd, |stack|), stack, evs, 0);
  }

  /** A native function that calls back twice: the step over it stops inside the second callback. */
  lemma CallbackStopsEarly(f: FuncId, g: FuncId, d: Dbg)
    ensures var evs := [Call(g), Instr, Ret, Call(g), Instr, Ret, Instr];
            && Bracketed([f], evs)
            && FirstStop(Given(StepOver, f, d), [f], evs, 0) == 4
            && FirstWanted(Ref(StepOver, 1), 1, evs, 0) == 6
  {
    var e6: seq<Event> := [Instr];
    var e5 := [Ret] + e6;
    var e4 := [Instr] + e5;
    var e3 := [Call(g)] + e4;
    var e2 := [Ret] + e3;
    var e1 := [Instr] + e2;
    var e0 := [Call(g)] + e1;
    assert e0 == [Call(g), Instr, Ret, Call(g), Instr, Ret, Instr];
    assert e0[1..] == e1 && e1[1..] == e2 && e2[1..] == e3 && e3[1..] == e4 && e4[1..] == e5 && e5[1..] == e6;
    var r, s := Ref(StepOver, 1), [f];
    assert Moved(s, Call(g)) == [f, g] && Moved([f, g], Ret) == s;
    assert Bracketed(s, e6);
    assert Bracketed([f, g], e5);
    assert Bracketed([f, g], e4);
    assert Bracketed(s, e3);
    assert Bracketed([f, g], e2);
    assert Bracketed([f, g], e1);
    assert FirstWanted(r, 1, e0, 0) == 6 by {
      assert FirstWanted(r, 1, e6, 6) == 6;
      assert FirstWanted(r, 2, e4, 4) == 6;
      assert FirstWanted(r, 1, e3, 3) == 6;
      assert FirstWanted(r, 2, e1, 1) == 6;
    }
    assert FirstStop(Dbg(StepOver, 0, f), s, e0, 0) == 4 by {
      assert FirstStop(Dbg(StepNext, 0, f), s, e3, 3) == 4;
      assert FirstStop(Dbg(StepOver, 1, f), [f, g], e1, 1) == 4;
    }
  }

  // ---------------------------------------------------------------- the mutable debugger

  class Engine {
    var dbgCmd: Cmd
    var stepCallDepth: int
    var stepBreak: FuncId

    constructor ()
      ensures dbgCmd == RunToBreakPoint && stepCallDepth == 0
    {
      dbgCmd, stepCallDepth, stepBreak := RunToBreakPoint, 0, ("", 0);
    }

    function State(): Dbg
      reads this
    {
      Dbg(dbgCmd, stepCallDepth, stepBreak)
    }

    /** Gives a step command at a stop in function `here`. */
    method RunToNextLine(cmd: Cmd, here: FuncId)
      requires cmd != RunToBreakPoint
      modifies this
      ensures State() == Given(cmd, here, old(State()))
    {
      stepBreak := ("", 0);
      if cmd == StepOver || cmd == StepOut {
        stepBreak := here;
      }
      dbgCmd := cmd;
      stepCallDepth := 0;
    }

    method RunToBreak()
      modifies this
      ensures State() == Given(RunToBreakPoint, ("", 0), old(State()))
    {
      dbgCmd := RunToBreakPoint;
    }

    /** One hook event; answers a stop with `next`. */
    method DebugHook(stack: Stack, ev: Event, next: Cmd) returns (stopped: bool)
      requires !ev.Call? ==> stack != []
      modifies this
      ensures stopped == (ev.Instr? && Stops(old(State()), stack))
      ensures State() == if stopped then Given(next, Top(stack), Hooked(old(State()), stack, ev))
                         else Hooked(old(State()), stack, ev)
    {
      stopped := false;
      if ev.Call? {
        if dbgCmd == StepOut || dbgCmd == StepOver {
          stepCallDepth := stepCallDepth + 1;
        }
      } else if ev.Ret? {
        if dbgCmd == StepOut || dbgCmd == StepOver {
          stepCallDepth := stepCallDepth - 1;
          if stepCallDepth < 0 && stepBreak == Top(stack) {
            dbgCmd := StepNext;
          } else if dbgCmd == StepOver && stepCallDepth == 0 {
            dbgCmd := StepNext;
          }
        }
      } else if dbgCmd == StepNext || (dbgCmd == StepOver && stepCallDepth == 0 && stepBreak == Top(stack)) {
        stopped := true;
        if next == RunToBreakPoint {
          RunToBreak();
        } else {
          RunToNextLine(next, Top(stack));
        }
      }
    }

    /** Runs a program of the given events under the given commands and reports where it stopped. */
    method Run(start: Stack, evs: seq<Event>, cmds: seq<Cmd>) returns (stops: seq<nat>)
      requires Bracketed(start, evs)
      modifies this
      ensures stops == Session(old(State()), start, evs, cmds, 0)
    {
      stops := [];
      var stack, left := start, cmds;
      ghost var d := State();
      for k := 0 to |evs|
        invariant Bracketed(stack, evs[k..])
        invariant stops + Session(State(), stack, evs[k..], left, k) == Session(d, start, evs, cmds, 0)
      {
        assert evs[k..][1..] == evs[k + 1..];
        ghost var before := stops;
        var stopped := DebugHook(stack, evs[k], Next(left));
        if stopped {
          stops, left := stops + [k], Rest(left);
          assert forall s :: before + ([k] + s) == stops + s;
        }
        stack := Moved(stack, evs[k]);
      }
      assert stops + [] == stops;
    }
  }
}
