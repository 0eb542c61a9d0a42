/** The two passes as they run: loops that update stacks, keep flags and the output. */
module PrunerRun {
  import opened Modular
  import opened Pruner
  import opened PrunerExact
  import opened PrunerPasses
  import opened PrunerPaths
  import opened PrunerFirstSuccess

  method KeepFrames(frames: seq<Frame>, stack: seq<nat>) returns (kept: seq<Frame>)
    requires forall p | 0 <= p < |stack| :: stack[p] < |frames|
    ensures |kept| == |frames|
    ensures forall f | 0 <= f < |frames| :: kept[f] == if f in stack then frames[f].(keep := true) else frames[f]
  {
    kept := frames;
    for p := 0 to |stack|
      invariant |kept| == |frames|
      invariant forall f | 0 <= f < |frames| ::
                kept[f] == if f in stack[..p] then frames[f].(keep := true) else frames[f]
    {
      assert stack[..p + 1] == stack[..p] + [stack[p]];
      kept := kept[stack[p] := kept[stack[p]].(keep := true)];
    }
    assert stack[..|stack|] == stack;
  }

  method KeepCases(caseKeep: map<nat, bool>, stack: seq<nat>) returns (kept: map<nat, bool>)
    requires forall p | 0 <= p < |stack| :: stack[p] in caseKeep
    ensures kept == map k | k in caseKeep :: caseKeep[k] || k in stack
  {
    kept := caseKeep;
    for p := 0 to |stack|
      invariant kept == map k | k in caseKeep :: caseKeep[k] || k in stack[..p]
    {
      assert stack[..p + 1] == stack[..p] + [stack[p]];
      kept := kept[stack[p] := true];
    }
    assert stack[..|stack|] == stack;
  }

  method PopCases(cases: seq<nat>, depth: nat) returns (left: seq<nat>)
    ensures left == Truncated(cases, depth)
  {
    left := cases;
    while |left| > depth
      invariant |left| <= |cases| && left == cases[..|left|]
      invariant |left| >= depth || left == cases
    {
      left := left[..|left| - 1];
    }
  }

  method MarkOpen(ghost st: ParseState, frames: seq<Frame>, frameStack: seq<nat>, caseStack: seq<nat>,
                  caseKeep: map<nat, bool>)
    returns (marked: seq<Frame>, caseMarked: map<nat, bool>)
    requires st.StackInRange() && forall p | 0 <= p < |caseStack| :: caseStack[p] in caseKeep
    requires st.frames == frames && st.frameStack == frameStack && st.caseStack == caseStack && st.caseKeep == caseKeep
    ensures |marked| == |frames|
    ensures Marked(st) == st.(frames := marked, caseKeep := caseMarked, firstSuccessSeen := true)
  {
    marked := KeepFrames(frames, frameStack);
    caseMarked := KeepCases(caseKeep, caseStack);
    assert Marked(st).frames == marked;
  }

  method PushFrame(ghost st: ParseState, frames: seq<Frame>, frameStack: seq<nat>, depth: nat, i: nat)
    returns (grown: seq<Frame>, stack: seq<nat>)
    requires st.StackInRange() && st.frames == frames && st.frameStack == frameStack && |st.caseStack| == depth
    ensures Pushed(st, i) == st.(frames := grown, frameStack := stack)
  {
    var f := |frames|;
    if frameStack == [] {
      grown := frames + [Frame(i, None, false, None, [], depth)];
    } else {
      var parent := frameStack[|frameStack| - 1];
      grown := frames[parent := frames[parent].(children := frames[parent].children + [f])];
      grown := grown + [Frame(i, None, false, Some(parent), [], depth)];
    }
    stack := frameStack + [f];
  }

  method CloseFrame(ghost st: ParseState, frames: seq<Frame>, frameStack: seq<nat>, caseStack: seq<nat>, i: nat)
    returns (closed: seq<Frame>, stack: seq<nat>, cases: seq<nat>)
    requires st.StackInRange() && st.frames == frames && st.frameStack == frameStack && st.caseStack == caseStack
    ensures Popped(st, i) == st.(frames := closed, frameStack := stack, caseStack := cases)
  {
    closed, stack, cases := frames, frameStack, caseStack;
    if frameStack != [] {
      var f := frameStack[|frameStack| - 1];
      stack := frameStack[..|frameStack| - 1];
      closed := frames[f := frames[f].(closeIdx := Some(i))];
      cases := PopCases(caseStack, frames[f].caseDepthStart);
    }
  }

  /** The first pass. */
  method Parse(lines: seq<Line>, firstSuccessOnly: bool) returns (parsed: ParseState)
    ensures parsed == Parsed(lines, firstSuccessOnly)
  {
    var frames: seq<Frame>, frameStack: seq<nat>, caseStack: seq<nat> := [], [], [];
    var caseKeep: map<nat, bool>, firstSuccessSeen := map[], false;
    hide Marked, Pushed, Popped;
    for i := 0 to |lines|
      invariant ParseState(frames, frameStack, caseStack, caseKeep, firstSuccessSeen)
           == ParseUpTo(lines, firstSuccessOnly, i)
    {
      ghost var st := ParseState(frames, frameStack, caseStack, caseKeep, firstSuccessSeen);
      SuccessSeen(lines, firstSuccessOnly, i);
      ParseNext(lines, firstSuccessOnly, i);
      if lines[i].success && (!firstSuccessOnly || !firstSuccessSeen) {
        frames, caseKeep := MarkOpen(st, frames, frameStack, caseStack, caseKeep);
        firstSuccessSeen := true;
      }
      ghost var st1 := ParseState(frames, frameStack, caseStack, caseKeep, firstSuccessSeen);
      match lines[i].head {
        case Solve =>
          frames, frameStack := PushFrame(st1, frames, frameStack, |caseStack|, i);
        case Case =>
          caseStack := caseStack + [i];
          caseKeep := caseKeep[i := false];
        case Qed =>
          frames, frameStack, caseStack := CloseFrame(st1, frames, frameStack, caseStack, i);
        case Next =>
          if caseStack != [] {
            caseStack := caseStack[..|caseStack| - 1];
          }
        case _ =>
      }
    }
    parsed := ParseState(frames, frameStack, caseStack, caseKeep, firstSuccessSeen);
  }

  /** Determine whether a line is printed, from the stacks in force for it. */
  method Decide(parsed: ParseState, frameStack: seq<nat>, caseStack: seq<nat>, st: EmitState, i: nat, head: Head)
    returns (printed: bool)
    requires Forest(parsed.frames) && forall p | 0 <= p < |frameStack| :: frameStack[p] < |parsed.frames|
    ensures printed == Printed(parsed, frameStack, caseStack, st, i, head)
  {
    hide HasKeptDesc, Forest;
    var onKeptPath := frameStack != [] && HasKeptDesc(parsed.frames, frameStack[|frameStack| - 1]);
    match head {
      case Next => printed := false;
      case Simplify => printed := !st.lastOutputQed && (onKeptPath || st.atBeginning);
      case Case => printed := onKeptPath && CaseKept(parsed.caseKeep, i);
      case Solve => printed := onKeptPath;
      case Qed => printed := onKeptPath;
      case Other =>
        var inKeptSolve, allCasesKept := false, true;
        for p := 0 to |frameStack|
          invariant inKeptSolve <==> exists r | 0 <= r < p :: HasKeptDesc(parsed.frames, frameStack[r])
        {
          inKeptSolve := inKeptSolve || HasKeptDesc(parsed.frames, frameStack[p]);
        }
        for p := 0 to |caseStack|
          invariant allCasesKept <==> forall r | 0 <= r < p :: CaseKept(parsed.caseKeep, caseStack[r])
        {
          allCasesKept := allCasesKept && CaseKept(parsed.caseKeep, caseStack[p]);
        }
        printed := inKeptSolve && allCasesKept;
    }
  }

  /** The second pass. */
  method Emit(lines: seq<Line>, parsed: ParseState) returns (out: seq<nat>)
    requires Forest(parsed.frames)
    ensures out == EmitUpTo(lines, parsed, |lines|).out
  {
    out := [];
    var frameStack: seq<nat>, caseStack: seq<nat> := [], [];
    var atBeginning, lastOutputQed := true, false;
    hide EmitStep, OpenedAt, Printed, Forest;
    for i := 0 to |lines|
      invariant EmitState(frameStack, caseStack, atBeginning, lastOutputQed, out) == EmitUpTo(lines, parsed, i)
    {
      var before := EmitState(frameStack, caseStack, atBeginning, lastOutputQed, out);
      var head := lines[i].head;
      EmitNext(lines, parsed, i);
      EmitStacks(parsed, before, i, head);
      StepFlags(parsed, before, i, head);
      frameStack := frameStack + OpenedAt(parsed.frames, i);
      if head.Case? {
        caseStack := caseStack + [i];
      } else if head.Next? && caseStack != [] {
        caseStack := caseStack[..|caseStack| - 1];
      }
      var printed := Decide(parsed, frameStack, caseStack, before, i, head);
      if printed {
        out := out + [i];
      }
      if head.Qed? {
        lastOutputQed := lastOutputQed || printed;
        if frameStack != [] {
          var f := frameStack[|frameStack| - 1];
          frameStack := frameStack[..|frameStack| - 1];
          caseStack := PopCases(caseStack, parsed.frames[f].caseDepthStart);
        }
      } else {
        atBeginning := false;
      }
    }
  }

  /** The whole pruner. The line numbers it prints are in order, and are exactly those that the
    * script's own lines call for. */
  method Prune(lines: seq<Line>, firstSuccessOnly: bool) returns (out: seq<nat>)
    ensures InOrder(out, |lines|)
    ensures forall i: nat :: i in out <==> i < |lines| && Shown(lines, firstSuccessOnly, i)
    ensures Forest(Parsed(lines, firstSuccessOnly).frames)
    ensures out == EmitUpTo(lines, Parsed(lines, firstSuccessOnly), |lines|).out
  {
    var parsed := Parse(lines, firstSuccessOnly);
    ParsedForest(lines, firstSuccessOnly);
    out := Emit(lines, parsed);
    hide *;
    OutInOrder(lines, parsed, |lines|);
    forall i: nat ensures i in out <==> i < |lines| && Shown(lines, firstSuccessOnly, i) {
      PrintedExactly(lines, firstSuccessOnly, i);
    }
  }
}
