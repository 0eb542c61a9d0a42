/** What is left of a proof script: a well-nested part of it, on the path to the first success. */
module PrunerPaths {
  import opened Modular
  import opened Pruner
  import opened PrunerPasses

  function Top(stack: seq<nat>): nat
    requires stack != []
  {
    stack[|stack| - 1]
  }

  /** The keep flag that the first pass leaves on a frame. */
  predicate KeptFrame(parsed: ParseState, f: nat) {
    f < |parsed.frames| && parsed.frames[f].keep
  }

  /** Which lines other than simplify lines are printed, from the first pass alone. */
  predicate PrintedByKeep(parsed: ParseState, before: ParseState, i: nat, head: Head) {
    match head
    case Solve => KeptFrame(parsed, |before.frames|)
    case Qed => before.frameStack != [] && KeptFrame(parsed, Top(before.frameStack))
    case Case => before.frameStack != [] && KeptFrame(parsed, Top(before.frameStack)) && CaseKept(parsed.caseKeep, i)
    case Other =>
      && (exists p | 0 <= p < |before.frameStack| :: KeptFrame(parsed, before.frameStack[p]))
      && (forall p | 0 <= p < |before.caseStack| :: CaseKept(parsed.caseKeep, before.caseStack[p]))
    case _ => false
  }

  /** The decision of the second pass at one line. */
  lemma StepPrinted(parsed: ParseState, before: ParseState, e: EmitState, i: nat, head: Head)
    requires FramesOk(parsed.frames) && Forest(parsed.frames) && before.StackInRange()
    requires e.frameStack == before.frameStack && e.caseStack == before.caseStack
    requires |before.frames| <= |parsed.frames| && (head.Solve? ==> |before.frames| < |parsed.frames|)
    requires OpenedAt(parsed.frames, i) == (if head.Solve? then [|before.frames|] else [])
    requires !head.Simplify?
    ensures PrintedAt(parsed, e, i, head) == PrintedByKeep(parsed, before, i, head)
  {
    hide OpenedAt, FramesOk, Forest, HasKeptDesc;
    var stack := e.frameStack + OpenedAt(parsed.frames, i);
    forall p | 0 <= p < |stack| ensures HasKeptDesc(parsed.frames, stack[p]) == parsed.frames[stack[p]].keep {
      KeptDescIsKeep(parsed.frames, stack[p]);
    }
    if !head.Solve? {
      assert stack == before.frameStack;
    }
  }

  /** What a line adds to the output. */
  lemma EmitOut(lines: seq<Line>, parsed: ParseState, i: nat)
    requires i < |lines| && Forest(parsed.frames)
    ensures EmitUpTo(lines, parsed, i + 1).out
         == EmitUpTo(lines, parsed, i).out
            + (if PrintedAt(parsed, EmitUpTo(lines, parsed, i), i, lines[i].head) then [i] else [])
  {
    hide Forest, EmitStep, PrintedAt;
    EmitNext(lines, parsed, i);
    EmitStacks(parsed, EmitUpTo(lines, parsed, i), i, lines[i].head);
  }

  lemma {:induction false} OutExact(lines: seq<Line>, parsed: ParseState, n: nat, i: nat)
    requires n <= |lines| && Forest(parsed.frames)
    ensures i in EmitUpTo(lines, parsed, n).out
       <==> i < n && PrintedAt(parsed, EmitUpTo(lines, parsed, i), i, lines[i].head)
  {
    hide EmitStep, PrintedAt, Forest;
    if n > 0 {
      hide *;
      OutExact(lines, parsed, n - 1, i);
      EmitOut(lines, parsed, n - 1);
    }
  }

  lemma LinePrinted(lines: seq<Line>, firstSuccessOnly: bool, i: nat)
    requires i < |lines| && !lines[i].head.Simplify?
    requires Forest(Parsed(lines, firstSuccessOnly).frames)
    ensures PrintedAt(Parsed(lines, firstSuccessOnly), EmitUpTo(lines, Parsed(lines, firstSuccessOnly), i), i,
                      lines[i].head)
         == PrintedByKeep(Parsed(lines, firstSuccessOnly), ParseUpTo(lines, firstSuccessOnly, i), i, lines[i].head)
  {
    hide *;
    ParsedForest(lines, firstSuccessOnly);
    PassesAgree(lines, firstSuccessOnly, i);
    OpenedAtFinal(lines, firstSuccessOnly, i);
    FrameCounts(lines, firstSuccessOnly, i);
    var parsed := Parsed(lines, firstSuccessOnly);
    StepPrinted(parsed, ParseUpTo(lines, firstSuccessOnly, i), EmitUpTo(lines, parsed, i), i, lines[i].head);
  }

  /** A line other than a simplify line is printed exactly when the first pass decided so. */
  lemma Output(lines: seq<Line>, firstSuccessOnly: bool, i: nat)
    requires i < |lines| && !lines[i].head.Simplify?
    ensures Forest(Parsed(lines, firstSuccessOnly).frames)
    ensures i in EmitUpTo(lines, Parsed(lines, firstSuccessOnly), |lines|).out
       <==> PrintedByKeep(Parsed(lines, firstSuccessOnly), ParseUpTo(lines, firstSuccessOnly, i), i, lines[i].head)
  {
    hide *;
    ParsedForest(lines, firstSuccessOnly);
    OutExact(lines, Parsed(lines, firstSuccessOnly), |lines|, i);
    LinePrinted(lines, firstSuccessOnly, i);
  }

  // Simplify lines

  ghost predicate QedIn(lines: seq<Line>, out: seq<nat>) {
    exists k | 0 <= k < |out| :: out[k] < |lines| && lines[out[k]].head.Qed?
  }

  lemma QedInSnoc(lines: seq<Line>, out: seq<nat>, i: nat)
    ensures QedIn(lines, out + [i]) <==> QedIn(lines, out) || (i < |lines| && lines[i].head.Qed?)
  {
    assert (out + [i])[|out|] == i;
    assert forall k | 0 <= k < |out| :: (out + [i])[k] == out[k];
  }

  /** What one line does to the two flags of the second pass. */
  lemma StepFlags(parsed: ParseState, e: EmitState, i: nat, head: Head)
    requires Forest(parsed.frames)
    requires forall p | 0 <= p < |e.frameStack| :: e.frameStack[p] < |parsed.frames|
    ensures EmitStep(parsed, e, i, head).atBeginning == (e.atBeginning && head.Qed?)
    ensures EmitStep(parsed, e, i, head).lastOutputQed
         == (e.lastOutputQed || (head.Qed? && PrintedAt(parsed, e, i, head)))
  {
    hide OpenedAt, HasKeptDesc, Forest;
  }

  /** Once a qed line is printed, the flag against printing a simplify line is never taken back;
    * and it is the beginning for as long as there are only qed lines. */
  lemma {:induction false} Flags(lines: seq<Line>, parsed: ParseState, n: nat)
    requires n <= |lines| && Forest(parsed.frames)
    ensures EmitUpTo(lines, parsed, n).lastOutputQed <==> QedIn(lines, EmitUpTo(lines, parsed, n).out)
    ensures EmitUpTo(lines, parsed, n).atBeginning <==> forall i | 0 <= i < n :: lines[i].head.Qed?
  {
    hide EmitStep, PrintedAt, Forest;
    if n > 0 {
      EmitNext(lines, parsed, n - 1);
      hide EmitUpTo, QedIn;
      Flags(lines, parsed, n - 1);
      EmitOut(lines, parsed, n - 1);
      var e := EmitUpTo(lines, parsed, n - 1);
      StepFlags(parsed, e, n - 1, lines[n - 1].head);
      QedInSnoc(lines, e.out, n - 1);
      assert e.out + [] == e.out;
    }
  }

  /** A simplify line is printed exactly when no qed line has been printed before, and either the
    * innermost open frame is kept or there have been only qed lines so far. */
  lemma SimplifyExactly(lines: seq<Line>, firstSuccessOnly: bool, i: nat)
    requires i < |lines| && lines[i].head.Simplify?
    ensures Forest(Parsed(lines, firstSuccessOnly).frames)
    ensures var parsed, stack := Parsed(lines, firstSuccessOnly), ParseUpTo(lines, firstSuccessOnly, i).frameStack;
            (i in EmitUpTo(lines, parsed, |lines|).out
             <==> && !QedIn(lines, EmitUpTo(lines, parsed, i).out)
                  && ((stack != [] && KeptFrame(parsed, Top(stack))) || forall j | 0 <= j < i :: lines[j].head.Qed?))
  {
    hide Parsed, ParseUpTo, EmitUpTo, OpenedAt, HasKeptDesc, Forest, QedIn, FramesOk;
    ParsedForest(lines, firstSuccessOnly);
    var parsed := Parsed(lines, firstSuccessOnly);
    var e := EmitUpTo(lines, parsed, i);
    OutExact(lines, parsed, |lines|, i);
    PassesAgree(lines, firstSuccessOnly, i);
    OpenedAtFinal(lines, firstSuccessOnly, i);
    Flags(lines, parsed, i);
    assert e.frameStack + [] == e.frameStack;
    if e.frameStack != [] {
      KeptDescIsKeep(parsed.frames, Top(e.frameStack));
    }
  }

  lemma FrameCounts(lines: seq<Line>, firstSuccessOnly: bool, i: nat)
    requires i < |lines|
    ensures |ParseUpTo(lines, firstSuccessOnly, i).frames| <= |Parsed(lines, firstSuccessOnly).frames|
    ensures lines[i].head.Solve?
         ==> |ParseUpTo(lines, firstSuccessOnly, i).frames| < |Parsed(lines, firstSuccessOnly).frames|
  {
    hide ParseUpTo, Marked, Grows;
    ParseNext(lines, firstSuccessOnly, i);
    MarkedShape(ParseUpTo(lines, firstSuccessOnly, i));
    FramesGrow(lines, firstSuccessOnly, i, |lines|);
    FramesGrow(lines, firstSuccessOnly, i + 1, |lines|);
  }

  // Well nesting

  function KeptOf(parsed: ParseState, stack: seq<nat>): seq<nat> {
    if stack == [] then
      []
    else
      KeptOf(parsed, stack[..|stack| - 1]) + (if KeptFrame(parsed, Top(stack)) then [Top(stack)] else [])
  }

  /** What reading a printed line does to the stack of open frames: a solve line opens its frame,
    * and a qed line must close the innermost open frame, and be the line that closed it in the
    * original script. */
  function ReplayLine(stack: seq<nat>, frames: seq<Frame>, i: nat, head: Head): Option<seq<nat>> {
    match head
    case Solve => Some(stack + OpenedAt(frames, i))
    case Qed =>
      if stack != [] && Top(stack) < |frames| && frames[Top(stack)].closeIdx == Some(i)
      then Some(DropLast(stack)) else None
    case _ => Some(stack)
  }

  /** Read all the printed lines again. */
  function Replay(lines: seq<Line>, frames: seq<Frame>, out: seq<nat>): Option<seq<nat>>
    requires forall k | 0 <= k < |out| :: out[k] < |lines|
  {
    if out == [] then
      Some([])
    else
      var n := |out| - 1;
      match Replay(lines, frames, out[..n])
      case None => None
      case Some(stack) => ReplayLine(stack, frames, out[n], lines[out[n]].head)
  }

  /** The line numbers are increasing and below n. */
  ghost predicate InOrder(out: seq<nat>, n: nat) {
    && (forall k | 0 <= k < |out| :: out[k] < n)
    && (forall k, l | 0 <= k < l < |out| :: out[k] < out[l])
  }

  lemma InOrderGrows(out: seq<nat>, n: nat, more: seq<nat>)
    requires InOrder(out, n) && (more == [] || more == [n])
    ensures InOrder(out + more, n + 1)
  {
  }

  lemma {:induction false} OutInOrder(lines: seq<Line>, parsed: ParseState, n: nat)
    requires n <= |lines| && Forest(parsed.frames)
    ensures InOrder(EmitUpTo(lines, parsed, n).out, n)
  {
    hide EmitStep, PrintedAt, Forest;
    if n > 0 {
      hide *;
      OutInOrder(lines, parsed, n - 1);
      EmitOut(lines, parsed, n - 1);
      var e := EmitUpTo(lines, parsed, n - 1);
      InOrderGrows(e.out, n - 1, if PrintedAt(parsed, e, n - 1, lines[n - 1].head) then [n - 1] else []);
    }
  }

  lemma KeptOfSnoc(parsed: ParseState, stack: seq<nat>, f: nat)
    ensures KeptOf(parsed, stack + [f]) == KeptOf(parsed, stack) + (if KeptFrame(parsed, f) then [f] else [])
  {
    assert (stack + [f])[..|stack|] == stack;
  }

  lemma QedCloses(st: ParseState, i: nat, line: Line, firstSuccessOnly: bool)
    requires st.StackInRange() && line.head.Qed? && st.frameStack != []
    ensures Top(st.frameStack) < |ParseStep(st, i, line, firstSuccessOnly).frames|
    ensures ParseStep(st, i, line, firstSuccessOnly).frames[Top(st.frameStack)].closeIdx == Some(i)
  {
    hide Marked;
    MarkedShape(st);
  }

  /** The frame that a qed line closes is closed by that line for good. */
  lemma CloseStays(lines: seq<Line>, firstSuccessOnly: bool, i: nat)
    requires i < |lines| && lines[i].head.Qed? && ParseUpTo(lines, firstSuccessOnly, i).frameStack != []
    ensures Top(ParseUpTo(lines, firstSuccessOnly, i).frameStack) < |Parsed(lines, firstSuccessOnly).frames|
    ensures Parsed(lines, firstSuccessOnly).frames[Top(ParseUpTo(lines, firstSuccessOnly, i).frameStack)].closeIdx
         == Some(i)
  {
    hide ParseUpTo, ParseStep;
    var st, st' := ParseUpTo(lines, firstSuccessOnly, i), ParseUpTo(lines, firstSuccessOnly, i + 1);
    ParseNext(lines, firstSuccessOnly, i);
    QedCloses(st, i, lines[i], firstSuccessOnly);
    FramesGrow(lines, firstSuccessOnly, i + 1, |lines|);
    assert Grows(st'.frames[Top(st.frameStack)], Parsed(lines, firstSuccessOnly).frames[Top(st.frameStack)]);
  }

  lemma StepStack(lines: seq<Line>, firstSuccessOnly: bool, i: nat)
    requires i < |lines|
    ensures ParseUpTo(lines, firstSuccessOnly, i + 1).frameStack
         == StackAfter(ParseUpTo(lines, firstSuccessOnly, i), lines[i].head)
  {
    hide ParseUpTo, ParseStep;
    ParseNext(lines, firstSuccessOnly, i);
    StepShape(ParseUpTo(lines, firstSuccessOnly, i), i, lines[i], firstSuccessOnly);
  }

  /** Reading one more printed line keeps the kept part of the stack. */
  lemma ReplayKept(parsed: ParseState, before: ParseState, i: nat, head: Head)
    requires OpenedAt(parsed.frames, i) == (if head.Solve? then [|before.frames|] else [])
    requires !head.Simplify? && PrintedByKeep(parsed, before, i, head)
    requires head.Qed? && before.frameStack != [] ==>
               Top(before.frameStack) < |parsed.frames| && parsed.frames[Top(before.frameStack)].closeIdx == Some(i)
    ensures ReplayLine(KeptOf(parsed, before.frameStack), parsed.frames, i, head)
         == Some(KeptOf(parsed, StackAfter(before, head)))
  {
    hide OpenedAt;
    match head {
      case Solve => KeptOfSnoc(parsed, before.frameStack, |before.frames|);
      case Qed =>
        var rest := DropLast(before.frameStack);
        assert before.frameStack == rest + [Top(before.frameStack)];
        KeptOfSnoc(parsed, rest, Top(before.frameStack));
        assert DropLast(KeptOf(parsed, rest) + [Top(before.frameStack)]) == KeptOf(parsed, rest);
      case _ =>
    }
  }

  /** A line that is not printed does not change the kept part of the stack. */
  lemma SkipKept(parsed: ParseState, before: ParseState, i: nat, head: Head)
    requires head.Simplify? || !PrintedByKeep(parsed, before, i, head)
    ensures KeptOf(parsed, before.frameStack) == KeptOf(parsed, StackAfter(before, head))
  {
    match head {
      case Solve => KeptOfSnoc(parsed, before.frameStack, |before.frames|);
      case Qed =>
        if before.frameStack != [] {
          assert before.frameStack == DropLast(before.frameStack) + [Top(before.frameStack)];
          KeptOfSnoc(parsed, DropLast(before.frameStack), Top(before.frameStack));
        }
      case _ =>
    }
  }

  lemma ReplaySnoc(lines: seq<Line>, frames: seq<Frame>, out: seq<nat>, i: nat)
    requires i < |lines| && forall k | 0 <= k < |out| :: out[k] < |lines|
    requires Replay(lines, frames, out).Some?
    ensures Replay(lines, frames, out + [i]) == ReplayLine(Replay(lines, frames, out).value, frames, i, lines[i].head)
  {
    hide ReplayLine;
    assert (out + [i])[..|out|] == out;
  }

  /** The printed lines are in order, and reading them again leaves open the kept part of a stack. */
  ghost predicate Nested(lines: seq<Line>, parsed: ParseState, out: seq<nat>, n: nat, stack: seq<nat>)
    requires n <= |lines|
  {
    InOrder(out, n) && Replay(lines, parsed.frames, out) == Some(KeptOf(parsed, stack))
  }

  lemma NestedStep(lines: seq<Line>, firstSuccessOnly: bool, i: nat)
    requires i < |lines| && Forest(Parsed(lines, firstSuccessOnly).frames)
    requires Nested(lines, Parsed(lines, firstSuccessOnly), EmitUpTo(lines, Parsed(lines, firstSuccessOnly), i).out, i,
                   ParseUpTo(lines, firstSuccessOnly, i).frameStack)
    ensures Nested(lines, Parsed(lines, firstSuccessOnly),
                   EmitUpTo(lines, Parsed(lines, firstSuccessOnly), i + 1).out, i + 1,
                   ParseUpTo(lines, firstSuccessOnly, i + 1).frameStack)
  {
    hide Parsed, ParseUpTo, EmitUpTo, PrintedAt, PrintedByKeep, ReplayLine, Replay, KeptOf, StackAfter, OpenedAt,
         Forest;
    var parsed, before := Parsed(lines, firstSuccessOnly), ParseUpTo(lines, firstSuccessOnly, i);
    var e, head := EmitUpTo(lines, parsed, i), lines[i].head;
    assert Replay(lines, parsed.frames, e.out) == Some(KeptOf(parsed, before.frameStack));
    OutInOrder(lines, parsed, i + 1);
    EmitOut(lines, parsed, i);
    StepStack(lines, firstSuccessOnly, i);
    OpenedAtFinal(lines, firstSuccessOnly, i);
    if !head.Simplify? {
      LinePrinted(lines, firstSuccessOnly, i);
    }
    if head.Qed? && before.frameStack != [] {
      CloseStays(lines, firstSuccessOnly, i);
    }
    if PrintedAt(parsed, e, i, head) {
      ReplaySnoc(lines, parsed.frames, e.out, i);
      if head.Simplify? {
        SimplifyKept(parsed, before, i);
      } else {
        ReplayKept(parsed, before, i, head);
      }
    } else {
      assert e.out + [] == e.out;
      SkipKept(parsed, before, i, head);
    }
  }

  lemma SimplifyKept(parsed: ParseState, before: ParseState, i: nat)
    ensures ReplayLine(KeptOf(parsed, before.frameStack), parsed.frames, i, Simplify)
         == Some(KeptOf(parsed, StackAfter(before, Simplify)))
  {
  }

  /** In either mode, what is printed is well nested: no qed without its solve, every qed closes
    * the innermost printed solve that is still open, and the frames left open are the kept
    * frames that the script itself has left open. */
  lemma {:induction false} OutputNested(lines: seq<Line>, firstSuccessOnly: bool, n: nat)
    requires n <= |lines|
    ensures Forest(Parsed(lines, firstSuccessOnly).frames)
    ensures Nested(lines, Parsed(lines, firstSuccessOnly), EmitUpTo(lines, Parsed(lines, firstSuccessOnly), n).out, n,
                   ParseUpTo(lines, firstSuccessOnly, n).frameStack)
  {
    hide *;
    ParsedForest(lines, firstSuccessOnly);
    if n == 0 {
      NestedStart(lines, firstSuccessOnly);
    } else {
      OutputNested(lines, firstSuccessOnly, n - 1);
      NestedStep(lines, firstSuccessOnly, n - 1);
    }
  }

  lemma NestedStart(lines: seq<Line>, firstSuccessOnly: bool)
    requires Forest(Parsed(lines, firstSuccessOnly).frames)
    ensures Nested(lines, Parsed(lines, firstSuccessOnly), EmitUpTo(lines, Parsed(lines, firstSuccessOnly), 0).out, 0,
                   ParseUpTo(lines, firstSuccessOnly, 0).frameStack)
  {
    hide Forest, Parsed, EmitStep, ParseStep;
    assert EmitUpTo(lines, Parsed(lines, firstSuccessOnly), 0).out == [];
    assert ParseUpTo(lines, firstSuccessOnly, 0).frameStack == [];
  }
}
