/** The two passes of the pruner agree, and what they print is well nested. */
module PrunerPasses {
  import opened Modular
  import opened Pruner

  /** What never changes about a frame once it is open, and what is never taken back. */
  ghost predicate Grows(f: Frame, g: Frame) {
    && f.openIdx == g.openIdx && f.caseDepthStart == g.caseDepthStart && f.parent == g.parent
    && (f.keep ==> g.keep)
    && (f.closeIdx.Some? ==> f.closeIdx == g.closeIdx)
  }

  ghost predicate AllGrow(fs: seq<Frame>, gs: seq<Frame>) {
    |fs| <= |gs| && forall f | 0 <= f < |fs| :: Grows(fs[f], gs[f])
  }

  /** The frames on the stack are the ones still open. */
  ghost predicate OpenOnStack(st: ParseState) {
    forall f | 0 <= f < |st.frames| :: st.frames[f].closeIdx.None? <==> f in st.frameStack
  }

  lemma StepGrows(st: ParseState, i: nat, line: Line, firstSuccessOnly: bool)
    requires Inv(st) && OpenOnStack(st)
    ensures AllGrow(st.frames, ParseStep(st, i, line, firstSuccessOnly).frames)
    ensures OpenOnStack(ParseStep(st, i, line, firstSuccessOnly))
  {
    hide Linked, FrameOk, Marked, Advanced, AllGrow, OpenOnStack;
    var st1 := if Marking(st, line, firstSuccessOnly) then Marked(st) else st;
    MarkedGrows(st);
    AllGrowSame(st.frames);
    AdvancedGrows(st1, i, line.head);
    AllGrowTransitive(st.frames, st1.frames, Advanced(st1, i, line.head).frames);
  }

  lemma AllGrowSame(fs: seq<Frame>)
    ensures AllGrow(fs, fs)
  {
  }

  lemma MarkedGrows(st: ParseState)
    requires Inv(st) && OpenOnStack(st)
    ensures AllGrow(st.frames, Marked(st).frames) && OpenOnStack(Marked(st)) && Inv(Marked(st))
  {
    MarkedInv(st);
    hide Linked, FramesOk;
  }

  lemma AdvancedGrows(st: ParseState, i: nat, head: Head)
    requires Inv(st) && OpenOnStack(st)
    ensures AllGrow(st.frames, Advanced(st, i, head).frames) && OpenOnStack(Advanced(st, i, head))
  {
    hide Linked, FramesOk, Pushed, Popped;
    PushedGrows(st, i);
    PoppedGrows(st, i);
  }

  lemma PushedGrows(st: ParseState, i: nat)
    requires st.StackInRange() && OpenOnStack(st)
    ensures AllGrow(st.frames, Pushed(st, i).frames) && OpenOnStack(Pushed(st, i))
  {
    var st' := Pushed(st, i);
    var n := |st.frames|;
    assert st'.frameStack[|st.frameStack|] == n;
    forall f | 0 <= f < |st'.frames| ensures st'.frames[f].closeIdx.None? <==> f in st'.frameStack {
      if f < n {
        assert st'.frames[f].closeIdx == st.frames[f].closeIdx;
        assert f in st'.frameStack <==> f in st.frameStack;
      }
    }
  }

  lemma PoppedGrows(st: ParseState, i: nat)
    requires st.StackInRange() && OpenOnStack(st) && StackIncreasing(st.frameStack)
    ensures AllGrow(st.frames, Popped(st, i).frames) && OpenOnStack(Popped(st, i))
  {
    if st.frameStack != [] {
      var k := |st.frameStack| - 1;
      var top := st.frameStack[k];
      assert top in st.frameStack;
      assert top !in st.frameStack[..k];
      assert st.frameStack == st.frameStack[..k] + [top];
    }
  }

  lemma {:induction false} OpenOnStackAlways(lines: seq<Line>, firstSuccessOnly: bool, n: nat)
    requires n <= |lines|
    ensures OpenOnStack(ParseUpTo(lines, firstSuccessOnly, n))
  {
    hide ParseStep;
    if n > 0 {
      hide *;
      OpenOnStackAlways(lines, firstSuccessOnly, n - 1);
      ParseNext(lines, firstSuccessOnly, n - 1);
      ParseInv(lines, firstSuccessOnly, n - 1);
      StepGrows(ParseUpTo(lines, firstSuccessOnly, n - 1), n - 1, lines[n - 1], firstSuccessOnly);
    }
  }

  lemma AllGrowTransitive(fs: seq<Frame>, gs: seq<Frame>, hs: seq<Frame>)
    requires AllGrow(fs, gs) && AllGrow(gs, hs)
    ensures AllGrow(fs, hs)
  {
    forall f | 0 <= f < |fs| ensures Grows(fs[f], hs[f]) {
      assert Grows(fs[f], gs[f]) && Grows(gs[f], hs[f]);
    }
  }

  lemma {:induction false} FramesGrow(lines: seq<Line>, firstSuccessOnly: bool, n: nat, m: nat)
    requires n <= m <= |lines|
    ensures AllGrow(ParseUpTo(lines, firstSuccessOnly, n).frames, ParseUpTo(lines, firstSuccessOnly, m).frames)
    decreases m - n
  {
    hide ParseUpTo, Grows;
    if n < m {
      hide *;
      var st := ParseUpTo(lines, firstSuccessOnly, m - 1);
      FramesGrow(lines, firstSuccessOnly, n, m - 1);
      ParseInv(lines, firstSuccessOnly, m - 1);
      OpenOnStackAlways(lines, firstSuccessOnly, m - 1);
      StepGrows(st, m - 1, lines[m - 1], firstSuccessOnly);
      ParseNext(lines, firstSuccessOnly, m - 1);
      AllGrowTransitive(ParseUpTo(lines, firstSuccessOnly, n).frames, st.frames,
                        ParseUpTo(lines, firstSuccessOnly, m).frames);
    } else {
      AllGrowSame(ParseUpTo(lines, firstSuccessOnly, n).frames);
    }
  }

  // Which frames a line opens

  lemma {:induction false} OpenedAtSame(fs: seq<Frame>, gs: seq<Frame>, i: nat)
    requires |fs| == |gs| && forall f | 0 <= f < |fs| :: fs[f].openIdx == gs[f].openIdx
    ensures OpenedAt(fs, i) == OpenedAt(gs, i)
  {
    if fs != [] {
      OpenedAtSame(fs[..|fs| - 1], gs[..|fs| - 1], i);
    }
  }

  /** The frames that a line opens, among those opened before line n. */
  function Opens(lines: seq<Line>, firstSuccessOnly: bool, n: nat, i: nat): seq<nat>
    requires n <= |lines|
  {
    if i < n && lines[i].head.Solve? then [|ParseUpTo(lines, firstSuccessOnly, i).frames|] else []
  }

  lemma StepOpens(st: ParseState, k: nat, line: Line, firstSuccessOnly: bool, i: nat)
    requires st.StackInRange()
    ensures OpenedAt(ParseStep(st, k, line, firstSuccessOnly).frames, i)
         == OpenedAt(st.frames, i) + (if line.head.Solve? && i == k then [|st.frames|] else [])
  {
    hide OpenedAt, Advanced, Marked;
    var st1 := if Marking(st, line, firstSuccessOnly) then Marked(st) else st;
    MarkedOpens(st, i);
    MarkedShape(st);
    AdvancedOpens(st1, k, line.head, i);
  }

  lemma MarkedOpens(st: ParseState, i: nat)
    ensures OpenedAt(Marked(st).frames, i) == OpenedAt(st.frames, i) && |Marked(st).frames| == |st.frames|
  {
    OpenedAtSame(Marked(st).frames, st.frames, i);
  }

  lemma AdvancedOpens(st: ParseState, k: nat, head: Head, i: nat)
    requires st.StackInRange()
    ensures OpenedAt(Advanced(st, k, head).frames, i)
         == OpenedAt(st.frames, i) + (if head.Solve? && i == k then [|st.frames|] else [])
  {
    hide OpenedAt, Pushed;
    if head.Solve? {
      PushedOpens(st, k, i);
    } else {
      OpenedAtSame(Advanced(st, k, head).frames, st.frames, i);
    }
  }

  lemma PushedOpens(st: ParseState, k: nat, i: nat)
    requires st.StackInRange()
    ensures OpenedAt(Pushed(st, k).frames, i) == OpenedAt(st.frames, i) + (if i == k then [|st.frames|] else [])
  {
    var frames, n := Pushed(st, k).frames, |st.frames|;
    assert |frames| == n + 1 && frames[n].openIdx == k;
    assert forall f | 0 <= f < n :: frames[f].openIdx == st.frames[f].openIdx;
    hide Pushed;
    OpenedAtSame(frames[..n], st.frames, i);
  }

  /** Every solve line opens one frame, numbered by the frames before it. */
  lemma {:induction false} OpenedAtExact(lines: seq<Line>, firstSuccessOnly: bool, n: nat, i: nat)
    requires n <= |lines|
    ensures OpenedAt(ParseUpTo(lines, firstSuccessOnly, n).frames, i) == Opens(lines, firstSuccessOnly, n, i)
  {
    hide ParseUpTo, ParseStep, OpenedAt;
    if n == 0 {
      ParseStart(lines, firstSuccessOnly);
      NothingOpened(i);
    } else {
      ParseNext(lines, firstSuccessOnly, n - 1);
      OpenedAtExact(lines, firstSuccessOnly, n - 1, i);
      StepOpens(ParseUpTo(lines, firstSuccessOnly, n - 1), n - 1, lines[n - 1], firstSuccessOnly, i);
    }
  }

  lemma NothingOpened(i: nat)
    ensures OpenedAt([], i) == []
  {
  }

  lemma ParsedForest(lines: seq<Line>, firstSuccessOnly: bool)
    ensures Forest(Parsed(lines, firstSuccessOnly).frames) && FramesOk(Parsed(lines, firstSuccessOnly).frames)
  {
    hide FramesOk, ParseUpTo;
    ParseInv(lines, firstSuccessOnly, |lines|);
    FramesOkForest(Parsed(lines, firstSuccessOnly).frames);
  }

  /** What the second pass does to its stacks at a line. */
  lemma EmitStacks(parsed: ParseState, st: EmitState, i: nat, head: Head)
    requires Forest(parsed.frames)
    requires forall p | 0 <= p < |st.frameStack| :: st.frameStack[p] < |parsed.frames|
    ensures var stack := st.frameStack + OpenedAt(parsed.frames, i);
            var st' := EmitStep(parsed, st, i, head);
            && st'.frameStack == (if head.Qed? then DropLast(stack) else stack)
            && st'.caseStack == (match head
                                 case Case => st.caseStack + [i]
                                 case Next => DropLast(st.caseStack)
                                 case Qed => if stack == [] then st.caseStack
                                             else Truncated(st.caseStack,
                                                            parsed.frames[stack[|stack| - 1]].caseDepthStart)
                                 case _ => st.caseStack)
            && st'.out == st.out + (if PrintedAt(parsed, st, i, head) then [i] else [])
  {
    hide Printed, OpenedAt;
  }

  /** Whether the second pass prints a line, from the state before it. */
  predicate PrintedAt(parsed: ParseState, st: EmitState, i: nat, head: Head)
    requires Forest(parsed.frames)
    requires forall p | 0 <= p < |st.frameStack| :: st.frameStack[p] < |parsed.frames|
  {
    var caseStack :=
      if head.Case? then st.caseStack + [i] else if head.Next? then DropLast(st.caseStack) else st.caseStack;
    Printed(parsed, st.frameStack + OpenedAt(parsed.frames, i), caseStack, st, i, head)
  }

  /** One line moves the frame and case stacks of both passes alike. */
  lemma StepAgrees(st: ParseState, parsed: ParseState, e: EmitState, i: nat, line: Line, firstSuccessOnly: bool)
    requires st.StackInRange() && Forest(parsed.frames) && AllGrow(st.frames, parsed.frames)
    requires e.frameStack == st.frameStack && e.caseStack == st.caseStack
    requires OpenedAt(parsed.frames, i) == (if line.head.Solve? then [|st.frames|] else [])
    requires forall p | 0 <= p < |e.frameStack| :: e.frameStack[p] < |parsed.frames|
    ensures EmitStep(parsed, e, i, line.head).frameStack == ParseStep(st, i, line, firstSuccessOnly).frameStack
    ensures EmitStep(parsed, e, i, line.head).caseStack == ParseStep(st, i, line, firstSuccessOnly).caseStack
  {
    hide OpenedAt, EmitStep, ParseStep, PrintedAt, Forest, Truncated;
    EmitStacks(parsed, e, i, line.head);
    StepShape(st, i, line, firstSuccessOnly);
    if line.head.Qed? && st.frameStack != [] {
      var top := st.frameStack[|st.frameStack| - 1];
      assert Grows(st.frames[top], parsed.frames[top]);
    }
  }

  /** Before every line, the second pass has the frame and case stacks that the first pass had. */
  lemma {:induction false} PassesAgree(lines: seq<Line>, firstSuccessOnly: bool, n: nat)
    requires n <= |lines|
    ensures Forest(Parsed(lines, firstSuccessOnly).frames)
    ensures EmitUpTo(lines, Parsed(lines, firstSuccessOnly), n).frameStack
         == ParseUpTo(lines, firstSuccessOnly, n).frameStack
    ensures EmitUpTo(lines, Parsed(lines, firstSuccessOnly), n).caseStack
         == ParseUpTo(lines, firstSuccessOnly, n).caseStack
  {
    hide *;
    ParsedForest(lines, firstSuccessOnly);
    var parsed := Parsed(lines, firstSuccessOnly);
    if n == 0 {
      ParseStart(lines, firstSuccessOnly);
      EmitStart(lines, parsed);
    } else {
      ParseNext(lines, firstSuccessOnly, n - 1);
      EmitNext(lines, parsed, n - 1);
      PassesAgree(lines, firstSuccessOnly, n - 1);
      OpenedAtFinal(lines, firstSuccessOnly, n - 1);
      ParsedGrew(lines, firstSuccessOnly, n - 1);
      StepAgrees(ParseUpTo(lines, firstSuccessOnly, n - 1), parsed, EmitUpTo(lines, parsed, n - 1), n - 1, lines[n - 1],
                 firstSuccessOnly);
    }
  }

  lemma ParsedGrew(lines: seq<Line>, firstSuccessOnly: bool, n: nat)
    requires n <= |lines|
    ensures AllGrow(ParseUpTo(lines, firstSuccessOnly, n).frames, Parsed(lines, firstSuccessOnly).frames)
  {
    hide ParseUpTo, AllGrow;
    FramesGrow(lines, firstSuccessOnly, n, |lines|);
  }

  lemma OpenedAtFinal(lines: seq<Line>, firstSuccessOnly: bool, i: nat)
    requires i < |lines|
    ensures OpenedAt(Parsed(lines, firstSuccessOnly).frames, i)
         == (if lines[i].head.Solve? then [|ParseUpTo(lines, firstSuccessOnly, i).frames|] else [])
  {
    hide OpenedAt, ParseUpTo;
    OpenedAtExact(lines, firstSuccessOnly, |lines|, i);
  }
}
