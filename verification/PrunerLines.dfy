/** Which solve blocks are open and which cases are active at a line, from the lines alone. */
module PrunerLines {
  import opened Modular
  import opened Pruner
  import opened PrunerPasses
  import opened PrunerPaths

  /** The lines of the solve blocks that are open before line n, the outermost first. */
  function OpenSolves(lines: seq<Line>, n: nat): (open: seq<nat>)
    requires n <= |lines|
    ensures forall p | 0 <= p < |open| :: open[p] < n
  {
    if n == 0 then
      []
    else
      var before := OpenSolves(lines, n - 1);
      match lines[n - 1].head
      case Solve => before + [n - 1]
      case Qed => if before == [] then [] else before[..|before| - 1]
      case _ => before
  }

  /** How many cases are active before line n: a qed goes back to as many as there were before the
    * solve line of the block it closes, if there are more. */
  function CaseDepth(lines: seq<Line>, n: nat): nat
    requires n <= |lines|
  {
    if n == 0 then
      0
    else
      var depth, open := CaseDepth(lines, n - 1), OpenSolves(lines, n - 1);
      match lines[n - 1].head
      case Case => depth + 1
      case Next => if depth == 0 then 0 else depth - 1
      case Qed =>
        if open != [] && CaseDepth(lines, open[|open| - 1]) < depth
        then CaseDepth(lines, open[|open| - 1]) else depth
      case _ => depth
  }

  /** The case of line k has not ended before line n: there are always more active cases than there
    * were before it. */
  ghost predicate CaseActive(lines: seq<Line>, k: nat, n: nat)
    requires n <= |lines|
  {
    && k < n
    && lines[k].head.Case?
    && forall j | k < j <= n :: CaseDepth(lines, j) > CaseDepth(lines, k)
  }

  // The state of the first pass

  /** Every frame remembers its line and how many cases were active before it. */
  ghost predicate FramesOfLines(lines: seq<Line>, frames: seq<Frame>, n: nat)
    requires n <= |lines|
  {
    forall f | 0 <= f < |frames| ::
      frames[f].openIdx < n && frames[f].caseDepthStart == CaseDepth(lines, frames[f].openIdx)
  }

  ghost predicate StackOfLines(lines: seq<Line>, st: ParseState, n: nat)
    requires n <= |lines| && st.StackInRange()
  {
    && |st.frameStack| == |OpenSolves(lines, n)|
    && (forall p | 0 <= p < |st.frameStack| :: st.frames[st.frameStack[p]].openIdx == OpenSolves(lines, n)[p])
  }

  /** The active cases are on the stack, each at the height it was opened at. */
  ghost predicate CasesOfLines(lines: seq<Line>, cases: seq<nat>, n: nat)
    requires n <= |lines|
  {
    && |cases| == CaseDepth(lines, n)
    && (forall p | 0 <= p < |cases| :: CaseActive(lines, cases[p], n) && CaseDepth(lines, cases[p]) == p)
  }

  /** The frames after a line: the ones before it, and one more if it is a solve line. */
  lemma StepFrames(st: ParseState, i: nat, line: Line, firstSuccessOnly: bool)
    requires st.StackInRange()
    ensures var frames := ParseStep(st, i, line, firstSuccessOnly).frames;
            && |frames| == |st.frames| + (if line.head.Solve? then 1 else 0)
            && (forall f | 0 <= f < |st.frames| ::
                  && frames[f].openIdx == st.frames[f].openIdx
                  && frames[f].caseDepthStart == st.frames[f].caseDepthStart)
            && (line.head.Solve? ==>
                  && frames[|st.frames|].openIdx == i
                  && frames[|st.frames|].caseDepthStart == |st.caseStack|)
  {
    hide Marked, Popped, Pushed;
    var st1 := if Marking(st, line, firstSuccessOnly) then Marked(st) else st;
    MarkedLines(st);
    PushedLines(st1, i);
    PoppedLines(st1, i);
  }

  lemma PushedLines(st: ParseState, i: nat)
    requires st.StackInRange()
    ensures var frames := Pushed(st, i).frames;
            && |frames| == |st.frames| + 1
            && (forall f | 0 <= f < |st.frames| ::
                  && frames[f].openIdx == st.frames[f].openIdx
                  && frames[f].caseDepthStart == st.frames[f].caseDepthStart)
            && frames[|st.frames|].openIdx == i && frames[|st.frames|].caseDepthStart == |st.caseStack|
  {
  }

  lemma MarkedLines(st: ParseState)
    ensures Marked(st).frameStack == st.frameStack && Marked(st).caseStack == st.caseStack
    ensures |Marked(st).frames| == |st.frames|
    ensures forall f | 0 <= f < |st.frames| ::
              && Marked(st).frames[f].openIdx == st.frames[f].openIdx
              && Marked(st).frames[f].caseDepthStart == st.frames[f].caseDepthStart
  {
  }

  lemma PoppedLines(st: ParseState, i: nat)
    requires st.StackInRange()
    ensures |Popped(st, i).frames| == |st.frames|
    ensures forall f | 0 <= f < |st.frames| ::
              && Popped(st, i).frames[f].openIdx == st.frames[f].openIdx
              && Popped(st, i).frames[f].caseDepthStart == st.frames[f].caseDepthStart
  {
  }

  /** A prefix of the active cases as long as the new depth holds the cases still active. */
  lemma CasesCut(lines: seq<Line>, cases: seq<nat>, i: nat)
    requires i < |lines| && CasesOfLines(lines, cases, i) && CaseDepth(lines, i + 1) <= |cases|
    ensures CasesOfLines(lines, cases[..CaseDepth(lines, i + 1)], i + 1)
  {
    hide CaseDepth;
    var left := cases[..CaseDepth(lines, i + 1)];
    forall p | 0 <= p < |left| ensures CaseActive(lines, left[p], i + 1) && CaseDepth(lines, left[p]) == p {
      assert CaseActive(lines, cases[p], i) && CaseDepth(lines, cases[p]) == p;
    }
  }

  lemma CasesGrow(lines: seq<Line>, cases: seq<nat>, i: nat)
    requires i < |lines| && CasesOfLines(lines, cases, i) && lines[i].head.Case?
    ensures CasesOfLines(lines, cases + [i], i + 1)
  {
    var more := cases + [i];
    assert CaseDepth(lines, i + 1) == CaseDepth(lines, i) + 1;
    hide CaseDepth;
    forall p | 0 <= p < |more| ensures CaseActive(lines, more[p], i + 1) && CaseDepth(lines, more[p]) == p {
      if p < |cases| {
        assert CaseActive(lines, cases[p], i) && CaseDepth(lines, cases[p]) == p;
      }
    }
  }

  /** How many cases a line that is no case line leaves. */
  lemma DepthAfter(lines: seq<Line>, st: ParseState, i: nat)
    requires i < |lines| && !lines[i].head.Case? && st.StackInRange()
    requires FramesOfLines(lines, st.frames, i) && StackOfLines(lines, st, i) && |st.caseStack| == CaseDepth(lines, i)
    ensures CaseDepth(lines, i + 1) <= |st.caseStack|
    ensures CasesAfter(st, i, lines[i].head) == st.caseStack[..CaseDepth(lines, i + 1)]
  {
    hide OpenSolves;
    assert st.caseStack[..|st.caseStack|] == st.caseStack;
    if lines[i].head.Qed? && st.frameStack != [] {
      var top := |st.frameStack| - 1;
      assert st.frames[st.frameStack[top]].openIdx == OpenSolves(lines, i)[top];
    }
  }

  lemma StepCases(lines: seq<Line>, st: ParseState, i: nat)
    requires i < |lines| && st.StackInRange()
    requires FramesOfLines(lines, st.frames, i) && StackOfLines(lines, st, i) && CasesOfLines(lines, st.caseStack, i)
    ensures CasesOfLines(lines, CasesAfter(st, i, lines[i].head), i + 1)
  {
    CasesCount(lines, st.caseStack, i);
    hide CasesOfLines, FramesOfLines, StackOfLines, CaseDepth;
    if lines[i].head.Case? {
      CasesGrow(lines, st.caseStack, i);
    } else {
      DepthAfter(lines, st, i);
      CasesCut(lines, st.caseStack, i);
    }
  }

  lemma StepOpen(lines: seq<Line>, firstSuccessOnly: bool, i: nat)
    requires i < |lines| && StackOfLines(lines, ParseUpTo(lines, firstSuccessOnly, i), i)
    ensures StackOfLines(lines, ParseUpTo(lines, firstSuccessOnly, i + 1), i + 1)
  {
    hide ParseUpTo, ParseStep;
    var st, st' := ParseUpTo(lines, firstSuccessOnly, i), ParseUpTo(lines, firstSuccessOnly, i + 1);
    ParseNext(lines, firstSuccessOnly, i);
    StepFrames(st, i, lines[i], firstSuccessOnly);
    StepStack(lines, firstSuccessOnly, i);
  }

  lemma StepFramesOfLines(lines: seq<Line>, firstSuccessOnly: bool, i: nat)
    requires i < |lines| && FramesOfLines(lines, ParseUpTo(lines, firstSuccessOnly, i).frames, i)
    requires |ParseUpTo(lines, firstSuccessOnly, i).caseStack| == CaseDepth(lines, i)
    ensures FramesOfLines(lines, ParseUpTo(lines, firstSuccessOnly, i + 1).frames, i + 1)
  {
    hide ParseUpTo, ParseStep, CaseDepth;
    ParseNext(lines, firstSuccessOnly, i);
    StepFrames(ParseUpTo(lines, firstSuccessOnly, i), i, lines[i], firstSuccessOnly);
  }

  lemma StepCasesOfLines(lines: seq<Line>, firstSuccessOnly: bool, i: nat)
    requires i < |lines|
    requires var st := ParseUpTo(lines, firstSuccessOnly, i);
             FramesOfLines(lines, st.frames, i) && StackOfLines(lines, st, i) && CasesOfLines(lines, st.caseStack, i)
    ensures CasesOfLines(lines, ParseUpTo(lines, firstSuccessOnly, i + 1).caseStack, i + 1)
  {
    hide *;
    var st := ParseUpTo(lines, firstSuccessOnly, i);
    ParseNext(lines, firstSuccessOnly, i);
    StepShape(st, i, lines[i], firstSuccessOnly);
    StepCases(lines, st, i);
  }

  lemma NoLines(lines: seq<Line>, firstSuccessOnly: bool)
    ensures FramesOfLines(lines, ParseUpTo(lines, firstSuccessOnly, 0).frames, 0)
    ensures StackOfLines(lines, ParseUpTo(lines, firstSuccessOnly, 0), 0)
    ensures CasesOfLines(lines, ParseUpTo(lines, firstSuccessOnly, 0).caseStack, 0)
  {
  }

  /** Before every line, the stacks of the first pass are what the lines alone say. */
  lemma {:induction false} StateOfLines(lines: seq<Line>, firstSuccessOnly: bool, n: nat)
    requires n <= |lines|
    ensures FramesOfLines(lines, ParseUpTo(lines, firstSuccessOnly, n).frames, n)
    ensures StackOfLines(lines, ParseUpTo(lines, firstSuccessOnly, n), n)
    ensures CasesOfLines(lines, ParseUpTo(lines, firstSuccessOnly, n).caseStack, n)
  {
    hide *;
    if n == 0 {
      NoLines(lines, firstSuccessOnly);
    } else {
      StateOfLines(lines, firstSuccessOnly, n - 1);
      CasesCount(lines, ParseUpTo(lines, firstSuccessOnly, n - 1).caseStack, n - 1);
      StepFramesOfLines(lines, firstSuccessOnly, n - 1);
      StepOpen(lines, firstSuccessOnly, n - 1);
      StepCasesOfLines(lines, firstSuccessOnly, n - 1);
    }
  }

  lemma CasesCount(lines: seq<Line>, cases: seq<nat>, n: nat)
    requires n <= |lines| && CasesOfLines(lines, cases, n)
    ensures |cases| == CaseDepth(lines, n)
  {
  }

  /** The active cases before a line are exactly those that the lines alone say are active. */
  lemma ActiveExactly(lines: seq<Line>, firstSuccessOnly: bool, n: nat, k: nat)
    requires n <= |lines|
    ensures k in ParseUpTo(lines, firstSuccessOnly, n).caseStack <==> CaseActive(lines, k, n)
  {
    hide ParseUpTo, CaseDepth;
    StateOfLines(lines, firstSuccessOnly, n);
    var cases := ParseUpTo(lines, firstSuccessOnly, n).caseStack;
    if CaseActive(lines, k, n) {
      var other := cases[CaseDepth(lines, k)];
      assert CaseActive(lines, other, n) && CaseDepth(lines, other) == CaseDepth(lines, k);
      assert other == k;
    }
  }

  /** A qed line that closes the block of solve line o leaves the first of the active cases, as many
    * of them as were active before line o. */
  lemma QedClosesCases(lines: seq<Line>, firstSuccessOnly: bool, i: nat)
    requires i < |lines| && lines[i].head.Qed? && OpenSolves(lines, i) != []
    ensures var before := ParseUpTo(lines, firstSuccessOnly, i).caseStack;
            var o := Top(OpenSolves(lines, i));
            var atSolve := ParseUpTo(lines, firstSuccessOnly, o).caseStack;
            && o < i && lines[o].head.Solve?
            && ParseUpTo(lines, firstSuccessOnly, i + 1).caseStack
               == if |atSolve| < |before| then before[..|atSolve|] else before
  {
    hide ParseUpTo, ParseStep;
    var st, o := ParseUpTo(lines, firstSuccessOnly, i), Top(OpenSolves(lines, i));
    OpenIsSolve(lines, i, |OpenSolves(lines, i)| - 1);
    StateOfLines(lines, firstSuccessOnly, i);
    StateOfLines(lines, firstSuccessOnly, o);
    ParseNext(lines, firstSuccessOnly, i);
    StepShape(st, i, lines[i], firstSuccessOnly);
  }

  lemma {:induction false} OpenIsSolve(lines: seq<Line>, n: nat, p: nat)
    requires n <= |lines| && p < |OpenSolves(lines, n)|
    ensures lines[OpenSolves(lines, n)[p]].head.Solve?
  {
    if !lines[n - 1].head.Solve? || p < |OpenSolves(lines, n)| - 1 {
      OpenIsSolve(lines, n - 1, p);
    }
  }
}
