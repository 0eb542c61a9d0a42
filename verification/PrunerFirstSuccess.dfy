/** Which parts of a proof script the pruner leaves: the path to the first success. */
module PrunerFirstSuccess {
  import opened Modular
  import opened Pruner
  import opened PrunerLines
  import opened PrunerPasses
  import opened PrunerPaths

  // Which keep flags are set

  /** Whether a line marks what is open: every success does, or only the first one. */
  ghost predicate Marks(lines: seq<Line>, firstSuccessOnly: bool, i: nat)
    requires i < |lines|
  {
    lines[i].success && (firstSuccessOnly ==> forall j | 0 <= j < i :: !lines[j].success)
  }

  ghost predicate SuccessBefore(lines: seq<Line>, n: nat)
    requires n <= |lines|
  {
    exists j | 0 <= j < n :: lines[j].success
  }

  ghost predicate FrameMarked(lines: seq<Line>, firstSuccessOnly: bool, n: nat, f: nat)
    requires n <= |lines|
  {
    exists i | 0 <= i < n :: Marks(lines, firstSuccessOnly, i) && f in ParseUpTo(lines, firstSuccessOnly, i).frameStack
  }

  ghost predicate CaseMarked(lines: seq<Line>, firstSuccessOnly: bool, n: nat, k: nat)
    requires n <= |lines|
  {
    exists i | 0 <= i < n :: Marks(lines, firstSuccessOnly, i) && CaseActive(lines, k, i)
  }

  /** Active cases are known, and all known cases were opened by earlier lines. */
  ghost predicate CasesKnown(st: ParseState, i: nat) {
    && (forall p | 0 <= p < |st.caseStack| :: st.caseStack[p] in st.caseKeep)
    && (forall k | k in st.caseKeep :: k < i)
  }

  lemma MarkedFrameKeep(st: ParseState, f: nat)
    requires f < |st.frames|
    ensures |Marked(st).frames| == |st.frames|
         && (Marked(st).frames[f].keep <==> st.frames[f].keep || f in st.frameStack)
  {
  }

  lemma AdvancedFrameKeep(st: ParseState, i: nat, head: Head, f: nat)
    requires st.StackInRange() && f < |Advanced(st, i, head).frames|
    ensures Advanced(st, i, head).frames[f].keep <==> f < |st.frames| && st.frames[f].keep
    ensures |st.frames| <= |Advanced(st, i, head).frames|
  {
  }

  /** What one line does to the keep flag of a frame. */
  lemma StepFrameKeep(st: ParseState, i: nat, line: Line, firstSuccessOnly: bool, f: nat)
    requires st.StackInRange() && f < |ParseStep(st, i, line, firstSuccessOnly).frames|
    ensures ParseStep(st, i, line, firstSuccessOnly).frames[f].keep
       <==> f < |st.frames| && (st.frames[f].keep || (Marking(st, line, firstSuccessOnly) && f in st.frameStack))
    ensures |st.frames| <= |ParseStep(st, i, line, firstSuccessOnly).frames|
  {
    hide Marked, Advanced;
    MarkedShape(st);
    if f < |st.frames| {
      MarkedFrameKeep(st, f);
    }
    AdvancedFrameKeep(if Marking(st, line, firstSuccessOnly) then Marked(st) else st, i, line.head, f);
  }

  lemma MarkedCaseKeep(st: ParseState, i: nat, k: nat)
    requires CasesKnown(st, i)
    ensures CasesKnown(Marked(st), i)
    ensures CaseKept(Marked(st).caseKeep, k) <==> CaseKept(st.caseKeep, k) || k in st.caseStack
    ensures Marked(st).firstSuccessSeen
  {
  }

  lemma AdvancedCaseKeep(st: ParseState, i: nat, head: Head, k: nat)
    requires st.StackInRange() && CasesKnown(st, i)
    ensures CasesKnown(Advanced(st, i, head), i + 1)
    ensures CaseKept(Advanced(st, i, head).caseKeep, k) <==> CaseKept(st.caseKeep, k)
    ensures Advanced(st, i, head).firstSuccessSeen == st.firstSuccessSeen
  {
  }

  /** What one line does to the keep flag of a case. */
  lemma StepCaseKeep(st: ParseState, i: nat, line: Line, firstSuccessOnly: bool, k: nat)
    requires st.StackInRange() && CasesKnown(st, i)
    ensures CaseKept(ParseStep(st, i, line, firstSuccessOnly).caseKeep, k)
       <==> CaseKept(st.caseKeep, k) || (Marking(st, line, firstSuccessOnly) && k in st.caseStack)
    ensures CasesKnown(ParseStep(st, i, line, firstSuccessOnly), i + 1)
    ensures ParseStep(st, i, line, firstSuccessOnly).firstSuccessSeen == (st.firstSuccessSeen || line.success)
  {
    hide Marked, Advanced, CasesKnown, CaseKept;
    MarkedShape(st);
    MarkedCaseKeep(st, i, k);
    AdvancedCaseKeep(if Marking(st, line, firstSuccessOnly) then Marked(st) else st, i, line.head, k);
  }

  lemma {:induction false} SuccessSeen(lines: seq<Line>, firstSuccessOnly: bool, n: nat)
    requires n <= |lines|
    ensures ParseUpTo(lines, firstSuccessOnly, n).firstSuccessSeen <==> SuccessBefore(lines, n)
    ensures CasesKnown(ParseUpTo(lines, firstSuccessOnly, n), n)
  {
    hide ParseStep;
    if n > 0 {
      var st := ParseUpTo(lines, firstSuccessOnly, n - 1);
      ParseNext(lines, firstSuccessOnly, n - 1);
      hide ParseUpTo, CasesKnown;
      SuccessSeen(lines, firstSuccessOnly, n - 1);
      StepCaseKeep(st, n - 1, lines[n - 1], firstSuccessOnly, 0);
    }
  }

  lemma MarkingMarks(lines: seq<Line>, firstSuccessOnly: bool, i: nat)
    requires i < |lines|
    ensures Marking(ParseUpTo(lines, firstSuccessOnly, i), lines[i], firstSuccessOnly)
         == Marks(lines, firstSuccessOnly, i)
  {
    hide ParseUpTo, CasesKnown;
    SuccessSeen(lines, firstSuccessOnly, i);
  }

  /** The keep flag of a frame is set exactly when the frame was open at a marking success. */
  lemma {:induction false} FrameKeptExactly(lines: seq<Line>, firstSuccessOnly: bool, n: nat, f: nat)
    requires n <= |lines| && f < |ParseUpTo(lines, firstSuccessOnly, n).frames|
    ensures ParseUpTo(lines, firstSuccessOnly, n).frames[f].keep <==> FrameMarked(lines, firstSuccessOnly, n, f)
  {
    hide ParseStep, Marks, Grows;
    if n > 0 {
      var st := ParseUpTo(lines, firstSuccessOnly, n - 1);
      ParseNext(lines, firstSuccessOnly, n - 1);
      hide ParseUpTo, Marking;
      StepFrameKeep(st, n - 1, lines[n - 1], firstSuccessOnly, f);
      MarkingMarks(lines, firstSuccessOnly, n - 1);
      if f < |st.frames| {
        FrameKeptExactly(lines, firstSuccessOnly, n - 1, f);
      } else {
        forall i | 0 <= i < n ensures f !in ParseUpTo(lines, firstSuccessOnly, i).frameStack {
          FramesGrow(lines, firstSuccessOnly, i, n - 1);
          assert ParseUpTo(lines, firstSuccessOnly, i).StackInRange();
        }
      }
    }
  }

  /** The keep flag of a case is set exactly when the case was active at a marking success. */
  lemma {:induction false} CaseKeptExactly(lines: seq<Line>, firstSuccessOnly: bool, n: nat, k: nat)
    requires n <= |lines|
    ensures CaseKept(ParseUpTo(lines, firstSuccessOnly, n).caseKeep, k) <==> CaseMarked(lines, firstSuccessOnly, n, k)
  {
    hide ParseStep, Marks, CasesKnown, CaseActive;
    if n > 0 {
      var st := ParseUpTo(lines, firstSuccessOnly, n - 1);
      ParseNext(lines, firstSuccessOnly, n - 1);
      hide ParseUpTo, Marking;
      SuccessSeen(lines, firstSuccessOnly, n - 1);
      StepCaseKeep(st, n - 1, lines[n - 1], firstSuccessOnly, k);
      ActiveExactly(lines, firstSuccessOnly, n - 1, k);
      MarkingMarks(lines, firstSuccessOnly, n - 1);
      CaseKeptExactly(lines, firstSuccessOnly, n - 1, k);
    }
  }

  // First-success mode

  ghost predicate FirstSuccess(lines: seq<Line>, s: nat) {
    s < |lines| && lines[s].success && forall j | 0 <= j < s :: !lines[j].success
  }

  /** The frames open at a line. */
  function OpenFrames(lines: seq<Line>, s: nat): seq<nat>
    requires s < |lines|
  {
    ParseUpTo(lines, true, s).frameStack
  }

  /** In first-success mode, what is kept is what is open at the first success. */
  lemma KeptAtFirstSuccess(lines: seq<Line>, s: nat, x: nat)
    requires FirstSuccess(lines, s)
    ensures KeptFrame(Parsed(lines, true), x) <==> x in OpenFrames(lines, s)
    ensures CaseKept(Parsed(lines, true).caseKeep, x) <==> CaseActive(lines, x, s)
    ensures CaseKept(Parsed(lines, true).caseKeep, x) <==> x in ParseUpTo(lines, true, s).caseStack
  {
    hide ParseUpTo, Grows, CaseActive;
    ActiveExactly(lines, true, s, x);
    CaseKeptExactly(lines, true, |lines|, x);
    assert forall i | 0 <= i < |lines| :: Marks(lines, true, i) <==> i == s;
    if x < |Parsed(lines, true).frames| {
      FrameKeptExactly(lines, true, |lines|, x);
    }
    FramesGrow(lines, true, s, |lines|);
    assert ParseUpTo(lines, true, s).StackInRange();
  }

  /** Without any success, nothing but simplify lines is printed. */
  lemma NothingWithoutSuccess(lines: seq<Line>, firstSuccessOnly: bool, i: nat)
    requires forall j | 0 <= j < |lines| :: !lines[j].success
    ensures Forest(Parsed(lines, firstSuccessOnly).frames)
    ensures i in EmitUpTo(lines, Parsed(lines, firstSuccessOnly), |lines|).out
         ==> i < |lines| && lines[i].head.Simplify?
  {
    hide ParseUpTo, PrintedAt, OpenedAt, EmitUpTo, Forest;
    ParsedForest(lines, firstSuccessOnly);
    var parsed := Parsed(lines, firstSuccessOnly);
    OutExact(lines, parsed, |lines|, i);
    forall f: nat ensures !KeptFrame(parsed, f) {
      if f < |parsed.frames| {
        FrameKeptExactly(lines, firstSuccessOnly, |lines|, f);
      }
    }
    if i < |lines| && !lines[i].head.Simplify? {
      Output(lines, firstSuccessOnly, i);
    }
  }

  // The solve lines

  lemma {:induction false} OpenedAtMember(frames: seq<Frame>, i: nat, f: nat)
    ensures f in OpenedAt(frames, i) <==> f < |frames| && frames[f].openIdx == i
  {
    if frames != [] {
      OpenedAtMember(frames[..|frames| - 1], i, f);
    }
  }

  /** The frame that a solve line opens, and whether it is open at a later line. */
  lemma OpeningLine(lines: seq<Line>, s: nat, i: nat, f: nat)
    requires s < |lines| && f in OpenFrames(lines, s)
    ensures f < |Parsed(lines, true).frames|
    ensures Parsed(lines, true).frames[f].openIdx == i
       <==> i < |lines| && lines[i].head.Solve? && f == |ParseUpTo(lines, true, i).frames|
    ensures Parsed(lines, true).frames[f].openIdx == i ==> i < s
  {
    hide ParseUpTo, OpenedAt, Grows;
    assert ParseUpTo(lines, true, s).StackInRange();
    FramesGrow(lines, true, s, |lines|);
    OpenedAtMember(Parsed(lines, true).frames, i, f);
    OpenedAtExact(lines, true, |lines|, i);
    if s <= i < |lines| {
      FramesGrow(lines, true, s, i);
    }
  }

  /** The printed solve lines are exactly those whose frames are open at the first success, and
    * they all come before it. */
  lemma SolvesOnPath(lines: seq<Line>, s: nat, i: nat)
    requires FirstSuccess(lines, s)
    ensures Forest(Parsed(lines, true).frames)
    ensures forall p | 0 <= p < |OpenFrames(lines, s)| :: OpenFrames(lines, s)[p] < |Parsed(lines, true).frames|
    ensures i < |lines| && lines[i].head.Solve? && i in EmitUpTo(lines, Parsed(lines, true), |lines|).out
       <==> exists p | 0 <= p < |OpenFrames(lines, s)| ::
              Parsed(lines, true).frames[OpenFrames(lines, s)[p]].openIdx == i
    ensures i < |lines| && lines[i].head.Solve? && i in EmitUpTo(lines, Parsed(lines, true), |lines|).out ==> i < s
  {
    hide Parsed, ParseUpTo, EmitUpTo, OpenFrames, Forest, OpenedAt;
    ParsedForest(lines, true);
    var path := OpenFrames(lines, s);
    forall p | 0 <= p < |path|
      ensures path[p] < |Parsed(lines, true).frames|
      ensures Parsed(lines, true).frames[path[p]].openIdx == i
         <==> i < |lines| && lines[i].head.Solve? && path[p] == |ParseUpTo(lines, true, i).frames|
      ensures Parsed(lines, true).frames[path[p]].openIdx == i ==> i < s
    {
      OpeningLine(lines, s, i, path[p]);
    }
    if i < |lines| && lines[i].head.Solve? {
      Output(lines, true, i);
      KeptAtFirstSuccess(lines, s, |ParseUpTo(lines, true, i).frames|);
    }
  }

  // The qed lines

  /** The printed qed lines, in order. */
  function QedLines(lines: seq<Line>, out: seq<nat>): seq<nat> {
    if out == [] then
      []
    else
      var i := out[|out| - 1];
      QedLines(lines, out[..|out| - 1]) + (if i < |lines| && lines[i].head.Qed? then [i] else [])
  }

  lemma QedLinesSnoc(lines: seq<Line>, out: seq<nat>, i: nat)
    ensures QedLines(lines, out + [i]) == QedLines(lines, out) + (if i < |lines| && lines[i].head.Qed? then [i] else [])
  {
    assert (out + [i])[..|out|] == out;
  }

  /** What a line adds to the printed qed lines. */
  lemma QedStep(lines: seq<Line>, s: nat, i: nat)
    requires FirstSuccess(lines, s) && i < |lines|
    ensures Forest(Parsed(lines, true).frames)
    ensures var stack := ParseUpTo(lines, true, i).frameStack;
            (QedLines(lines, EmitUpTo(lines, Parsed(lines, true), i + 1).out)
             == QedLines(lines, EmitUpTo(lines, Parsed(lines, true), i).out)
                + (if lines[i].head.Qed? && stack != [] && Top(stack) in OpenFrames(lines, s) then [i] else []))
  {
    hide Parsed, ParseUpTo, EmitUpTo, OpenFrames, Forest, FirstSuccess, PrintedAt, QedLines, KeptFrame;
    ParsedForest(lines, true);
    var parsed := Parsed(lines, true);
    EmitOut(lines, parsed, i);
    var out := EmitUpTo(lines, parsed, i).out;
    QedLinesSnoc(lines, out, i);
    assert out + [] == out;
    if lines[i].head.Qed? {
      LinePrinted(lines, true, i);
      var stack := ParseUpTo(lines, true, i).frameStack;
      if stack != [] {
        KeptAtFirstSuccess(lines, s, Top(stack));
      }
    }
  }

  /** A frame closed before a line is not open at it. */
  lemma ClosedIsNotOpen(lines: seq<Line>, s: nat, i: nat)
    requires i < s < |lines| && lines[i].head.Qed? && ParseUpTo(lines, true, i).frameStack != []
    ensures Top(ParseUpTo(lines, true, i).frameStack) !in OpenFrames(lines, s)
  {
    hide ParseStep, OpenOnStack;
    var st, st' := ParseUpTo(lines, true, i), ParseUpTo(lines, true, i + 1);
    ParseNext(lines, true, i);
    hide ParseUpTo;
    QedCloses(st, i, lines[i], true);
    FramesGrow(lines, true, i + 1, s);
    assert Grows(st'.frames[Top(st.frameStack)], ParseUpTo(lines, true, s).frames[Top(st.frameStack)]);
    StackIsOpen(lines, s, Top(st.frameStack));
  }

  lemma StackIsOpen(lines: seq<Line>, n: nat, f: nat)
    requires n <= |lines|
    ensures f in ParseUpTo(lines, true, n).frameStack
       <==> f < |ParseUpTo(lines, true, n).frames| && ParseUpTo(lines, true, n).frames[f].closeIdx == None
  {
    hide ParseUpTo;
    assert ParseUpTo(lines, true, n).StackInRange();
    OpenOnStackAlways(lines, true, n);
  }

  lemma {:induction false} NoQedBefore(lines: seq<Line>, s: nat, n: nat)
    requires FirstSuccess(lines, s) && n <= s
    ensures Forest(Parsed(lines, true).frames)
    ensures QedLines(lines, EmitUpTo(lines, Parsed(lines, true), n).out) == []
  {
    hide Parsed, ParseUpTo, OpenFrames, Forest, EmitStep;
    ParsedForest(lines, true);
    if n > 0 {
      hide EmitUpTo, QedLines;
      NoQedBefore(lines, s, n - 1);
      QedStep(lines, s, n - 1);
      if lines[n - 1].head.Qed? && ParseUpTo(lines, true, n - 1).frameStack != [] {
        ClosedIsNotOpen(lines, s, n - 1);
      }
    }
  }

  /** The first j frames of a path are still open, above them only frames opened later, and the
    * others have been closed by the given lines, the innermost first. */
  ghost predicate Unwinding(stack: seq<nat>, frames: seq<Frame>, path: seq<nat>, later: nat, j: nat, qeds: seq<nat>) {
    && j <= |path| && j <= |stack| && stack[..j] == path[..j]
    && (forall p | j <= p < |stack| :: stack[p] >= later)
    && |qeds| == |path| - j
    && (forall p | j <= p < |path| :: path[p] < |frames| && frames[path[p]].closeIdx == Some(qeds[|path| - 1 - p]))
  }

  /** Closing a frame unwinds the path by one exactly when the frame is on the path. */
  lemma UnwindingQed(stack: seq<nat>, frames: seq<Frame>, path: seq<nat>, later: nat, j: nat, qeds: seq<nat>, i: nat)
    returns (j': nat)
    requires Unwinding(stack, frames, path, later, j, qeds) && (forall p | 0 <= p < |path| :: path[p] < later)
    requires stack != [] ==> Top(stack) < |frames| && frames[Top(stack)].closeIdx == Some(i)
    ensures Unwinding(DropLast(stack), frames, path, later, j',
                      qeds + (if stack != [] && Top(stack) in path then [i] else []))
  {
    j' := j;
    if stack == [] {
      assert qeds + [] == qeds;
    } else if |stack| > j {
      assert Top(stack) >= later;
      assert qeds + [] == qeds;
      assert DropLast(stack)[..j] == stack[..j];
    } else {
      assert Top(stack) == stack[..j][j - 1] == path[..j][j - 1];
      assert path[j - 1] in path;
      assert stack[..j - 1] == stack[..j][..j - 1] == path[..j][..j - 1] == path[..j - 1];
      j' := j - 1;
    }
  }

  lemma UnwindingPush(stack: seq<nat>, frames: seq<Frame>, path: seq<nat>, later: nat, j: nat, qeds: seq<nat>, f: nat)
    requires Unwinding(stack, frames, path, later, j, qeds) && f >= later
    ensures Unwinding(stack + [f], frames, path, later, j, qeds)
  {
    assert (stack + [f])[..j] == stack[..j];
  }

  /** From the first success on, the printed qed lines close the open frames one by one,
    * innermost first. */
  lemma {:induction false} QedsUnwind(lines: seq<Line>, s: nat, n: nat) returns (j: nat)
    requires FirstSuccess(lines, s) && s <= n <= |lines|
    ensures Forest(Parsed(lines, true).frames)
    ensures Unwinding(ParseUpTo(lines, true, n).frameStack, Parsed(lines, true).frames, OpenFrames(lines, s),
                      |ParseUpTo(lines, true, s).frames|, j,
                      QedLines(lines, EmitUpTo(lines, Parsed(lines, true), n).out))
  {
    hide Parsed, ParseUpTo, Forest, EmitUpTo, QedLines;
    ParsedForest(lines, true);
    var parsed, path, later := Parsed(lines, true), OpenFrames(lines, s), |ParseUpTo(lines, true, s).frames|;
    if n == s {
      NoQedBefore(lines, s, s);
      j := |path|;
    } else {
      var i := n - 1;
      var st := ParseUpTo(lines, true, i);
      hide OpenFrames, Unwinding;
      j := QedsUnwind(lines, s, i);
      QedStep(lines, s, i);
      StepStack(lines, true, i);
      var qeds := QedLines(lines, EmitUpTo(lines, parsed, i).out);
      match lines[i].head {
        case Solve =>
          FreshAfter(lines, s, i);
          UnwindingPush(st.frameStack, parsed.frames, path, later, j, qeds, |st.frames|);
          assert qeds + [] == qeds;
        case Qed =>
          PathBelow(lines, s);
          if st.frameStack != [] {
            CloseStays(lines, true, i);
          }
          j := UnwindingQed(st.frameStack, parsed.frames, path, later, j, qeds, i);
        case _ =>
          assert qeds + [] == qeds;
      }
    }
  }

  lemma FreshAfter(lines: seq<Line>, s: nat, i: nat)
    requires s <= i <= |lines|
    ensures |ParseUpTo(lines, true, s).frames| <= |ParseUpTo(lines, true, i).frames|
  {
    hide ParseUpTo, Grows;
    FramesGrow(lines, true, s, i);
  }

  lemma PathBelow(lines: seq<Line>, s: nat)
    requires s < |lines|
    ensures forall p | 0 <= p < |OpenFrames(lines, s)| :: OpenFrames(lines, s)[p] < |ParseUpTo(lines, true, s).frames|
  {
    hide ParseUpTo;
    assert ParseUpTo(lines, true, s).StackInRange();
  }

  /** The printed qed lines are the qed lines among the printed ones. */
  lemma {:induction false} QedLinesMember(lines: seq<Line>, out: seq<nat>, i: nat)
    ensures i in QedLines(lines, out) <==> i in out && i < |lines| && lines[i].head.Qed?
  {
    if out != [] {
      assert out == out[..|out| - 1] + [out[|out| - 1]];
      QedLinesMember(lines, out[..|out| - 1], i);
    }
  }

  /** The t-th printed qed line closes the t-th innermost frame open at the first success, for as
    * many of them as the script closes. */
  lemma QedsInnermostFirst(lines: seq<Line>, s: nat)
    requires FirstSuccess(lines, s)
    ensures Forest(Parsed(lines, true).frames)
    ensures var qeds, path := QedLines(lines, EmitUpTo(lines, Parsed(lines, true), |lines|).out), OpenFrames(lines, s);
            && |qeds| <= |path|
            && (forall p | 0 <= p < |path| ::
                  && path[p] < |Parsed(lines, true).frames|
                  && Parsed(lines, true).frames[path[p]].closeIdx
                     == if |path| - 1 - p < |qeds| then Some(qeds[|path| - 1 - p]) else None)
  {
    hide ParseUpTo, Forest, EmitUpTo, QedLines, OpenFrames;
    var j := QedsUnwind(lines, s, |lines|);
    var parsed, path := Parsed(lines, true), OpenFrames(lines, s);
    forall p | 0 <= p < j ensures path[p] < |parsed.frames| && parsed.frames[path[p]].closeIdx == None {
      assert parsed.frameStack[p] == parsed.frameStack[..j][p] == path[..j][p];
      StackIsOpen(lines, |lines|, path[p]);
    }
  }

  /** Every printed qed line comes at the first success or after it. */
  lemma QedsFollow(lines: seq<Line>, s: nat, i: nat)
    requires FirstSuccess(lines, s) && i < |lines| && lines[i].head.Qed?
    ensures Forest(Parsed(lines, true).frames)
    ensures i in EmitUpTo(lines, Parsed(lines, true), |lines|).out
       <==> ParseUpTo(lines, true, i).frameStack != []
            && Top(ParseUpTo(lines, true, i).frameStack) in OpenFrames(lines, s)
    ensures i in EmitUpTo(lines, Parsed(lines, true), |lines|).out ==> s <= i
  {
    hide Parsed, EmitUpTo, Forest, KeptFrame, ParseUpTo, OpenFrames;
    Output(lines, true, i);
    var stack := ParseUpTo(lines, true, i).frameStack;
    if stack != [] {
      KeptAtFirstSuccess(lines, s, Top(stack));
      if i < s {
        ClosedIsNotOpen(lines, s, i);
      }
    }
  }

  // The success line

  /** A success line of its own survives exactly when it lies inside a frame. */
  lemma SuccessLineSurvives(lines: seq<Line>, s: nat)
    requires FirstSuccess(lines, s) && lines[s].head.Other?
    ensures Forest(Parsed(lines, true).frames)
    ensures s in EmitUpTo(lines, Parsed(lines, true), |lines|).out <==> OpenFrames(lines, s) != []
  {
    hide Parsed, EmitUpTo, Forest, KeptFrame, CaseKept, ParseUpTo;
    Output(lines, true, s);
    forall x: nat ensures KeptFrame(Parsed(lines, true), x) <==> x in OpenFrames(lines, s)
             ensures CaseKept(Parsed(lines, true).caseKeep, x) <==> x in ParseUpTo(lines, true, s).caseStack {
      KeptAtFirstSuccess(lines, s, x);
    }
    assert OpenFrames(lines, s) != [] ==> OpenFrames(lines, s)[0] in OpenFrames(lines, s);
    assert OpenFrames(lines, s) == ParseUpTo(lines, true, s).frameStack;
  }

  /** A case line is printed only if its case is active at the first success, so before it. */
  lemma CasesOnPath(lines: seq<Line>, s: nat, i: nat)
    requires FirstSuccess(lines, s) && i < |lines| && lines[i].head.Case?
    ensures Forest(Parsed(lines, true).frames)
    ensures var stack := ParseUpTo(lines, true, i).frameStack;
            i in EmitUpTo(lines, Parsed(lines, true), |lines|).out
            <==> CaseActive(lines, i, s) && stack != [] && Top(stack) in OpenFrames(lines, s)
    ensures i in EmitUpTo(lines, Parsed(lines, true), |lines|).out ==> i < s
  {
    hide Parsed, EmitUpTo, Forest, KeptFrame, CaseKept, ParseUpTo, OpenFrames, CaseDepth;
    Output(lines, true, i);
    var stack := ParseUpTo(lines, true, i).frameStack;
    KeptAtFirstSuccess(lines, s, i);
    if stack != [] {
      KeptAtFirstSuccess(lines, s, Top(stack));
    }
  }
}
