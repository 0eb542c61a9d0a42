/** What the pruner prints, in either mode, as a property of the lines alone. */
module PrunerExact {
  import opened Modular
  import opened Pruner
  import opened PrunerFirstSuccess
  import opened PrunerLines
  import opened PrunerPasses
  import opened PrunerPaths

  /** The block of a solve line is open at a success that marks. */
  ghost predicate SolveKept(lines: seq<Line>, firstSuccessOnly: bool, o: nat) {
    exists m | 0 <= m < |lines| :: Marks(lines, firstSuccessOnly, m) && o in OpenSolves(lines, m)
  }

  /** A case is active at a success that marks. */
  ghost predicate CaseOnPath(lines: seq<Line>, firstSuccessOnly: bool, k: nat) {
    exists m | 0 <= m < |lines| :: Marks(lines, firstSuccessOnly, m) && CaseActive(lines, k, m)
  }

  ghost predicate InnermostKept(lines: seq<Line>, firstSuccessOnly: bool, i: nat)
    requires i <= |lines|
  {
    OpenSolves(lines, i) != [] && SolveKept(lines, firstSuccessOnly, Top(OpenSolves(lines, i)))
  }

  /** Some block around the line is kept, and all cases it lies in. */
  ghost predicate Surrounded(lines: seq<Line>, firstSuccessOnly: bool, i: nat)
    requires i <= |lines|
  {
    && (exists o :: o in OpenSolves(lines, i) && SolveKept(lines, firstSuccessOnly, o))
    && (forall k | CaseActive(lines, k, i) :: CaseOnPath(lines, firstSuccessOnly, k))
  }

  /** Whether a line is printed. */
  ghost predicate Shown(lines: seq<Line>, firstSuccessOnly: bool, i: nat)
    requires i < |lines|
  {
    match lines[i].head
    case Solve => SolveKept(lines, firstSuccessOnly, i)
    case Qed => InnermostKept(lines, firstSuccessOnly, i)
    case Case => InnermostKept(lines, firstSuccessOnly, i) && CaseOnPath(lines, firstSuccessOnly, i)
    case Other => Surrounded(lines, firstSuccessOnly, i)
    case Simplify =>
      && (forall j | 0 <= j < i && lines[j].head.Qed? :: !InnermostKept(lines, firstSuccessOnly, j))
      && (InnermostKept(lines, firstSuccessOnly, i) || forall j | 0 <= j < i :: lines[j].head.Qed?)
    case Next => false
  }

  // Frames and the lines that open them

  /** Every frame is opened by a solve line, and is numbered by the frames before that line. */
  lemma FrameOfLine(lines: seq<Line>, firstSuccessOnly: bool, f: nat)
    requires f < |Parsed(lines, firstSuccessOnly).frames|
    ensures var o := Parsed(lines, firstSuccessOnly).frames[f].openIdx;
            o < |lines| && lines[o].head.Solve? && f == |ParseUpTo(lines, firstSuccessOnly, o).frames|
  {
    hide ParseUpTo, OpenedAt;
    var o := Parsed(lines, firstSuccessOnly).frames[f].openIdx;
    OpenedAtMember(Parsed(lines, firstSuccessOnly).frames, o, f);
    OpenedAtExact(lines, firstSuccessOnly, |lines|, o);
  }

  lemma LineOfFrame(lines: seq<Line>, firstSuccessOnly: bool, o: nat)
    requires o < |lines| && lines[o].head.Solve?
    ensures var f := |ParseUpTo(lines, firstSuccessOnly, o).frames|;
            f < |Parsed(lines, firstSuccessOnly).frames| && Parsed(lines, firstSuccessOnly).frames[f].openIdx == o
  {
    hide ParseUpTo, OpenedAt;
    var f := |ParseUpTo(lines, firstSuccessOnly, o).frames|;
    OpenedAtMember(Parsed(lines, firstSuccessOnly).frames, o, f);
    OpenedAtExact(lines, firstSuccessOnly, |lines|, o);
    assert f in [f];
  }

  /** The frames on the stack are those of the open blocks, in the same order. */
  lemma StackLines(lines: seq<Line>, firstSuccessOnly: bool, n: nat)
    requires n <= |lines|
    ensures var stack := ParseUpTo(lines, firstSuccessOnly, n).frameStack;
            && |stack| == |OpenSolves(lines, n)|
            && (forall p | 0 <= p < |stack| ::
                  && stack[p] < |Parsed(lines, firstSuccessOnly).frames|
                  && Parsed(lines, firstSuccessOnly).frames[stack[p]].openIdx == OpenSolves(lines, n)[p])
  {
    hide ParseUpTo, OpenSolves;
    var st := ParseUpTo(lines, firstSuccessOnly, n);
    StateOfLines(lines, firstSuccessOnly, n);
    FramesGrow(lines, firstSuccessOnly, n, |lines|);
    forall p | 0 <= p < |st.frameStack|
      ensures Parsed(lines, firstSuccessOnly).frames[st.frameStack[p]].openIdx == OpenSolves(lines, n)[p]
    {
      assert Grows(st.frames[st.frameStack[p]], Parsed(lines, firstSuccessOnly).frames[st.frameStack[p]]);
    }
  }

  lemma FrameOpen(lines: seq<Line>, firstSuccessOnly: bool, n: nat, f: nat)
    requires n <= |lines| && f < |Parsed(lines, firstSuccessOnly).frames|
    ensures f in ParseUpTo(lines, firstSuccessOnly, n).frameStack
       <==> Parsed(lines, firstSuccessOnly).frames[f].openIdx in OpenSolves(lines, n)
  {
    hide Parsed, ParseUpTo, OpenSolves;
    StackLines(lines, firstSuccessOnly, n);
    FrameOfLine(lines, firstSuccessOnly, f);
    var o, stack := Parsed(lines, firstSuccessOnly).frames[f].openIdx, ParseUpTo(lines, firstSuccessOnly, n).frameStack;
    if o in OpenSolves(lines, n) {
      var p :| 0 <= p < |OpenSolves(lines, n)| && OpenSolves(lines, n)[p] == o;
      FrameOfLine(lines, firstSuccessOnly, stack[p]);
    }
  }

  /** A frame is kept exactly when its block is open at a success that marks. */
  lemma FrameKept(lines: seq<Line>, firstSuccessOnly: bool, f: nat)
    requires f < |Parsed(lines, firstSuccessOnly).frames|
    ensures KeptFrame(Parsed(lines, firstSuccessOnly), f)
       <==> SolveKept(lines, firstSuccessOnly, Parsed(lines, firstSuccessOnly).frames[f].openIdx)
  {
    hide ParseUpTo, OpenSolves, Marks;
    FrameKeptExactly(lines, firstSuccessOnly, |lines|, f);
    forall m | 0 <= m < |lines|
      ensures f in ParseUpTo(lines, firstSuccessOnly, m).frameStack
         <==> Parsed(lines, firstSuccessOnly).frames[f].openIdx in OpenSolves(lines, m)
    {
      FrameOpen(lines, firstSuccessOnly, m, f);
    }
  }

  lemma CaseKeptFromLines(lines: seq<Line>, firstSuccessOnly: bool, k: nat)
    ensures CaseKept(Parsed(lines, firstSuccessOnly).caseKeep, k) <==> CaseOnPath(lines, firstSuccessOnly, k)
  {
    hide ParseUpTo, Marks, CaseActive, CaseKept;
    CaseKeptExactly(lines, firstSuccessOnly, |lines|, k);
  }

  /** The frames on the stack at a line are kept exactly when their blocks are. */
  lemma StackKept(lines: seq<Line>, firstSuccessOnly: bool, n: nat, p: nat)
    requires n <= |lines| && p < |OpenSolves(lines, n)|
    ensures p < |ParseUpTo(lines, firstSuccessOnly, n).frameStack|
    ensures KeptFrame(Parsed(lines, firstSuccessOnly), ParseUpTo(lines, firstSuccessOnly, n).frameStack[p])
       <==> SolveKept(lines, firstSuccessOnly, OpenSolves(lines, n)[p])
  {
    hide Parsed, ParseUpTo, OpenSolves, SolveKept, KeptFrame;
    StackLines(lines, firstSuccessOnly, n);
    FrameKept(lines, firstSuccessOnly, ParseUpTo(lines, firstSuccessOnly, n).frameStack[p]);
  }

  lemma TopKept(lines: seq<Line>, firstSuccessOnly: bool, n: nat)
    requires n <= |lines|
    ensures var stack := ParseUpTo(lines, firstSuccessOnly, n).frameStack;
            stack != [] && KeptFrame(Parsed(lines, firstSuccessOnly), Top(stack))
            <==> InnermostKept(lines, firstSuccessOnly, n)
  {
    hide Parsed, ParseUpTo, OpenSolves, SolveKept, KeptFrame;
    StackLines(lines, firstSuccessOnly, n);
    if OpenSolves(lines, n) != [] {
      StackKept(lines, firstSuccessOnly, n, |OpenSolves(lines, n)| - 1);
    }
  }

  lemma SurroundedKept(lines: seq<Line>, firstSuccessOnly: bool, n: nat)
    requires n <= |lines|
    ensures var parsed, st := Parsed(lines, firstSuccessOnly), ParseUpTo(lines, firstSuccessOnly, n);
            && (exists p | 0 <= p < |st.frameStack| :: KeptFrame(parsed, st.frameStack[p]))
            && (forall p | 0 <= p < |st.caseStack| :: CaseKept(parsed.caseKeep, st.caseStack[p]))
            <==> Surrounded(lines, firstSuccessOnly, n)
  {
    hide Parsed, ParseUpTo, OpenSolves, SolveKept, KeptFrame, CaseActive, CaseOnPath, CaseKept;
    StackLines(lines, firstSuccessOnly, n);
    var parsed, st, open := Parsed(lines, firstSuccessOnly), ParseUpTo(lines, firstSuccessOnly, n),
                            OpenSolves(lines, n);
    forall p | 0 <= p < |open|
      ensures KeptFrame(parsed, st.frameStack[p]) <==> SolveKept(lines, firstSuccessOnly, open[p])
    {
      StackKept(lines, firstSuccessOnly, n, p);
    }
    forall k: nat ensures k in st.caseStack <==> CaseActive(lines, k, n) {
      ActiveExactly(lines, firstSuccessOnly, n, k);
    }
    forall k: nat ensures CaseKept(parsed.caseKeep, k) <==> CaseOnPath(lines, firstSuccessOnly, k) {
      CaseKeptFromLines(lines, firstSuccessOnly, k);
    }
    assert forall p | 0 <= p < |open| :: open[p] in open;
    assert forall p | 0 <= p < |st.caseStack| :: st.caseStack[p] in st.caseStack;
  }

  lemma PrintedFromLines(lines: seq<Line>, firstSuccessOnly: bool, i: nat)
    requires i < |lines| && !lines[i].head.Simplify?
    ensures PrintedByKeep(Parsed(lines, firstSuccessOnly), ParseUpTo(lines, firstSuccessOnly, i), i, lines[i].head)
       <==> Shown(lines, firstSuccessOnly, i)
  {
    hide Parsed, ParseUpTo, SolveKept, KeptFrame, CaseOnPath, CaseKept, InnermostKept, Surrounded;
    match lines[i].head {
      case Solve =>
        LineOfFrame(lines, firstSuccessOnly, i);
        FrameKept(lines, firstSuccessOnly, |ParseUpTo(lines, firstSuccessOnly, i).frames|);
      case Qed => TopKept(lines, firstSuccessOnly, i);
      case Case =>
        TopKept(lines, firstSuccessOnly, i);
        CaseKeptFromLines(lines, firstSuccessOnly, i);
      case Other => SurroundedKept(lines, firstSuccessOnly, i);
      case Next =>
    }
  }

  /** A qed line was printed before line n exactly when it closes a kept block. */
  lemma QedPrinted(lines: seq<Line>, firstSuccessOnly: bool, n: nat)
    requires n <= |lines|
    ensures Forest(Parsed(lines, firstSuccessOnly).frames)
    ensures QedIn(lines, EmitUpTo(lines, Parsed(lines, firstSuccessOnly), n).out)
       <==> exists j | 0 <= j < n :: lines[j].head.Qed? && InnermostKept(lines, firstSuccessOnly, j)
  {
    hide Parsed, ParseUpTo, EmitUpTo, Forest, PrintedAt, PrintedByKeep, InnermostKept, KeptFrame, OpenSolves;
    ParsedForest(lines, firstSuccessOnly);
    var parsed := Parsed(lines, firstSuccessOnly);
    var out := EmitUpTo(lines, parsed, n).out;
    forall j | 0 <= j < |lines| && lines[j].head.Qed?
      ensures j in out <==> j < n && InnermostKept(lines, firstSuccessOnly, j)
    {
      OutExact(lines, parsed, n, j);
      LinePrinted(lines, firstSuccessOnly, j);
      PrintedFromLines(lines, firstSuccessOnly, j);
    }
    forall k | 0 <= k < |out| ensures out[k] < n {
      assert out[k] in out;
      OutExact(lines, parsed, n, out[k]);
    }
  }

  /** In either mode, the lines printed are exactly those that the script's own lines call for. */
  lemma PrintedExactly(lines: seq<Line>, firstSuccessOnly: bool, i: nat)
    ensures Forest(Parsed(lines, firstSuccessOnly).frames)
    ensures i in EmitUpTo(lines, Parsed(lines, firstSuccessOnly), |lines|).out
       <==> i < |lines| && Shown(lines, firstSuccessOnly, i)
  {
    hide Parsed, ParseUpTo, EmitUpTo, Forest, PrintedAt, PrintedByKeep, SolveKept, InnermostKept, Surrounded, KeptFrame,
         OpenSolves, QedIn;
    ParsedForest(lines, firstSuccessOnly);
    OutExact(lines, Parsed(lines, firstSuccessOnly), |lines|, i);
    if i < |lines| {
      if lines[i].head.Simplify? {
        SimplifyExactly(lines, firstSuccessOnly, i);
        QedPrinted(lines, firstSuccessOnly, i);
        TopKept(lines, firstSuccessOnly, i);
      } else {
        Output(lines, firstSuccessOnly, i);
        PrintedFromLines(lines, firstSuccessOnly, i);
      }
    }
  }

  /** With one success in force, what is kept is what is open and active at it. */
  lemma KeptAtTheSuccess(lines: seq<Line>, s: nat)
    requires FirstSuccess(lines, s)
    ensures forall o :: SolveKept(lines, true, o) <==> o in OpenSolves(lines, s)
    ensures forall k :: CaseOnPath(lines, true, k) <==> CaseActive(lines, k, s)
  {
    hide OpenSolves, CaseActive;
    assert forall i | 0 <= i < |lines| :: Marks(lines, true, i) <==> i == s;
  }
}
