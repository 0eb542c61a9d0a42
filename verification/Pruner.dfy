/** Pruning a Tamarin proof script down to the paths that end in success. */
module Pruner {
  import opened Modular

  /** The keyword at the start of a line. */
  datatype Head = Simplify | Solve | Case | Qed | Next | Other

  /** What the two passes look at in a line. */
  datatype Line = Line(head: Head, success: bool)

  /** A proof block. Frames are numbered in the order in which they open. */
  datatype Frame = Frame(openIdx: nat, closeIdx: Option<nat>, keep: bool, parent: Option<nat>, children: seq<nat>,
                         caseDepthStart: nat)

  /** The state of the first pass. Cases are known by the lines that open them. */
  datatype ParseState = ParseState(frames: seq<Frame>, frameStack: seq<nat>, caseStack: seq<nat>,
                                   caseKeep: map<nat, bool>, firstSuccessSeen: bool)
  {
    predicate StackInRange() {
      forall p | 0 <= p < |frameStack| :: frameStack[p] < |frames|
    }
  }

  const START: ParseState := ParseState([], [], [], map[], false)

  // The first pass

  /** A success keeps all open frames and all active cases. */
  function Marked(st: ParseState): ParseState {
    st.(frames := seq(|st.frames|, f requires 0 <= f < |st.frames| =>
          if f in st.frameStack then st.frames[f].(keep := true) else st.frames[f]),
        caseKeep := map k | k in st.caseKeep :: st.caseKeep[k] || k in st.caseStack,
        firstSuccessSeen := true)
  }

  function Pushed(st: ParseState, i: nat): ParseState
    requires st.StackInRange()
  {
    var f, depth := |st.frames|, |st.caseStack|;
    if st.frameStack == [] then
      st.(frames := st.frames + [Frame(i, None, false, None, [], depth)], frameStack := [f])
    else
      var p := st.frameStack[|st.frameStack| - 1];
      var frames := st.frames[p := st.frames[p].(children := st.frames[p].children + [f])];
      st.(frames := frames + [Frame(i, None, false, Some(p), [], depth)], frameStack := st.frameStack + [f])
  }

  function Truncated(cases: seq<nat>, depth: nat): seq<nat> {
    if |cases| > depth then cases[..depth] else cases
  }

  function DropLast(s: seq<nat>): seq<nat> {
    if s == [] then [] else s[..|s| - 1]
  }

  /** Close the innermost frame; the cases opened under it are closed with it. */
  function Popped(st: ParseState, i: nat): ParseState
    requires st.StackInRange()
  {
    if st.frameStack == [] then
      st
    else
      var f := st.frameStack[|st.frameStack| - 1];
      st.(frames := st.frames[f := st.frames[f].(closeIdx := Some(i))],
          frameStack := DropLast(st.frameStack),
          caseStack := Truncated(st.caseStack, st.frames[f].caseDepthStart))
  }

  /** Whether a line marks what is open. */
  predicate Marking(st: ParseState, line: Line, firstSuccessOnly: bool) {
    line.success && (!firstSuccessOnly || !st.firstSuccessSeen)
  }

  /** What the keyword of a line does. */
  function Advanced(st: ParseState, i: nat, head: Head): (st': ParseState)
    requires st.StackInRange()
    ensures st'.StackInRange()
  {
    match head
    case Solve => Pushed(st, i)
    case Case => st.(caseStack := st.caseStack + [i], caseKeep := st.caseKeep[i := false])
    case Qed => Popped(st, i)
    case Next => st.(caseStack := DropLast(st.caseStack))
    case _ => st
  }

  function ParseStep(st: ParseState, i: nat, line: Line, firstSuccessOnly: bool): (st': ParseState)
    requires st.StackInRange()
    ensures st'.StackInRange()
  {
    Advanced(if Marking(st, line, firstSuccessOnly) then Marked(st) else st, i, line.head)
  }

  /** The frame stack after a line. */
  function StackAfter(st: ParseState, head: Head): seq<nat> {
    match head
    case Solve => st.frameStack + [|st.frames|]
    case Qed => DropLast(st.frameStack)
    case _ => st.frameStack
  }

  /** The active cases after a line. */
  function CasesAfter(st: ParseState, i: nat, head: Head): seq<nat>
    requires st.StackInRange()
  {
    match head
    case Case => st.caseStack + [i]
    case Qed =>
      if st.frameStack == [] then st.caseStack
      else Truncated(st.caseStack, st.frames[st.frameStack[|st.frameStack| - 1]].caseDepthStart)
    case Next => DropLast(st.caseStack)
    case _ => st.caseStack
  }

  lemma MarkedShape(st: ParseState)
    ensures Marked(st).frameStack == st.frameStack && Marked(st).caseStack == st.caseStack
    ensures |Marked(st).frames| == |st.frames|
    ensures forall f | 0 <= f < |st.frames| :: Marked(st).frames[f].caseDepthStart == st.frames[f].caseDepthStart
  {
  }

  /** What a line does to the stacks does not depend on what is kept. */
  lemma StepShape(st: ParseState, i: nat, line: Line, firstSuccessOnly: bool)
    requires st.StackInRange()
    ensures ParseStep(st, i, line, firstSuccessOnly).frameStack == StackAfter(st, line.head)
    ensures ParseStep(st, i, line, firstSuccessOnly).caseStack == CasesAfter(st, i, line.head)
  {
    hide Marked, Truncated;
    MarkedShape(st);
  }

  /** The state of the first pass before line n. */
  function ParseUpTo(lines: seq<Line>, firstSuccessOnly: bool, n: nat): (st: ParseState)
    requires n <= |lines|
    ensures st.StackInRange()
  {
    if n == 0 then START else ParseStep(ParseUpTo(lines, firstSuccessOnly, n - 1), n - 1, lines[n - 1],
                                        firstSuccessOnly)
  }

  /** One line more. */
  lemma ParseNext(lines: seq<Line>, firstSuccessOnly: bool, i: nat)
    requires i < |lines|
    ensures ParseUpTo(lines, firstSuccessOnly, i + 1)
         == ParseStep(ParseUpTo(lines, firstSuccessOnly, i), i, lines[i], firstSuccessOnly)
  {
    hide ParseStep;
  }

  lemma ParseStart(lines: seq<Line>, firstSuccessOnly: bool)
    ensures ParseUpTo(lines, firstSuccessOnly, 0) == ParseState([], [], [], map[], false)
  {
  }

  function Parsed(lines: seq<Line>, firstSuccessOnly: bool): ParseState {
    ParseUpTo(lines, firstSuccessOnly, |lines|)
  }

  // The second pass

  /** Children open after their parents. */
  ghost predicate Forest(frames: seq<Frame>) {
    forall f, j | 0 <= f < |frames| && 0 <= j < |frames[f].children| :: f < frames[f].children[j] < |frames|
  }

  predicate HasKeptDesc(frames: seq<Frame>, f: nat)
    requires Forest(frames) && f < |frames|
    decreases |frames| - f
  {
    frames[f].keep || exists j | 0 <= j < |frames[f].children| :: HasKeptDesc(frames, frames[f].children[j])
  }

  datatype EmitState = EmitState(frameStack: seq<nat>, caseStack: seq<nat>, atBeginning: bool, lastOutputQed: bool,
                                 out: seq<nat>)

  const EMIT_START: EmitState := EmitState([], [], true, false, [])

  /** The frames opened by a line. */
  function OpenedAt(frames: seq<Frame>, i: nat): (fs: seq<nat>)
    ensures forall p | 0 <= p < |fs| :: fs[p] < |frames|
  {
    if frames == [] then
      []
    else
      var n := |frames| - 1;
      OpenedAt(frames[..n], i) + (if frames[n].openIdx == i then [n] else [])
  }

  predicate CaseKept(caseKeep: map<nat, bool>, k: nat) {
    k in caseKeep && caseKeep[k]
  }

  /** Whether a line is printed, given the stacks in force for it. */
  predicate Printed(parsed: ParseState, frameStack: seq<nat>, caseStack: seq<nat>, st: EmitState, i: nat, head: Head)
    requires Forest(parsed.frames)
    requires forall p | 0 <= p < |frameStack| :: frameStack[p] < |parsed.frames|
  {
    var onKeptPath := frameStack != [] && HasKeptDesc(parsed.frames, frameStack[|frameStack| - 1]);
    match head
    case Next => false
    case Simplify => !st.lastOutputQed && (onKeptPath || st.atBeginning)
    case Case => onKeptPath && CaseKept(parsed.caseKeep, i)
    case Solve => onKeptPath
    case Qed => onKeptPath
    case Other =>
      && (exists p | 0 <= p < |frameStack| :: HasKeptDesc(parsed.frames, frameStack[p]))
      && (forall p | 0 <= p < |caseStack| :: CaseKept(parsed.caseKeep, caseStack[p]))
  }

  function EmitStep(parsed: ParseState, st: EmitState, i: nat, head: Head): (st': EmitState)
    requires Forest(parsed.frames)
    requires forall p | 0 <= p < |st.frameStack| :: st.frameStack[p] < |parsed.frames|
    ensures forall p | 0 <= p < |st'.frameStack| :: st'.frameStack[p] < |parsed.frames|
  {
    var frameStack := st.frameStack + OpenedAt(parsed.frames, i);
    var caseStack :=
      if head.Case? then st.caseStack + [i] else if head.Next? then DropLast(st.caseStack) else st.caseStack;
    var printed := Printed(parsed, frameStack, caseStack, st, i, head);
    var out := if printed then st.out + [i] else st.out;
    if head.Qed? then
      if frameStack == [] then
        EmitState(frameStack, caseStack, st.atBeginning, st.lastOutputQed || printed, out)
      else
        var depth := parsed.frames[frameStack[|frameStack| - 1]].caseDepthStart;
        EmitState(DropLast(frameStack), Truncated(caseStack, depth), st.atBeginning, st.lastOutputQed || printed, out)
    else
      EmitState(frameStack, caseStack, false, st.lastOutputQed, out)
  }

  /** The state of the second pass before line n. */
  function EmitUpTo(lines: seq<Line>, parsed: ParseState, n: nat): (st: EmitState)
    requires n <= |lines| && Forest(parsed.frames)
    ensures forall p | 0 <= p < |st.frameStack| :: st.frameStack[p] < |parsed.frames|
  {
    if n == 0 then EMIT_START else EmitStep(parsed, EmitUpTo(lines, parsed, n - 1), n - 1, lines[n - 1].head)
  }

  lemma EmitStart(lines: seq<Line>, parsed: ParseState)
    requires Forest(parsed.frames)
    ensures EmitUpTo(lines, parsed, 0) == EmitState([], [], true, false, [])
  {
  }

  lemma EmitNext(lines: seq<Line>, parsed: ParseState, i: nat)
    requires i < |lines| && Forest(parsed.frames)
    ensures EmitUpTo(lines, parsed, i + 1) == EmitStep(parsed, EmitUpTo(lines, parsed, i), i, lines[i].head)
  {
    hide EmitStep, Forest;
  }

  // What the first pass keeps

  /** A frame on the stack was opened inside the one below it. */
  ghost predicate Linked(st: ParseState, p: nat)
    requires st.StackInRange() && p < |st.frameStack|
  {
    st.frames[st.frameStack[p]].parent == if p == 0 then None else Some(st.frameStack[p - 1])
  }

  ghost predicate StackIncreasing(stack: seq<nat>) {
    forall p, r | 0 <= p < r < |stack| :: stack[p] < stack[r]
  }

  /** Parents come before their children, parents and children know each other, and what is inside a
    * frame that is not kept is not kept. */
  ghost predicate FrameOk(frames: seq<Frame>, f: nat)
    requires f < |frames|
  {
    && (frames[f].parent.Some? ==>
          && frames[f].parent.value < f
          && f in frames[frames[f].parent.value].children
          && (frames[f].keep ==> frames[frames[f].parent.value].keep))
    && (forall j | 0 <= j < |frames[f].children| ::
          f < frames[f].children[j] < |frames| && frames[frames[f].children[j]].parent == Some(f))
  }

  ghost predicate FramesOk(frames: seq<Frame>) {
    forall f | 0 <= f < |frames| :: FrameOk(frames, f)
  }

  ghost predicate Inv(st: ParseState) {
    && st.StackInRange()
    && (forall p | 0 <= p < |st.frameStack| :: Linked(st, p))
    && StackIncreasing(st.frameStack)
    && FramesOk(st.frames)
  }

  lemma FramesOkForest(frames: seq<Frame>)
    requires FramesOk(frames)
    ensures Forest(frames)
  {
    forall f, j | 0 <= f < |frames| && 0 <= j < |frames[f].children| ensures f < frames[f].children[j] < |frames| {
      assert FrameOk(frames, f);
    }
  }

  lemma MarkedInv(st: ParseState)
    requires Inv(st)
    ensures Inv(Marked(st))
  {
    var st' := Marked(st);
    forall p | 0 <= p < |st'.frameStack| ensures Linked(st', p) {
      assert Linked(st, p);
    }
    forall f | 0 <= f < |st'.frames| ensures FrameOk(st'.frames, f) {
      assert FrameOk(st.frames, f);
      if f in st.frameStack {
        var p :| 0 <= p < |st.frameStack| && st.frameStack[p] == f;
        assert Linked(st, p);
      }
    }
  }

  lemma PushedInv(st: ParseState, i: nat)
    requires Inv(st)
    ensures Inv(Pushed(st, i))
  {
    var st' := Pushed(st, i);
    var n := |st.frames|;
    forall p | 0 <= p < |st'.frameStack| ensures Linked(st', p) {
      if p < |st.frameStack| {
        assert Linked(st, p);
      }
    }
    forall f | 0 <= f < |st'.frames| ensures FrameOk(st'.frames, f) {
      if f < n {
        assert FrameOk(st.frames, f);
      }
    }
  }

  lemma PoppedInv(st: ParseState, i: nat)
    requires Inv(st)
    ensures Inv(Popped(st, i))
  {
    var st' := Popped(st, i);
    forall p | 0 <= p < |st'.frameStack| ensures Linked(st', p) {
      assert Linked(st, p);
    }
    forall f | 0 <= f < |st'.frames| ensures FrameOk(st'.frames, f) {
      assert FrameOk(st.frames, f);
    }
  }

  lemma StepInv(st: ParseState, i: nat, line: Line, firstSuccessOnly: bool)
    requires Inv(st)
    ensures Inv(ParseStep(st, i, line, firstSuccessOnly))
  {
    hide Marked, Advanced, FramesOk, StackIncreasing, Linked;
    MarkedInv(st);
    AdvancedInv(if Marking(st, line, firstSuccessOnly) then Marked(st) else st, i, line.head);
  }

  lemma AdvancedInv(st: ParseState, i: nat, head: Head)
    requires Inv(st)
    ensures Inv(Advanced(st, i, head))
  {
    hide Pushed, Popped, FramesOk, StackIncreasing;
    PushedInv(st, i);
    PoppedInv(st, i);
    var st' := Advanced(st, i, head);
    if !head.Solve? && !head.Qed? {
      assert st'.frames == st.frames && st'.frameStack == st.frameStack;
      forall p | 0 <= p < |st'.frameStack| ensures Linked(st', p) {
        assert Linked(st, p);
      }
    }
  }

  lemma {:induction false} ParseInv(lines: seq<Line>, firstSuccessOnly: bool, n: nat)
    requires n <= |lines|
    ensures Inv(ParseUpTo(lines, firstSuccessOnly, n))
  {
    hide ParseStep;
    if n > 0 {
      hide *;
      ParseInv(lines, firstSuccessOnly, n - 1);
      ParseNext(lines, firstSuccessOnly, n - 1);
      StepInv(ParseUpTo(lines, firstSuccessOnly, n - 1), n - 1, lines[n - 1], firstSuccessOnly);
    }
  }

  /** Keep flags are closed under parents, so searching descendants finds what the flag says. */
  lemma {:induction false} KeptDescIsKeep(frames: seq<Frame>, f: nat)
    requires FramesOk(frames) && Forest(frames) && f < |frames|
    ensures HasKeptDesc(frames, f) == frames[f].keep
    decreases |frames| - f
  {
    if !frames[f].keep {
      forall j | 0 <= j < |frames[f].children| ensures !HasKeptDesc(frames, frames[f].children[j]) {
        assert FrameOk(frames, f) && FrameOk(frames, frames[f].children[j]);
        KeptDescIsKeep(frames, frames[f].children[j]);
      }
    }
  }
}
