/** What the pruner leaves is already pruned. */
module PrunerAgain {
  import opened Modular
  import opened Pruner
  import opened PrunerPasses
  import opened PrunerPaths
  import opened PrunerFirstSuccess

  /** The printed lines, as line numbers, from the lines before line n. */
  function Out(lines: seq<Line>, n: nat): (out: seq<nat>)
    requires n <= |lines|
    ensures InOrder(out, n)
  {
    hide *;
    ParsedForest(lines, true);
    OutInOrder(lines, Parsed(lines, true), n);
    EmitUpTo(lines, Parsed(lines, true), n).out
  }

  /** The printed lines themselves. */
  function PrintedLines(lines: seq<Line>): (left: seq<Line>)
    ensures |left| == |Out(lines, |lines|)|
    ensures forall k | 0 <= k < |left| :: Out(lines, |lines|)[k] < |lines| && left[k] == lines[Out(lines, |lines|)[k]]
  {
    hide Out;
    var out := Out(lines, |lines|);
    assert InOrder(out, |lines|);
    seq(|out|, k requires 0 <= k < |out| => lines[out[k]])
  }

  lemma OutNext(lines: seq<Line>, i: nat)
    requires i < |lines|
    ensures Out(lines, i + 1) == Out(lines, i) || Out(lines, i + 1) == Out(lines, i) + [i]
  {
    hide Parsed, Forest, EmitUpTo, PrintedAt;
    ParsedForest(lines, true);
    EmitOut(lines, Parsed(lines, true), i);
    assert Out(lines, i) + [] == Out(lines, i);
  }

  lemma {:induction false} OutPrefix(lines: seq<Line>, i: nat, n: nat)
    requires i <= n <= |lines|
    ensures Out(lines, i) <= Out(lines, n)
    decreases n - i
  {
    hide Out;
    if i < n {
      OutNext(lines, n - 1);
      OutPrefix(lines, i, n - 1);
    }
  }

  /** The lines printed before the k-th printed line are the k first ones. */
  lemma PrintedBefore(lines: seq<Line>, k: nat)
    requires k < |PrintedLines(lines)|
    ensures Out(lines, |lines|)[k] < |lines|
    ensures |Out(lines, Out(lines, |lines|)[k])| == k
    ensures Out(lines, Out(lines, |lines|)[k] + 1) == Out(lines, Out(lines, |lines|)[k]) + [Out(lines, |lines|)[k]]
  {
    hide Out, PrintedLines;
    var out := Out(lines, |lines|);
    var i := out[k];
    var before, after := Out(lines, i), Out(lines, i + 1);
    OutPrefix(lines, i, |lines|);
    OutPrefix(lines, i + 1, |lines|);
    OutNext(lines, i);
    if after == before {
      IsPrinted(lines, i, k);
    }
    assert out[|before|] == after[|before|] == i;
  }

  /** A printed line is printed when it is reached. */
  lemma IsPrinted(lines: seq<Line>, i: nat, k: nat)
    requires i < |lines| && k < |Out(lines, |lines|)| && Out(lines, |lines|)[k] == i
    ensures |Out(lines, i + 1)| > |Out(lines, i)|
  {
    hide Parsed, Forest, EmitUpTo, PrintedAt;
    ParsedForest(lines, true);
    OutExact(lines, Parsed(lines, true), |lines|, i);
    EmitOut(lines, Parsed(lines, true), i);
    assert i in Out(lines, |lines|);
  }

  // The stacks for what is left

  /** The frames that are open for the printed lines are as many as the kept frames open in the
    * script. */
  lemma {:induction false} OpenAsKept(lines: seq<Line>, n: nat)
    requires n <= |lines|
    ensures |Out(lines, n)| <= |PrintedLines(lines)|
    ensures |ParseUpTo(PrintedLines(lines), true, |Out(lines, n)|).frameStack|
         == |KeptOf(Parsed(lines, true), ParseUpTo(lines, true, n).frameStack)|
  {
    hide *;
    OutPrefix(lines, n, |lines|);
    if n == 0 {
      NothingOpenYet(lines);
    } else {
      OutPrefix(lines, n - 1, |lines|);
      OpenAsKept(lines, n - 1);
      OpenAsKeptStep(lines, n - 1);
    }
  }

  lemma NothingOpenYet(lines: seq<Line>)
    ensures Out(lines, 0) == [] && ParseUpTo(PrintedLines(lines), true, 0).frameStack == []
    ensures KeptOf(Parsed(lines, true), ParseUpTo(lines, true, 0).frameStack) == []
  {
    hide Parsed, PrintedLines, ParseStep, Out;
    InOrderLength(Out(lines, 0), 0);
  }

  lemma {:induction false} InOrderLength(out: seq<nat>, n: nat)
    requires InOrder(out, n)
    ensures |out| <= n
    decreases |out|
  {
    if out != [] {
      InOrderLength(out[..|out| - 1], out[|out| - 1]);
    }
  }

  lemma OpenAsKeptStep(lines: seq<Line>, i: nat)
    requires i < |lines| && |Out(lines, i)| <= |PrintedLines(lines)| && |Out(lines, i + 1)| <= |PrintedLines(lines)|
    requires |ParseUpTo(PrintedLines(lines), true, |Out(lines, i)|).frameStack|
          == |KeptOf(Parsed(lines, true), ParseUpTo(lines, true, i).frameStack)|
    ensures |ParseUpTo(PrintedLines(lines), true, |Out(lines, i + 1)|).frameStack|
         == |KeptOf(Parsed(lines, true), ParseUpTo(lines, true, i + 1).frameStack)|
  {
    hide Parsed, PrintedLines, ParseUpTo, KeptOf, Out, PrintedByKeep, ReplayLine;
    var parsed, st, head := Parsed(lines, true), ParseUpTo(lines, true, i), lines[i].head;
    var k := |Out(lines, i)|;
    StepStack(lines, true, i);
    OutNext(lines, i);
    if |Out(lines, i + 1)| == k {
      NotPrinted(lines, i);
      SkipKept(parsed, st, i, head);
    } else {
      OutPrefix(lines, i + 1, |lines|);
      assert Out(lines, |lines|)[k] == i;
      StepStack(PrintedLines(lines), true, k);
      KeptAfter(lines, i);
    }
  }

  lemma NotPrinted(lines: seq<Line>, i: nat)
    requires i < |lines| && |Out(lines, i + 1)| == |Out(lines, i)|
    ensures lines[i].head.Simplify? || !PrintedByKeep(Parsed(lines, true), ParseUpTo(lines, true, i), i, lines[i].head)
  {
    hide Parsed, Forest, EmitUpTo, PrintedAt, PrintedByKeep, ParseUpTo;
    ParsedForest(lines, true);
    EmitOut(lines, Parsed(lines, true), i);
    if !lines[i].head.Simplify? {
      LinePrinted(lines, true, i);
    }
  }

  lemma IsPrintedByKeep(lines: seq<Line>, i: nat)
    requires i < |lines| && |Out(lines, i + 1)| > |Out(lines, i)| && !lines[i].head.Simplify?
    ensures PrintedByKeep(Parsed(lines, true), ParseUpTo(lines, true, i), i, lines[i].head)
  {
    hide Parsed, Forest, EmitUpTo, PrintedAt, PrintedByKeep, ParseUpTo;
    ParsedForest(lines, true);
    EmitOut(lines, Parsed(lines, true), i);
    LinePrinted(lines, true, i);
  }

  /** What a printed line does to the number of kept frames that are open. */
  lemma KeptAfter(lines: seq<Line>, i: nat)
    requires i < |lines| && |Out(lines, i + 1)| > |Out(lines, i)|
    ensures var parsed, st := Parsed(lines, true), ParseUpTo(lines, true, i);
            var n := |KeptOf(parsed, st.frameStack)|;
            |KeptOf(parsed, StackAfter(st, lines[i].head))|
            == match lines[i].head case Solve => n + 1 case Qed => if n == 0 then 0 else n - 1 case _ => n
  {
    hide Parsed, ParseUpTo, Out;
    var parsed, st, head := Parsed(lines, true), ParseUpTo(lines, true, i), lines[i].head;
    match head {
      case Solve =>
        IsPrintedByKeep(lines, i);
        KeptOfSnoc(parsed, st.frameStack, |st.frames|);
      case Qed =>
        IsPrintedByKeep(lines, i);
        assert st.frameStack == DropLast(st.frameStack) + [Top(st.frameStack)];
        KeptOfSnoc(parsed, DropLast(st.frameStack), Top(st.frameStack));
      case _ =>
    }
  }

  lemma {:induction false} KeptOfFound(parsed: ParseState, stack: seq<nat>, p: nat)
    requires p < |stack| && KeptFrame(parsed, stack[p])
    ensures KeptOf(parsed, stack) != []
    decreases |stack|
  {
    if p < |stack| - 1 {
      KeptOfFound(parsed, stack[..|stack| - 1], p);
    }
  }

  // The printed lines before and after the success

  /** The printed lines, in first-success mode with the success line among them. */
  ghost predicate Path(lines: seq<Line>, s: nat) {
    FirstSuccess(lines, s) && lines[s].head.Other? && OpenFrames(lines, s) != []
  }

  /** What is known of a printed line: it is no next line, solve and case lines come before the
    * success, and qed lines after it. */
  lemma PrintedHead(lines: seq<Line>, s: nat, k: nat)
    requires Path(lines, s) && k < |PrintedLines(lines)|
    ensures var i, head := Out(lines, |lines|)[k], PrintedLines(lines)[k].head;
            && !head.Next?
            && (head.Solve? || head.Case? ==> i < s)
            && (head.Qed? ==> s <= i)
  {
    hide Parsed, ParseUpTo, OpenFrames, Forest, EmitUpTo;
    var i := Out(lines, |lines|)[k];
    assert i in Out(lines, |lines|);
    match lines[i].head {
      case Solve => SolvesOnPath(lines, s, i);
      case Case => CasesOnPath(lines, s, i);
      case Qed => QedsFollow(lines, s, i);
      case Next => Output(lines, true, i);
      case _ =>
    }
  }

  /** Where the success line is among the printed ones. */
  lemma SuccessAt(lines: seq<Line>, s: nat) returns (t: nat)
    requires Path(lines, s)
    ensures t < |PrintedLines(lines)| && Out(lines, |lines|)[t] == s
    ensures FirstSuccess(PrintedLines(lines), t)
  {
    hide Parsed, ParseUpTo, OpenFrames, Forest, EmitUpTo;
    SuccessLineSurvives(lines, s);
    var out := Out(lines, |lines|);
    t :| 0 <= t < |out| && out[t] == s;
    forall j | 0 <= j < t ensures !PrintedLines(lines)[j].success {
      assert out[j] < out[t];
    }
  }

  lemma PrintedSides(lines: seq<Line>, s: nat, t: nat, k: nat)
    requires Path(lines, s) && t < |PrintedLines(lines)| && Out(lines, |lines|)[t] == s && k < |PrintedLines(lines)|
    ensures var head := PrintedLines(lines)[k].head;
            && !head.Next?
            && (k < t ==> !head.Qed?)
            && (t <= k ==> !head.Solve? && !head.Case?)
  {
    hide Out, PrintedLines, Path;
    PrintedHead(lines, s, k);
    var out := Out(lines, |lines|);
    if k < t {
      assert out[k] < out[t];
    } else if t < k {
      assert out[t] < out[k];
    }
  }

  ghost predicate SidesOf(left: seq<Line>, t: nat) {
    && t < |left|
    && (forall k | 0 <= k < |left| :: !left[k].head.Next?)
    && (forall k | 0 <= k < t :: !left[k].head.Qed?)
    && (forall k | t <= k < |left| :: !left[k].head.Solve? && !left[k].head.Case?)
  }

  /** One line leaves the stacks inside those at the success, if the lines have these sides. */
  lemma StepInside(left: seq<Line>, t: nat, k: nat)
    requires SidesOf(left, t) && k < |left|
    ensures var st, st' := ParseUpTo(left, true, k), ParseUpTo(left, true, k + 1);
            && (k < t ==> st.frameStack <= st'.frameStack && st.caseStack <= st'.caseStack)
            && (t <= k ==> st'.frameStack <= st.frameStack && st'.caseStack <= st.caseStack)
  {
    hide ParseUpTo, ParseStep;
    ParseNext(left, true, k);
    StepShape(ParseUpTo(left, true, k), k, left[k], true);
  }

  /** At every line, the stacks are prefixes of those at the success. */
  lemma {:induction false} StacksInside(left: seq<Line>, t: nat, k: nat)
    requires t < |left| && SidesOf(left, t) && k <= |left|
    ensures ParseUpTo(left, true, k).frameStack <= ParseUpTo(left, true, t).frameStack
    ensures ParseUpTo(left, true, k).caseStack <= ParseUpTo(left, true, t).caseStack
    decreases if k < t then t - k else k - t
  {
    hide ParseUpTo, SidesOf;
    if k < t {
      StepInside(left, t, k);
      StacksInside(left, t, k + 1);
    } else if t < k {
      StepInside(left, t, k - 1);
      StacksInside(left, t, k - 1);
    }
  }

  // Pruning again

  /** What is open for a printed line is kept when the printed lines are pruned again. */
  lemma AllKept(left: seq<Line>, t: nat, k: nat)
    requires FirstSuccess(left, t) && SidesOf(left, t) && k <= |left|
    ensures forall p | 0 <= p < |ParseUpTo(left, true, k).frameStack| ::
              KeptFrame(Parsed(left, true), ParseUpTo(left, true, k).frameStack[p])
    ensures forall p | 0 <= p < |ParseUpTo(left, true, k).caseStack| ::
              CaseKept(Parsed(left, true).caseKeep, ParseUpTo(left, true, k).caseStack[p])
  {
    hide ParseUpTo, Parsed, KeptFrame, CaseKept, SidesOf;
    StacksInside(left, t, k);
    var st, success := ParseUpTo(left, true, k), ParseUpTo(left, true, t);
    forall p | 0 <= p < |st.frameStack| ensures KeptFrame(Parsed(left, true), st.frameStack[p]) {
      KeptAtFirstSuccess(left, t, st.frameStack[p]);
      assert success.frameStack[p] == st.frameStack[p];
    }
    forall p | 0 <= p < |st.caseStack| ensures CaseKept(Parsed(left, true).caseKeep, st.caseStack[p]) {
      KeptAtFirstSuccess(left, t, st.caseStack[p]);
      assert success.caseStack[p] == st.caseStack[p];
    }
  }

  /** Some frame is open for every printed line, except perhaps solve lines and the first simplify line. */
  lemma SomethingOpen(lines: seq<Line>, k: nat)
    requires k < |PrintedLines(lines)| && !PrintedLines(lines)[k].head.Solve? && !PrintedLines(lines)[k].head.Next?
    requires PrintedLines(lines)[k].head.Simplify? ==> k > 0
    ensures ParseUpTo(PrintedLines(lines), true, k).frameStack != []
  {
    hide Out, PrintedLines, Parsed, ParseUpTo, KeptFrame, CaseKept, KeptOf;
    PrintedBefore(lines, k);
    var i := Out(lines, |lines|)[k];
    var parsed, st := Parsed(lines, true), ParseUpTo(lines, true, i);
    OpenAsKept(lines, i);
    if lines[i].head.Simplify? {
      SimplifyInside(lines, k);
      KeptOfFound(parsed, st.frameStack, |st.frameStack| - 1);
    } else {
      IsPrintedByKeep(lines, i);
      var p :| 0 <= p < |st.frameStack| && KeptFrame(parsed, st.frameStack[p]);
      KeptOfFound(parsed, st.frameStack, p);
    }
  }

  /** A printed simplify line has no qed line printed before it, and lies in a kept frame unless it comes first. */
  lemma SimplifyInside(lines: seq<Line>, k: nat)
    requires k < |PrintedLines(lines)| && PrintedLines(lines)[k].head.Simplify?
    ensures !QedIn(lines, Out(lines, Out(lines, |lines|)[k]))
    ensures k > 0 ==> var stack := ParseUpTo(lines, true, Out(lines, |lines|)[k]).frameStack;
                      stack != [] && KeptFrame(Parsed(lines, true), Top(stack))
  {
    hide Parsed, ParseUpTo, Forest, EmitUpTo, KeptFrame, QedIn;
    var i := Out(lines, |lines|)[k];
    assert i in Out(lines, |lines|);
    SimplifyExactly(lines, true, i);
    PrintedBefore(lines, k);
    if k > 0 {
      OnlyQed(lines, Out(lines, i), i);
    }
  }

  lemma OnlyQed(lines: seq<Line>, out: seq<nat>, i: nat)
    requires i <= |lines| && InOrder(out, i) && out != []
    ensures (forall j | 0 <= j < i :: lines[j].head.Qed?) ==> QedIn(lines, out)
  {
    assert out[0] < i;
  }

  /** Every printed line is printed again. */
  lemma PrintedAgain(lines: seq<Line>, s: nat, k: nat)
    requires Path(lines, s) && k < |PrintedLines(lines)|
    ensures k in Out(PrintedLines(lines), |PrintedLines(lines)|)
  {
    hide PrintedLines, Parsed, ParseUpTo, Forest, EmitUpTo, KeptFrame, CaseKept, Path, SidesOf;
    var left := PrintedLines(lines);
    var t := SuccessAt(lines, s);
    LeftSides(lines, s, t);
    AllKept(left, t, k);
    AllKept(left, t, k + 1);
    var st := ParseUpTo(left, true, k);
    ParsedForest(left, true);
    if !left[k].head.Solve? && (left[k].head.Simplify? ==> k > 0) {
      assert !left[k].head.Next? by { PrintedSides(lines, s, t, k); }
      SomethingOpen(lines, k);
    }
    match left[k].head {
      case Simplify =>
        SimplifyAgain(lines, k);
      case Solve =>
        StepStack(left, true, k);
        assert ParseUpTo(left, true, k + 1).frameStack[|st.frameStack|] == |st.frames|;
        Output(left, true, k);
      case Case =>
        StepCases(left, k);
        assert ParseUpTo(left, true, k + 1).caseStack[|st.caseStack|] == k;
        Output(left, true, k);
      case Next => PrintedSides(lines, s, t, k);
      case _ =>
        assert KeptFrame(Parsed(left, true), st.frameStack[0]);
        Output(left, true, k);
    }
  }

  lemma StepCases(left: seq<Line>, k: nat)
    requires k < |left|
    ensures ParseUpTo(left, true, k + 1).caseStack == CasesAfter(ParseUpTo(left, true, k), k, left[k].head)
  {
    hide ParseUpTo, ParseStep;
    ParseNext(left, true, k);
    StepShape(ParseUpTo(left, true, k), k, left[k], true);
  }

  lemma LeftSides(lines: seq<Line>, s: nat, t: nat)
    requires Path(lines, s) && t < |PrintedLines(lines)| && Out(lines, |lines|)[t] == s
    ensures SidesOf(PrintedLines(lines), t)
  {
    hide Out, PrintedLines, Path;
    forall k | 0 <= k < |PrintedLines(lines)|
      ensures !PrintedLines(lines)[k].head.Next?
      ensures k < t ==> !PrintedLines(lines)[k].head.Qed?
      ensures t <= k ==> !PrintedLines(lines)[k].head.Solve? && !PrintedLines(lines)[k].head.Case?
    {
      PrintedSides(lines, s, t, k);
    }
  }

  lemma SimplifyAgain(lines: seq<Line>, k: nat)
    requires k < |PrintedLines(lines)| && PrintedLines(lines)[k].head.Simplify?
    requires k > 0 ==> ParseUpTo(PrintedLines(lines), true, k).frameStack != []
    requires forall p | 0 <= p < |ParseUpTo(PrintedLines(lines), true, k).frameStack| ::
               KeptFrame(Parsed(PrintedLines(lines), true), ParseUpTo(PrintedLines(lines), true, k).frameStack[p])
    ensures k in Out(PrintedLines(lines), |PrintedLines(lines)|)
  {
    hide PrintedLines, Parsed, ParseUpTo, Forest, EmitUpTo, KeptFrame, QedIn;
    var left := PrintedLines(lines);
    SimplifyExactly(left, true, k);
    SimplifyInside(lines, k);
    PrintedBefore(lines, k);
    OutPrefix(lines, Out(lines, |lines|)[k], |lines|);
    QedAgain(lines, k);
  }

  /** A qed line printed again before the k-th printed line was printed before it. */
  lemma QedAgain(lines: seq<Line>, k: nat)
    requires k < |PrintedLines(lines)|
    ensures QedIn(PrintedLines(lines), Out(PrintedLines(lines), k)) ==> QedIn(lines, Out(lines, Out(lines, |lines|)[k]))
  {
    hide PrintedLines, Out;
    var left, again, i := PrintedLines(lines), Out(PrintedLines(lines), k), Out(lines, |lines|)[k];
    PrintedBefore(lines, k);
    OutPrefix(lines, i, |lines|);
    if QedIn(left, again) {
      var j :| 0 <= j < |again| && again[j] < |left| && left[again[j]].head.Qed?;
      assert InOrder(again, k);
      assert Out(lines, i)[again[j]] == Out(lines, |lines|)[again[j]];
    }
  }

  /** The line numbers from zero. */
  function Numbers(n: nat): (r: seq<nat>)
    ensures |r| == n
  {
    seq(n, k => k)
  }

  ghost predicate HasAll(out: seq<nat>, n: nat) {
    forall k | 0 <= k < n :: k in out
  }

  lemma LastInOrder(out: seq<nat>, n: nat, p: nat)
    requires InOrder(out, n) && p < |out| && out[p] == n - 1
    ensures p == |out| - 1
  {
    InOrderAfter(out, n, p);
  }

  lemma {:induction false} InOrderAfter(out: seq<nat>, n: nat, p: nat)
    requires InOrder(out, n) && p < |out|
    ensures out[p] + (|out| - 1 - p) < n
    decreases |out|
  {
    if p < |out| - 1 {
      InOrderAfter(out[..|out| - 1], out[|out| - 1], p);
    }
  }

  lemma {:induction false} AllNumbers(out: seq<nat>, n: nat)
    requires InOrder(out, n) && HasAll(out, n)
    ensures out == Numbers(n)
    decreases n
  {
    hide InOrder;
    if n == 0 {
      InOrderLength(out, 0);
    } else {
      var m := |out| - 1;
      var p := Occurrence(out, n - 1);
      LastInOrder(out, n, p);
      AllButLast(out, n);
      AllNumbers(out[..m], n - 1);
      assert out == out[..m] + [n - 1];
    }
  }

  lemma Occurrence(out: seq<nat>, x: nat) returns (p: nat)
    requires x in out
    ensures p < |out| && out[p] == x
  {
    p :| 0 <= p < |out| && out[p] == x;
  }

  lemma AllButLast(out: seq<nat>, n: nat)
    requires 0 < |out| && 0 < n && InOrder(out, n) && out[|out| - 1] == n - 1
    requires HasAll(out, n)
    ensures InOrder(out[..|out| - 1], n - 1) && HasAll(out[..|out| - 1], n - 1)
  {
    var rest, m := out[..|out| - 1], n - 1;
    forall k | 0 <= k < m ensures k in rest {
      var p := Occurrence(out, k);
      assert rest[p] == k;
    }
  }

  /** Pruning is finished after one run: when the first success is a line of its own inside a
    * frame, pruning what is left prints every line of it. */
  lemma PruningAgain(lines: seq<Line>, s: nat)
    requires FirstSuccess(lines, s) && lines[s].head.Other? && OpenFrames(lines, s) != []
    ensures Out(PrintedLines(lines), |PrintedLines(lines)|) == Numbers(|PrintedLines(lines)|)
  {
    hide Out, PrintedLines, OpenFrames;
    forall k: nat | k < |PrintedLines(lines)| ensures k in Out(PrintedLines(lines), |PrintedLines(lines)|) {
      PrintedAgain(lines, s, k);
    }
    AllNumbers(Out(PrintedLines(lines), |PrintedLines(lines)|), |PrintedLines(lines)|);
  }
}
