// The solution validator script: it splits the solver's output stream into
// solutions at sentinel lines, numbers them 1, 2, ... in order, and decides
// which of them to hand to the external validator.  Running the validator
// and writing the solution files are outside the model; what is modelled is
// which solution bodies are read, which solution numbers are validated and
// in which order, and how the run ends.

module ValidateSolutions {
  import opened Common

  const START: string := "solution start"
  const END: string := "solution end"

  /** The pattern occurs in the line starting at position i. */
  predicate OccursAt(line: string, pattern: string, i: int) {
    0 <= i && i + |pattern| <= |line| && line[i..i + |pattern|] == pattern
  }

  /** The line contains the pattern somewhere (Python's `in` on strings). */
  predicate Contains(line: string, pattern: string) {
    exists i :: 0 <= i <= |line| - |pattern| && OccursAt(line, pattern, i)
  }

  predicate IsStart(line: string) {
    Contains(line, START)
  }

  predicate IsEnd(line: string) {
    Contains(line, END)
  }

  /** The first line at or after position from that contains the end sentinel. */
  function EndIndex(lines: seq<string>, from: nat): (r: Option<nat>)
    requires from <= |lines|
    ensures r.Some? ==> from <= r.value < |lines| && IsEnd(lines[r.value]) &&
                        forall k :: from <= k < r.value ==> !IsEnd(lines[k])
    ensures r.None? ==> forall k :: from <= k < |lines| ==> !IsEnd(lines[k])
    decreases |lines| - from
  {
    if from == |lines| then None
    else if IsEnd(lines[from]) then Some(from)
    else EndIndex(lines, from + 1)
  }

  /** The solution bodies read, and whether the last one found its end line. */
  datatype Scanned = Scanned(bodies: seq<seq<string>>, complete: bool)

  /**
   * startReading's reading of the stream from position i: lines before a
   * start line are skipped; a start line begins a body that runs up to the
   * next end line, which is consumed; a body without an end line ends the
   * scan unfinished.
   */
  function ScanFrom(lines: seq<string>, i: nat): (r: Scanned)
    requires i <= |lines|
    ensures NoEndLines(r.bodies)
    ensures !r.complete ==> |r.bodies| > 0
    decreases |lines| - i
  {
    if i == |lines| then Scanned([], true)
    else if IsStart(lines[i]) then
      match EndIndex(lines, i + 1)
      case None => Scanned([lines[i + 1..]], false)
      case Some(j) =>
        var rest := ScanFrom(lines, j + 1);
        var body := lines[i + 1..j];
        assert forall k :: 0 <= k < |body| ==> body[k] == lines[i + 1 + k];
        Scanned([body] + rest.bodies, rest.complete)
    else ScanFrom(lines, i + 1)
  }

  /** The stream the solver writes for the given solutions, each between the sentinel lines. */
  function Render(bodies: seq<seq<string>>): (r: seq<string>)
    ensures |r| >= 2 * |bodies|
  {
    if |bodies| == 0 then [] else [START] + bodies[0] + [END] + Render(bodies[1..])
  }

  /** No line of any body contains the end sentinel. */
  ghost predicate NoEndLines(bodies: seq<seq<string>>) {
    forall b, k :: 0 <= b < |bodies| && 0 <= k < |bodies[b]| ==> !IsEnd(bodies[b][k])
  }

  lemma StartIsNotEnd()
    ensures IsStart(START) && !IsEnd(START) && IsEnd(END)
  {
    assert OccursAt(START, START, 0);
    assert OccursAt(END, END, 0);
    forall i | 0 <= i ensures !OccursAt(START, END, i) {
      if i + |END| <= |START| {
        assert START[i..i + |END|][9] == START[i + 9] != END[9];
      }
    }
  }

  /**
   * Reading a rendered stream gives back exactly the solutions it was made
   * from, whatever came before it, provided no body line contains the end
   * sentinel (a body line may contain the start sentinel).
   */
  lemma {:induction false} ScanRender(prefix: seq<string>, bodies: seq<seq<string>>)
    requires NoEndLines(bodies)
    ensures ScanFrom(prefix + Render(bodies), |prefix|) == Scanned(bodies, true)
    decreases |bodies|
  {
    if |bodies| > 0 {
      var prefix2 := prefix + [START] + bodies[0] + [END];
      var lines := prefix + Render(bodies);
      ScanFirstRendered(prefix, bodies, lines, |prefix2| - 1);
      RenderFirst(prefix, bodies, lines, |prefix2| - 1);
      assert NoEndLines(bodies[1..]) by {
        forall c, k | 0 <= c < |bodies[1..]| && 0 <= k < |bodies[1..][c]| ensures !IsEnd(bodies[1..][c][k]) {
          assert bodies[1..][c] == bodies[c + 1];
        }
      }
      ScanRender(prefix2, bodies[1..]);
      assert [bodies[0]] + bodies[1..] == bodies;
    }
  }

  /** Reading the first rendered solution yields its body and continues after its end line at j + 1. */
  lemma ScanFirstRendered(prefix: seq<string>, bodies: seq<seq<string>>, lines: seq<string>, j: nat)
    requires NoEndLines(bodies) && |bodies| > 0
    requires lines == prefix + Render(bodies) && j == |prefix| + 1 + |bodies[0]|
    ensures j < |lines|
    ensures var rest := ScanFrom(lines, j + 1);
            ScanFrom(lines, |prefix|) == Scanned([bodies[0]] + rest.bodies, rest.complete)
  {
    StartIsNotEnd();
    var b := bodies[0];
    var i := |prefix|;
    RenderFirst(prefix, bodies, lines, j);
    forall k | i < k < j ensures !IsEnd(lines[k]) {
      assert lines[k] == b[k - i - 1];
    }
    ScanAtStart(lines, i, j);
  }

  /** Where the first rendered solution sits in prefix + Render(bodies). */
  lemma RenderFirst(prefix: seq<string>, bodies: seq<seq<string>>, lines: seq<string>, j: nat)
    requires |bodies| > 0
    requires lines == prefix + Render(bodies) && j == |prefix| + 1 + |bodies[0]|
    ensures lines == (prefix + [START] + bodies[0] + [END]) + Render(bodies[1..])
    ensures j < |lines| && lines[|prefix|] == START && lines[j] == END
    ensures forall k :: |prefix| < k < j ==> lines[k] == bodies[0][k - |prefix| - 1]
    ensures lines[|prefix| + 1..j] == bodies[0]
  {
    var b := bodies[0];
    assert Render(bodies) == [START] + b + [END] + Render(bodies[1..]);
    ConcatAssoc(prefix, [START] + b + [END], Render(bodies[1..]));
    assert prefix + ([START] + b + [END]) == prefix + [START] + b + [END];
  }

  /** A start line followed by a first end line yields the body between them. */
  lemma ScanAtStart(lines: seq<string>, i: nat, j: nat)
    requires i < j < |lines| && IsStart(lines[i]) && IsEnd(lines[j])
    requires forall k :: i < k < j ==> !IsEnd(lines[k])
    ensures var rest := ScanFrom(lines, j + 1);
            ScanFrom(lines, i) == Scanned([lines[i + 1..j]] + rest.bodies, rest.complete)
  {
    EndIndexAt(lines, i + 1, j);
  }

  /** The end line that EndIndex finds is the first one. */
  lemma EndIndexAt(lines: seq<string>, from: nat, j: nat)
    requires from <= j < |lines| && IsEnd(lines[j])
    requires forall k :: from <= k < j ==> !IsEnd(lines[k])
    ensures EndIndex(lines, from) == Some(j)
  {
    var r := EndIndex(lines, from);
  }

  /** The numbers lo..hi inclusive, in increasing order, as solution numbers. */
  function Numbers(lo: int, hi: int): (r: seq<int>)
    ensures |r| == if hi < lo then 0 else hi - lo + 1
    ensures forall k :: 0 <= k < |r| ==> r[k] == lo + k
  {
    seq(if hi < lo then 0 else hi - lo + 1, k => lo + k)
  }

  /**
   * The head/tail selection as written: with K solutions and a sample size n,
   * all of them when K <= n, otherwise the first and the last int(n / 2).
   */
  function HeadTailAsWritten(numberSolutions: nat, n: nat): (r: seq<int>)
    ensures |r| == if numberSolutions <= n then numberSolutions else 2 * (n / 2)
    ensures forall k :: 0 <= k < |r| ==> 1 <= r[k] <= numberSolutions
  {
    if numberSolutions <= n then Numbers(1, numberSolutions)
    else Numbers(1, n / 2) + Numbers(numberSolutions + 1 - n / 2, numberSolutions)
  }

  /**
   * With a sample size of 1 and two solutions the selection as written is
   * empty: nothing is validated and the run still reports success.
   */
  lemma HeadTailAsWrittenSelectsNothing()
    ensures HeadTailAsWritten(2, 1) == []
  {
  }

  /**
   * The head/tail selection validating n solutions: the first n / 2 rounded
   * up and the last n / 2 rounded down.
   */
  function HeadTail(numberSolutions: nat, n: nat): (r: seq<int>)
    ensures |r| == if numberSolutions <= n then numberSolutions else n
    ensures forall k :: 0 <= k < |r| ==> 1 <= r[k] <= numberSolutions
  {
    if numberSolutions <= n then Numbers(1, numberSolutions)
    else Numbers(1, (n + 1) / 2) + Numbers(numberSolutions + 1 - n / 2, numberSolutions)
  }

  /**
   * The correction changes nothing for an even sample size: the two
   * selections agree exactly when all solutions are taken or n is even.
   */
  lemma HeadTailEvenAgrees(numberSolutions: nat, n: nat)
    ensures HeadTail(numberSolutions, n) == HeadTailAsWritten(numberSolutions, n)
            <==> numberSolutions <= n || n % 2 == 0
  {
    if numberSolutions > n && n % 2 == 1 {
      assert |HeadTail(numberSolutions, n)| != |HeadTailAsWritten(numberSolutions, n)|;
    }
  }

  /**
   * The selection validates min(K, n) different solutions, in increasing
   * order, all numbered within 1..K; all of them when K <= n, and otherwise
   * the first and the last whenever n > 1 (only the first when n == 1).
   */
  lemma HeadTailSelects(numberSolutions: nat, n: nat)
    requires n > 0
    ensures var r := HeadTail(numberSolutions, n);
            && |r| == (if numberSolutions <= n then numberSolutions else n)
            && (forall k :: 0 <= k < |r| ==> 1 <= r[k] <= numberSolutions)
            && (forall k, l :: 0 <= k < l < |r| ==> r[k] < r[l])
            && (numberSolutions <= n ==> r == Numbers(1, numberSolutions))
            && (numberSolutions > 0 ==> r[0] == 1)
            && (numberSolutions > n > 1 ==> r[|r| - 1] == numberSolutions)
  {
    var r := HeadTail(numberSolutions, n);
    if numberSolutions > n {
      var h := (n + 1) / 2;
      var head := Numbers(1, h);
      var tail := Numbers(numberSolutions + 1 - n / 2, numberSolutions);
      assert r == head + tail;
      assert |head| == h && |tail| == n / 2;
      forall k, l | 0 <= k < l < |r| ensures r[k] < r[l] {
        if k < h && l >= h {
          assert r[k] == 1 + k && r[l] == numberSolutions + 1 - n / 2 + (l - h);
        }
      }
    }
  }

  /** How a run of the script ends. */
  datatype ExitStatus = Success | MissingEnd | NoSolutions

  /** The solution bodies read, the solution numbers validated in order, and the ending. */
  datatype Run = Run(solutions: seq<seq<string>>, validated: seq<int>, status: ExitStatus)

  /**
   * What startReading does with the stream and the sample size n, every
   * validation succeeding.  A missing end line is fatal; no solution at all
   * fails; with n <= 0 each solution is validated as soon as it is read, so
   * a fatal missing end comes after those validations; with n > 0 the
   * head/tail selection is validated once the stream is exhausted.
   */
  function RunSpec(lines: seq<string>, n: int): (r: Run)
    ensures r.status == NoSolutions <==> r.solutions == []
    ensures r.status == NoSolutions ==> r.validated == []
    ensures forall k :: 0 <= k < |r.validated| ==> 1 <= r.validated[k] <= |r.solutions|
    ensures n > 0 && r.status == MissingEnd ==> r.validated == []
  {
    var scan := ScanFrom(lines, 0);
    var k := |scan.bodies|;
    if !scan.complete then Run(scan.bodies, if n <= 0 then Numbers(1, k - 1) else [], MissingEnd)
    else if k == 0 then Run([], [], NoSolutions)
    else Run(scan.bodies, if n <= 0 then Numbers(1, k) else HeadTail(k, n), Success)
  }

  /**
   * The run ends in NoSolutions exactly when the stream holds no start line,
   * and a successful run with n <= 0 validates every solution 1..K in the
   * order they were read.
   */
  lemma {:induction false} NoSolutionsIffNoStart(lines: seq<string>, i: nat)
    requires i <= |lines|
    ensures ScanFrom(lines, i).bodies == [] <==> forall k :: i <= k < |lines| ==> !IsStart(lines[k])
    ensures ScanFrom(lines, i).bodies == [] ==> ScanFrom(lines, i).complete
    decreases |lines| - i
  {
    if i < |lines| && !IsStart(lines[i]) {
      NoSolutionsIffNoStart(lines, i + 1);
    }
  }

  /** A stream rendered from at least one solution ends in success and validates what the sample size selects. */
  lemma RunOfRendered(bodies: seq<seq<string>>, n: int)
    requires NoEndLines(bodies) && |bodies| > 0
    ensures RunSpec(Render(bodies), n) ==
              Run(bodies, if n <= 0 then Numbers(1, |bodies|) else HeadTail(|bodies|, n), Success)
  {
    ScanRender([], bodies);
    assert [] + Render(bodies) == Render(bodies);
  }

  /**
   * readSolution: the lines from position start up to the next end line,
   * and the position after that end line; or, with no end line left, the
   * rest of the stream and found == false (the source reports the error and
   * exits).
   */
  method ReadSolution(lines: seq<string>, start: nat) returns (body: seq<string>, next: nat, found: bool)
    requires start <= |lines|
    ensures found <==> EndIndex(lines, start).Some?
    ensures found ==> next == EndIndex(lines, start).value + 1 && body == lines[start..next - 1]
    ensures !found ==> body == lines[start..] && next == |lines|
  {
    var i := start;
    while i < |lines|
      invariant start <= i <= |lines|
      invariant EndIndex(lines, start) == EndIndex(lines, i)
    {
      if IsEnd(lines[i]) {
        return lines[start..i], i + 1, true;
      }
      i := i + 1;
    }
    return lines[start..], |lines|, false;
  }

  /** A start line whose body has an end line: the scan so far gains that body and goes on after the end line. */
  lemma ScanFoundEnd(lines: seq<string>, i: nat, next: nat, bodies: seq<seq<string>>, body: seq<string>)
    requires i < |lines| && IsStart(lines[i])
    requires EndIndex(lines, i + 1).Some? && next == EndIndex(lines, i + 1).value + 1
    requires body == lines[i + 1..next - 1]
    ensures next <= |lines|
    ensures bodies + ScanFrom(lines, i).bodies == (bodies + [body]) + ScanFrom(lines, next).bodies
    ensures ScanFrom(lines, i).complete == ScanFrom(lines, next).complete
  {
    var rest := ScanFrom(lines, next);
    assert ScanFrom(lines, i) == Scanned([body] + rest.bodies, rest.complete);
    ConcatAssoc(bodies, [body], rest.bodies);
  }

  /** A start line whose body has no end line: the scan ends there unfinished. */
  lemma ScanMissingEnd(lines: seq<string>, i: nat, bodies: seq<seq<string>>, body: seq<string>)
    requires i < |lines| && IsStart(lines[i])
    requires EndIndex(lines, i + 1).None? && body == lines[i + 1..]
    ensures bodies + ScanFrom(lines, i).bodies == bodies + [body] && !ScanFrom(lines, i).complete
  {
  }

  /** Counting one further. */
  lemma NumbersAppend(k: int)
    requires k >= 0
    ensures Numbers(1, k + 1) == Numbers(1, k) + [k + 1]
  {
    assert |Numbers(1, k + 1)| == |Numbers(1, k) + [k + 1]|;
  }

  /** startReading over the whole stream, with the sample size n. */
  method StartReading(lines: seq<string>, n: int) returns (run: Run)
    ensures run == RunSpec(lines, n)
  {
    var i := 0;
    var bodies: seq<seq<string>> := [];
    var validated: seq<int> := [];
    while i < |lines|
      invariant i <= |lines|
      invariant ScanFrom(lines, 0) == Scanned(bodies + ScanFrom(lines, i).bodies, ScanFrom(lines, i).complete)
      invariant validated == if n <= 0 then Numbers(1, |bodies|) else []
      decreases |lines| - i
    {
      if IsStart(lines[i]) {
        var body, next, found := ReadSolution(lines, i + 1);
        if !found {
          ScanMissingEnd(lines, i, bodies, body);
          run := Run(bodies + [body], validated, MissingEnd);
          return;
        }
        ScanFoundEnd(lines, i, next, bodies, body);
        NumbersAppend(|bodies|);
        bodies := bodies + [body];
        if n <= 0 {
          validated := validated + [|bodies|];
        }
        i := next;
      } else {
        i := i + 1;
      }
    }
    assert bodies + [] == bodies;
    if |bodies| == 0 {
      return Run([], [], NoSolutions);
    }
    if n > 0 {
      validated := HeadTail(|bodies|, n);
    }
    run := Run(bodies, validated, Success);
  }

  /** The command-line settings, or why the script stops before reading. */
  datatype Arguments =
    | Arguments(numberHeadTailSolutions: int, solutionDir: string, pathToConjure: string,
                essenceFile: string, paramFile: Option<string>)
    | UsageError
    | NoFirstArgument

  /**
   * The argument parsing: firstAsInt is Python's int() of the first
   * argument, None when it is not an integer.  An integer first argument is
   * the sample size and is removed; otherwise the sample size is 0 and the
   * positions are kept.  Three more arguments are needed; a fourth is the
   * parameter file only when it is the last one.  Without any argument the
   * source fails on an uncaught index error.
   */
  function ParseArguments(argv: seq<string>, firstAsInt: Option<int>): (r: Arguments)
    ensures r.NoFirstArgument? <==> |argv| < 2
    ensures var rest := if firstAsInt.Some? then 1 else 0;
            |argv| >= 2 ==> (r.UsageError? <==> |argv| < 4 + rest)
    ensures r.Arguments? ==>
              var rest := if firstAsInt.Some? then 1 else 0;
              && r.numberHeadTailSolutions == (if firstAsInt.Some? then firstAsInt.value else 0)
              && r.solutionDir == argv[1 + rest] && r.pathToConjure == argv[2 + rest]
              && r.essenceFile == argv[3 + rest]
              && (r.paramFile.Some? <==> |argv| == 5 + rest)
              && (r.paramFile.Some? ==> r.paramFile.value == argv[4 + rest])
  {
    if |argv| < 2 then NoFirstArgument
    else
      var n := if firstAsInt.Some? then firstAsInt.value else 0;
      var args := if firstAsInt.Some? then argv[..1] + argv[2..] else argv;
      if |args| < 4 then UsageError
      else Arguments(n, args[1], args[2], args[3], if |args| == 5 then Some(args[4]) else None)
  }
}
