/** The pipeline bookkeeping in the shell's main loop: the line is cut into
    stages at '|' (strtok_r), each stage is tokenized into a growable array
    whose capacity doubles when full, and N stages are wired to N - 1 pipes
    held in one descriptor array fd, pipe k at fd[2k] (read end) and
    fd[2k + 1] (write end). */
module Pipeline {
  import opened StrTok
  import opened Buffers

  /** The stage list: the tokens of each '|'-separated segment, in order,
      in an array of arrSize slots of which the first count are used. The
      capacity starts at 1 and doubles only when the array is full, so it is
      the least power of two that holds the stages. */
  method SplitLine(line: string, tokenize: string -> seq<string>)
    returns (stages: array<seq<string>>, count: nat)
    ensures count == |Fields(line, '|')|
    ensures count <= stages.Length
    ensures forall i :: 0 <= i < count ==> stages[i] == tokenize(Fields(line, '|')[i])
    ensures IsPow2(stages.Length)
    ensures count == 0 ==> stages.Length == 1
    ensures count > 0 ==> stages.Length < 2 * count
  {
    ghost var fs := Fields(line, '|');
    stages := new seq<string>[1];
    Pow2One();
    count := 0;
    var rest := line;
    var next := NextToken(rest, '|');
    while next.Some?
      invariant count <= |fs|
      invariant Fields(rest, '|') == fs[count..]
      invariant next == NextToken(rest, '|')
      invariant fresh(stages)
      invariant count <= stages.Length && IsPow2(stages.Length)
      invariant stages.Length == 1 || stages.Length < 2 * count
      invariant TokensOf(stages[..count], fs, tokenize)
      decreases |rest|
    {
      NextField(line, rest, count, '|');
      ghost var done := stages[..count];
      var t := tokenize(next.value.0);
      stages := Push(stages, count, t);
      assert (done + [t])[..count] == done;
      count := count + 1;
      rest := next.value.1;
      next := NextToken(rest, '|');
    }
    TokensOfEach(stages[..count], fs, tokenize);
  }

  /** The stages stored so far are the tokens of the first fields, in
      order. */
  ghost predicate TokensOf(st: seq<seq<string>>, fs: seq<string>, tokenize: string -> seq<string>)
    decreases |st|
  {
    && |st| <= |fs|
    && (st == [] || (TokensOf(st[..|st| - 1], fs, tokenize) && st[|st| - 1] == tokenize(fs[|st| - 1])))
  }

  lemma {:induction false} TokensOfEach(st: seq<seq<string>>, fs: seq<string>, tokenize: string -> seq<string>)
    requires TokensOf(st, fs, tokenize)
    ensures forall i :: 0 <= i < |st| ==> st[i] == tokenize(fs[i])
    decreases |st|
  {
    if st != [] {
      var init := st[..|st| - 1];
      TokensOfEach(init, fs, tokenize);
      assert forall i :: 0 <= i < |init| ==> init[i] == st[i];
    }
  }

  /** Storing x in slot count of an array whose first count slots are
      used, doubling the array first when it is full. */
  method Push(a: array<seq<string>>, count: nat, x: seq<string>) returns (b: array<seq<string>>)
    requires 0 < a.Length && count <= a.Length
    modifies a
    ensures b == a || fresh(b)
    ensures b.Length == if count == a.Length then 2 * a.Length else a.Length
    ensures IsPow2(a.Length) ==> IsPow2(b.Length)
    ensures count < b.Length && b[..count + 1] == old(a[..count]) + [x]
  {
    b := a;
    if a.Length == count {
      b := Grow(a);
    }
    b[count] := x;
  }

  /** A line as fgets returns it ends in a newline, so it has a stage: the
      N >= 1 that pipe wiring relies on. */
  lemma LineHasStage(line: string)
    requires line != [] && line[|line| - 1] == '\n'
    ensures |Fields(line, '|')| >= 1
  {
    LastCharGivesField(line, '|');
  }

  /** Where a stage reads or writes: the shell's own standard input or
      output, or slot k of the descriptor array fd. */
  datatype End = StdIn | StdOut | Slot(k: nat)

  datatype Wiring = Wiring(input: End, output: End)

  function ReadEnd(pipe: nat): nat { 2 * pipe }
  function WriteEnd(pipe: nat): nat { 2 * pipe + 1 }

  /** The intended wiring of stage i of n: the first stage reads the shell's
      input, every other stage the read end of the pipe before it; the last
      stage writes the shell's output, every other stage the write end of
      pipe i. */
  function StageWiring(n: nat, i: nat): Wiring
    requires i < n
  {
    Wiring(if i == 0 then StdIn else Slot(ReadEnd(i - 1)),
           if i == n - 1 then StdOut else Slot(WriteEnd(i)))
  }

  predicate Uses(x: Wiring, k: nat)
  {
    x.input == Slot(k) || x.output == Slot(k)
  }

  /** The stage that owns slot k: the reader of pipe k / 2 for a read end,
      its writer for a write end. */
  function Owner(k: nat): nat
  {
    if k % 2 == 0 then k / 2 + 1 else k / 2
  }

  /** Each of the 2(n - 1) pipe ends goes to exactly one stage, as its input
      if it is a read end and as its output if it is a write end; no other
      slot is used. */
  lemma EachEndOnce(n: nat, i: nat, k: nat)
    requires i < n
    ensures Uses(StageWiring(n, i), k) <==> k < 2 * (n - 1) && i == Owner(k)
    ensures StageWiring(n, i).input == Slot(k) ==> k % 2 == 0
    ensures StageWiring(n, i).output == Slot(k) ==> k % 2 == 1
  {
  }

  /** Adjacent stages are joined by one pipe: stage i writes the write end
      of pipe i and stage i + 1 reads its read end. */
  lemma AdjacentStagesShareAPipe(n: nat, i: nat)
    requires i + 1 < n
    ensures StageWiring(n, i).output == Slot(WriteEnd(i))
    ensures StageWiring(n, i + 1).input == Slot(ReadEnd(i))
  {
  }

  /** The two ends of a stage are never the same descriptor. */
  lemma EndsDiffer(n: nat, i: nat)
    requires i < n
    ensures StageWiring(n, i).input != StageWiring(n, i).output
  {
  }
}
