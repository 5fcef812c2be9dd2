/** One iteration of the shell's main loop after the line is read: the
    stages are split off, n - 1 pipes are made into the descriptor array fd,
    and run_cmd is called once per stage, left to right, with the descriptor
    pair main computes for it. */
module Coordinator {
  import opened Pipeline
  import opened StrTok
  import opened Descriptors
  import opened Wrappers

  /** The descriptor number an End stands for, given the pipe array. */
  function Resolve(e: End, fd: seq<int>): int
  {
    match e
    case StdIn => 0
    case StdOut => 1
    case Slot(k) => if k < |fd| then fd[k] else -1
  }

  /** The pipe-making loop: pipe(fd + i) for i = 0, 2, ..., 2(n - 2), so
      pipe k's read end lands in fd[2k] and its write end in fd[2k + 1],
      each on a new file description numbered from the table's nextFile. */
  method MakePipes(t: FdTable, n: nat) returns (fd: seq<int>)
    requires t.Valid() && n >= 1 && 0 in t.open && 1 in t.open
    modifies t
    ensures PipesPending(t, n, 0, fd, old(t.nextFile), old(t.open))
    ensures |fd| == 2 * (n - 1)
    ensures t.nextFile == old(t.nextFile) + 2 * (n - 1)
    ensures forall k :: 0 <= k < |fd| ==> fd[k] in t.open && t.open[fd[k]] == old(t.nextFile) + k
    ensures forall d :: d in t.open ==>
              if t.open[d] < old(t.nextFile) then d in old(t.open) && old(t.open)[d] == t.open[d]
              else t.open[d] - old(t.nextFile) < |fd| && d == fd[t.open[d] - old(t.nextFile)]
    ensures forall d :: d in old(t.open) ==> d in t.open && t.open[d] == old(t.open)[d]
  {
    fd := [];
    var i := 0;
    while i < 2 * (n - 1)
      invariant i % 2 == 0 && i <= 2 * (n - 1) && |fd| == i
      invariant t.Valid() && t.nextFile == old(t.nextFile) + i
      invariant forall k :: 0 <= k < i ==> fd[k] in t.open && t.open[fd[k]] == old(t.nextFile) + k
      invariant forall d :: d in t.open ==>
                  if t.open[d] < old(t.nextFile) then d in old(t.open) && old(t.open)[d] == t.open[d]
                  else t.open[d] - old(t.nextFile) < i && d == fd[t.open[d] - old(t.nextFile)]
      invariant forall d :: d in old(t.open) ==> d in t.open && t.open[d] == old(t.open)[d]
    {
      var r, w := t.Pipe();
      fd := fd + [r, w];
      i := i + 2;
    }
  }

  /** The invariant of the stage loop once stages 0 .. i - 1 have run,
      where before is the table as the line found it: every descriptor open
      before the line still refers to its file (so 0 and 1 are the shell's
      own); every other descriptor below the pipes' files is a builtin's
      saved copy of 0 or 1; every pipe end that a later stage will get is
      still open where MakePipes put it, and no other descriptor refers to
      a pipe (file base + k is pipe end k). */
  ghost predicate PipesPending(t: FdTable, n: nat, i: nat, fd: seq<int>, base: File,
                               before: map<int, File>)
    reads t
  {
    && t.Valid() && t.nextFile == base + 2 * (n - 1)
    && EndsPending(t.open, n, i, fd, base, before)
  }

  /** PipesPending on the descriptor map alone. */
  ghost predicate EndsPending(open: map<int, File>, n: nat, i: nat, fd: seq<int>, base: File,
                              before: map<int, File>)
  {
    && |fd| == 2 * (n - 1)
    && 0 in before && 1 in before
    && (forall d :: d in before ==> before[d] < base && d in open && open[d] == before[d])
    && (forall d :: d in open && open[d] < base && d !in before ==>
          open[d] == before[0] || open[d] == before[1])
    && (forall k :: 0 <= k < |fd| && Owner(k) >= i ==> fd[k] in open && open[fd[k]] == base + k)
    && (forall d :: d in open && open[d] >= base ==>
          open[d] - base < |fd| && Owner(open[d] - base) >= i && d == fd[open[d] - base])
  }

  /** The descriptor pair stage i of n is meant to get. */
  function Handoff(n: nat, i: nat, fd: seq<int>): (int, int)
    requires i < n
  {
    (Resolve(StageWiring(n, i).input, fd), Resolve(StageWiring(n, i).output, fd))
  }

  /** run_cmd for stage i with the descriptors main hands it; the launch,
      if the stage is not a builtin, is taken to fork. */
  method RunStage(t: FdTable, tokens: seq<string>, n: nat, i: nat, fd: seq<int>,
                  fdIn: int, fdOut: int, ghost base: File, ghost before: map<int, File>)
    requires i < n
    requires PipesPending(t, n, i, fd, base, before)
    requires (fdIn, fdOut) == Handoff(n, i, fd)
    modifies t
    ensures PipesPending(t, n, i + 1, fd, base, before)
  {
    HandedPipeEnds(t.open, n, i, fd, base, before, fdIn, fdOut);
    ghost var pre := t.open;
    var saveIn, saveOut := t.RunCmd(tokens, fdIn, fdOut, true);
    StageStep(pre, t.open, n, i, fd, base, before, fdIn, fdOut, saveIn, saveOut);
  }

  /** One run_cmd for stage i, on the descriptor maps before (pre) and
      after (post) it, given what RunCmd promises of them: EndsPending moves
      on from stage i to stage i + 1. */
  lemma StageStep(pre: map<int, File>, post: map<int, File>, n: nat, i: nat, fd: seq<int>, base: File,
                  before: map<int, File>, fdIn: int, fdOut: int, saveIn: int, saveOut: int)
    requires i < n && EndsPending(pre, n, i, fd, base, before) && (fdIn, fdOut) == Handoff(n, i, fd)
    requires forall d :: d in pre ==> d >= 0
    requires forall d :: d in post ==> d >= 0
    requires Lookup(post, 0) == Lookup(pre, 0) && Lookup(post, 1) == Lookup(pre, 1)
    requires saveIn >= 0 ==> saveIn !in pre && saveOut !in pre
                             && Lookup(post, saveIn) == Lookup(pre, 0) && Lookup(post, saveOut) == Lookup(pre, 1)
    requires saveIn < 0 ==> saveIn == saveOut
    requires forall d :: d != 0 && d != 1 && d != saveIn && d != saveOut ==>
               Lookup(post, d) == if Handed(d, fdIn, fdOut) then None else Lookup(pre, d)
    ensures EndsPending(post, n, i + 1, fd, base, before)
  {
    assert forall k :: 0 <= k < |fd| ==> (Uses(StageWiring(n, i), k) <==> i == Owner(k)) by {
      forall k | 0 <= k < |fd| {
        EachEndOnce(n, i, k);
      }
    }
    HandedPipeEnds(pre, n, i, fd, base, before, fdIn, fdOut);
    StagePipes(pre, post, n, i, fd, base, fdIn, fdOut, saveIn, saveOut);
    StageFrame(pre, post, before, base, fdIn, fdOut, saveIn, saveOut);
  }

  /** One run_cmd for stage i, on the descriptor maps before (pre) and
      after (post) it: the pipe ends of later stages stay open on their
      files, and no pipe end of stage i or earlier is left. */
  lemma StagePipes(pre: map<int, File>, post: map<int, File>, n: nat, i: nat, fd: seq<int>, base: File,
                   fdIn: int, fdOut: int, saveIn: int, saveOut: int)
    requires i < n && |fd| == 2 * (n - 1) && (fdIn, fdOut) == Handoff(n, i, fd)
    requires forall k :: 0 <= k < |fd| ==> (Uses(StageWiring(n, i), k) <==> i == Owner(k))
    requires forall k :: 0 <= k < |fd| && Owner(k) >= i ==> fd[k] in pre && pre[fd[k]] == base + k
    requires forall d :: d in pre && pre[d] >= base ==>
               pre[d] - base < |fd| && Owner(pre[d] - base) >= i && d == fd[pre[d] - base]
    requires forall d :: d in pre ==> d >= 0
    requires forall d :: d in post ==> d >= 0
    requires Lookup(post, 0) == Lookup(pre, 0) && Lookup(post, 1) == Lookup(pre, 1)
    requires 0 in pre && 1 in pre && pre[0] < base && pre[1] < base
    requires saveIn >= 0 ==> saveIn !in pre && saveOut !in pre
                             && Lookup(post, saveIn) == Lookup(pre, 0) && Lookup(post, saveOut) == Lookup(pre, 1)
    requires saveIn < 0 ==> saveIn == saveOut
    requires forall d :: d != 0 && d != 1 && d != saveIn && d != saveOut ==>
               Lookup(post, d) == if Handed(d, fdIn, fdOut) then None else Lookup(pre, d)
    ensures forall k :: 0 <= k < |fd| && Owner(k) >= i + 1 ==> fd[k] in post && post[fd[k]] == base + k
    ensures forall d :: d in post && post[d] >= base ==>
              post[d] - base < |fd| && Owner(post[d] - base) >= i + 1 && d == fd[post[d] - base]
  {
    forall d | d in post && post[d] >= base
      ensures post[d] - base < |fd| && Owner(post[d] - base) >= i + 1 && d == fd[post[d] - base]
    {
      assert d != 0 && d != 1 && d != saveIn && d != saveOut;
      assert !Handed(d, fdIn, fdOut) && d in pre && pre[d] == post[d];
      var k := post[d] - base;
      EachEndOnce(n, i, k);
    }
    forall k | 0 <= k < |fd| && Owner(k) >= i + 1
      ensures fd[k] in post && post[fd[k]] == base + k
    {
      assert fd[k] in pre && pre[fd[k]] == base + k;
      assert fd[k] >= 0;
      assert fd[k] != 0 && fd[k] != 1;
      assert fd[k] != saveIn;
      assert fd[k] != saveOut;
      EachEndOnce(n, i, k);
      assert !Uses(StageWiring(n, i), k);
      assert forall j :: 0 <= j < |fd| && j != k && Owner(j) >= i ==> fd[j] != fd[k];
      assert !Handed(fd[k], fdIn, fdOut);
    }
  }

  /** One run_cmd, on the descriptor maps before (pre) and after (post) it:
      when the descriptors open before the line are kept in pre and every
      other non-pipe descriptor of pre is a saved copy of 0 or 1, the same
      holds of post, since run_cmd closes only pipe ends and adds at most
      two saved copies. */
  lemma StageFrame(pre: map<int, File>, post: map<int, File>, before: map<int, File>, base: File,
                   fdIn: int, fdOut: int, saveIn: int, saveOut: int)
    requires 0 in before && 1 in before
    requires forall d :: d in before ==> before[d] < base && d in pre && pre[d] == before[d]
    requires forall d :: d in pre && pre[d] < base && d !in before ==> pre[d] == before[0] || pre[d] == before[1]
    requires forall d :: Handed(d, fdIn, fdOut) ==> d in pre && pre[d] >= base
    requires Lookup(post, 0) == Lookup(pre, 0) && Lookup(post, 1) == Lookup(pre, 1)
    requires forall d :: d in pre ==> d >= 0
    requires forall d :: d in post ==> d >= 0
    requires saveIn >= 0 ==> saveIn !in pre && saveOut !in pre
                             && Lookup(post, saveIn) == Lookup(pre, 0) && Lookup(post, saveOut) == Lookup(pre, 1)
    requires saveIn < 0 ==> saveIn == saveOut
    requires forall d :: d != 0 && d != 1 && d != saveIn && d != saveOut ==>
               Lookup(post, d) == if Handed(d, fdIn, fdOut) then None else Lookup(pre, d)
    ensures forall d :: d in before ==> d in post && post[d] == before[d]
    ensures forall d :: d in post && post[d] < base && d !in before ==> post[d] == before[0] || post[d] == before[1]
  {
    forall d | d in before
      ensures d in post && post[d] == before[d]
    {
      if d != 0 && d != 1 {
        assert d != saveIn && d != saveOut;
        assert !Handed(d, fdIn, fdOut);
        assert Lookup(post, d) == Lookup(pre, d);
      }
    }
    forall d | d in post && post[d] < base && d !in before
      ensures post[d] == before[0] || post[d] == before[1]
    {
      if d != saveIn && d != saveOut {
        assert d != 0 && d != 1;
        assert Lookup(post, d) == Lookup(pre, d);
      } else {
        assert 0 <= d;
      }
    }
  }

  /** The pair handed to stage i: 0 or a pipe end it owns for input, 1 or
      a pipe end it owns for output, so every descriptor it hands over is
      a pipe end. */
  lemma HandedPipeEnds(open: map<int, File>, n: nat, i: nat, fd: seq<int>, base: File,
                       before: map<int, File>, fdIn: int, fdOut: int)
    requires i < n
    requires EndsPending(open, n, i, fd, base, before)
    requires (fdIn, fdOut) == Handoff(n, i, fd)
    ensures 0 in open && 1 in open && fdIn in open && fdOut in open
    ensures fdIn != 1 && fdOut != 0
    ensures forall d :: Handed(d, fdIn, fdOut) ==> d in open && open[d] >= base
  {
    if i > 0 {
      EachEndOnce(n, i, ReadEnd(i - 1));
    }
    if i < n - 1 {
      EachEndOnce(n, i, WriteEnd(i));
    }
  }

  /** Running a line of n >= 1 stages, as main does. Every stage gets the
      pair of ends StageWiring gives it (stage 0 (STDIN, fd[1]), middle
      stages (fd[cur_read], fd[cur_read + 3]), the last
      (fd[2(n - 1) - 2], STDOUT)). Afterwards every descriptor open before
      the line refers to the same file as before (0 and 1 included), the
      only new descriptors are builtins' saved copies of 0 and 1, and no
      descriptor of the shell refers to a pipe made for the line. */
  method RunLine(t: FdTable, stages: seq<seq<string>>) returns (fd: seq<int>, handed: seq<(int, int)>)
    requires t.Valid() && |stages| >= 1 && 0 in t.open && 1 in t.open
    modifies t
    ensures t.Valid() && |fd| == 2 * (|stages| - 1) && |handed| == |stages|
    ensures forall i :: 0 <= i < |stages| ==> handed[i] == Handoff(|stages|, i, fd)
    ensures forall d :: d in old(t.open) ==> d in t.open && t.open[d] == old(t.open)[d]
    ensures forall d :: d in t.open && d !in old(t.open) ==>
              t.open[d] == old(t.open)[0] || t.open[d] == old(t.open)[1]
    ensures forall d :: d in t.open ==> t.open[d] < old(t.nextFile)
  {
    var n := |stages|;
    ghost var base := t.nextFile;
    ghost var before := t.open;
    fd := MakePipes(t, n);
    if n > 1 {
      handed := RunChain(t, stages, fd, base, before);
    } else {
      RunStage(t, stages[0], n, 0, fd, 0, 1, base, before);
      handed := [(0, 1)];
    }
    NoPipeLeft(t, n, fd, base, before);
  }

  /** Two or more stages: the first reads the shell's 0 and writes pipe 0,
      the middle ones run in a loop, the last writes the shell's 1. */
  method RunChain(t: FdTable, stages: seq<seq<string>>, fd: seq<int>,
                  ghost base: File, ghost before: map<int, File>)
    returns (handed: seq<(int, int)>)
    requires |stages| > 1
    requires PipesPending(t, |stages|, 0, fd, base, before)
    modifies t
    ensures PipesPending(t, |stages|, |stages|, fd, base, before)
    ensures |handed| == |stages|
    ensures forall i :: 0 <= i < |stages| ==> handed[i] == Handoff(|stages|, i, fd)
  {
    var n := |stages|;
    EndHandoffs(n, fd);
    RunStage(t, stages[0], n, 0, fd, 0, fd[1], base, before);
    var middle := RunMiddleStages(t, stages, fd, base, before);
    var last := fd[2 * (n - 1) - 2];
    RunStage(t, stages[n - 1], n, n - 1, fd, last, 1, base, before);
    handed := [(0, fd[1])] + middle + [(last, 1)];
    AssembleHandoffs(n, fd, middle);
  }

  /** The middle stages: stage i reads fd[cur_read] and writes
      fd[cur_read + 3], and cur_read advances by two. */
  method RunMiddleStages(t: FdTable, stages: seq<seq<string>>, fd: seq<int>,
                         ghost base: File, ghost before: map<int, File>)
    returns (handed: seq<(int, int)>)
    requires |stages| > 1
    requires PipesPending(t, |stages|, 1, fd, base, before)
    modifies t
    ensures PipesPending(t, |stages|, |stages| - 1, fd, base, before)
    ensures |handed| == |stages| - 2
    ensures forall j :: 0 <= j < |handed| ==> handed[j] == Handoff(|stages|, j + 1, fd)
  {
    var n := |stages|;
    var curRead := 0;
    handed := [];
    for i := 1 to n - 1
      invariant curRead == 2 * (i - 1)
      invariant PipesPending(t, n, i, fd, base, before)
      invariant |handed| == i - 1
      invariant forall j :: 0 <= j < |handed| ==> handed[j] == Handoff(n, j + 1, fd)
    {
      var p := MiddleStage(t, stages, fd, i, curRead, base, before);
      HandoffsGrow(n, fd, handed, p);
      handed := handed + [p];
      curRead := curRead + 2;
    }
  }

  /** Middle stage i: run_cmd with fd[cur_read] and fd[cur_read + 3]. */
  method MiddleStage(t: FdTable, stages: seq<seq<string>>, fd: seq<int>, i: nat, curRead: nat,
                     ghost base: File, ghost before: map<int, File>)
    returns (p: (int, int))
    requires 0 < i < |stages| - 1 && curRead == 2 * (i - 1)
    requires PipesPending(t, |stages|, i, fd, base, before)
    modifies t
    ensures PipesPending(t, |stages|, i + 1, fd, base, before)
    ensures p == Handoff(|stages|, i, fd)
  {
    MiddleHandoff(|stages|, i, fd);
    p := (fd[curRead], fd[curRead + 3]);
    RunStage(t, stages[i], |stages|, i, fd, p.0, p.1, base, before);
  }

  /** Appending middle stage i's pair to the pairs of stages 1 .. i - 1. */
  lemma HandoffsGrow(n: nat, fd: seq<int>, handed: seq<(int, int)>, p: (int, int))
    requires |handed| + 1 < n && p == Handoff(n, |handed| + 1, fd)
    requires forall j :: 0 <= j < |handed| ==> handed[j] == Handoff(n, j + 1, fd)
    ensures forall j :: 0 <= j < |handed| + 1 ==> (handed + [p])[j] == Handoff(n, j + 1, fd)
  {
    forall j | 0 <= j < |handed| + 1
      ensures (handed + [p])[j] == Handoff(n, j + 1, fd)
    {
      if j < |handed| {
        assert (handed + [p])[j] == handed[j];
      }
    }
  }

  /** The first stage's pair, the middle stages' pairs and the last
      stage's pair, in order, are the pairs of all n stages. */
  lemma AssembleHandoffs(n: nat, fd: seq<int>, middle: seq<(int, int)>)
    requires n > 1 && |fd| == 2 * (n - 1) && |middle| == n - 2
    requires forall j :: 0 <= j < |middle| ==> middle[j] == Handoff(n, j + 1, fd)
    ensures var all := [(0, fd[1])] + middle + [(fd[2 * (n - 1) - 2], 1)];
            |all| == n && forall i :: 0 <= i < n ==> all[i] == Handoff(n, i, fd)
  {
    var all := [(0, fd[1])] + middle + [(fd[2 * (n - 1) - 2], 1)];
    forall i | 0 <= i < n
      ensures all[i] == Handoff(n, i, fd)
    {
      if i == n - 1 {
        LastWiring(n);
      } else if i > 0 {
        assert all[i] == middle[i - 1];
      }
    }
  }

  /** The pair main computes from cur_read = 2(i - 1) for middle stage i. */
  lemma MiddleHandoff(n: nat, i: nat, fd: seq<int>)
    requires 0 < i < n - 1 && |fd| == 2 * (n - 1)
    ensures 2 * (i - 1) + 3 < |fd|
    ensures Handoff(n, i, fd) == (fd[2 * (i - 1)], fd[2 * (i - 1) + 3])
  {
    MiddleWiring(n, i);
  }

  /** The pairs main computes for the first and the last of n > 1 stages. */
  lemma EndHandoffs(n: nat, fd: seq<int>)
    requires n > 1 && |fd| == 2 * (n - 1)
    ensures Handoff(n, 0, fd) == (0, fd[1])
    ensures Handoff(n, n - 1, fd) == (fd[2 * (n - 1) - 2], 1)
  {
    LastWiring(n);
  }

  /** The descriptors main computes from cur_read for a middle stage. */
  lemma MiddleWiring(n: nat, i: nat)
    requires 0 < i < n - 1
    ensures StageWiring(n, i) == Wiring(Slot(2 * (i - 1)), Slot(2 * (i - 1) + 3))
  {
  }

  /** The descriptors main computes for the last of n > 1 stages. */
  lemma LastWiring(n: nat)
    requires n > 1
    ensures StageWiring(n, n - 1) == Wiring(Slot(2 * (n - 1) - 2), StdOut)
  {
  }

  /** Once every stage has run, no descriptor refers to a pipe end. */
  lemma NoPipeLeft(t: FdTable, n: nat, fd: seq<int>, base: File, before: map<int, File>)
    requires PipesPending(t, n, n, fd, base, before)
    ensures forall d :: d in t.open ==> t.open[d] < base
  {
    forall d | d in t.open
      ensures t.open[d] < base
    {
      if t.open[d] >= base {
        assert false;
      }
    }
  }

  /** The body of main's read loop for one line: split it into stages,
      tokenize each, and run them. The line must hold a stage (a line from
      fgets ends in a newline, which LineHasStage shows is enough). */
  method ProcessLine(t: FdTable, line: string, tokenize: string -> seq<string>)
    requires t.Valid() && 0 in t.open && 1 in t.open
    requires |Fields(line, '|')| >= 1
    modifies t
    ensures t.Valid()
    ensures forall d :: d in old(t.open) ==> d in t.open && t.open[d] == old(t.open)[d]
    ensures forall d :: d in t.open && d !in old(t.open) ==>
              t.open[d] == old(t.open)[0] || t.open[d] == old(t.open)[1]
    ensures forall d :: d in t.open ==> t.open[d] < old(t.nextFile)
  {
    var stages, count := SplitLine(line, tokenize);
    var fd, handed := RunLine(t, stages[..count]);
  }
}
