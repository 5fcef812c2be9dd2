/** Program resolution in run_program: execv is tried on the name as given
    and, while it fails, on each ':'-separated entry of PATH joined with "/"
    and the name. The outcome of each execv is a parameter: whether the
    kernel would start a program from that path is outside the model. */
module ProgramPath {
  import opened Wrappers
  import opened StrTok

  /** The paths tried for `name`, in order: the name itself, then
      entry + "/" + name for each non-empty PATH entry. */
  function Candidates(name: string, path: string): (cs: seq<string>)
    ensures |cs| == |Fields(path, ':')| + 1 && cs[0] == name
    ensures forall i :: 1 <= i < |cs| ==> cs[i] == Fields(path, ':')[i - 1] + "/" + name
  {
    [name] + Joined(Fields(path, ':'), name)
  }

  function Joined(dirs: seq<string>, name: string): (cs: seq<string>)
    ensures |cs| == |dirs|
    ensures forall i :: 0 <= i < |dirs| ==> cs[i] == dirs[i] + "/" + name
  {
    seq(|dirs|, i requires 0 <= i < |dirs| => dirs[i] + "/" + name)
  }

  /** run_program's search. `tried` lists the execv calls made, in order,
      `ran` the path that started (execv does not return then). */
  method RunProgram(name: string, path: string, execs: string -> bool)
    returns (tried: seq<string>, ran: Option<string>)
    ensures 1 <= |tried| <= |Candidates(name, path)|
    ensures tried == Candidates(name, path)[..|tried|]
    ensures forall i :: 0 <= i < |tried| - 1 ==> !execs(tried[i])
    ensures ran.Some? <==> execs(tried[|tried| - 1])
    ensures ran.Some? ==> ran.value == tried[|tried| - 1]
    ensures ran.None? ==> tried == Candidates(name, path)
  {
    tried := [name];
    if execs(name) {
      return tried, Some(name);
    }
    var rest := path;
    ghost var k := 0;
    var next := NextToken(rest, ':');
    while next.Some?
      invariant k <= |Fields(path, ':')|
      invariant Fields(rest, ':') == Fields(path, ':')[k..]
      invariant next == NextToken(rest, ':')
      invariant |tried| == k + 1
      invariant tried == Candidates(name, path)[..k + 1]
      invariant forall i :: 0 <= i < |tried| ==> !execs(tried[i])
      decreases |rest|
    {
      var candidate := next.value.0 + "/" + name;
      NextField(path, rest, k, ':');
      tried := tried + [candidate];
      k := k + 1;
      if execs(candidate) {
        return tried, Some(candidate);
      }
      rest := next.value.1;
      next := NextToken(rest, ':');
    }
    assert |Candidates(name, path)| == k + 1;
    ran := None;
  }

  /** Every candidate after the first puts a non-empty directory without ':'
      in front of "/" + name. */
  lemma CandidatesShape(name: string, path: string, i: nat)
    requires 1 <= i < |Candidates(name, path)|
    ensures exists dir :: dir != [] && ':' !in dir && Candidates(name, path)[i] == dir + "/" + name
  {
    FieldsWellFormed(path, ':');
    var dir := Fields(path, ':')[i - 1];
    assert Candidates(name, path)[i] == dir + "/" + name;
  }

  /** With an empty PATH (or one of colons only) the name is the only
      candidate. */
  lemma NoPathEntries(name: string, path: string)
    requires forall j :: 0 <= j < |path| ==> path[j] == ':'
    ensures Candidates(name, path) == [name]
  {
  }
}
