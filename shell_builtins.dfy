/** The shell's table of builtin commands (cmd_table) and its lookup. */
module Builtins {
  import opened Wrappers

  /** The names of cmd_table, in table order: help, exit, cd, pwd. */
  const Names: seq<string> := ["?", "exit", "cd", "pwd"]

  /** lookup: the index of the first table entry named cmd, or -1 when cmd
      is NULL (None) or names no builtin. */
  method Lookup(cmd: Option<string>) returns (r: int)
    ensures -1 <= r < |Names|
    ensures r >= 0 ==> cmd == Some(Names[r]) && forall j :: 0 <= j < r ==> Names[j] != cmd.value
    ensures r == -1 <==> cmd.None? || cmd.value !in Names
  {
    for i := 0 to |Names|
      invariant cmd.Some? ==> forall j :: 0 <= j < i ==> Names[j] != cmd.value
    {
      if cmd.Some? && Names[i] == cmd.value {
        return i;
      }
    }
    return -1;
  }

  /** The builtin names are pairwise different, so the index lookup finds is
      the only entry of that name. */
  lemma NamesDistinct()
    ensures forall i, j :: 0 <= i < j < |Names| ==> Names[i] != Names[j]
  {
  }
}
