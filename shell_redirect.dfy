/** The redirection and argument-vector step of run_cmd: a stage whose
    second-to-last token is ">" or "<" sends its output to, or takes its
    input from, the path in the last token, and those two tokens are left
    out of the program's argument vector. */
module Redirect {
  import opened Wrappers

  datatype Redirection = NoRedirect | OutputTo(path: string) | InputFrom(path: string)

  /** The outcome of the classification: the redirection found and the
      number of tokens that remain arguments. */
  datatype StagePlan = StagePlan(redirect: Redirection, argc: nat)

  /** The tokens a redirection puts after the arguments. */
  function Suffix(r: Redirection): seq<string>
  {
    match r
    case NoRedirect => []
    case OutputTo(p) => [">", p]
    case InputFrom(p) => ["<", p]
  }

  /** The classification of the trailing tokens. ">" is tested before "<",
      which cannot both hold of one token; fewer than three tokens are never
      redirected. */
  function Classify(tokens: seq<string>): (p: StagePlan)
    ensures p.argc <= |tokens|
    ensures p.redirect.OutputTo? <==> |tokens| > 2 && tokens[|tokens| - 2] == ">"
    ensures p.redirect.InputFrom? <==> |tokens| > 2 && tokens[|tokens| - 2] == "<"
    ensures p.redirect != NoRedirect ==>
              p.redirect.path == tokens[|tokens| - 1] && p.argc == |tokens| - 2
    ensures p.redirect == NoRedirect ==> p.argc == |tokens|
  {
    var len := |tokens|;
    if len > 2 && tokens[len - 2] == ">" then StagePlan(OutputTo(tokens[len - 1]), len - 2)
    else if len > 2 && tokens[len - 2] == "<" then StagePlan(InputFrom(tokens[len - 1]), len - 2)
    else StagePlan(NoRedirect, len)
  }

  /** Nothing is lost: the arguments followed by the redirection's tokens are
      the stage's tokens. */
  lemma ClassifyRejoin(tokens: seq<string>)
    ensures tokens[..Classify(tokens).argc] + Suffix(Classify(tokens).redirect) == tokens
  {
    var p := Classify(tokens);
    if p.redirect != NoRedirect {
      assert tokens == tokens[..p.argc] + [tokens[|tokens| - 2], tokens[|tokens| - 1]];
    }
  }

  /** The other direction: a stage written as arguments plus a redirection
      is classified as exactly that redirection, provided the arguments are
      non-empty and leave no "<" or ">" second-to-last when there is no
      redirection. */
  lemma RejoinClassify(args: seq<string>, r: Redirection)
    requires |args| >= 1
    requires r == NoRedirect ==> |args| <= 2 || args[|args| - 2] !in {">", "<"}
    ensures Classify(args + Suffix(r)) == StagePlan(r, |args|)
  {
    var t := args + Suffix(r);
    if r != NoRedirect {
      assert t[|t| - 2] == Suffix(r)[0] && t[|t| - 1] == r.path;
    } else {
      assert t == args;
    }
  }

  /** The argument vector run_cmd builds: the first len tokens in order, then
      the NULL terminator, in an array of len + 1 slots. */
  method BuildArgv(tokens: seq<string>, len: nat) returns (argv: array<Option<string>>)
    requires len <= |tokens|
    ensures argv.Length == len + 1
    ensures forall i :: 0 <= i < len ==> argv[i] == Some(tokens[i])
    ensures argv[len] == None
  {
    argv := new Option<string>[len + 1](_ => None);
    for i := 0 to len
      invariant forall j :: 0 <= j < i ==> argv[j] == Some(tokens[j])
      invariant argv[len] == None
    {
      argv[i] := Some(tokens[i]);
    }
    argv[len] := None;
  }

  /** The source declares the vector with len slots only (cmd[len]). */
  function DeclaredArgvLength(len: nat): nat
  {
    len
  }

  /** With len slots, the terminator is written one past the end. The
      lemma is only that len < len is false: the whole defect is the
      declared length, which BuildArgv corrects to len + 1. */
  lemma TerminatorOutOfBounds(len: nat)
    ensures !(len < DeclaredArgvLength(len))
  {
  }
}
