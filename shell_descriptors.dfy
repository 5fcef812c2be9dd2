/** The shell's descriptor bookkeeping, over an abstract descriptor table:
    descriptor numbers map to open file descriptions. dup, dup2, close and
    pipe follow their POSIX meaning (dup and pipe take the lowest closed
    numbers); run_cmd's builtin path saves and
    restores descriptors 0 and 1 around the handler, its external path
    closes in the shell the descriptors it handed to the child. */
module Descriptors {
  import opened Wrappers
  import Builtins

  /** An open file description, by number. */
  type File = nat

  /** fd is the lowest descriptor not open in m. */
  ghost predicate LowestClosed(m: map<int, File>, fd: int)
  {
    fd >= 0 && fd !in m && forall k :: 0 <= k < fd ==> k in m
  }

  class FdTable {
    var open: map<int, File>
    /** The next file description number the kernel hands out. */
    var nextFile: File
    /** Every open descriptor is below top. */
    ghost var top: nat

    ghost predicate Valid()
      reads this
    {
      forall fd :: fd in open ==> 0 <= fd < top && open[fd] < nextFile
    }

    function Get(fd: int): Option<File>
      reads this
    {
      Lookup(open, fd)
    }

    constructor (initial: map<int, File>, next: File, ghost bound: nat)
      requires forall fd :: fd in initial ==> 0 <= fd < bound && initial[fd] < next
      ensures Valid() && open == initial && nextFile == next
    {
      open := initial;
      nextFile := next;
      top := bound;
    }

    /** The kernel's search for the lowest closed descriptor. */
    method FindClosed() returns (r: int)
      requires Valid()
      ensures LowestClosed(open, r)
    {
      r := 0;
      while r in open
        invariant 0 <= r <= top
        invariant forall k :: 0 <= k < r ==> k in open
        decreases top - r
      {
        r := r + 1;
      }
    }

    /** Record that descriptor fd is in use. */
    ghost method Cover(fd: int)
      requires Valid() && 0 <= fd
      modifies this`top
      ensures Valid() && fd < top
    {
      if top <= fd {
        top := fd + 1;
      }
    }

    /** dup: the lowest closed descriptor becomes a copy of fd; -1 when fd
        is not open. */
    method Dup(fd: int) returns (r: int)
      requires Valid()
      modifies this
      ensures Valid() && nextFile == old(nextFile)
      ensures fd !in old(open) ==> r == -1 && open == old(open)
      ensures fd in old(open) ==> LowestClosed(old(open), r) && open == old(open)[r := old(open)[fd]]
    {
      if fd !in open {
        return -1;
      }
      r := FindClosed();
      Cover(r);
      open := open[r := open[fd]];
    }

    /** dup2: newfd becomes a copy of oldfd (closing what it was); nothing
        happens when oldfd is not open, newfd is out of range, or the two
        are equal (a negative newfd is out of range). */
    method Dup2(oldfd: int, newfd: int)
      requires Valid()
      modifies this
      ensures Valid() && nextFile == old(nextFile)
      ensures open == Dup2Map(old(open), oldfd, newfd)
    {
      if oldfd in open && 0 <= newfd && oldfd != newfd {
        Cover(newfd);
        open := open[newfd := open[oldfd]];
      }
    }

    /** close: fd no longer refers to anything (EBADF when it did not). */
    method Close(fd: int)
      requires Valid()
      modifies this
      ensures Valid() && nextFile == old(nextFile)
      ensures open == old(open) - {fd}
    {
      open := open - {fd};
    }

    /** pipe: two new file descriptions, the read end on the lowest closed
        descriptor and the write end on the next lowest. */
    method Pipe() returns (r: int, w: int)
      requires Valid()
      modifies this
      ensures Valid()
      ensures LowestClosed(old(open), r)
      ensures LowestClosed(old(open)[r := old(nextFile)], w)
      ensures open == old(open)[r := old(nextFile)][w := old(nextFile) + 1]
      ensures nextFile == old(nextFile) + 2
    {
      var f := nextFile;
      nextFile := nextFile + 2;
      r := FindClosed();
      Cover(r);
      open := open[r := f];
      w := FindClosed();
      Cover(w);
      open := open[w := f + 1];
    }

    /** The builtin path of run_cmd: save descriptors 0 and 1 with dup,
        move fdIn onto 0 and fdOut onto 1 when they are not already those
        (closing the originals), run the handler, then dup2 the saved copies
        back. seenIn and seenOut are what 0 and 1 referred to while the
        handler ran. The saved copies are never closed. */
    method RunBuiltin(fdIn: int, fdOut: int)
      returns (saveIn: int, saveOut: int, seenIn: Option<File>, seenOut: Option<File>)
      requires Valid() && 0 in open && 1 in open && fdIn in open && fdOut in open
      requires fdIn != 1 && fdOut != 0
      modifies this
      ensures Valid() && nextFile == old(nextFile)
      ensures Get(0) == old(Get(0)) && Get(1) == old(Get(1))
      ensures LowestClosed(old(open), saveIn) && Get(saveIn) == old(Get(0))
      ensures LowestClosed(old(open)[saveIn := old(open)[0]], saveOut) && Get(saveOut) == old(Get(1))
      ensures seenIn == old(Get(fdIn))
      ensures seenOut == if fdIn != fdOut then old(Get(fdOut)) else old(Get(1))
      ensures forall fd :: fd != 0 && fd != 1 && fd != saveIn && fd != saveOut ==>
                Get(fd) == if Handed(fd, fdIn, fdOut) then None else old(Get(fd))
    {
      saveIn := Dup(0);
      saveOut := Dup(1);
      MoveOnto(fdIn, 0);
      MoveOnto(fdOut, 1);
      seenIn, seenOut := Get(0), Get(1);
      Dup2(saveIn, 0);
      Dup2(saveOut, 1);
      BuiltinEffect(old(open), fdIn, fdOut, saveIn, saveOut);
    }

    /** Descriptor fd takes the place of target and is closed, unless the
        two are the same (the dup2 and close pair of run_cmd). */
    method MoveOnto(fd: int, target: int)
      requires Valid() && target >= 0
      modifies this
      ensures Valid() && nextFile == old(nextFile)
      ensures open == MoveMap(old(open), fd, target)
    {
      if fd != target {
        Dup2(fd, target);
        Close(fd);
      }
    }

    /** The external path of run_cmd, in the shell: when fork succeeds the
        child gets fdIn and fdOut, and the shell closes those that are not
        its own 0 and 1, then waits for the child; when fork fails the shell
        only reports the error and closes nothing. */
    method RunExternal(fdIn: int, fdOut: int, forked: bool)
      requires Valid()
      modifies this
      ensures Valid() && nextFile == old(nextFile)
      ensures forall fd :: Get(fd) == if forked && Handed(fd, fdIn, fdOut) then None else old(Get(fd))
    {
      if forked {
        if fdIn != 0 {
          Close(fdIn);
        }
        if fdOut != 1 {
          Close(fdOut);
        }
      }
    }

    /** run_cmd: a builtin (looked up by the first token, NULL when there
        is none) runs in the shell with descriptor save and restore; any
        other command is launched as a child, and forked says whether fork
        succeeded. The descriptors handed to a builtin or to a launched
        child are closed in the shell afterwards, and 0 and 1 are the
        shell's own again. */
    method RunCmd(tokens: seq<string>, fdIn: int, fdOut: int, forked: bool) returns (saveIn: int, saveOut: int)
      requires Valid() && 0 in open && 1 in open && fdIn in open && fdOut in open
      requires fdIn != 1 && fdOut != 0
      modifies this
      ensures Valid() && nextFile == old(nextFile)
      ensures Get(0) == old(Get(0)) && Get(1) == old(Get(1))
      ensures saveIn >= -1 && saveOut >= -1 && (saveIn == -1 <==> saveOut == -1)
      ensures saveIn >= 0 <==> tokens != [] && tokens[0] in Builtins.Names
      ensures saveIn >= 0 ==> saveIn >= 2 && saveOut >= 2 && saveIn != saveOut
                              && saveIn !in old(open) && saveOut !in old(open)
                              && Get(saveIn) == old(Get(0)) && Get(saveOut) == old(Get(1))
      ensures forall fd :: fd != 0 && fd != 1 && fd != saveIn && fd != saveOut ==>
                Get(fd) == if Handed(fd, fdIn, fdOut) && (saveIn >= 0 || forked) then None else old(Get(fd))
    {
      var fundex := Builtins.Lookup(if tokens == [] then None else Some(tokens[0]));
      if fundex >= 0 {
        var seenIn, seenOut;
        saveIn, saveOut, seenIn, seenOut := RunBuiltin(fdIn, fdOut);
      } else {
        RunExternal(fdIn, fdOut, forked);
        saveIn, saveOut := -1, -1;
      }
    }
  }

  /** What descriptor fd refers to in m; None when it is closed. */
  function Lookup(m: map<int, File>, fd: int): Option<File>
  {
    if fd in m then Some(m[fd]) else None
  }

  /** The table after dup2(oldfd, newfd). */
  function Dup2Map(m: map<int, File>, oldfd: int, newfd: int): map<int, File>
  {
    if oldfd in m && 0 <= newfd && oldfd != newfd then m[newfd := m[oldfd]] else m
  }

  /** The table after dup2(fd, target) and close(fd), done only when fd
      and target differ. */
  function MoveMap(m: map<int, File>, fd: int, target: int): map<int, File>
  {
    if fd == target then m else Dup2Map(m, fd, target) - {fd}
  }

  /** The builtin path's effect on a table m, step by step: 0 and 1 saved
      on the two lowest closed descriptors, fdIn moved onto 0 and fdOut
      onto 1, then the saved copies put back on 0 and 1. While the handler
      runs, 0 and 1 refer to what fdIn and fdOut referred to; afterwards 0
      and 1 are restored, the saved copies stay open, the descriptors
      handed to the stage are closed and nothing else has changed. */
  lemma BuiltinEffect(m: map<int, File>, fdIn: int, fdOut: int, saveIn: int, saveOut: int)
    requires 0 in m && 1 in m && fdIn in m && fdOut in m && fdIn != 1 && fdOut != 0
    requires LowestClosed(m, saveIn) && LowestClosed(m[saveIn := m[0]], saveOut)
    ensures var during := MoveMap(MoveMap(m[saveIn := m[0]][saveOut := m[1]], fdIn, 0), fdOut, 1);
            var after := Dup2Map(Dup2Map(during, saveIn, 0), saveOut, 1);
            && Lookup(during, 0) == Lookup(m, fdIn)
            && Lookup(during, 1) == (if fdIn != fdOut then Lookup(m, fdOut) else Lookup(m, 1))
            && Lookup(after, 0) == Lookup(m, 0) && Lookup(after, 1) == Lookup(m, 1)
            && Lookup(after, saveIn) == Lookup(m, 0) && Lookup(after, saveOut) == Lookup(m, 1)
            && forall fd :: fd != 0 && fd != 1 && fd != saveIn && fd != saveOut ==>
                 Lookup(after, fd) == if Handed(fd, fdIn, fdOut) then None else Lookup(m, fd)
  {
    var saved := m[saveIn := m[0]][saveOut := m[1]];
    assert saveIn >= 2 && saveOut >= 2 && saveIn != saveOut;
    var moved := MoveMap(saved, fdIn, 0);
    assert fdIn != fdOut ==> fdOut in moved && moved[fdOut] == m[fdOut];
    assert saveIn in moved && moved[saveIn] == m[0] && saveOut in moved && moved[saveOut] == m[1];
  }

  /** Whether descriptor fd was handed to a stage run with (fdIn, fdOut)
      and so is closed in the shell afterwards. */
  predicate Handed(fd: int, fdIn: int, fdOut: int)
  {
    (fd == fdIn && fdIn != 0) || (fd == fdOut && fdOut != 1)
  }
}
