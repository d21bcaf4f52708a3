/**
 * The filter multiplexer: each filter command runs as a child process whose
 * output is drained and copied to standard output with a `[cmd] ` tag at the
 * start of every line. The byte last copied from a process is kept in
 * `last`, so a line split across two reads is tagged only once.
 */
module Multiplexer {

  /**
   * What drain_proc writes: the tag `[cmd] ` (printed with printf) or one
   * byte of the child's output (printed with putchar).
   */
  datatype Emit = Tag | Byte(c: char)

  /** One `struct proc`. */
  class Proc {
    const cmd: string
    var pid: int
    const stdin: int
    const stdout: int
    var last: char

    /** A process as main sets it up: its command, spawned pid and pipe ends, and `last = '\n'`. */
    constructor (cmd: string, pid: int, stdin: int, stdout: int)
      ensures this.cmd == cmd && this.pid == pid && this.stdin == stdin && this.stdout == stdout
      ensures last == '\n'
    {
      this.cmd := cmd;
      this.pid := pid;
      this.stdin := stdin;
      this.stdout := stdout;
      last := '\n';
    }
  }

  /** The output for the bytes `s`, when the byte copied before them was `last`. */
  function Prefixed(last: char, s: seq<char>): (out: seq<Emit>)
    ensures |out| >= |s|
    decreases s
  {
    if s == [] then []
    else Copied(last, s[0]) + Prefixed(s[0], s[1..])
  }

  /** The output for one byte `c` copied after `last`: the tag first when `last` ended a line. */
  function Copied(last: char, c: char): seq<Emit>
  {
    (if last == '\n' then [Tag] else []) + [Byte(c)]
  }

  /** The byte that precedes `s[i]`: the byte before it in `s`, or `last` for the first. */
  function Preceding(last: char, s: seq<char>, i: nat): char
    requires i < |s|
  {
    if i == 0 then last else s[i - 1]
  }

  /** The value of `last` after the bytes `s` have been copied. */
  function LastAfter(last: char, s: seq<char>): char
  {
    if s == [] then last else s[|s| - 1]
  }

  /** The copied bytes of an output, with the tags deleted. */
  function Untagged(out: seq<Emit>): seq<char>
  {
    if out == [] then []
    else Kept(out[0]) + Untagged(out[1..])
  }

  /** What one element of the output contributes to the bytes copied: nothing for a tag. */
  function Kept(e: Emit): seq<char>
  {
    if e.Byte? then [e.c] else []
  }

  /** The text printed for one element of the output: `printf("[%s] ", cmd)` or `putchar(c)`. */
  function Text(cmd: string, e: Emit): string
  {
    match e
    case Tag => "[" + cmd + "] "
    case Byte(c) => [c]
  }

  /** The text printed for an output of the process running `cmd`. */
  function Render(cmd: string, out: seq<Emit>): string
  {
    if out == [] then [] else Text(cmd, out[0]) + Render(cmd, out[1..])
  }

  lemma {:induction false} UntaggedAppend(x: seq<Emit>, y: seq<Emit>)
    ensures Untagged(x + y) == Untagged(x) + Untagged(y)
  {
    if x == [] {
      assert x + y == y;
    } else {
      assert (x + y)[0] == x[0];
      assert (x + y)[1..] == x[1..] + y;
      calc {
        Untagged(x + y);
        Kept(x[0]) + Untagged(x[1..] + y);
        { UntaggedAppend(x[1..], y); }
        Kept(x[0]) + (Untagged(x[1..]) + Untagged(y));
        (Kept(x[0]) + Untagged(x[1..])) + Untagged(y);
      }
    }
  }

  /** The printed text of two outputs in a row is the two texts in a row. */
  lemma {:induction false} RenderAppend(cmd: string, x: seq<Emit>, y: seq<Emit>)
    ensures Render(cmd, x + y) == Render(cmd, x) + Render(cmd, y)
  {
    if x == [] {
      assert x + y == y;
    } else {
      assert (x + y)[0] == x[0];
      assert (x + y)[1..] == x[1..] + y;
      calc {
        Render(cmd, x + y);
        Text(cmd, x[0]) + Render(cmd, x[1..] + y);
        { RenderAppend(cmd, x[1..], y); }
        Text(cmd, x[0]) + (Render(cmd, x[1..]) + Render(cmd, y));
        (Text(cmd, x[0]) + Render(cmd, x[1..])) + Render(cmd, y);
      }
    }
  }

  /**
   * Copying `a` and then `b` gives the output of copying `a + b` at once:
   * `last` carries exactly what the second call needs.
   */
  lemma {:induction false} PrefixedAppend(last: char, a: seq<char>, b: seq<char>)
    ensures Prefixed(last, a + b) == Prefixed(last, a) + Prefixed(LastAfter(last, a), b)
    decreases a
  {
    if a == [] {
      assert a + b == b;
    } else {
      assert (a + b)[0] == a[0];
      assert (a + b)[1..] == a[1..] + b;
      assert LastAfter(a[0], a[1..]) == LastAfter(last, a);
      calc {
        Prefixed(last, a + b);
        Copied(last, a[0]) + Prefixed(a[0], a[1..] + b);
        { PrefixedAppend(a[0], a[1..], b); }
        Copied(last, a[0]) + (Prefixed(a[0], a[1..]) + Prefixed(LastAfter(last, a), b));
        (Copied(last, a[0]) + Prefixed(a[0], a[1..])) + Prefixed(LastAfter(last, a), b);
      }
    }
  }

  /** Deleting the tags from the output gives back exactly the bytes read, in order. */
  lemma {:induction false} PrefixedUntagged(last: char, s: seq<char>)
    ensures Untagged(Prefixed(last, s)) == s
    decreases s
  {
    if s != [] {
      var head := Copied(last, s[0]);
      UntaggedAppend(head, Prefixed(s[0], s[1..]));
      UntaggedAppend(if last == '\n' then [Tag] else [], [Byte(s[0])]);
      PrefixedUntagged(s[0], s[1..]);
      assert s == [s[0]] + s[1..];
    }
  }

  /**
   * The output around byte `i`: the tag stands immediately before `s[i]`
   * exactly when the byte preceding it is a newline.
   */
  lemma PrefixedAt(last: char, s: seq<char>, i: nat)
    requires i < |s|
    ensures Prefixed(last, s) ==
      Prefixed(last, s[..i])
      + (if Preceding(last, s, i) == '\n' then [Tag] else [])
      + [Byte(s[i])]
      + Prefixed(s[i], s[i + 1..])
  {
    assert s == s[..i] + s[i..];
    PrefixedAppend(last, s[..i], s[i..]);
    assert LastAfter(last, s[..i]) == Preceding(last, s, i);
    assert s[i..][1..] == s[i + 1..];
  }

  /** A process starts with `last == '\n'`, so the very first byte it prints is tagged. */
  lemma FirstByteTagged(s: seq<char>)
    requires s != []
    ensures Prefixed('\n', s)[0] == Tag
  {
  }

  /** What one drain_proc call does, as seen by its caller. */
  datatype DrainResult =
    | ReadFailed                               // read failed: the program exits
    | Drained(out: seq<Emit>, count: nat)      // the output written and the count returned

  /**
   * drain_proc, with the result of `read` given as `n` and the bytes it
   * stored as `buf`. A zero-length read means the process has exited: its
   * pid is cleared. Otherwise each byte is copied, preceded by the tag when
   * the byte before it was a newline, and `last` ends as the last byte copied.
   */
  method DrainProc(p: Proc, n: int, buf: seq<char>) returns (r: DrainResult)
    requires n <= |buf|
    modifies p
    ensures n < 0 ==> r == ReadFailed && p.last == old(p.last) && p.pid == old(p.pid)
    ensures n >= 0 ==> r == Drained(Prefixed(old(p.last), buf[..n]), n)
    ensures n >= 0 ==> p.last == LastAfter(old(p.last), buf[..n])
    ensures p.pid == if n == 0 then 0 else old(p.pid)
  {
    if n < 0 {
      return ReadFailed;
    } else if n == 0 {
      // waitpid and the exit report
      p.pid := 0;
    }
    var out: seq<Emit> := [];
    var i := 0;
    while i < n
      invariant 0 <= i <= n
      invariant out == Prefixed(old(p.last), buf[..i])
      invariant p.last == LastAfter(old(p.last), buf[..i])
      invariant p.pid == if n == 0 then 0 else old(p.pid)
    {
      PrefixedAppend(old(p.last), buf[..i], [buf[i]]);
      assert buf[..i + 1] == buf[..i] + [buf[i]];
      if p.last == '\n' {
        out := out + [Tag];
      }
      out := out + [Byte(buf[i])];
      p.last := buf[i];
      i := i + 1;
    }
    r := Drained(out, n);
  }

  /** The value main computes as `nfds`, over the live processes of `procs[..k]`. */
  function MaxLiveFd(procs: seq<Proc>, k: nat): int
    requires k <= |procs|
    reads procs
  {
    if k == 0 then 0
    else
      var m := MaxLiveFd(procs, k - 1);
      if procs[k - 1].pid != 0 && m < procs[k - 1].stdout then procs[k - 1].stdout else m
  }

  /**
   * The `nfds` loop of main: the largest stdout descriptor of a process
   * whose pid is not 0, or 0 when there is none. When every stdout
   * descriptor is positive, the loop of main stops (nfds == 0) exactly when
   * no process is live.
   */
  method ComputeNfds(procs: seq<Proc>) returns (nfds: int)
    ensures nfds == MaxLiveFd(procs, |procs|)
    ensures nfds >= 0
    ensures forall i :: 0 <= i < |procs| && procs[i].pid != 0 ==> procs[i].stdout <= nfds
    ensures nfds == 0 || exists i :: 0 <= i < |procs| && procs[i].pid != 0 && procs[i].stdout == nfds
    ensures (forall i :: 0 <= i < |procs| ==> procs[i].stdout > 0) ==>
      (nfds == 0 <==> forall i :: 0 <= i < |procs| ==> procs[i].pid == 0)
  {
    nfds := 0;
    var i := 0;
    while i < |procs|
      invariant 0 <= i <= |procs|
      invariant nfds == MaxLiveFd(procs, i)
      invariant nfds >= 0
      invariant forall j :: 0 <= j < i && procs[j].pid != 0 ==> procs[j].stdout <= nfds
      invariant nfds == 0 || exists j :: 0 <= j < i && procs[j].pid != 0 && procs[j].stdout == nfds
    {
      if procs[i].pid != 0 {
        if nfds < procs[i].stdout {
          nfds := procs[i].stdout;
        }
      }
      i := i + 1;
    }
  }

  /** The stdin descriptors of the live processes among `procs[..k]`, in order. */
  function LiveStdinsOf(procs: seq<Proc>, k: nat): seq<int>
    requires k <= |procs|
    reads procs
  {
    if k == 0 then []
    else LiveStdinsOf(procs, k - 1) + (if procs[k - 1].pid != 0 then [procs[k - 1].stdin] else [])
  }

  lemma {:induction false} LiveStdinsMembership(procs: seq<Proc>, k: nat, fd: int)
    requires k <= |procs|
    ensures fd in LiveStdinsOf(procs, k) <==> exists i :: 0 <= i < k && procs[i].pid != 0 && procs[i].stdin == fd
  {
    if k > 0 {
      LiveStdinsMembership(procs, k - 1, fd);
    }
  }

  /**
   * The descriptors close_procs closes, and stdin_thread writes to: the
   * stdin of every process whose pid is not 0, and no other.
   */
  method LiveStdins(procs: seq<Proc>) returns (fds: seq<int>)
    ensures fds == LiveStdinsOf(procs, |procs|)
    ensures |fds| <= |procs|
    ensures forall fd :: fd in fds <==> exists i :: 0 <= i < |procs| && procs[i].pid != 0 && procs[i].stdin == fd
  {
    fds := [];
    var i := 0;
    while i < |procs|
      invariant 0 <= i <= |procs|
      invariant fds == LiveStdinsOf(procs, i) && |fds| <= i
    {
      if procs[i].pid != 0 {
        fds := fds + [procs[i].stdin];
      }
      i := i + 1;
    }
    forall fd {
      LiveStdinsMembership(procs, |procs|, fd);
    }
  }

  /** What one round of stdin_thread does with a read of `len` bytes. */
  datatype StdinAction =
    | CloseAll(fds: seq<int>)             // end of input or error: close the live stdins and stop
    | Forward(fds: seq<int>, len: nat)    // write the bytes to every live stdin

  method StdinStep(procs: seq<Proc>, len: int) returns (a: StdinAction)
    ensures len <= 0 <==> a.CloseAll?
    ensures a.Forward? ==> a.len == len
    ensures forall fd :: fd in a.fds <==>
      exists i :: 0 <= i < |procs| && procs[i].pid != 0 && procs[i].stdin == fd
  {
    var fds := LiveStdins(procs);
    if len <= 0 {
      a := CloseAll(fds);
    } else {
      a := Forward(fds, len);
    }
  }
}
