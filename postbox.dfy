/**
 * The postbox server: requests arrive through a fifo or a Unix domain
 * socket; an epoll loop hands each ready descriptor to the handler of the
 * first postbox that owns it. Handlers strip trailing newlines from what
 * they read and print it as a C string.
 */
module Postbox {
  import opened Wrappers

  /** `char buf[128]` in domain_recv and fifo_handle. */
  const BufLen: nat := 128

  /**
   * The most bytes a handler may read so that the terminator still fits:
   * sizeof(buf) - 1. (The program asks for sizeof(buf); see TrimTerminate.)
   */
  const ReadLimit: nat := BufLen - 1

  const EPOLLIN: bv32 := 0x001
  const EPOLLHUP: bv32 := 0x010

  /**
   * The length the trimming loop `while (n > 1 && buf[n-1] == '\n') n--;`
   * leaves of the bytes `s`: trailing newlines go, but at least one byte
   * stays.
   */
  function TrimmedLen(s: seq<char>): (k: nat)
    ensures k <= |s|
    ensures |s| > 0 ==> k >= 1
    ensures forall i :: k <= i < |s| ==> s[i] == '\n'
    ensures k > 1 ==> s[k - 1] != '\n'
  {
    if |s| > 1 && s[|s| - 1] == '\n' then TrimmedLen(s[..|s| - 1]) else |s|
  }

  /** Trimming what has been trimmed changes nothing. */
  lemma TrimIdempotent(s: seq<char>)
    ensures TrimmedLen(s[..TrimmedLen(s)]) == TrimmedLen(s)
  {
    var k := TrimmedLen(s);
    var t := s[..k];
    assert |t| > 1 ==> t[|t| - 1] == s[k - 1];
  }

  /**
   * The trimming loop and `buf[n] = 0` of domain_recv and fifo_handle, on the
   * `n` bytes read into `buf`. The terminator is written at the trimmed
   * length, which must be an index of `buf`: that is the precondition the
   * code as written does not always meet (AsWrittenTerminatorOutOfBounds).
   */
  method TrimTerminate(buf: array<char>, n: int) returns (k: int)
    requires 0 <= n <= buf.Length
    requires TrimmedLen(buf[..n]) < buf.Length
    modifies buf
    ensures k == TrimmedLen(old(buf[..n]))
    ensures buf[..] == old(buf[..])[k := '\0']
  {
    k := n;
    while k > 1 && buf[k - 1] == '\n'
      invariant 0 <= k <= n
      invariant TrimmedLen(buf[..k]) == TrimmedLen(buf[..n])
    {
      assert buf[..k - 1] == buf[..k][..k - 1];
      k := k - 1;
    }
    assert TrimmedLen(buf[..k]) == k;
    buf[k] := '\0';
  }

  /**
   * As written, recv and read are asked for sizeof(buf) bytes, so they may
   * return all 128. When the last of them is not a newline nothing is
   * trimmed and `buf[128] = 0` writes one past the end of the buffer.
   */
  lemma AsWrittenTerminatorOutOfBounds(s: seq<char>)
    requires |s| == BufLen && s[BufLen - 1] != '\n'
    ensures TrimmedLen(s) == BufLen
    ensures !(TrimmedLen(s) < BufLen)
  {
  }

  /** With reads limited to sizeof(buf) - 1 bytes the terminator always fits. */
  lemma LimitedReadTerminatorInBounds(s: seq<char>)
    requires |s| <= ReadLimit
    ensures TrimmedLen(s) < BufLen
  {
  }

  /** The outcome of a recv or read: an error, or the bytes received. */
  datatype ReadResult = Failed | Received(bytes: seq<char>)

  /** What a handler does in response to one event. */
  datatype Action =
    | Exit                      // a failed read: the program exits
    | Print(msg: string)        // print the message
    | PrintAndClose(msg: string) // print the message, then deregister and close the descriptor
    | Close                     // deregister and close the descriptor
    | Reopen                    // deregister, close, reopen the fifo and register it again
    | Ignore                    // neither EPOLLIN nor EPOLLHUP: nothing happens

  /** Copies the received bytes into a fresh 128-byte buffer, then trims and terminates them. */
  method ReceiveInto(bytes: seq<char>) returns (msg: string)
    requires |bytes| <= ReadLimit
    ensures msg == bytes[..TrimmedLen(bytes)]
  {
    var buf := new char[BufLen];
    forall i | 0 <= i < |bytes| {
      buf[i] := bytes[i];
    }
    assert buf[..|bytes|] == bytes;
    LimitedReadTerminatorInBounds(bytes);
    var k := TrimTerminate(buf, |bytes|);
    msg := buf[..k];
  }

  /**
   * domain_recv with reads limited to sizeof(buf) - 1: on EPOLLIN it prints
   * the received bytes without their trailing newlines (keeping at least one
   * byte) and closes the client; on EPOLLHUP alone it closes the client.
   */
  method DomainRecv(events: bv32, r: ReadResult) returns (a: Action)
    requires r.Received? ==> |r.bytes| <= ReadLimit
    ensures events & EPOLLIN != 0 && r.Failed? ==> a == Exit
    ensures events & EPOLLIN != 0 && r.Received? ==>
      a.PrintAndClose? && a.msg == r.bytes[..TrimmedLen(r.bytes)]
    ensures events & EPOLLIN == 0 ==> a == if events & EPOLLHUP != 0 then Close else Ignore
  {
    if events & EPOLLIN != 0 {
      match r
      case Failed =>
        a := Exit;
      case Received(bytes) =>
        var msg := ReceiveInto(bytes);
        a := PrintAndClose(msg);
    } else if events & EPOLLHUP != 0 {
      a := Close;
    } else {
      a := Ignore;
    }
  }

  /**
   * fifo_handle with reads limited to sizeof(buf) - 1: on EPOLLIN an empty
   * read means the writer has gone and the fifo is reopened, other reads are
   * printed without their trailing newlines; on EPOLLHUP alone the fifo is
   * reopened.
   */
  method FifoHandle(events: bv32, r: ReadResult) returns (a: Action)
    requires r.Received? ==> |r.bytes| <= ReadLimit
    ensures events & EPOLLIN != 0 && r.Failed? ==> a == Exit
    ensures events & EPOLLIN != 0 && r.Received? ==>
      if r.bytes == [] then a == Reopen else a.Print? && a.msg == r.bytes[..TrimmedLen(r.bytes)]
    ensures events & EPOLLIN == 0 ==> a == if events & EPOLLHUP != 0 then Reopen else Ignore
  {
    if events & EPOLLIN != 0 {
      match r
      case Failed =>
        a := Exit;
      case Received(bytes) =>
        if bytes == [] {
          a := Reopen;
        } else {
          var msg := ReceiveInto(bytes);
          a := Print(msg);
        }
    } else if events & EPOLLHUP != 0 {
      a := Reopen;
    } else {
      a := Ignore;
    }
  }

  /** The handler a postbox names. */
  datatype Handler = FifoHandler | DomainAcceptHandler | DomainRecvHandler

  /** One `struct postbox`: its descriptor (-1 until prepared), whether it has a prepare function, its handler. */
  datatype Box = Box(fd: int, hasPrepare: bool, handle: Handler)

  /** `boxes`, as initialised. */
  const Boxes: seq<Box> := [
    Box(-1, true, FifoHandler),
    Box(-1, true, DomainAcceptHandler),
    Box(-1, false, DomainRecvHandler)
  ]

  /** The dispatch test: the box owns the descriptor, or owns none and so takes any. */
  predicate Takes(b: Box, fd: int)
  {
    b.fd == fd || b.fd == -1
  }

  /** The index of the first box at or after `from` that takes `fd`. */
  function FirstTaker(boxes: seq<Box>, fd: int, from: nat): (r: Option<nat>)
    requires from <= |boxes|
    ensures r.Some? ==>
      && from <= r.value < |boxes| && Takes(boxes[r.value], fd)
      && forall j :: from <= j < r.value ==> !Takes(boxes[j], fd)
    ensures r.None? ==> forall j :: from <= j < |boxes| ==> !Takes(boxes[j], fd)
    decreases |boxes| - from
  {
    if from == |boxes| then None
    else if Takes(boxes[from], fd) then Some(from)
    else FirstTaker(boxes, fd, from + 1)
  }

  /**
   * The prepare loop of main: every box with a prepare function gets the
   * descriptor that function returned (`prepared[i]`); the others keep theirs.
   */
  method PrepareBoxes(boxes: array<Box>, prepared: seq<int>)
    requires |prepared| == boxes.Length
    modifies boxes
    ensures forall i :: 0 <= i < boxes.Length ==>
      boxes[i] == if old(boxes[i]).hasPrepare then old(boxes[i]).(fd := prepared[i]) else old(boxes[i])
  {
    var i := 0;
    while i < boxes.Length
      invariant 0 <= i <= boxes.Length
      invariant forall j :: 0 <= j < i ==>
        boxes[j] == if old(boxes[j]).hasPrepare then old(boxes[j]).(fd := prepared[j]) else old(boxes[j])
      invariant forall j :: i <= j < boxes.Length ==> boxes[j] == old(boxes[j])
    {
      if boxes[i].hasPrepare {
        boxes[i] := boxes[i].(fd := prepared[i]);
      }
      i := i + 1;
    }
  }

  /**
   * The dispatch loop for one event of main: the handler of the first box
   * whose descriptor equals the event's or is -1 is called, and no other.
   */
  method Dispatch(boxes: array<Box>, fd: int) returns (chosen: Option<nat>)
    ensures chosen == FirstTaker(boxes[..], fd, 0)
    ensures chosen.Some? ==>
      && chosen.value < boxes.Length && Takes(boxes[chosen.value], fd)
      && forall j :: 0 <= j < chosen.value ==> !Takes(boxes[j], fd)
    ensures chosen.None? ==> forall j :: 0 <= j < boxes.Length ==> !Takes(boxes[j], fd)
  {
    var i := 0;
    while i < boxes.Length
      invariant 0 <= i <= boxes.Length
      invariant FirstTaker(boxes[..], fd, i) == FirstTaker(boxes[..], fd, 0)
    {
      if Takes(boxes[i], fd) {
        return Some(i);
      }
      i := i + 1;
    }
    return None;
  }

  /**
   * After preparation the fifo box owns the fifo descriptor and the socket
   * box the listening socket; the third box has no prepare function, keeps
   * fd -1 and therefore receives every other descriptor, such as accepted
   * clients. Every event goes to exactly one of the three.
   */
  lemma PreparedRouting(fifoFd: int, sockFd: int, fd: int)
    requires fifoFd >= 0 && sockFd >= 0
    ensures FirstTaker([Boxes[0].(fd := fifoFd), Boxes[1].(fd := sockFd), Boxes[2]], fd, 0)
      == Some(if fd == fifoFd then 0 else if fd == sockFd then 1 else 2)
  {
    var prepared := [Boxes[0].(fd := fifoFd), Boxes[1].(fd := sockFd), Boxes[2]];
    assert Takes(prepared[2], fd);
  }
}
