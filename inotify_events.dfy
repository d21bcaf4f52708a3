/**
 * The inotify event printer: a constant table from event masks to names,
 * an exact-match lookup in it, and the walk over the variable-length event
 * records that one `read` of the inotify descriptor returns.
 */
module InotifyEvents {
  import opened Wrappers

  /** Mask bits, with the values of the Linux inotify interface. */
  const IN_ACCESS: bv32        := 0x0000_0001
  const IN_MODIFY: bv32        := 0x0000_0002
  const IN_ATTRIB: bv32        := 0x0000_0004
  const IN_CLOSE_WRITE: bv32   := 0x0000_0008
  const IN_CLOSE_NOWRITE: bv32 := 0x0000_0010
  const IN_OPEN: bv32          := 0x0000_0020
  const IN_MOVED_FROM: bv32    := 0x0000_0040
  const IN_MOVED_TO: bv32      := 0x0000_0080
  const IN_CREATE: bv32        := 0x0000_0100
  const IN_DELETE: bv32        := 0x0000_0200
  const IN_DELETE_SELF: bv32   := 0x0000_0400
  const IN_MOVE_SELF: bv32     := 0x0000_0800
  const IN_UNMOUNT: bv32       := 0x0000_2000
  const IN_IGNORED: bv32       := 0x0000_8000
  const IN_CLOSE: bv32         := IN_CLOSE_WRITE | IN_CLOSE_NOWRITE
  const IN_MOVE: bv32          := IN_MOVED_FROM | IN_MOVED_TO
  const IN_MASK_ADD: bv32      := 0x2000_0000
  const IN_ISDIR: bv32         := 0x4000_0000

  /** One `struct event_flag`. */
  datatype EventFlag = EventFlag(mask: bv32, name: string)

  /** `inotify_event_flags`, in its order. */
  const InotifyEventFlags: seq<EventFlag> := [
    EventFlag(IN_ACCESS, "access"),
    EventFlag(IN_ATTRIB, "attrib"),
    EventFlag(IN_CLOSE_WRITE, "close_write"),
    EventFlag(IN_CLOSE_NOWRITE, "close_nowrite"),
    EventFlag(IN_CREATE, "create"),
    EventFlag(IN_DELETE, "delete"),
    EventFlag(IN_DELETE_SELF, "delete_self"),
    EventFlag(IN_MODIFY, "modify"),
    EventFlag(IN_MOVE_SELF, "move_self"),
    EventFlag(IN_MOVED_FROM, "move_from"),
    EventFlag(IN_MOVED_TO, "moved_to"),
    EventFlag(IN_OPEN, "open"),
    EventFlag(IN_MOVE, "move"),
    EventFlag(IN_CLOSE, "close"),
    EventFlag(IN_MASK_ADD, "mask_add"),
    EventFlag(IN_IGNORED, "ignored"),
    EventFlag(IN_ISDIR, "directory"),
    EventFlag(IN_UNMOUNT, "unmount")
  ]

  /** Some entry of `flags` has exactly this mask. */
  predicate Listed(flags: seq<EventFlag>, mask: bv32)
  {
    exists i :: 0 <= i < |flags| && flags[i].mask == mask
  }

  /** The name of the first entry of `flags` at or after `from` whose mask is exactly `mask`. */
  function NameFrom(flags: seq<EventFlag>, mask: bv32, from: nat): Option<string>
    requires from <= |flags|
    decreases |flags| - from
  {
    if from == |flags| then None
    else if flags[from].mask == mask then Some(flags[from].name)
    else NameFrom(flags, mask, from + 1)
  }

  /** is_valid_event's condition: some table entry has exactly this mask. */
  predicate InTable(mask: bv32)
  {
    Listed(InotifyEventFlags, mask)
  }

  /** The name get_event_str gives a mask. */
  function EventName(mask: bv32): Option<string>
  {
    NameFrom(InotifyEventFlags, mask, 0)
  }

  /**
   * The search from `from` finds a name exactly when some entry from there on
   * has the mask, and then it is the name of the first such entry.
   */
  lemma {:induction false} NameFromSpec(flags: seq<EventFlag>, mask: bv32, from: nat)
    requires from <= |flags|
    ensures NameFrom(flags, mask, from).Some? <==>
      exists i :: from <= i < |flags| && flags[i].mask == mask
    ensures NameFrom(flags, mask, from).Some? ==>
      exists i :: from <= i < |flags| && flags[i].mask == mask
        && NameFrom(flags, mask, from).value == flags[i].name
        && forall j :: from <= j < i ==> flags[j].mask != mask
    decreases |flags| - from
  {
    if from < |flags| && flags[from].mask != mask {
      NameFromSpec(flags, mask, from + 1);
    }
  }

  /** Entries in [from, until) that do not carry the mask are skipped over. */
  lemma {:induction false} NameFromSkip(flags: seq<EventFlag>, mask: bv32, from: nat, until: nat)
    requires from <= until <= |flags|
    requires forall j :: from <= j < until ==> flags[j].mask != mask
    ensures NameFrom(flags, mask, from) == NameFrom(flags, mask, until)
    decreases until - from
  {
    if from < until {
      NameFromSkip(flags, mask, from + 1, until);
    }
  }

  /**
   * A mask is valid exactly when it has a name, so is_valid_event agrees with
   * get_event_str; the name is that of the first entry with the mask.
   */
  lemma ValidIffNamed(flags: seq<EventFlag>, mask: bv32)
    ensures Listed(flags, mask) <==> NameFrom(flags, mask, 0).Some?
    ensures NameFrom(flags, mask, 0).Some? ==>
      exists i :: 0 <= i < |flags| && flags[i].mask == mask
        && NameFrom(flags, mask, 0).value == flags[i].name
        && forall j :: 0 <= j < i ==> flags[j].mask != mask
  {
    NameFromSpec(flags, mask, 0);
  }

  /**
   * get_event_str: the name of the first table entry whose mask equals
   * `mask`, or None (NULL) when there is none.
   */
  method GetEventStr(mask: bv32) returns (name: Option<string>)
    ensures name == EventName(mask)
    ensures name.Some? <==> InTable(mask)
  {
    var i := 0;
    while i < |InotifyEventFlags|
      invariant 0 <= i <= |InotifyEventFlags|
      invariant NameFrom(InotifyEventFlags, mask, i) == EventName(mask)
    {
      if InotifyEventFlags[i].mask == mask {
        ValidIffNamed(InotifyEventFlags, mask);
        return Some(InotifyEventFlags[i].name);
      }
      i := i + 1;
    }
    ValidIffNamed(InotifyEventFlags, mask);
    return None;
  }

  /** is_valid_event: whether some table entry's mask equals `mask` exactly. */
  method IsValidEvent(mask: bv32) returns (valid: bool)
    ensures valid <==> InTable(mask)
  {
    var i := 0;
    while i < |InotifyEventFlags|
      invariant 0 <= i <= |InotifyEventFlags|
      invariant forall j :: 0 <= j < i ==> InotifyEventFlags[j].mask != mask
    {
      if InotifyEventFlags[i].mask == mask {
        return true;
      }
      i := i + 1;
    }
    return false;
  }

  /**
   * Matching is by equality, not by bits: an opened directory reports
   * IN_OPEN | IN_ISDIR, which is no table entry, so that event is neither
   * named nor printed, while the composite masks IN_MOVE and IN_CLOSE are
   * entries of their own.
   */
  lemma ExactMatchExamples()
    ensures !InTable(IN_OPEN | IN_ISDIR) && EventName(IN_OPEN | IN_ISDIR) == None
    ensures InTable(IN_MOVE) && EventName(IN_MOVE) == Some("move")
    ensures InTable(IN_CLOSE) && EventName(IN_CLOSE) == Some("close")
  {
    ValidIffNamed(InotifyEventFlags, IN_OPEN | IN_ISDIR);
    NameFromSkip(InotifyEventFlags, IN_MOVE, 0, 12);
    NameFromSkip(InotifyEventFlags, IN_CLOSE, 0, 13);
  }

  newtype Byte = b: int | 0 <= b < 256

  /** sizeof(struct inotify_event): wd, mask, cookie and len, four bytes each. */
  const EventHeaderSize: nat := 16

  /** The little-endian 32-bit value at byte offset `off`. */
  function U32(buf: seq<Byte>, off: nat): (v: nat)
    requires off + 4 <= |buf|
    ensures v < 0x1_0000_0000
  {
    buf[off] as nat + 0x100 * buf[off + 1] as nat + 0x1_0000 * buf[off + 2] as nat + 0x100_0000 * buf[off + 3] as nat
  }

  /** `ev->mask` of the record at `off`. */
  function MaskAt(buf: seq<Byte>, off: nat): bv32
    requires off + EventHeaderSize <= |buf|
  {
    U32(buf, off + 4) as bv32
  }

  /** The offset of the record after the one at `off`: past its header and its `ev->len` name bytes. */
  function NextRecord(buf: seq<Byte>, off: nat): (next: nat)
    requires off + EventHeaderSize <= |buf|
    ensures next >= off + EventHeaderSize
  {
    off + EventHeaderSize + U32(buf, off + 12)
  }

  /**
   * Every record header the walk from `off` visits before passing `len`
   * lies inside the buffer (the kernel hands out whole records).
   */
  predicate Walkable(buf: seq<Byte>, off: nat, len: nat)
    decreases len - off
  {
    off >= len || (off + EventHeaderSize <= |buf| && Walkable(buf, NextRecord(buf, off), len))
  }

  /** The offsets of the records the walk from `off` prints: those whose mask is valid. */
  function PrintedFrom(buf: seq<Byte>, off: nat, len: nat): seq<nat>
    requires Walkable(buf, off, len)
    decreases len - off
  {
    if off >= len then []
    else (if InTable(MaskAt(buf, off)) then [off] else []) + PrintedFrom(buf, NextRecord(buf, off), len)
  }

  /**
   * The records printed from `off` on lie at increasing offsets in
   * [off, len), and each has a valid mask.
   */
  lemma {:induction false} PrintedFromSpec(buf: seq<Byte>, off: nat, len: nat)
    requires Walkable(buf, off, len)
    ensures forall k :: 0 <= k < |PrintedFrom(buf, off, len)| ==>
      off <= PrintedFrom(buf, off, len)[k] < len
      && PrintedFrom(buf, off, len)[k] + EventHeaderSize <= |buf|
      && InTable(MaskAt(buf, PrintedFrom(buf, off, len)[k]))
    ensures forall k, l :: 0 <= k < l < |PrintedFrom(buf, off, len)| ==>
      PrintedFrom(buf, off, len)[k] < PrintedFrom(buf, off, len)[l]
    decreases len - off
  {
    if off < len {
      PrintedFromSpec(buf, NextRecord(buf, off), len);
    }
  }

  /** One step of the walk: the record at `off` is printed when it is valid, then the walk goes on after it. */
  lemma PrintedFromStep(buf: seq<Byte>, off: nat, len: nat, valid: bool, printed: seq<nat>)
    requires off < len && Walkable(buf, off, len)
    requires valid == InTable(MaskAt(buf, off))
    ensures (if valid then printed + [off] else printed) + PrintedFrom(buf, NextRecord(buf, off), len)
      == printed + PrintedFrom(buf, off, len)
  {
    if valid {
      assert (printed + [off]) + PrintedFrom(buf, NextRecord(buf, off), len)
        == printed + ([off] + PrintedFrom(buf, NextRecord(buf, off), len));
    }
  }

  /**
   * The record walk of main over one read of `len` bytes: starting at the
   * front it prints every record with a valid mask and advances past the
   * record's header and name, until the offset reaches `len`. The result is
   * the offsets of the printed records.
   */
  method WalkEvents(buf: seq<Byte>, len: nat) returns (printed: seq<nat>)
    requires Walkable(buf, 0, len)
    ensures printed == PrintedFrom(buf, 0, len)
    ensures forall k :: 0 <= k < |printed| ==>
      printed[k] < len && printed[k] + EventHeaderSize <= |buf| && InTable(MaskAt(buf, printed[k]))
    ensures forall k, l :: 0 <= k < l < |printed| ==> printed[k] < printed[l]
  {
    printed := [];
    var ptr: nat := 0;
    while ptr < len
      invariant Walkable(buf, ptr, len)
      invariant printed + PrintedFrom(buf, ptr, len) == PrintedFrom(buf, 0, len)
      decreases len - ptr
    {
      var valid := IsValidEvent(MaskAt(buf, ptr));
      var next := NextRecord(buf, ptr);
      PrintedFromStep(buf, ptr, len, valid, printed);
      if valid {
        printed := printed + [ptr];
      }
      ptr := next;
    }
    PrintedFromSpec(buf, 0, len);
  }
}
