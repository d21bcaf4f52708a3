/**
 * The line sorter: a growable array of I/O vectors (`struct iodata`) that
 * collects the input lines, and the comparator `iov_compare` that orders
 * them for `qsort`.
 */
module IoData {

  /** A plain C `char`: signed, as on x86-64. */
  newtype Char = c: int | -128 <= c < 128

  /** One `struct iovec`: a base pointer's bytes and a length. */
  datatype IoVec = IoVec(base: seq<Char>, len: nat)

  /** The capacity step of the array, in entries. */
  const AllocStep: nat := 32

  /** sizeof(struct iovec) on LP64: a pointer and a size_t. */
  const IoVecSize: nat := 16

  /**
   * `struct iodata`. Its capacity is counted in entries; `iov` is the
   * allocation, of which the first `entries` slots are in use.
   */
  class IoVecArray {
    var iov: array<IoVec>
    var entries: nat
    /** `allocated`, renamed because that word is reserved in Dafny. */
    var allocSize: nat

    ghost predicate Valid()
      reads this
    {
      && iov.Length == allocSize
      && entries <= allocSize
      && allocSize >= AllocStep && allocSize % AllocStep == 0
    }

    /** The entries in use, in the order they were entered. */
    ghost function Entries(): seq<IoVec>
      reads this, iov
      requires Valid()
    {
      iov[..entries]
    }

    /** init_iodata: no entries and room for 32. */
    constructor ()
      ensures Valid() && fresh(iov)
      ensures entries == 0 && allocSize == AllocStep
      ensures Entries() == []
    {
      entries := 0;
      allocSize := AllocStep;
      iov := new IoVec[AllocStep];
    }

    /**
     * enter_iodata: appends `(line, len)`. When the array is full its
     * capacity grows by one step, keeping every earlier entry.
     */
    method Enter(line: seq<Char>, len: nat)
      requires Valid()
      modifies this, iov
      ensures Valid()
      ensures Entries() == old(Entries()) + [IoVec(line, len)]
      ensures entries == old(entries) + 1
      ensures allocSize == if old(entries) < old(allocSize) then old(allocSize) else old(allocSize) + AllocStep
      ensures iov == old(iov) || fresh(iov)
    {
      while entries >= allocSize
        invariant Valid()
        invariant entries == old(entries)
        invariant iov == old(iov) || fresh(iov)
        invariant iov[..entries] == old(iov[..entries])
        invariant allocSize == old(allocSize) || (old(entries) >= old(allocSize) && allocSize == old(allocSize) + AllocStep)
        decreases entries + AllocStep - allocSize
      {
        allocSize := allocSize + AllocStep;
        Realloc(allocSize);
      }
      iov[entries] := IoVec(line, len);
      entries := entries + 1;
    }

    /**
     * realloc, with the new size counted in entries: moves the array into a fresh allocation of `size` entries,
     * keeping the old ones.
     */
    method Realloc(size: nat)
      requires iov.Length <= size
      modifies this`iov
      ensures fresh(iov) && iov.Length == size
      ensures iov[..old(iov.Length)] == old(iov[..])
    {
      var bigger := new IoVec[size];
      forall i | 0 <= i < iov.Length {
        bigger[i] := iov[i];
      }
      iov := bigger;
    }
  }

  /**
   * iov_compare on the bytes of two vectors: the first difference within the
   * common prefix decides (as signed chars); otherwise the shorter one comes
   * first, and equal lengths compare equal.
   */
  function Compare(lhs: seq<Char>, rhs: seq<Char>): (c: int)
    ensures -1 <= c <= 1
  {
    if |lhs| == 0 || |rhs| == 0 then
      if |lhs| == |rhs| then 0 else if |lhs| < |rhs| then -1 else 1
    else if lhs[0] < rhs[0] then -1
    else if lhs[0] > rhs[0] then 1
    else Compare(lhs[1..], rhs[1..])
  }

  /** The bytes an I/O vector describes. */
  function Bytes(v: IoVec): (s: seq<Char>)
    requires v.len <= |v.base|
    ensures |s| == v.len && s == v.base[..v.len]
  {
    v.base[..v.len]
  }

  /**
   * The comparator as qsort calls it, on two I/O vectors: -1, 0 or 1, and 0
   * exactly for vectors that describe the same bytes.
   */
  function IovCompare(l: IoVec, r: IoVec): (c: int)
    requires l.len <= |l.base| && r.len <= |r.base|
    ensures -1 <= c <= 1
    ensures c == 0 <==> Bytes(l) == Bytes(r)
  {
    CompareZeroIff(Bytes(l), Bytes(r));
    Compare(Bytes(l), Bytes(r))
  }

  /** Two byte strings compare equal exactly when they are the same string. */
  lemma {:induction false} CompareZeroIff(a: seq<Char>, b: seq<Char>)
    ensures Compare(a, b) == 0 <==> a == b
  {
    if |a| != 0 && |b| != 0 && a[0] == b[0] {
      CompareZeroIff(a[1..], b[1..]);
      assert a == [a[0]] + a[1..] && b == [b[0]] + b[1..];
    }
  }

  /** Swapping the operands negates the result. */
  lemma {:induction false} CompareAntisymmetric(a: seq<Char>, b: seq<Char>)
    ensures Compare(a, b) == -Compare(b, a)
  {
    if |a| != 0 && |b| != 0 && a[0] == b[0] {
      CompareAntisymmetric(a[1..], b[1..]);
    }
  }

  /** The first differing byte within the common prefix decides the order. */
  lemma {:induction false} CompareFirstDifference(a: seq<Char>, b: seq<Char>, k: nat)
    requires k < |a| && k < |b|
    requires a[..k] == b[..k] && a[k] != b[k]
    ensures Compare(a, b) == if a[k] < b[k] then -1 else 1
  {
    if k > 0 {
      assert a[0] == a[..k][0] == b[..k][0] == b[0];
      assert a[1..][..k - 1] == a[..k][1..] == b[..k][1..] == b[1..][..k - 1];
      CompareFirstDifference(a[1..], b[1..], k - 1);
    }
  }

  /** A proper prefix comes before every longer string it begins. */
  lemma {:induction false} ComparePrefix(a: seq<Char>, b: seq<Char>)
    requires |a| < |b| && a == b[..|a|]
    ensures Compare(a, b) == -1
  {
    if |a| > 0 {
      assert a[0] == b[0];
      assert a[1..] == b[1..][..|a| - 1];
      ComparePrefix(a[1..], b[1..]);
    }
  }

  /** The order is transitive, so qsort is given a total order. */
  lemma {:induction false} CompareTransitive(a: seq<Char>, b: seq<Char>, c: seq<Char>)
    requires Compare(a, b) <= 0 && Compare(b, c) <= 0
    ensures Compare(a, c) <= 0
    ensures Compare(a, b) < 0 || Compare(b, c) < 0 ==> Compare(a, c) < 0
  {
    if |a| != 0 && |b| != 0 && |c| != 0 && a[0] == b[0] == c[0] {
      CompareTransitive(a[1..], b[1..], c[1..]);
    }
  }

  /** Every two byte strings are comparable one way or the other. */
  lemma {:induction false} CompareTotal(a: seq<Char>, b: seq<Char>)
    ensures Compare(a, b) <= 0 || Compare(b, a) <= 0
  {
    CompareAntisymmetric(a, b);
  }

  /**
   * As written, the growth step calls `realloc(dat->iov, dat->allocated)`,
   * which counts the new size in bytes, not entries. After any growth the
   * allocation of `capacity` bytes holds only capacity / 16 whole
   * entries, while enter_iodata goes on to write entry `capacity - 32` (the
   * 33rd, 65th, ... entry, counting the header entered first), which lies
   * past them. IoVecArray.Realloc counts in entries instead.
   */
  lemma AsWrittenReallocTooSmall(capacity: nat)
    requires capacity >= 2 * AllocStep && capacity % AllocStep == 0
    ensures capacity / IoVecSize <= capacity - AllocStep
  {
  }
}
