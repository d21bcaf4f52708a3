/**
 * The file checksum: `calc_checksum` adds up the mapped file as 64-bit
 * little-endian words, wrapping modulo 2^64, and then would add any bytes
 * left over one at a time.
 *
 * The mapping is the byte sequence `mem`; the file occupies its first `len`
 * bytes and the mapping is readable at least up to the next multiple of 8
 * (the page the file ends in is filled up with zeros by the kernel).
 */
module Checksums {

  newtype Byte = b: int | 0 <= b < 256

  /** sizeof(uint64_t) */
  const WordSize: nat := 8

  /** Arithmetic on uint64_t wraps modulo this. */
  const WordModulus: nat := 0x1_0000_0000_0000_0000

  /** The number of words the word loop loads for `len` bytes: ceil(len / 8). */
  function WordCount(len: nat): (n: nat)
    ensures WordSize * n >= len && WordSize * n < len + WordSize
  {
    (len + WordSize - 1) / WordSize
  }

  /** The mapping covers every word the word loop loads. */
  predicate Readable(mem: seq<Byte>, len: nat)
  {
    WordSize * WordCount(len) <= |mem|
  }

  /** The little-endian 64-bit word at byte offset `off`. */
  function LoadWord(mem: seq<Byte>, off: nat): (w: nat)
    requires off + WordSize <= |mem|
    ensures w < WordModulus
  {
    mem[off] as nat
    + 0x100 * mem[off + 1] as nat
    + 0x1_0000 * mem[off + 2] as nat
    + 0x100_0000 * mem[off + 3] as nat
    + 0x1_0000_0000 * mem[off + 4] as nat
    + 0x100_0000_0000 * mem[off + 5] as nat
    + 0x1_0000_0000_0000 * mem[off + 6] as nat
    + 0x100_0000_0000_0000 * mem[off + 7] as nat
  }

  /** The exact (unwrapped) sum of the first `n` words of `mem`. */
  function WordsSum(mem: seq<Byte>, n: nat): nat
    requires WordSize * n <= |mem|
  {
    if n == 0 then 0 else WordsSum(mem, n - 1) + LoadWord(mem, WordSize * (n - 1))
  }

  /** The checksum the program computes for a file of `len` bytes. */
  function Checksum(mem: seq<Byte>, len: nat): nat
    requires Readable(mem, len)
  {
    WordsSum(mem, WordCount(len)) % WordModulus
  }

  /** Adding a wrapped sum and a word, then wrapping, equals wrapping the exact sum. */
  lemma AddWrapped(a: nat, w: nat)
    ensures (a % WordModulus + w) % WordModulus == (a + w) % WordModulus
  {
    var q := a / WordModulus;
    assert a == q * WordModulus + a % WordModulus;
    assert (a % WordModulus + w) + q * WordModulus == a + w;
    ModShift(a % WordModulus + w, q);
  }

  lemma ModShift(x: nat, q: nat)
    ensures (x + q * WordModulus) % WordModulus == x % WordModulus
  {
    if q > 0 {
      ModShift(x, q - 1);
      assert x + q * WordModulus == (x + (q - 1) * WordModulus) + WordModulus;
    }
  }

  /**
   * calc_checksum. The word loop runs while `ptr < data + len`, so it loads
   * WordCount(len) words and stops with `ptr` at or past the end of the file;
   * the byte loop that follows therefore never adds anything.
   */
  method CalcChecksum(mem: seq<Byte>, len: nat) returns (checksum: nat, ghost words: nat, ghost trailing: nat)
    requires Readable(mem, len)
    ensures checksum == Checksum(mem, len) && checksum < WordModulus
    ensures words == WordCount(len)
    ensures trailing == 0
  {
    checksum := 0;
    var ptr: nat := 0;
    words := 0;
    while ptr < len
      invariant ptr == WordSize * words && words <= WordCount(len)
      invariant checksum == WordsSum(mem, words) % WordModulus
    {
      AddWrapped(WordsSum(mem, words), LoadWord(mem, ptr));
      checksum := (checksum + LoadWord(mem, ptr)) % WordModulus;
      ptr := ptr + WordSize;
      words := words + 1;
    }
    checksum, trailing := AddBytes(mem, ptr, len, checksum);
  }

  /** The exact sum of the bytes mem[from..until]. */
  function BytesSum(mem: seq<Byte>, from: nat, until: nat): nat
    requires from <= until <= |mem|
  {
    if from == until then 0 else BytesSum(mem, from, until - 1) + mem[until - 1] as nat
  }

  /**
   * The byte loop of calc_checksum: adds each byte from `start` up to `len`,
   * wrapping modulo 2^64. It runs `len - start` times, and not at all when
   * `start` is already at or past `len`.
   */
  method AddBytes(mem: seq<Byte>, start: nat, len: nat, sum: nat) returns (checksum: nat, ghost count: nat)
    requires start <= |mem| && len <= |mem|
    requires sum < WordModulus
    ensures count == if start < len then len - start else 0
    ensures checksum == if start < len then (sum + BytesSum(mem, start, len)) % WordModulus else sum
  {
    checksum := sum;
    count := 0;
    var cptr := start;
    while cptr < len
      invariant start <= cptr <= |mem| && (cptr <= len || cptr == start)
      invariant count == cptr - start
      invariant checksum == (sum + BytesSum(mem, start, cptr)) % WordModulus
    {
      AddWrapped(sum + BytesSum(mem, start, cptr), mem[cptr] as nat);
      checksum := (checksum + mem[cptr] as nat) % WordModulus;
      cptr := cptr + 1;
      count := count + 1;
    }
  }

  /** An empty file has checksum 0. */
  lemma EmptyChecksum(mem: seq<Byte>)
    ensures Checksum(mem, 0) == 0
  {
  }

  /** Words of the second part of a concatenation are the second part's words. */
  lemma {:induction false} WordsSumConcat(a: seq<Byte>, b: seq<Byte>, k: nat, n: nat)
    requires |a| == WordSize * k && WordSize * n <= |b|
    ensures WordsSum(a + b, k + n) == WordsSum(a, k) + WordsSum(b, n)
  {
    if n == 0 {
      WordsSumPrefix(a, b, k);
    } else {
      WordsSumConcat(a, b, k, n - 1);
      var off := WordSize * (n - 1);
      assert WordSize * (k + n - 1) == |a| + off;
      LoadWordShift(a, b, off);
    }
  }

  lemma LoadWordShift(a: seq<Byte>, b: seq<Byte>, off: nat)
    requires off + WordSize <= |b|
    ensures LoadWord(a + b, |a| + off) == LoadWord(b, off)
  {
  }

  /** Loading words wholly inside the first part of a concatenation sees only that part. */
  lemma {:induction false} WordsSumPrefix(a: seq<Byte>, b: seq<Byte>, n: nat)
    requires WordSize * n <= |a|
    ensures WordsSum(a + b, n) == WordsSum(a, n)
  {
    if n > 0 {
      WordsSumPrefix(a, b, n - 1);
      assert LoadWord(a + b, WordSize * (n - 1)) == LoadWord(a, WordSize * (n - 1));
    }
  }

  /**
   * For a split at a multiple of 8 bytes, the checksum of the whole is the
   * wrapped sum of the checksums of the two parts.
   */
  lemma ChecksumConcat(a: seq<Byte>, b: seq<Byte>, lenB: nat)
    requires |a| % WordSize == 0 && Readable(b, lenB)
    ensures Readable(a, |a|) && Readable(a + b, |a| + lenB)
    ensures Checksum(a + b, |a| + lenB) == (Checksum(a, |a|) + Checksum(b, lenB)) % WordModulus
  {
    var k := WholeWords(a, lenB);
    var n := WordCount(lenB);
    var x, y := WordsSum(a, k), WordsSum(b, n);
    WordsSumConcat(a, b, k, n);
    assert WordsSum(a + b, k + n) == x + y;
    WrappedSum(x, y);
  }

  /** A prefix of whole words: its word count, and what it adds to the word count of the rest. */
  lemma WholeWords(a: seq<Byte>, lenB: nat) returns (k: nat)
    requires |a| % WordSize == 0
    ensures |a| == WordSize * k && WordCount(|a|) == k
    ensures WordCount(|a| + lenB) == k + WordCount(lenB)
  {
    k := |a| / WordSize;
    WordCountShift(k, 0);
    WordCountShift(k, lenB);
  }

  /** Skipping `k` whole words adds exactly `k` to the word count. */
  lemma WordCountShift(k: nat, len: nat)
    ensures WordCount(WordSize * k + len) == k + WordCount(len)
  {
    var n, m := WordCount(WordSize * k + len), WordCount(len);
    assert WordSize * (n - k) >= len && WordSize * (n - k) < len + WordSize;
  }

  lemma WrappedSum(x: nat, y: nat)
    ensures (x + y) % WordModulus == (x % WordModulus + y % WordModulus) % WordModulus
  {
    AddWrapped(x, y);
    AddWrapped(y, x % WordModulus);
  }
}
