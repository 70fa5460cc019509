/**
 * The text/binary sampler `is_text_file`: the first 1024 bytes of a file are
 * classed byte by byte, and the file counts as text when fewer than a tenth
 * of them (the default threshold 0.90) are outside the text-byte set.
 */
module Sampler {
  import opened Options

  type byte = x: int | 0 <= x < 256

  /** Number of leading bytes the sampler reads. */
  const SampleSize: nat := 1024

  /** The text-byte set {7, 8, 9, 10, 12, 13, 27} plus 0x20 to 0xFF. */
  predicate IsTextByte(b: byte)
  {
    b in {7, 8, 9, 10, 12, 13, 27} || 0x20 <= b
  }

  /** The leading part of a file that the sampler reads. */
  function Chunk(file: seq<byte>): (c: seq<byte>)
    ensures |c| == if |file| < SampleSize then |file| else SampleSize
    ensures c <= file
  {
    if |file| < SampleSize then file else file[..SampleSize]
  }

  /** The bytes of `chunk` outside the text-byte set, in order. */
  function NonText(chunk: seq<byte>): (r: seq<byte>)
    ensures |r| <= |chunk|
    ensures forall i :: 0 <= i < |r| ==> !IsTextByte(r[i])
    ensures forall b: byte :: multiset(r)[b] == if IsTextByte(b) then 0 else multiset(chunk)[b]
  {
    if chunk == [] then []
    else
      var rest := NonText(chunk[1..]);
      assert chunk == [chunk[0]] + chunk[1..];
      if IsTextByte(chunk[0]) then rest else [chunk[0]] + rest
  }

  /** The sampler's verdict on bytes that were read; an empty read is not text. */
  predicate IsTextChunk(chunk: seq<byte>)
  {
    |chunk| > 0 && |NonText(chunk)| * 10 < |chunk|
  }

  /** `is_text_file`: `None` is a file that could not be read, which the sampler
      rejects as it rejects any failure. */
  predicate IsTextFile(file: Option<seq<byte>>)
  {
    file.Some? && IsTextChunk(Chunk(file.value))
  }

  /** Only the first 1024 bytes are examined: anything after them never changes the verdict. */
  lemma OnlyFirstKilobyteCounts(head: seq<byte>, tail: seq<byte>)
    requires |head| >= SampleSize
    ensures IsTextFile(Some(head + tail)) == IsTextFile(Some(head))
  {
    assert (head + tail)[..SampleSize] == head[..SampleSize];
  }

  /** An empty file and an unreadable file are both rejected. */
  lemma EmptyOrUnreadableRejected()
    ensures !IsTextFile(Some([]))
    ensures !IsTextFile(None)
  {
  }

  /** A non-empty sample made only of text bytes is text. */
  lemma AllTextAccepted(file: seq<byte>)
    requires |file| > 0
    requires forall i :: 0 <= i < |file| ==> IsTextByte(file[i])
    ensures IsTextFile(Some(file))
  {
  }

  /** A sample whose non-text share is exactly one tenth is rejected,
      for example nine letters and one NUL byte. */
  lemma ExactlyOneTenthRejected()
    ensures !IsTextFile(Some([0x41, 0x41, 0x41, 0x41, 0x41, 0x41, 0x41, 0x41, 0x41, 0]))
    ensures IsTextFile(Some([0x41, 0x41, 0x41, 0x41, 0x41, 0x41, 0x41, 0x41, 0x41, 0x41, 0]))
  {
    var s: seq<byte> := [0x41, 0x41, 0x41, 0x41, 0x41, 0x41, 0x41, 0x41, 0x41, 0];
    assert NonText(s[9..]) == [0];
    assert NonText(s) == [0];
    var t: seq<byte> := [0x41] + s;
    assert t[1..] == s;
    assert NonText(t) == [0];
  }

  /** The double that `1 - 0.90` evaluates to is 900719925474099 / 2^53.  For a sample of
      `n` bytes (1 <= n <= 1024) of which `k` are non-text, the integer test
      `10 * k < n` agrees with the exact comparison `k / n < 900719925474099 / 2^53`,
      and `k / n` lies more than 2^-56 (one unit in the last place of that double)
      away from it, so rounding the quotient cannot change the outcome. */
  lemma ThresholdIsExact(k: nat, n: nat)
    requires 0 < n <= SampleSize && k <= n
    ensures (10 * k < n) <==> (k * 0x20_0000_0000_0000 < 900719925474099 * n)
    ensures var gap: int := k * 0x100_0000_0000_0000 - 7205759403792792 * n;
            gap > n || gap < 0 - n
  {
    // 10 * 900719925474099 == 2^53 - 2, so comparing against the double
    // amounts to comparing (n - 10k) * 2^53 with 2n.
    assert 10 * 900719925474099 == 0x20_0000_0000_0000 - 2;
    assert 10 * (k * 0x20_0000_0000_0000 - 900719925474099 * n)
        == (10 * k - n) * 0x20_0000_0000_0000 + 2 * n;
    assert 10 * (k * 0x100_0000_0000_0000 - 7205759403792792 * n)
        == (10 * k - n) * 0x100_0000_0000_0000 + 16 * n;
    if 10 * k < n {
      assert (10 * k - n) * 0x20_0000_0000_0000 <= -0x20_0000_0000_0000;
      assert (10 * k - n) * 0x100_0000_0000_0000 <= -0x100_0000_0000_0000;
    } else {
      assert (10 * k - n) * 0x20_0000_0000_0000 >= 0;
      assert (10 * k - n) * 0x100_0000_0000_0000 >= 0;
    }
  }

  /** The sampler's verdict is the comparison of the non-text share of the first
      1024 bytes against the double value of `1 - 0.90`, carried out exactly. */
  lemma IsTextFileIsThresholdTest(file: seq<byte>)
    ensures var c := Chunk(file);
            IsTextFile(Some(file)) <==>
            |c| > 0 && |NonText(c)| * 0x20_0000_0000_0000 < 900719925474099 * |c|
  {
    var c := Chunk(file);
    if |c| > 0 {
      ThresholdIsExact(|NonText(c)|, |c|);
    }
  }
}
