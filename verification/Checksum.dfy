/** The Internet checksum (section 1 of RFC 1071), as the kernel computes it with 32-bit sums of little-endian words. */
module Checksum {
  import opened Bytes

  const TWO16: nat := 0x1_0000
  const ONES: nat := 0xFFFF

  /** The sum of the 16-bit words; an odd byte at the end stands for itself. */
  function WordSum(data: seq<byte>): (s: nat)
    ensures 2 * s <= (|data| + 1) * ONES
  {
    if |data| == 0 then 0
    else if |data| == 1 then data[0]
    else data[0] as int + 256 * data[1] as int + WordSum(data[2..])
  }

  /** Adding carries back in ends with the residue modulo 65535, where only a zero sum gives zero. */
  function Folded(sum: nat): (f: nat)
    ensures f <= ONES
  {
    if sum == 0 then 0 else (sum - 1) % ONES + 1
  }

  lemma FoldStep(sum: nat)
    requires sum >= TWO16
    ensures 0 < sum % TWO16 + sum / TWO16 < sum && Folded(sum % TWO16 + sum / TWO16) == Folded(sum)
  {
  }

  lemma {:induction false} WordSumSplit(a: seq<byte>, b: seq<byte>)
    requires |a| % 2 == 0
    ensures WordSum(a + b) == WordSum(a) + WordSum(b)
  {
    if a == [] {
      assert a + b == b;
    } else {
      assert (a + b)[2..] == a[2..] + b;
      WordSumSplit(a[2..], b);
    }
  }

  /** The bytes as one number, least significant first. */
  ghost function Number(data: seq<byte>): nat {
    if data == [] then 0 else data[0] as int + 256 * Number(data[1..])
  }

  /** The sum of the words is that number modulo 65535, odd last byte included. */
  lemma {:induction false} SumIsResidue(data: seq<byte>)
    ensures WordSum(data) % 65535 == Number(data) % 65535
  {
    if |data| > 1 {
      SumIsResidue(data[2..]);
      assert data[1..][1..] == data[2..];
      var w: nat, n: nat := data[0] as int + 256 * data[1] as int, Number(data[2..]);
      assert Number(data) == w + 65536 * n;
      Congruent(w, WordSum(data[2..]), n);
    }
  }

  lemma Congruent(w: nat, s: nat, n: nat)
    requires s % 65535 == n % 65535
    ensures (w + s) % 65535 == (w + 65536 * n) % 65535
  {
    assert w + 65536 * n == w + n + 65535 * n;
  }

  /** The loop that sums, in a 32-bit accumulator. */
  method SumWords(data: seq<byte>, initial: nat) returns (sum: nat)
    requires initial < TWO32
    ensures sum == (initial + WordSum(data)) % TWO32
  {
    sum := initial;
    var i := 0;
    assert data[0..] == data;
    while |data| - i > 1
      invariant 0 <= i <= |data| && sum < TWO32
      invariant (sum + WordSum(data[i..])) % TWO32 == (initial + WordSum(data)) % TWO32
    {
      var w := data[i] as int + 256 * data[i + 1] as int;
      assert data[i..][2..] == data[i + 2..];
      WrapAdd(sum, w, WordSum(data[i + 2..]));
      sum := (sum + w) % TWO32;
      i := i + 2;
    }
    if |data| - i == 1 {
      WrapAdd(sum, data[i], 0);
      sum := (sum + data[i]) % TWO32;
    }
  }

  lemma WrapAdd(a: nat, b: nat, c: nat)
    ensures ((a + b) % TWO32 + c) % TWO32 == (a + b + c) % TWO32
  {
  }

  /** The loop that folds. */
  method Fold(acc: nat) returns (f: nat)
    requires acc < TWO32
    ensures f == Folded(acc)
  {
    f := acc;
    while f / TWO16 != 0
      invariant Folded(f) == Folded(acc)
      decreases f
    {
      FoldStep(f);
      f := f % TWO16 + f / TWO16;
    }
  }

  function Checksum(sum: nat): nat { ONES - Folded(sum) }

  method NetChecksum(data: seq<byte>, initial: nat) returns (c: nat)
    requires initial < TWO32
    ensures c == Checksum((initial + WordSum(data)) % TWO32)
    ensures |data| <= ONES && initial <= ONES ==> c == Checksum(initial + WordSum(data))
  {
    var sum := SumWords(data, initial);
    var f := Fold(sum);
    return ONES - f;
  }

  /** Four partial sums, folded once, are the checksum of pseudo-header and segment put together. The pseudo-header is
      four bytes each of source and destination, then 0, the protocol number and the length. */
  method TcpChecksum(src: seq<byte>, dst: seq<byte>, segment: seq<byte>) returns (c: nat)
    requires |src| == 4 && |dst| == 4 && |segment| <= ONES
    ensures c == Checksum(WordSum(src + dst + [0, 6, |segment| / 256, |segment| % 256] + segment))
  {
    hide WordSum, Folded;
    var tail: seq<byte> := [0, 6, |segment| / 256, |segment| % 256];
    WordSumSplit(src, dst);
    WordSumSplit(src + dst, tail);
    WordSumSplit(src + dst + tail, segment);
    assert WordSum(src) + WordSum(dst) + WordSum(tail) + WordSum(segment) < TWO32;
    var acc := SumWords(src, 0);
    assert acc == WordSum(src);
    acc := SumWords(dst, acc);
    assert acc == WordSum(src) + WordSum(dst);
    acc := SumWords(tail, acc);
    assert acc == WordSum(src + dst + tail);
    acc := SumWords(segment, acc);
    assert acc == WordSum(src + dst + tail + segment);
    var f := Fold(acc);
    return ONES - f;
  }

  /** A block passes exactly when its words add up to a positive multiple of 65535. */
  lemma PassesIff(sum: nat)
    ensures Checksum(sum) == 0 <==> sum > 0 && sum % ONES == 0
  {
  }

  method Verify(data: seq<byte>) returns (ok: bool)
    ensures |data| <= ONES ==> (ok <==> WordSum(data) > 0 && WordSum(data) % ONES == 0)
  {
    var c := NetChecksum(data, 0);
    PassesIff(WordSum(data));
    ok := c == 0;
  }

  function WordAt(data: seq<byte>, k: nat): nat
    requires k + 1 < |data|
  {
    data[k] as int + 256 * data[k + 1] as int
  }

  /** Storing a 16-bit word. */
  function PutWord(data: seq<byte>, k: nat, w: nat): (r: seq<byte>)
    requires k + 1 < |data| && w <= ONES
    ensures |r| == |data|
  {
    data[k := w % 256][k + 1 := w / 256]
  }

  lemma PutWordSum(data: seq<byte>, k: nat, w: nat)
    requires k + 1 < |data| && k % 2 == 0 && w <= ONES
    ensures WordAt(data, k) <= WordSum(data)
    ensures WordSum(PutWord(data, k, w)) == WordSum(data) - WordAt(data, k) + w
  {
    hide WordSum;
    var d := PutWord(data, k, w);
    WordSumAt(data, k);
    WordSumAt(d, k);
    assert d[..k] == data[..k] && d[k + 2..] == data[k + 2..];
  }

  lemma WordSumAt(data: seq<byte>, k: nat)
    requires k + 1 < |data| && k % 2 == 0
    ensures WordSum(data) == WordSum(data[..k]) + WordAt(data, k) + WordSum(data[k + 2..])
  {
    WordSumSplit(data[..k], data[k..]);
    assert data[..k] + data[k..] == data && data[k..][2..] == data[k + 2..];
  }

  /** Filling the zeroed, aligned field with the checksum makes the whole block pass. */
  lemma FilledPasses(data: seq<byte>, k: nat)
    requires k + 1 < |data| && k % 2 == 0 && data[k] == 0 && data[k + 1] == 0
    ensures Checksum(WordSum(PutWord(data, k, Checksum(WordSum(data))))) == 0
  {
    var s := WordSum(data);
    var c := Checksum(s);
    PutWordSum(data, k, c);
    PassesIff(s + c);
    Complement(s);
  }

  lemma Complement(s: nat)
    ensures s + Checksum(s) > 0 && (s + Checksum(s)) % ONES == 0
  {
  }

  /** One damaged word goes unnoticed exactly when 0x0000 and 0xFFFF were exchanged and not everything is zero. */
  lemma DamageIff(data: seq<byte>, k: nat, w: nat)
    requires k + 1 < |data| && k % 2 == 0 && w <= ONES && w != WordAt(data, k)
    requires Checksum(WordSum(data)) == 0
    ensures Checksum(WordSum(PutWord(data, k, w))) == 0 <==>
            (w == 0 || w == ONES) && (WordAt(data, k) == 0 || WordAt(data, k) == ONES)
                && WordSum(PutWord(data, k, w)) > 0
  {
    hide WordSum, Checksum, PutWord, WordAt;
    PutWordSum(data, k, w);
    assert WordAt(data, k) <= ONES by { WordBound(data, k); }
    PassesIff(WordSum(data));
    PassesIff(WordSum(PutWord(data, k, w)));
    Exchange(WordSum(data), WordAt(data, k), w);
  }

  lemma WordBound(data: seq<byte>, k: nat)
    requires k + 1 < |data|
    ensures WordAt(data, k) <= ONES
  {
  }

  lemma Exchange(s: nat, v: nat, w: nat)
    requires s % ONES == 0 && v <= ONES && w <= ONES && v <= s && v != w
    ensures (s - v + w) % ONES == 0 <==> (w == 0 || w == ONES) && (v == 0 || v == ONES)
  {
  }
}
