/** The packet checksum of Lab 2: the Internet checksum with deferred carries
    (sections 1, 2 and 4.1 of RFC 1071). */
module InternetChecksum {
  import opened GoInts

  /** The big-endian 16-bit word starting at `i`; an odd last byte is padded with zero on the right. */
  function Word(data: seq<byte>, i: nat): uint16
    requires i < |data|
  {
    256 * (data[i] as int) + if i + 1 < |data| then data[i + 1] else 0
  }

  function Words(data: seq<byte>): seq<uint16> {
    seq((|data| + 1) / 2, j requires 0 <= j < (|data| + 1) / 2 => Word(data, 2 * j))
  }

  function Sum(ws: seq<uint16>): nat {
    if ws == [] then 0 else Sum(ws[..|ws| - 1]) + ws[|ws| - 1]
  }

  /** The mathematical sum of all 16-bit words, with no wrap-around. */
  function WordSum(data: seq<byte>): nat {
    Sum(Words(data))
  }

  /** The representative of `sum` modulo 65535 in 1..65535, or 0 for 0: what end-around carry leaves. */
  function Residue(sum: nat): uint16 {
    if sum == 0 then 0 else (sum - 1) % 65535 + 1
  }

  /** The checksum as number theory, against which the loops are proved. */
  function Checksum(data: seq<byte>): uint16 {
    65535 - Residue(WordSum(data) % TWO_32)
  }

  /** One turn of the carry-folding loop: low half plus high half. */
  function FoldOnce(sum: uint32): uint32 {
    sum % 0x1_0000 + sum / 0x1_0000
  }

  lemma FoldKeepsResidue(sum: uint32)
    ensures Residue(FoldOnce(sum)) == Residue(sum)
    ensures sum > 0xFFFF ==> FoldOnce(sum) < sum
    ensures FoldOnce(FoldOnce(sum)) <= 0xFFFF
  {
  }

  lemma SumNext(ws: seq<uint16>, j: nat)
    requires j < |ws|
    ensures Sum(ws[..j + 1]) == Sum(ws[..j]) + ws[j]
  {
    assert ws[..j + 1][..j] == ws[..j];
  }

  /** The accumulation loop, on a uint32 that may wrap. */
  method AccumulateWords(data: seq<byte>) returns (sum: uint32)
    ensures sum == WordSum(data) % TWO_32
  {
    ghost var ws, j := Words(data), 0;
    assert Sum(ws[..0]) == 0;
    hide Sum;
    sum := 0;
    var i := 0;
    while i < |data|
      invariant i == 2 * j && 0 <= j <= |ws|
      invariant sum == Sum(ws[..j]) % TWO_32
    {
      var word: uint16;
      if i + 1 < |data| {
        word := 256 * (data[i] as int) + data[i + 1];
      } else {
        word := 256 * (data[i] as int);
      }
      assert word == ws[j];
      SumNext(ws, j);
      sum := (sum + word) % TWO_32;
      i, j := i + 2, j + 1;
    }
    assert ws[..j] == ws;
  }

  /** The folding loop; `rounds` counts its turns. */
  method FoldCarries(start: uint32) returns (sum: uint16, rounds: nat)
    ensures sum == Residue(start)
    ensures rounds <= 2
  {
    var acc := start;
    rounds := 0;
    while acc > 0xFFFF
      invariant Residue(acc) == Residue(start)
      invariant rounds == 0 ==> acc == start
      invariant rounds == 1 ==> acc == FoldOnce(start)
      invariant rounds == 2 ==> acc == FoldOnce(FoldOnce(start))
      invariant rounds <= 2
      decreases acc
    {
      FoldKeepsResidue(start);
      FoldKeepsResidue(acc);
      acc := acc % 0x1_0000 + acc / 0x1_0000;
      rounds := rounds + 1;
    }
    sum := acc;
  }

  /** The checksum the source computes: sum the words, fold the carries, complement. */
  method CalculateChecksum(data: seq<byte>) returns (c: uint16, rounds: nat)
    ensures c == Checksum(data)
    ensures rounds <= 2
  {
    var sum := AccumulateWords(data);
    var folded;
    folded, rounds := FoldCarries(sum);
    c := 65535 - folded;
  }

  lemma {:induction false} SumBound(ws: seq<uint16>)
    ensures Sum(ws) <= 65535 * |ws|
  {
    if ws != [] {
      SumBound(ws[..|ws| - 1]);
    }
  }

  /** Up to 131074 bytes (65537 words of at most 65535: exactly 2^32 - 1) the accumulator never wraps. */
  lemma NoWrapAround(data: seq<byte>)
    requires |data| <= 131074
    ensures WordSum(data) < TWO_32
    ensures Checksum(data) == 65535 - Residue(WordSum(data))
  {
    var ws := Words(data);
    SumBound(ws);
    assert |ws| <= 65537;
    assert WordSum(data) % TWO_32 == WordSum(data);
  }

  lemma {:induction false} SumAtLeast(ws: seq<uint16>, j: nat)
    requires j < |ws|
    ensures Sum(ws) >= ws[j]
  {
    if j < |ws| - 1 {
      SumAtLeast(ws[..|ws| - 1], j);
    }
  }

  lemma {:induction false} SumPrefix(ws: seq<uint16>, n: nat)
    requires n <= |ws|
    ensures Sum(ws[..n]) <= Sum(ws)
  {
    if n == |ws| {
      assert ws[..n] == ws;
    } else {
      SumPrefix(ws[..|ws| - 1], n);
      assert ws[..|ws| - 1][..n] == ws[..n];
    }
  }

  /** The sum is zero for all-zero buffers only, so those alone have checksum 0xFFFF. */
  lemma ZeroSumExact(data: seq<byte>)
    ensures WordSum(data) == 0 <==> forall k :: 0 <= k < |data| ==> data[k] == 0
    ensures |data| <= 131074 ==> (Checksum(data) == 65535 <==> WordSum(data) == 0)
  {
    var ws := Words(data);
    if forall k :: 0 <= k < |data| ==> data[k] == 0 {
      assert [] + data == data;
      SumZeroPadding([], data);
    } else {
      var k :| 0 <= k < |data| && data[k] != 0;
      assert ws[k / 2] == Word(data, 2 * (k / 2)) > 0;
      SumAtLeast(ws, k / 2);
    }
    if |data| <= 131074 {
      NoWrapAround(data);
    }
  }

  lemma {:induction false} SumUpdate(ws: seq<uint16>, j: nat, w: uint16)
    requires j < |ws|
    ensures Sum(ws[j := w]) == Sum(ws) - ws[j] + w
  {
    var n := |ws| - 1;
    if j == n {
      assert ws[j := w][..n] == ws[..n];
    } else {
      assert ws[j := w][..n] == ws[..n][j := w];
      SumUpdate(ws[..n], j, w);
    }
  }

  /** How much byte `k` counts for in the word sum: 256 at even indices, 1 at odd ones. */
  function Weight(k: nat): nat { if k % 2 == 0 then 256 else 1 }

  lemma WordSumUpdate(data: seq<byte>, k: nat, v: byte)
    requires k < |data|
    ensures WordSum(data[k := v]) == WordSum(data) + Weight(k) * (v - data[k])
  {
    var data' := data[k := v];
    var ws, ws', j := Words(data), Words(data'), k / 2;
    assert ws' == ws[j := ws'[j]] by {
      forall i | 0 <= i < |ws| && i != j ensures ws'[i] == ws[i] {
        assert 2 * i != k && 2 * i + 1 != k;
      }
    }
    SumUpdate(ws, j, ws'[j]);
    if k % 2 == 0 {
      assert k == 2 * j;
    } else {
      assert k == 2 * j + 1;
    }
  }

  function Without(ws: seq<uint16>, j: nat): seq<uint16>
    requires j < |ws|
  {
    ws[..j] + ws[j + 1..]
  }

  lemma {:induction false} SumWithout(ws: seq<uint16>, j: nat)
    requires j < |ws|
    ensures Sum(ws) == Sum(Without(ws, j)) + ws[j]
  {
    var n := |ws| - 1;
    if j == n {
      assert Without(ws, j) == ws[..n];
    } else {
      SumWithout(ws[..n], j);
      assert Without(ws, j)[..n - 1] == Without(ws[..n], j);
    }
  }

  lemma MultisetWithout(ws: seq<uint16>, j: nat)
    requires j < |ws|
    ensures multiset(Without(ws, j)) == multiset(ws) - multiset{ws[j]}
  {
    assert ws == ws[..j] + ([ws[j]] + ws[j + 1..]);
  }

  lemma {:induction false} SumOfMultiset(a: seq<uint16>, b: seq<uint16>)
    requires multiset(a) == multiset(b)
    ensures Sum(a) == Sum(b)
    decreases |a|
  {
    if a == [] {
      assert |b| == |multiset(b)|;
    } else {
      assert a[0] in multiset(b);
      var j :| 0 <= j < |b| && b[j] == a[0];
      SumWithout(a, 0);
      SumWithout(b, j);
      MultisetWithout(a, 0);
      MultisetWithout(b, j);
      SumOfMultiset(Without(a, 0), Without(b, j));
    }
  }

  /** RFC 1071, section 2 (A): the order of the 16-bit words does not matter. */
  lemma ChecksumPermutation(a: seq<byte>, b: seq<byte>)
    requires multiset(Words(a)) == multiset(Words(b))
    ensures Checksum(a) == Checksum(b)
  {
    SumOfMultiset(Words(a), Words(b));
  }

  lemma AppendZero(data: seq<byte>, zero: byte)
    requires zero == 0
    ensures WordSum(data + [zero]) == WordSum(data)
  {
    var ws, ws' := Words(data), Words(data + [zero]);
    if |data| % 2 == 1 {
      assert ws' == ws;
    } else {
      assert ws'[..|ws'| - 1] == ws;
    }
  }

  lemma {:induction false} SumZeroPadding(data: seq<byte>, zeros: seq<byte>)
    requires forall k :: 0 <= k < |zeros| ==> zeros[k] == 0
    ensures WordSum(data + zeros) == WordSum(data)
  {
    if zeros == [] {
      assert data + zeros == data;
    } else {
      var n := |zeros| - 1;
      SumZeroPadding(data, zeros[..n]);
      AppendZero(data + zeros[..n], zeros[n]);
      assert data + zeros == data + zeros[..n] + [zeros[n]];
    }
  }

  /** Appending zero bytes, however many and at whatever parity, leaves the checksum unchanged. */
  lemma ChecksumZeroPadding(data: seq<byte>, zeros: seq<byte>)
    requires forall k :: 0 <= k < |zeros| ==> zeros[k] == 0
    ensures Checksum(data + zeros) == Checksum(data)
  {
    SumZeroPadding(data, zeros);
  }

  function SwapBytes(data: seq<byte>): seq<byte>
    requires |data| % 2 == 0
  {
    seq(|data|, i requires 0 <= i < |data| => if i % 2 == 0 then data[i + 1] else data[i - 1])
  }

  function SwapWord(w: uint16): uint16 { 256 * (w % 256) + w / 256 }

  lemma SwapWordIsTimes256(w: uint16)
    ensures SwapWord(w) == 256 * w - 65535 * (w / 256)
  {
  }

  lemma {:induction false} SumOfSwapped(ws: seq<uint16>, ws': seq<uint16>) returns (q: nat)
    requires |ws| == |ws'|
    requires forall j :: 0 <= j < |ws| ==> ws'[j] == SwapWord(ws[j])
    ensures Sum(ws') == 256 * Sum(ws) - 65535 * q
    ensures Sum(ws') == 0 <==> Sum(ws) == 0
  {
    if ws == [] {
      q := 0;
    } else {
      var n := |ws| - 1;
      var q0 := SumOfSwapped(ws[..n], ws'[..n]);
      SwapWordIsTimes256(ws[n]);
      q := q0 + ws[n] / 256;
    }
  }

  lemma WordsOfSwapped(data: seq<byte>)
    requires |data| % 2 == 0
    ensures |Words(SwapBytes(data))| == |Words(data)|
    ensures forall j :: 0 <= j < |Words(data)| ==> Words(SwapBytes(data))[j] == SwapWord(Words(data)[j])
  {
  }

  /** Both sides of a byte swap, seen modulo 65535: multiplication by 256. */
  lemma SwappedResidue(s: nat, s': nat, q: nat)
    requires s' == 256 * s - 65535 * q
    requires s' == 0 <==> s == 0
    ensures Residue(s') == SwapWord(Residue(s))
  {
    var r := Residue(s);
    SwapWordIsTimes256(r);
    var t := if s == 0 then 0 else (s - 1) / 65535;
    assert s == r + 65535 * t;
    var m := 256 * t + r / 256 - q;
    assert s' == SwapWord(r) + 65535 * m;
    if s > 0 {
      assert (s' - 1) % 65535 == (SwapWord(r) - 1) % 65535;
    }
  }

  lemma SwapComplement(w: uint16)
    ensures SwapWord(65535 - w) == 65535 - SwapWord(w)
  {
  }

  lemma SumsSwapped(data: seq<byte>)
    requires |data| % 2 == 0
    ensures Residue(WordSum(SwapBytes(data))) == SwapWord(Residue(WordSum(data)))
  {
    WordsOfSwapped(data);
    var q := SumOfSwapped(Words(data), Words(SwapBytes(data)));
    SwappedResidue(WordSum(data), WordSum(SwapBytes(data)), q);
  }

  /** RFC 1071, section 2 (B): byte-swapping every word byte-swaps the checksum. */
  lemma ChecksumByteOrder(data: seq<byte>)
    requires |data| % 2 == 0 && |data| <= 131074
    ensures Checksum(SwapBytes(data)) == SwapWord(Checksum(data))
  {
    NoWrapAround(data);
    NoWrapAround(SwapBytes(data));
    SumsSwapped(data);
    SwapComplement(Residue(WordSum(data)));
  }
}
