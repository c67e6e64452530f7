/** Big-endian byte strings as numbers, and their layout as little-endian words. */
module Bytes {
  import opened Arith
  import opened BigNum
  import opened Bits

  type Byte = x: int | 0 <= x < 256

  function BytePow(n: nat): (p: nat)
    ensures p > 0
  {
    if n == 0 then 1 else 256 * BytePow(n - 1)
  }

  function BeVal(s: seq<Byte>): (v: nat) {
    if |s| == 0 then 0 else s[0] * BytePow(|s| - 1) + BeVal(s[1..])
  }

  // The C expression that reads four bytes into a word.
  function Join(b0: Byte, b1: Byte, b2: Byte, b3: Byte): (w: int) {
    Or(Or(Or(b0 * 0x100_0000, b1 * 0x1_0000), b2 * 0x100), b3)
  }

  function Sum4(b0: int, b1: int, b2: int, b3: int): (w: int) {
    b0 * 0x100_0000 + b1 * 0x1_0000 + b2 * 0x100 + b3
  }

  lemma JoinSum(b0: Byte, b1: Byte, b2: Byte, b3: Byte)
    ensures Join(b0, b1, b2, b3) == Sum4(b0, b1, b2, b3)
  {
    hide Or;
    assert Pow(2, 8) == 0x100 && Pow(2, 16) == 0x1_0000 && Pow(2, 24) == 0x100_0000;
    OrShifted(b0, b1 * 0x1_0000, 24);
    OrShifted(b0 * 0x100 + b1, b2 * 0x100, 16);
    OrShifted(b0 * 0x1_0000 + b1 * 0x100 + b2, b3, 8);
  }

  // The four bytes of word k of n, the highest word coming first.
  predicate WordAt(bytes: seq<Byte>, n: nat, k: nat, w: int)
    requires k < n && |bytes| == 4 * n
  {
    var o := 4 * (n - 1 - k);
    w == Sum4(bytes[o], bytes[o + 1], bytes[o + 2], bytes[o + 3])
  }

  // The same number is read from the bytes and from the words.
  lemma {:induction false} BytesAreWords(bytes: seq<Byte>, words: seq<Word>)
    requires |bytes| == 4 * |words|
    requires forall k :: 0 <= k < |words| ==> WordAt(bytes, |words|, k, words[k])
    ensures BeVal(bytes) == Val(words)
  {
    var n := |words|;
    if n > 0 {
      var rest, low := bytes[4..], words[..n - 1];
      forall k | 0 <= k < n - 1
        ensures WordAt(rest, n - 1, k, low[k])
      {
        assert WordAt(bytes, n, k, words[k]);
      }
      BytesAreWords(rest, low);
      assert WordAt(bytes, n, n - 1, words[n - 1]);
      FourBytes(bytes, words[n - 1], n - 1);
    }
  }

  lemma FourBytes(bytes: seq<Byte>, w: Word, n: nat)
    requires |bytes| == 4 * (n + 1) && WordAt(bytes, n + 1, n, w)
    ensures BeVal(bytes) == w * BPow(n) + BeVal(bytes[4..])
  {
    hide BeVal, BytePow, BPow;
    assert bytes[1..][1..] == bytes[2..] && bytes[2..][1..] == bytes[3..] && bytes[3..][1..] == bytes[4..];
    FirstByte(bytes);
    FirstByte(bytes[1..]);
    FirstByte(bytes[2..]);
    FirstByte(bytes[3..]);
    FourPowers(4 * n);
    BytePowWord(n);
    FourScaled(BytePow(4 * n), bytes[0], bytes[1], bytes[2], bytes[3]);
  }

  lemma FirstByte(s: seq<Byte>)
    requires |s| > 0
    ensures BeVal(s) == s[0] * BytePow(|s| - 1) + BeVal(s[1..])
  {
  }

  lemma FourPowers(n: nat)
    ensures BytePow(n + 1) == 0x100 * BytePow(n)
    ensures BytePow(n + 2) == 0x1_0000 * BytePow(n)
    ensures BytePow(n + 3) == 0x100_0000 * BytePow(n)
    ensures BytePow(n + 4) == B * BytePow(n)
  {
    assert BytePow(n + 2) == 256 * BytePow(n + 1);
    assert BytePow(n + 3) == 256 * BytePow(n + 2);
  }

  lemma FourScaled(p: int, b0: int, b1: int, b2: int, b3: int)
    ensures Sum4(b0, b1, b2, b3) * p
         == b0 * (0x100_0000 * p) + b1 * (0x1_0000 * p) + b2 * (0x100 * p) + b3 * p
  {
  }

  lemma {:induction false} BytePowWord(n: nat)
    ensures BytePow(4 * n) == BPow(n)
  {
    if n > 0 {
      BytePowWord(n - 1);
      FourPowers(4 * (n - 1));
    }
  }

  lemma JoinAt(bytes: seq<Byte>, n: nat, k: nat)
    requires k < n && |bytes| == 4 * n
    ensures var o := (n - 1 - k) * 4;
            var w := Join(bytes[o], bytes[o + 1], bytes[o + 2], bytes[o + 3]);
            0 <= w < B && WordAt(bytes, n, k, w)
  {
    hide Join;
    var o := (n - 1 - k) * 4;
    JoinSum(bytes[o], bytes[o + 1], bytes[o + 2], bytes[o + 3]);
  }

  // The four bytes that the C shifts and truncations take out of a word.
  function Split(w: Word): (b: seq<Byte>)
    ensures |b| == 4
  {
    [(w / 0x100_0000) % 256, (w / 0x1_0000) % 256, (w / 0x100) % 256, w % 256]
  }

  lemma SplitJoins(w: Word)
    ensures Sum4(Split(w)[0], Split(w)[1], Split(w)[2], Split(w)[3]) == w
  {
    HighBytes(w);
  }

  lemma HighBytes(w: Word)
    ensures w / 0x1_0000 == (w / 0x100) / 0x100
    ensures w / 0x100_0000 == ((w / 0x100) / 0x100) / 0x100
  {
    var q1 := w / 0x100;
    var q2 := q1 / 0x100;
    assert w == q2 * 0x1_0000 + (q1 % 0x100) * 0x100 + w % 0x100;
  }

  lemma SameBytes(s: seq<Byte>, t: seq<Byte>, o: nat)
    requires o + 4 <= |s| == |t| && s[o..o + 4] == t[o..o + 4]
    ensures s[o] == t[o] && s[o + 1] == t[o + 1] && s[o + 2] == t[o + 2] && s[o + 3] == t[o + 3]
  {
    var a, b := s[o..o + 4], t[o..o + 4];
    assert a[0] == s[o] && a[1] == s[o + 1] && a[2] == s[o + 2] && a[3] == s[o + 3];
    assert b[0] == t[o] && b[1] == t[o + 1] && b[2] == t[o + 2] && b[3] == t[o + 3];
  }

  // Storing one more word keeps the words already stored.
  lemma WordStored(was: seq<Byte>, bytes: seq<Byte>, words: seq<Word>, i: nat)
    requires |was| == |bytes| == 4 * |words| && i < |words|
    requires forall k :: i < k < |words| ==> WordAt(was, |words|, k, words[k])
    requires var p := 4 * (|words| - 1 - i);
             bytes[..p] == was[..p] && bytes[p..p + 4] == Split(words[i])
    ensures forall k :: i <= k < |words| ==> WordAt(bytes, |words|, k, words[k])
  {
    hide Split, Sum4;
    var p := 4 * (|words| - 1 - i);
    forall k | i <= k < |words|
      ensures WordAt(bytes, |words|, k, words[k])
    {
      if k == i {
        SplitJoins(words[i]);
        var b := bytes[p..p + 4];
        assert bytes[p] == b[0] && bytes[p + 1] == b[1] && bytes[p + 2] == b[2] && bytes[p + 3] == b[3];
      } else {
        assert WordAt(was, |words|, k, words[k]);
        var o := 4 * (|words| - 1 - k);
        assert bytes[..p][o..o + 4] == was[..p][o..o + 4];
        assert bytes[o..o + 4] == was[o..o + 4];
        SameBytes(was, bytes, o);
      }
    }
  }
}
