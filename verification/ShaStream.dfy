/** sha.c and sha256.c: hashing a stream in pieces, with the padding of section 5.1.1 of
    FIPS 180-4. */
module ShaStream {
  import opened Arith
  import opened BigNum
  import opened Bytes
  import opened Sha1
  import opened Sha256

  // Which of the two hash tables of functions a context points to.
  datatype Algorithm = SHA1 | SHA256

  function Words(f: Algorithm): (n: nat) {
    if f.SHA1? then 5 else 8
  }

  function Initial(f: Algorithm): (s: seq<Word>)
    ensures |s| == Words(f)
  {
    if f.SHA1? then INITIAL1 else INITIAL
  }

  function CompressOf(f: Algorithm, s: seq<Word>, block: seq<Byte>): (r: seq<Word>)
    requires |s| == Words(f) && |block| == 64
    ensures |r| == Words(f)
  {
    if f.SHA1? then Compress1(s, block) else Compress(s, block)
  }

  // The state after the first n blocks of a message.
  function Blocks(f: Algorithm, m: seq<Byte>, n: nat): (s: seq<Word>)
    requires 64 * n <= |m|
    ensures |s| == Words(f)
  {
    if n == 0 then Initial(f) else CompressOf(f, Blocks(f, m, n - 1), m[64 * (n - 1)..64 * n])
  }

  lemma {:induction false} BlocksPrefix(f: Algorithm, m: seq<Byte>, ext: seq<Byte>, n: nat)
    requires 64 * n <= |m|
    ensures Blocks(f, m + ext, n) == Blocks(f, m, n)
  {
    hide Blocks, CompressOf;
    if n == 0 {
      BlocksNext(f, m, 0);
      BlocksNext(f, m + ext, 0);
    } else {
      BlocksPrefix(f, m, ext, n - 1);
      BlocksNext(f, m, n);
      BlocksNext(f, m + ext, n);
      SliceOfPrefix(m, ext, 64 * (n - 1), 64 * n);
    }
  }

  lemma BlocksNext(f: Algorithm, m: seq<Byte>, n: nat)
    requires 64 * n <= |m|
    ensures n == 0 ==> Blocks(f, m, n) == Initial(f)
    ensures n > 0 ==> Blocks(f, m, n) == CompressOf(f, Blocks(f, m, n - 1), m[64 * (n - 1)..64 * n])
  {
    hide CompressOf;
  }

  lemma SliceOfPrefix(m: seq<Byte>, ext: seq<Byte>, a: nat, b: nat)
    requires a <= b <= |m|
    ensures (m + ext)[a..b] == m[a..b]
  {
  }

  // ----- padding -----

  // n in k big-endian bytes.
  function BigEndian(n: nat, k: nat): (s: seq<Byte>)
    ensures |s| == k
  {
    if k == 0 then [] else [(n / BytePow(k - 1)) % 256] + BigEndian(n, k - 1)
  }

  lemma {:induction false} BigEndianValue(n: nat, k: nat)
    ensures BeVal(BigEndian(n, k)) == n % BytePow(k)
  {
    if k > 0 {
      hide BeVal;
      var p, s := BytePow(k - 1), BigEndian(n, k);
      BigEndianValue(n, k - 1);
      FirstByte(s);
      assert s[1..] == BigEndian(n, k - 1);
      TopDigitOut(n, p);
    } else {
      assert BigEndian(n, 0) == [] && BytePow(0) == 1;
    }
  }

  lemma TopDigitOut(n: nat, p: int)
    requires p > 0
    ensures n % (256 * p) == (n / p) % 256 * p + n % p
  {
    var q, r := n / p, n % p;
    assert n == q * p + r && q == (q / 256) * 256 + q % 256;
    MulAddLeft((q / 256) * 256, q % 256, p);
    MulAssoc(q / 256, 256, p);
    MulMono(q % 256, 255, p);
    MulMono(0, q % 256, p);
    DivModUnique(n, q / 256, q % 256 * p + r, 256 * p);
  }

  function Zeros(n: nat): (s: seq<Byte>)
    ensures |s| == n
  {
    seq(n, i => 0)
  }

  // The zeros that bring a message and its end mark to 56 bytes over whole blocks.
  function ZerosNeeded(length: nat): (k: nat) {
    (55 - length) % 64
  }

  function Padded(m: seq<Byte>): (p: seq<Byte>) {
    m + [0x80] + Zeros(ZerosNeeded(|m|)) + BigEndian(8 * |m|, 8)
  }

  // The padding fills whole blocks, and no other message has the same padded form.
  lemma PaddedShape(m: seq<Byte>)
    ensures |Padded(m)| % 64 == 0 && |Padded(m)| >= 64
    ensures |m| < 0x2000_0000_0000_0000 ==> BeVal(Padded(m)[|Padded(m)| - 8..]) == 8 * |m|
  {
    hide BeVal, BigEndian;
    var p := Padded(m);
    assert p[|p| - 8..] == BigEndian(8 * |m|, 8);
    BigEndianValue(8 * |m|, 8);
    EightBytes();
  }

  lemma EightBytes()
    ensures BytePow(8) == 0x1_0000_0000_0000_0000
  {
  }

  lemma PaddingInjective(m: seq<Byte>, n: seq<Byte>)
    requires |m| < 0x2000_0000_0000_0000 && |n| < 0x2000_0000_0000_0000 && Padded(m) == Padded(n)
    ensures m == n
  {
    hide BeVal, BigEndian, Padded;
    PaddedShape(m);
    PaddedShape(n);
    PaddedStart(m);
    PaddedStart(n);
  }

  lemma PaddedStart(m: seq<Byte>)
    ensures |m| <= |Padded(m)| && Padded(m)[..|m|] == m
  {
  }

  // ----- the digest -----

  function Bytewise(s: seq<Word>): (b: seq<Byte>)
    ensures |b| == 4 * |s|
  {
    if s == [] then [] else Bytewise(s[..|s| - 1]) + Split(s[|s| - 1])
  }

  // The hash of a message, all at once.
  function Digest(f: Algorithm, m: seq<Byte>): (d: seq<Byte>)
    ensures |d| == 4 * Words(f)
  {
    PaddedShape(m);
    Bytewise(Blocks(f, Padded(m), |Padded(m)| / 64))
  }

  class Context {
    const f: Algorithm
    const state: array<Word>
    const buf: array<Byte>
    var count: nat
    ghost var fed: seq<Byte>

    // Whole blocks of what was fed are in the state, the rest is in the buffer.
    ghost predicate Valid()
      reads this, state, buf
    {
      && state.Length == Words(f) && buf.Length == 64 && count == |fed|
      && Holds(fed)
    }

    ghost predicate Holds(m: seq<Byte>)
      requires state.Length == Words(f) && buf.Length == 64
      reads state, buf
    {
      && state[..] == Blocks(f, m, |m| / 64)
      && buf[..|m| % 64] == m[64 * (|m| / 64)..]
    }

    constructor (algorithm: Algorithm)
      ensures Valid() && fresh(state) && fresh(buf) && f == algorithm && fed == []
    {
      f, count, fed := algorithm, 0, [];
      state := new Word[Words(algorithm)](i requires 0 <= i < Words(algorithm) => Initial(algorithm)[i]);
      buf := new Byte[64](i => 0);
      new;
      assert state[..] == Initial(f);
    }

    // One more byte: a full buffer goes into the state.
    method Feed(b: Byte, i: nat, ghost m: seq<Byte>) returns (next: nat)
      requires state.Length == Words(f) && buf.Length == 64 && Holds(m) && i == |m| % 64
      modifies state, buf
      ensures Holds(m + [b]) && next == |m + [b]| % 64
    {
      hide CompressOf, Compress, Compress1;
      ghost var n, m' := |m| / 64, m + [b];
      BlocksPrefix(f, m, [b], n);
      buf[i] := b;
      assert buf[..i + 1] == m'[64 * n..];
      next := i + 1;
      if next == 64 {
        assert buf[..] == m'[64 * n..64 * (n + 1)];
        CompressCases(f, state[..], buf[..]);
        if f.SHA1? {
          Transform1(state, buf);
        } else {
          Transform(state, buf);
        }
        next := 0;
        assert |m'| / 64 == n + 1 && m'[64 * (n + 1)..] == [];
      }
    }

    // Takes in a piece of the message.
    method Update(data: seq<Byte>)
      requires Valid() && |fed| + |data| < 0x1_0000_0000_0000_0000
      modifies this`count, this`fed, state, buf
      ensures Valid() && fed == old(fed) + data
    {
      hide Holds;
      var i := count % 64;
      count := count + |data|;
      ghost var m := fed;
      assert fed + data[..0] == fed;
      var k := 0;
      while k < |data|
        invariant 0 <= k <= |data| && m == fed + data[..k] && Holds(m) && i == |m| % 64
        invariant fed == old(fed) && count == |fed| + |data|
        invariant state.Length == Words(f) && buf.Length == 64
      {
        i := Feed(data[k], i, m);
        m := m + [data[k]];
        assert fed + data[..k + 1] == m;
        k := k + 1;
      }
      assert data[..|data|] == data;
      fed := m;
    }

    // Zero bytes up to 56 over a block.
    method PadZeros(ghost m: seq<Byte>)
      requires Valid() && fed == m && 0 < |m| < 0x4000_0000_0000_0000
      modifies this`count, this`fed, state, buf
      ensures Valid() && fed == m + Zeros(ZerosNeeded(|m| - 1))
    {
      hide Holds;
      ghost var k := 0;
      assert m + Zeros(0) == m;
      while count % 64 != 56
        invariant Valid() && 0 <= k <= ZerosNeeded(|m| - 1) && fed == m + Zeros(k)
        decreases ZerosNeeded(|m| - 1) - k
      {
        Update([0]);
        assert m + Zeros(k) + [0] == m + Zeros(k + 1);
        k := k + 1;
      }
    }

    // The bit count, highest byte first.
    method PadLength(cnt: nat, ghost m: seq<Byte>)
      requires Valid() && fed == m && |m| < 0x4000_0000_0000_0000
      modifies this`count, this`fed, state, buf
      ensures Valid() && fed == m + BigEndian(cnt, 8)
    {
      hide Holds, BigEndian;
      ghost var bytes := BigEndian(cnt, 8);
      var i := 0;
      assert m + bytes[..0] == m;
      while i < 8
        invariant 0 <= i <= 8 && Valid() && fed == m + bytes[..i]
      {
        LengthByte(cnt, i);
        Update([(cnt / BytePow(7 - i)) % 256]);
        assert m + bytes[..i] + [bytes[i]] == m + bytes[..i + 1];
        i := i + 1;
      }
      assert bytes[..8] == bytes;
    }

    // Pads the message and returns its hash, whatever pieces it came in.
    method Final() returns (digest: seq<Byte>)
      requires Valid() && |fed| < 0x2000_0000_0000_0000
      modifies this`count, this`fed, state, buf
      ensures Valid() && fed == Padded(old(fed)) && digest == Digest(f, old(fed))
    {
      hide Blocks, BigEndian, Zeros, Bytewise;
      ghost var m := fed;
      var cnt := count * 8;
      Update([0x80]);
      PadZeros(fed);
      PadLength(cnt, fed);
      PaddedShape(m);
      digest := WriteDigest();
    }

    // The state, four bytes a word, is left at the start of the buffer.
    method WriteDigest() returns (digest: seq<Byte>)
      requires Valid() && |fed| % 64 == 0
      modifies buf
      ensures Valid() && digest == Bytewise(state[..])
    {
      hide Blocks, Split;
      digest := [];
      var i := 0;
      while i < state.Length
        invariant 0 <= i <= state.Length && digest == Bytewise(state[..i]) && buf[..4 * i] == digest
      {
        var tmp := Split(state[i]);
        buf[4 * i], buf[4 * i + 1], buf[4 * i + 2], buf[4 * i + 3] := tmp[0], tmp[1], tmp[2], tmp[3];
        assert state[..i + 1][..i] == state[..i];
        digest := digest + tmp;
        assert buf[..4 * (i + 1)] == buf[..4 * i] + tmp;
        i := i + 1;
      }
      assert state[..state.Length] == state[..];
    }
  }

  lemma CompressCases(f: Algorithm, s: seq<Word>, block: seq<Byte>)
    requires |s| == Words(f) && |block| == 64
    ensures CompressOf(f, s, block) == if f.SHA1? then Compress1(s, block) else Compress(s, block)
  {
    hide Compress, Compress1;
  }

  lemma LengthByte(n: nat, i: nat)
    requires i < 8
    ensures BigEndian(n, 8)[i] == (n / BytePow(7 - i)) % 256
  {
    BigEndianAt(n, 8, i);
  }

  lemma {:induction false} BigEndianAt(n: nat, k: nat, i: nat)
    requires i < k
    ensures BigEndian(n, k)[i] == (n / BytePow(k - 1 - i)) % 256
  {
    if i > 0 {
      BigEndianAt(n, k - 1, i - 1);
    }
  }

  // The convenience functions: one message, one call.
  method Hash(f: Algorithm, data: seq<Byte>) returns (digest: seq<Byte>)
    requires |data| < 0x2000_0000_0000_0000
    ensures digest == Digest(f, data)
  {
    var ctx := new Context(f);
    ctx.Update(data);
    assert [] + data == data;
    digest := ctx.Final();
  }

  // Any way to cut a message into pieces gives the hash of the whole.
  method HashPieces(f: Algorithm, pieces: seq<seq<Byte>>) returns (digest: seq<Byte>)
    requires |Joined(pieces)| < 0x2000_0000_0000_0000
    ensures digest == Digest(f, Joined(pieces))
  {
    hide Digest, Joined, Padded, Context.Valid;
    assert pieces[..0] == [];
    NothingJoined();
    var ctx := new Context(f);
    var i := 0;
    while i < |pieces|
      invariant 0 <= i <= |pieces| && ctx.Valid() && ctx.f == f && ctx.fed == Joined(pieces[..i])
      invariant fresh(ctx.state) && fresh(ctx.buf) && fresh(ctx)
    {
      JoinedShort(pieces, i + 1);
      ctx.Update(pieces[i]);
      assert pieces[..i + 1][..i] == pieces[..i];
      i := i + 1;
    }
    assert pieces[..|pieces|] == pieces;
    digest := ctx.Final();
  }

  function Joined(pieces: seq<seq<Byte>>): (m: seq<Byte>) {
    if pieces == [] then [] else Joined(pieces[..|pieces| - 1]) + pieces[|pieces| - 1]
  }

  lemma NothingJoined()
    ensures Joined([]) == []
  {
  }

  lemma {:induction false} JoinedShort(pieces: seq<seq<Byte>>, n: nat)
    requires n <= |pieces|
    ensures |Joined(pieces[..n])| <= |Joined(pieces)|
    ensures n > 0 ==> Joined(pieces[..n]) == Joined(pieces[..n - 1]) + pieces[n - 1]
    decreases |pieces|
  {
    if n == |pieces| {
      assert pieces[..n] == pieces;
    } else {
      var q := pieces[..|pieces| - 1];
      JoinedShort(q, n);
      assert q[..n] == pieces[..n] && (n > 0 ==> q[..n - 1] == pieces[..n - 1]);
    }
  }
}
