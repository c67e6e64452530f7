/** The one block of the message "abc". */
module ShaPadding {
  import opened Arith
  import opened BigNum
  import opened Bytes
  import opened ShaStream

  const ABC: seq<Byte> := [0x61, 0x62, 0x63]

  predicate IsAbc(m: seq<Byte>)
    ensures IsAbc(m) ==> |m| == 64
  {
    m == ABC + [0x80] + Zeros(59) + [24]
  }

  lemma AbcBytes(m: seq<Byte>)
    requires IsAbc(m)
    ensures m[0] == 0x61 && m[1] == 0x62 && m[2] == 0x63 && m[3] == 0x80 && m[63] == 24 && forall i :: 4 <= i < 63 ==> m[i] == 0
  {
  }

  // Its padding leaves one block, whose hash is the compression of the initial state.
  lemma OneBlock(f: Algorithm)
    ensures IsAbc(Padded(ABC))
    ensures Digest(f, ABC) == Bytewise(CompressOf(f, Initial(f), Padded(ABC)))
  {
    hide CompressOf, Initial, Blocks, Bytewise, BigEndian;
    LengthBytes();
    var m := Padded(ABC);
    assert Zeros(52) + Zeros(7) == Zeros(59);
    assert m == ABC + [0x80] + Zeros(59) + [24];
    BlocksNext(f, m, 0);
    BlocksNext(f, m, 1);
    assert m[0..64] == m;
  }

  lemma LengthBytes()
    ensures BigEndian(24, 8) == Zeros(7) + [24]
  {
    forall i | 0 <= i < 8
      ensures BigEndian(24, 8)[i] == if i < 7 then 0 else 24
    {
      BigEndianAt(24, 8, i);
      if i < 7 {
        LargePower(7 - i);
      }
    }
  }

  lemma LargePower(k: nat)
    requires k > 0
    ensures BytePow(k) >= 256 && 24 / BytePow(k) == 0
  {
    assert BytePow(k) == 256 * BytePow(k - 1);
    DivModUnique(24, 0, 24, BytePow(k));
  }

  lemma BytewiseNext(s: seq<Word>, x: Word)
    ensures Bytewise(s + [x]) == Bytewise(s) + Split(x)
  {
    assert (s + [x])[..|s|] == s;
  }
}
