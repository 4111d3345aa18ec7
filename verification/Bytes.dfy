// Physical memory seen as bytes: word k of a frame holds bytes 4k .. 4k + 3, lowest byte first.
module Bytes {
  import opened Mmu

  type Byte = b: int | 0 <= b < 256

  function ByteOf(w: Word, k: nat): Byte
    requires k < 4
  {
    if k == 0 then w % 256
    else if k == 1 then w / 0x100 % 256
    else if k == 2 then w / 0x1_0000 % 256
    else w / 0x100_0000
  }

  function WordOf(b0: Byte, b1: Byte, b2: Byte, b3: Byte): Word {
    b0 + 0x100 * b1 + 0x1_0000 * b2 + 0x100_0000 * b3
  }

  lemma WordOfBytes(w: Word)
    ensures WordOf(ByteOf(w, 0), ByteOf(w, 1), ByteOf(w, 2), ByteOf(w, 3)) == w
  {
    var h := w / 0x100;
    assert h / 0x100 == w / 0x1_0000;
    assert h / 0x100 / 0x100 == w / 0x100_0000;
  }

  lemma BytesOfWord(b0: Byte, b1: Byte, b2: Byte, b3: Byte)
    ensures ByteOf(WordOf(b0, b1, b2, b3), 0) == b0
    ensures ByteOf(WordOf(b0, b1, b2, b3), 1) == b1
    ensures ByteOf(WordOf(b0, b1, b2, b3), 2) == b2
    ensures ByteOf(WordOf(b0, b1, b2, b3), 3) == b3
  {
    var w := WordOf(b0, b1, b2, b3);
    assert w / 0x100 == b1 + 0x100 * b2 + 0x1_0000 * b3;
    assert w / 0x1_0000 == b2 + 0x100 * b3;
  }

  function WithByte(w: Word, k: nat, b: Byte): Word
    requires k < 4
  {
    WordOf(if k == 0 then b else ByteOf(w, 0),
           if k == 1 then b else ByteOf(w, 1),
           if k == 2 then b else ByteOf(w, 2),
           if k == 3 then b else ByteOf(w, 3))
  }

  lemma WithByteBytes(w: Word, k: nat, b: Byte, k': nat)
    requires k < 4 && k' < 4
    ensures ByteOf(WithByte(w, k, b), k') == if k == k' then b else ByteOf(w, k')
  {
    BytesOfWord(if k == 0 then b else ByteOf(w, 0),
                if k == 1 then b else ByteOf(w, 1),
                if k == 2 then b else ByteOf(w, 2),
                if k == 3 then b else ByteOf(w, 3));
  }

  lemma SameBytesSameWord(v: Word, w: Word)
    requires forall k :: 0 <= k < 4 ==> ByteOf(v, k) == ByteOf(w, k)
    ensures v == w
  {
    WordOfBytes(v);
    WordOfBytes(w);
  }

  // Byte o of a frame.
  function FrameByte(x: Frame, o: nat): Byte
    requires o < 4096
  {
    ByteOf(x[o / 4], o % 4)
  }

  function PutFrameByte(x: Frame, o: nat, b: Byte): Frame
    requires o < 4096
  {
    x[o / 4 := WithByte(x[o / 4], o % 4, b)]
  }

  lemma PutFrameByteAt(x: Frame, o: nat, b: Byte, o': nat)
    requires o < 4096 && o' < 4096
    ensures FrameByte(PutFrameByte(x, o, b), o') == if o == o' then b else FrameByte(x, o')
  {
    if o / 4 == o' / 4 {
      WithByteBytes(x[o / 4], o % 4, b, o' % 4);
    }
  }

  // Two frames with the same 4096 bytes are the same frame.
  lemma SameBytesSameFrame(x: Frame, y: Frame)
    requires forall o :: 0 <= o < 4096 ==> FrameByte(x, o) == FrameByte(y, o)
    ensures x == y
  {
    forall k | 0 <= k < 1024
      ensures x[k] == y[k]
    {
      forall b | 0 <= b < 4
        ensures ByteOf(x[k], b) == ByteOf(y[k], b)
      {
        var o := k * 4 + b;
        assert o / 4 == k && o % 4 == b;
        assert FrameByte(x, o) == FrameByte(y, o);
      }
      SameBytesSameWord(x[k], y[k]);
    }
  }
}
