/** Bytes, 32-bit words and the little-endian layout in which the machine and the disk store them. */
module Words {

  type byte = b: int | 0 <= b < 0x100
  type word = w: int | 0 <= w < 0x1_0000_0000

  type text = seq<byte>

  /** Byte `k` of a word, least significant first. */
  function ByteOf(w: word, k: nat): byte
    requires k < 4
  {
    if k == 0 then w % 0x100 else ByteOf(w / 0x100, k - 1)
  }

  function WordOf(b0: byte, b1: byte, b2: byte, b3: byte): word {
    b0 + 0x100 * b1 + 0x1_0000 * b2 + 0x100_0000 * b3
  }

  /** The memory image of an array of words. */
  function ToBytes(ws: seq<word>): (s: seq<byte>)
    ensures |s| == 4 * |ws|
  {
    if |ws| == 0 then []
    else
      var w := ws[|ws| - 1];
      ToBytes(ws[..|ws| - 1]) + [ByteOf(w, 0), ByteOf(w, 1), ByteOf(w, 2), ByteOf(w, 3)]
  }

  /** The array of words whose memory image is `s`. */
  function ToWords(s: seq<byte>): (ws: seq<word>)
    requires |s| % 4 == 0
    ensures |ws| == |s| / 4
  {
    if |s| == 0 then []
    else
      var n := |s| - 4;
      ToWords(s[..n]) + [WordOf(s[n], s[n + 1], s[n + 2], s[n + 3])]
  }

  lemma BytesShift(w: word, w1: word)
    requires w1 == w / 0x100
    ensures w == 0x100 * w1 + ByteOf(w, 0)
    ensures ByteOf(w, 1) == ByteOf(w1, 0) && ByteOf(w, 2) == ByteOf(w1, 1) && ByteOf(w, 3) == ByteOf(w1, 2)
  {
  }

  lemma WordOfBytes(w: word)
    ensures WordOf(ByteOf(w, 0), ByteOf(w, 1), ByteOf(w, 2), ByteOf(w, 3)) == w
  {
    var w1: word := w / 0x100;
    var w2: word := w1 / 0x100;
    var w3: word := w2 / 0x100;
    BytesShift(w, w1);
    BytesShift(w1, w2);
    BytesShift(w2, w3);
    Compose(w, w1, w2, w3, ByteOf(w, 0), ByteOf(w1, 0), ByteOf(w2, 0));
  }

  lemma Compose(w: word, w1: word, w2: word, w3: word, b0: byte, b1: byte, b2: byte)
    requires w == 0x100 * w1 + b0 && w1 == 0x100 * w2 + b1 && w2 == 0x100 * w3 + b2
    ensures w3 < 0x100 && WordOf(b0, b1, b2, w3) == w && ByteOf(w3, 0) == w3
  {
  }

  lemma ByteOfWord(b0: byte, b1: byte, b2: byte, b3: byte)
    ensures var w := WordOf(b0, b1, b2, b3);
            ByteOf(w, 0) == b0 && ByteOf(w, 1) == b1 && ByteOf(w, 2) == b2 && ByteOf(w, 3) == b3
  {
    var w := WordOf(b0, b1, b2, b3);
    var w1 := w / 0x100;
    var w2 := w1 / 0x100;
    assert w1 == b1 + 0x100 * b2 + 0x1_0000 * b3;
    assert w2 == b2 + 0x100 * b3;
    assert ByteOf(w, 2) == ByteOf(w1, 1) == w2 % 0x100;
    assert ByteOf(w, 3) == ByteOf(w1, 2) == ByteOf(w2, 1) == w2 / 0x100 % 0x100;
  }

  /** Storing words and loading them again is the identity. */
  lemma {:induction false} ToWordsToBytes(ws: seq<word>)
    ensures ToWords(ToBytes(ws)) == ws
  {
    if |ws| > 0 {
      var n := |ws| - 1;
      ToWordsToBytes(ws[..n]);
      assert ToBytes(ws)[..4 * n] == ToBytes(ws[..n]);
      WordOfBytes(ws[n]);
      assert ws == ws[..n] + [ws[n]];
    }
  }

  /** Loading whole words and storing them again is the identity. */
  lemma {:induction false} ToBytesToWords(s: seq<byte>)
    requires |s| % 4 == 0
    ensures ToBytes(ToWords(s)) == s
  {
    if |s| > 0 {
      var n := |s| - 4;
      ToBytesToWords(s[..n]);
      assert ToWords(s)[..|s| / 4 - 1] == ToWords(s[..n]);
      ByteOfWord(s[n], s[n + 1], s[n + 2], s[n + 3]);
      assert s == s[..n] + [s[n], s[n + 1], s[n + 2], s[n + 3]];
    }
  }

  /** Word `k` of an array takes up bytes `4 * k` to `4 * k + 3`, least significant first. */
  lemma {:induction false} WordsLieInOrder(ws: seq<word>, k: nat)
    requires k < |ws|
    ensures var s := ToBytes(ws);
            s[4 * k] as int + s[4 * k + 1] as int * 0x100 + s[4 * k + 2] as int * 0x1_0000 + s[4 * k + 3] as int * 0x100_0000 == ws[k]
  {
    if k == |ws| - 1 {
      WordOfBytes(ws[k]);
    } else {
      WordsLieInOrder(ws[..|ws| - 1], k);
    }
  }
}
