// The bit buffer of the compressor: bits collect in a 64-bit buffer, least
// significant first, and move to and from an array of 32-bit words.
module CpcBitStream {
  import opened Bits

  type Word = x: nat | x < 0x1_0000_0000

  // The low n bits of x, least significant first.
  function BitsOf(x: nat, n: nat): (s: seq<bool>)
    ensures |s| == n && forall i: nat :: i < n ==> s[i] == Bit(x, i)
  {
    seq(n, i requires 0 <= i < n => Bit(x, i))
  }

  function WordBits(ws: seq<Word>): (s: seq<bool>)
    ensures |s| == 32 * |ws|
  {
    if ws == [] then [] else BitsOf(ws[0], 32) + WordBits(ws[1..])
  }

  lemma {:induction false} WordBitsAppend(ws: seq<Word>, w: Word)
    ensures WordBits(ws + [w]) == WordBits(ws) + BitsOf(w, 32)
  {
    hide BitsOf;
    if ws == [] {
      assert ws + [w] == [w] && [w][1..] == [];
      assert WordBits([w]) == BitsOf(w, 32) + WordBits([]);
    } else {
      assert (ws + [w])[1..] == ws[1..] + [w];
      WordBitsAppend(ws[1..], w);
      assert WordBits(ws + [w]) == BitsOf(ws[0], 32) + (WordBits(ws[1..]) + BitsOf(w, 32));
    }
  }

  function ToWord(x: nat): (w: Word)
    ensures forall k: nat :: Bit(w, k) <==> k < 32 && Bit(x, k)
  {
    assert Pow2(8) == 256;
    assert Pow2(16) == 65536;
    assert Pow2(32) == 0x1_0000_0000 by {
      assert Pow2(24) == 0x100_0000;
    }
    Low(x, 32)
  }

  // bitbuf |= v << bufbits, in 64 bits.
  function Put(bitbuf: nat, bufbits: nat, v: nat): nat {
    Or(bitbuf, Low(Shl(v, bufbits), 64))
  }

  lemma PutBits(bitbuf: nat, bufbits: nat, v: nat, n: nat)
    requires bitbuf < Pow2(bufbits) && v < Pow2(n) && bufbits + n <= 64
    ensures Put(bitbuf, bufbits, v) < Pow2(bufbits + n)
    ensures BitsOf(Put(bitbuf, bufbits, v), bufbits + n) == BitsOf(bitbuf, bufbits) + BitsOf(v, n)
  {
    hide Bit, Or, Low, Shl, Pow2;
    HighBits(bitbuf, bufbits);
    HighBits(v, n);
    Fits(Put(bitbuf, bufbits, v), bufbits + n);
  }

  function Zeros(n: nat): (s: seq<bool>)
    ensures |s| == n && forall i :: 0 <= i < n ==> !s[i]
  {
    seq(n, i => false)
  }

  // Extending a buffer without writing appends zeros.
  lemma ZeroBits(bitbuf: nat, bufbits: nat, n: nat)
    requires bitbuf < Pow2(bufbits)
    ensures bitbuf < Pow2(bufbits + n)
    ensures BitsOf(bitbuf, bufbits + n) == BitsOf(bitbuf, bufbits) + Zeros(n)
  {
    hide Bit, Pow2;
    HighBits(bitbuf, bufbits);
    Fits(bitbuf, bufbits + n);
  }

  // The first m bits of a buffer and the rest.
  lemma ShiftBits(bitbuf: nat, bufbits: nat, m: nat)
    requires bitbuf < Pow2(bufbits) && m <= bufbits
    ensures Shr(bitbuf, m) < Pow2(bufbits - m)
    ensures BitsOf(bitbuf, bufbits) == BitsOf(Low(bitbuf, m), m) + BitsOf(Shr(bitbuf, m), bufbits - m)
    ensures BitsOf(bitbuf, bufbits)[..m] == BitsOf(Low(bitbuf, m), m)
    ensures BitsOf(bitbuf, bufbits)[m..] == BitsOf(Shr(bitbuf, m), bufbits - m)
  {
    hide Bit, Low, Shr, Pow2;
    HighBits(bitbuf, bufbits);
    Fits(Shr(bitbuf, m), bufbits - m);
  }

  // The bits determine the number.
  lemma BitsDetermine(x: nat, y: nat, n: nat)
    requires x < Pow2(n) && y < Pow2(n) && BitsOf(x, n) == BitsOf(y, n)
    ensures x == y
  {
    hide Bit, Pow2;
    HighBits(x, n);
    HighBits(y, n);
    forall k: nat ensures Bit(x, k) == Bit(y, k) {
      if k < n {
        assert BitsOf(x, n)[k] == BitsOf(y, n)[k];
      }
    }
    SameBits(x, y);
  }

  // Writer: the words before wi and the buffer hold the stream so far.
  ghost predicate Wrote(words: array<Word>, wi: nat, bitbuf: nat, bufbits: nat, stream: seq<bool>)
    reads words
  {
    && wi <= words.Length && bitbuf < Pow2(bufbits)
    && stream == WordBits(words[..wi]) + BitsOf(bitbuf, bufbits)
  }

  // Moves a full word out of the buffer.
  method MaybeFlush(words: array<Word>, wi0: nat, bitbuf0: nat, bufbits0: nat, ghost stream: seq<bool>)
    returns (wi: nat, bitbuf: nat, bufbits: nat)
    requires Wrote(words, wi0, bitbuf0, bufbits0, stream) && bufbits0 < 64 && |stream| <= 32 * words.Length
    modifies words
    ensures Wrote(words, wi, bitbuf, bufbits, stream) && bufbits < 32
  {
    hide BitsOf, Pow2, Low, Shr;
    wi, bitbuf, bufbits := wi0, bitbuf0, bufbits0;
    if 32 <= bufbits {
      ghost var before := words[..wi];
      ShiftBits(bitbuf, bufbits, 32);
      words[wi] := ToWord(bitbuf);
      WordBitsAppend(before, words[wi]);
      assert words[..wi + 1] == before + [words[wi]];
      SameLow(bitbuf);
      assert stream == WordBits(words[..wi + 1]) + BitsOf(Shr(bitbuf, 32), bufbits - 32);
      wi := wi + 1;
      bitbuf := Shr(bitbuf, 32);
      bufbits := bufbits - 32;
    }
  }

  // Appends the low n bits of v to the stream.
  method Emit(words: array<Word>, wi0: nat, bitbuf0: nat, bufbits0: nat, v: nat, n: nat, ghost stream: seq<bool>)
    returns (wi: nat, bitbuf: nat, bufbits: nat)
    requires Wrote(words, wi0, bitbuf0, bufbits0, stream) && bufbits0 < 32 && v < Pow2(n) && n <= 26
    requires |stream| + n <= 32 * words.Length
    modifies words
    ensures Wrote(words, wi, bitbuf, bufbits, stream + BitsOf(v, n)) && bufbits < 32
  {
    hide BitsOf, Pow2, Put;
    PutBits(bitbuf0, bufbits0, v, n);
    bitbuf := Put(bitbuf0, bufbits0, v);
    bufbits := bufbits0 + n;
    wi, bitbuf, bufbits := MaybeFlush(words, wi0, bitbuf, bufbits, stream + BitsOf(v, n));
  }

  // Appends n zero bits, which need not be written into the buffer.
  method EmitZeros(words: array<Word>, wi0: nat, bitbuf0: nat, bufbits0: nat, n: nat, ghost stream: seq<bool>)
    returns (wi: nat, bitbuf: nat, bufbits: nat)
    requires Wrote(words, wi0, bitbuf0, bufbits0, stream) && bufbits0 < 32 && n <= 26
    requires |stream| + n <= 32 * words.Length
    modifies words
    ensures Wrote(words, wi, bitbuf, bufbits, stream + Zeros(n)) && bufbits < 32
  {
    hide BitsOf, Pow2;
    ZeroBits(bitbuf0, bufbits0, n);
    wi, bitbuf, bufbits := MaybeFlush(words, wi0, bitbuf0, bufbits0 + n, stream + Zeros(n));
  }

  // The last, partly filled word.
  method FinalFlush(words: array<Word>, wi: nat, bitbuf: nat, bufbits: nat, ghost stream: seq<bool>) returns (n: nat)
    requires Wrote(words, wi, bitbuf, bufbits, stream) && bufbits < 32 && |stream| <= 32 * words.Length
    modifies words
    ensures n <= words.Length && |stream| <= 32 * n < |stream| + 32
    ensures WordBits(words[..n]) == stream + Zeros(32 * n - |stream|)
  {
    hide BitsOf, Pow2;
    n := wi;
    if 0 < bufbits {
      ghost var before := words[..wi];
      ZeroBits(bitbuf, bufbits, 32 - bufbits);
      words[n] := ToWord(bitbuf);
      SameWord(bitbuf);
      WordBitsAppend(before, words[n]);
      assert words[..n + 1] == before + [words[n]];
      n := n + 1;
    }
  }

  lemma SameWord(x: nat)
    requires x < Pow2(32)
    ensures BitsOf(ToWord(x), 32) == BitsOf(x, 32)
  {
  }

  lemma EmptyBuffer()
    ensures 0 < Pow2(0) && BitsOf(0, 0) == []
  {
  }

  lemma SameLow(x: nat)
    ensures BitsOf(ToWord(x), 32) == BitsOf(Low(x, 32), 32)
  {
  }

  // Reader: the buffer and the words from wi on hold what is still to be read.
  ghost predicate Reads(words: seq<Word>, wi: nat, bitbuf: nat, bufbits: nat, rest: seq<bool>) {
    && wi <= |words| && bitbuf < Pow2(bufbits)
    && rest == BitsOf(bitbuf, bufbits) + WordBits(words[wi..])
  }

  // Takes in a word when the buffer has fewer than minbits bits. It never reads
  // past the last word as long as minbits bits are still to be read.
  method MaybeFill(words: seq<Word>, wi0: nat, bitbuf0: nat, bufbits0: nat, minbits: nat, ghost rest: seq<bool>)
    returns (wi: nat, bitbuf: nat, bufbits: nat)
    requires Reads(words, wi0, bitbuf0, bufbits0, rest) && minbits <= 32 && bufbits0 < 64 && minbits <= |rest|
    ensures Reads(words, wi, bitbuf, bufbits, rest) && minbits <= bufbits < 64
    ensures BitsOf(Low(bitbuf, minbits), minbits) == rest[..minbits]
  {
    hide BitsOf, Pow2, Low, Shr, Put;
    wi, bitbuf, bufbits := wi0, bitbuf0, bufbits0;
    if bufbits < minbits {
      WordFits(words[wi]);
      PutBits(bitbuf, bufbits, words[wi], 32);
      bitbuf := Put(bitbuf, bufbits, words[wi]);
      assert words[wi..][1..] == words[wi + 1..];
      wi := wi + 1;
      bufbits := bufbits + 32;
    }
    ShiftBits(bitbuf, bufbits, minbits);
    assert rest[..minbits] == BitsOf(bitbuf, bufbits)[..minbits];
  }

  lemma WordFits(w: Word)
    ensures w < Pow2(32)
  {
    assert Pow2(8) == 256;
    assert Pow2(16) == 65536;
    assert Pow2(24) == 0x100_0000;
    assert Pow2(32) == 0x1_0000_0000;
  }

  // Consuming m bits of the buffer.
  lemma ReadsDrop(words: seq<Word>, wi: nat, bitbuf: nat, bufbits: nat, rest: seq<bool>, m: nat)
    requires Reads(words, wi, bitbuf, bufbits, rest) && m <= bufbits
    ensures Reads(words, wi, Shr(bitbuf, m), bufbits - m, rest[m..])
  {
    hide BitsOf, Pow2, Low, Shr;
    ShiftBits(bitbuf, bufbits, m);
    var b := BitsOf(bitbuf, bufbits);
    assert (b + WordBits(words[wi..]))[m..] == b[m..] + WordBits(words[wi..]);
  }
}
