// Length-limited prefix codes: building the 12-bit decoding table, and
// compressing and uncompressing byte arrays through the bit buffer.
module CpcByteCodec {
  import opened Bits
  import opened CpcBitStream

  // An encoding entry packs a code length above a 12-bit codeword.
  function CodeVal(e: nat): nat {
    Low(e, 12)
  }

  function CodeLen(e: nat): nat {
    Shr(e, 12)
  }

  // The 12 bits of w begin with the codeword of e.
  predicate Matches(e: nat, w: nat) {
    Low(w, CodeLen(e)) == CodeVal(e)
  }

  // Codewords of 1 to 12 bits, none a prefix of another.
  ghost predicate GoodCode(enc: seq<nat>) {
    && |enc| <= 256
    && (forall i :: 0 <= i < |enc| ==> 1 <= CodeLen(enc[i]) <= 12 && CodeVal(enc[i]) < Pow2(CodeLen(enc[i])))
    && (forall i, j :: 0 <= i < |enc| && 0 <= j < |enc| && i != j && CodeLen(enc[i]) <= CodeLen(enc[j]) ==>
          !Matches(enc[i], CodeVal(enc[j])))
  }

  function Codeword(e: nat): seq<bool> {
    BitsOf(CodeVal(e), CodeLen(e))
  }

  // No window begins with two codewords.
  lemma OneMatch(enc: seq<nat>, i: nat, j: nat, w: nat)
    requires GoodCode(enc) && i < |enc| && j < |enc| && Matches(enc[i], w) && Matches(enc[j], w)
    ensures i == j
  {
    hide Low, CodeLen, CodeVal, Pow2;
    if i != j {
      if CodeLen(enc[i]) <= CodeLen(enc[j]) {
        LowLow(w, CodeLen(enc[j]), CodeLen(enc[i]));
      } else {
        LowLow(w, CodeLen(enc[i]), CodeLen(enc[j]));
      }
    }
  }

  lemma LowLow(w: nat, m: nat, n: nat)
    requires n <= m
    ensures Low(Low(w, m), n) == Low(w, n)
  {
  }

  // A decoding entry packs the code length above the symbol.
  function Entry(e: nat, symbol: nat): nat {
    Or(Shl(CodeLen(e), 8), symbol)
  }

  lemma EntryParts(e: nat, symbol: nat)
    requires symbol < 256
    ensures Shr(Entry(e, symbol), 8) == CodeLen(e) && Low(Entry(e, symbol), 8) == symbol
  {
    assert Pow2(8) == 256;
    hide Bit, Or, Shl, Shr, Low, CodeLen, Pow2;
    HighBits(symbol, 8);
    SameBits(Shr(Entry(e, symbol), 8), CodeLen(e));
    SameBits(Low(Entry(e, symbol), 8), symbol);
  }

  // Every window that begins with a symbol's codeword is mapped to that symbol
  // and the length of its codeword.
  ghost predicate DecodesTo(table: seq<nat>, e: nat, symbol: nat) {
    |table| == 4096 && forall w: nat :: w < 4096 && Matches(e, w) ==> table[w] == Entry(e, symbol)
  }

  ghost predicate Decodes(enc: seq<nat>, table: seq<nat>) {
    forall i :: 0 <= i < |enc| ==> DecodesTo(table, enc[i], i)
  }

  // Garbage bits above a codeword give a window that begins with it, and every
  // such window arises from its own garbage bits.
  lemma Extended(e: nat, garbage: nat)
    requires CodeLen(e) <= 12 && CodeVal(e) < Pow2(CodeLen(e)) && garbage < Pow2(12 - CodeLen(e))
    ensures var w := Low(Or(CodeVal(e), Shl(garbage, CodeLen(e))), 12);
      w < 4096 && Matches(e, w) && Shr(w, CodeLen(e)) == garbage
  {
    assert Pow2(12) == 4096 by { assert Pow2(8) == 256; }
    hide Bit, Or, Shl, Shr, Low, CodeLen, CodeVal, Pow2;
    var n := CodeLen(e);
    HighBits(CodeVal(e), n);
    HighBits(garbage, 12 - n);
    var w := Low(Or(CodeVal(e), Shl(garbage, n)), 12);
    SameBits(Low(w, n), CodeVal(e));
    SameBits(Shr(w, n), garbage);
  }

  lemma GarbageOf(e: nat, w: nat)
    requires CodeLen(e) <= 12 && w < 4096 && Matches(e, w)
    ensures Shr(w, CodeLen(e)) < Pow2(12 - CodeLen(e))
    ensures w == Low(Or(CodeVal(e), Shl(Shr(w, CodeLen(e)), CodeLen(e))), 12)
  {
    assert Pow2(12) == 4096 by { assert Pow2(8) == 256; }
    hide Bit, Or, Shl, Shr, Low, CodeLen, CodeVal, Pow2;
    var n := CodeLen(e);
    HighBits(w, 12);
    Fits(Shr(w, n), 12 - n);
    SameBits(w, Low(Or(CodeVal(e), Shl(Shr(w, n), n)), 12));
  }

  method MakeDecodingTable(enc: seq<nat>) returns (table: array<nat>)
    requires GoodCode(enc)
    ensures fresh(table) && table.Length == 4096 && Decodes(enc, table[..])
  {
    table := new nat[4096];
    for b := 0 to |enc|
      invariant forall i :: 0 <= i < b ==> DecodesTo(table[..], enc[i], i)
    {
      FillEntry(table, enc, b);
    }
  }

  // Stores one symbol's entry at every window that begins with its codeword,
  // leaving the windows of other symbols alone.
  method FillEntry(table: array<nat>, enc: seq<nat>, b: nat)
    requires GoodCode(enc) && b < |enc| && table.Length == 4096
    requires forall i :: 0 <= i < b ==> DecodesTo(table[..], enc[i], i)
    modifies table
    ensures forall i :: 0 <= i <= b ==> DecodesTo(table[..], enc[i], i)
  {
    hide Or, Shl, Shr, Low, Matches, CodeVal, CodeLen, Pow2, Entry;
    var e := enc[b];
    var entry := Entry(e, b);
    var numCopies := Pow2(12 - CodeLen(e));
    for g := 0 to numCopies
      invariant forall i :: 0 <= i < b ==> DecodesTo(table[..], enc[i], i)
      invariant forall w: nat :: w < 4096 && Matches(e, w) && Shr(w, CodeLen(e)) < g ==> table[w] == entry
    {
      var extended := Or(CodeVal(e), Shl(g, CodeLen(e)));
      var w := Low(extended, 12);
      Extended(e, g);
      forall v: nat | v < 4096 && Matches(e, v) && Shr(v, CodeLen(e)) == g ensures v == w {
        GarbageOf(e, v);
      }
      forall i | 0 <= i < b ensures !Matches(enc[i], w) {
        if Matches(enc[i], w) {
          OneMatch(enc, i, b, w);
        }
      }
      table[w] := entry;
    }
    forall v: nat | v < 4096 && Matches(e, v) ensures table[v] == entry {
      GarbageOf(e, v);
    }
  }

  // The source's self-check of a decoding table.
  method ValidateDecodingTable(table: array<nat>, enc: seq<nat>) returns (valid: bool)
    requires table.Length == 4096 && forall w :: 0 <= w < 4096 ==> Low(table[w], 8) < |enc|
    ensures valid <==> forall w: nat :: w < 4096 ==>
      var e := enc[Low(table[w], 8)];
      Shr(table[w], 8) == CodeLen(e) && Matches(e, w)
  {
    hide Low, Shr, CodeLen, CodeVal;
    for w := 0 to 4096
      invariant forall v: nat :: v < w ==>
        var e := enc[Low(table[v], 8)];
        Shr(table[v], 8) == CodeLen(e) && Matches(e, v)
    {
      var e := enc[Low(table[w], 8)];
      if Shr(table[w], 8) != CodeLen(e) || CodeVal(e) != Low(w, Shr(table[w], 8)) {
        return false;
      }
    }
    return true;
  }

  // Every byte has a codeword.
  predicate Symbols(enc: seq<nat>, bytes: seq<nat>) {
    forall i :: 0 <= i < |bytes| ==> bytes[i] < |enc|
  }

  function EncodeBytes(enc: seq<nat>, bytes: seq<nat>): seq<bool>
    requires Symbols(enc, bytes)
  {
    if bytes == [] then [] else Codeword(enc[bytes[0]]) + EncodeBytes(enc, bytes[1..])
  }

  lemma {:induction false} EncodeAppend(enc: seq<nat>, bytes: seq<nat>, b: nat)
    requires b < |enc| && Symbols(enc, bytes)
    ensures EncodeBytes(enc, bytes + [b]) == EncodeBytes(enc, bytes) + Codeword(enc[b])
  {
    hide Codeword;
    var more := bytes + [b];
    if bytes == [] {
      assert more[1..] == [];
    } else {
      assert more[1..] == bytes[1..] + [b];
      EncodeAppend(enc, bytes[1..], b);
    }
  }

  lemma {:induction false} EncodedLength(enc: seq<nat>, bytes: seq<nat>)
    requires GoodCode(enc) && Symbols(enc, bytes)
    ensures |bytes| <= |EncodeBytes(enc, bytes)| <= 12 * |bytes|
  {
    hide CodeLen, CodeVal, Matches, Pow2;
    if bytes != [] {
      EncodedLength(enc, bytes[1..]);
    }
  }

  // Compresses a byte array and pads it for the 12-bit look-ahead. Returns the
  // number of words used, which the buffer always has room for.
  method CompressBytes(bytes: seq<nat>, enc: seq<nat>, words: array<Word>) returns (n: nat)
    requires GoodCode(enc) && Symbols(enc, bytes) && SafeWindowLength(|bytes|) <= words.Length
    modifies words
    ensures n <= SafeWindowLength(|bytes|) <= words.Length
    ensures var e := EncodeBytes(enc, bytes);
      |e| + 11 <= 32 * n < |e| + 11 + 32 && WordBits(words[..n]) == e + Zeros(32 * n - |e|)
  {
    hide BitsOf, Pow2, CodeVal, CodeLen, Matches;
    var bitbuf: nat, bufbits: nat, wi: nat := 0, 0, 0;
    EmptyBuffer();
    for i := 0 to |bytes|
      invariant bufbits < 32 && Wrote(words, wi, bitbuf, bufbits, EncodeBytes(enc, bytes[..i]))
    {
      var e := enc[bytes[i]];
      assert bytes[..i + 1] == bytes[..i] + [bytes[i]];
      EncodeAppend(enc, bytes[..i], bytes[i]);
      EncodedLength(enc, bytes[..i + 1]);
      wi, bitbuf, bufbits := Emit(words, wi, bitbuf, bufbits, CodeVal(e), CodeLen(e), EncodeBytes(enc, bytes[..i]));
    }
    assert bytes[..|bytes|] == bytes;
    ghost var e := EncodeBytes(enc, bytes);
    EncodedLength(enc, bytes);
    wi, bitbuf, bufbits := EmitZeros(words, wi, bitbuf, bufbits, 11, e);
    n := FinalFlush(words, wi, bitbuf, bufbits, e + Zeros(11));
    assert WordBits(words[..n]) == e + Zeros(32 * n - |e|);
  }

  // 12 bits for each byte and 11 of padding, in words.
  function SafeWindowLength(k: nat): nat {
    (12 * k + 11 + 31) / 32
  }

  lemma WindowRoomIsLeast(k: nat, words: nat)
    ensures SafeWindowLength(k) <= words <==> 12 * k + 11 <= 32 * words
  {
  }

  // The codeword at the head of the stream decides the next symbol.
  lemma HeadSymbol(enc: seq<nat>, table: seq<nat>, symbol: nat, rest: seq<bool>, peek: nat)
    requires GoodCode(enc) && symbol < |enc| && Decodes(enc, table) && 12 <= |rest| && peek < 4096
    requires Codeword(enc[symbol]) <= rest && BitsOf(peek, 12) == rest[..12]
    ensures Shr(table[peek], 8) == CodeLen(enc[symbol]) && Low(table[peek], 8) == symbol
  {
    hide BitsOf, Low, Shr, CodeVal, CodeLen, Pow2, Entry;
    var e := enc[symbol];
    var n := CodeLen(e);
    LowBits(peek, 12, n);
    assert Codeword(e) == rest[..n] == rest[..12][..n];
    LowSmall(peek, n);
    BitsDetermine(Low(peek, n), CodeVal(e), n);
    assert DecodesTo(table, e, symbol) && Matches(e, peek);
    EntryParts(e, symbol);
  }

  lemma LowBits(x: nat, m: nat, n: nat)
    requires n <= m
    ensures BitsOf(x, m)[..n] == BitsOf(Low(x, n), n)
  {
  }

  lemma LowSmall(x: nat, n: nat)
    ensures Low(x, n) < Pow2(n)
  {
  }

  // Uncompresses into an array. The words hold an encoding followed by at least
  // 11 more bits; no look-ahead reads past the last word.
  method UncompressBytes(out: array<nat>, table: array<nat>, words: seq<Word>,
                         ghost enc: seq<nat>, ghost bytes: seq<nat>, ghost padding: seq<bool>)
    requires GoodCode(enc) && Symbols(enc, bytes) && out != table
    requires table.Length == 4096 && Decodes(enc, table[..]) && out.Length == |bytes|
    requires WordBits(words) == EncodeBytes(enc, bytes) + padding && 11 <= |padding|
    modifies out
    ensures out[..] == bytes
  {
    hide BitsOf, Pow2, Low, Shr, CodeVal, CodeLen, Matches, Decodes;
    var bitbuf: nat, bufbits: nat, wi: nat := 0, 0, 0;
    EmptyBuffer();
    assert words[0..] == words;
    for i := 0 to out.Length
      invariant bufbits < 64 && Reads(words, wi, bitbuf, bufbits, EncodeBytes(enc, bytes[i..]) + padding)
      invariant out[..i] == bytes[..i]
    {
      ghost var rest := EncodeBytes(enc, bytes[i..]) + padding;
      ghost var code := Codeword(enc[bytes[i]]);
      assert bytes[i..][1..] == bytes[i + 1..] && bytes[i..][0] == bytes[i];
      EncodedLength(enc, bytes[i..]);
      assert rest == code + (EncodeBytes(enc, bytes[i + 1..]) + padding);
      wi, bitbuf, bufbits := MaybeFill(words, wi, bitbuf, bufbits, 12, rest);
      var peek12 := Low(bitbuf, 12);
      PeekFits(bitbuf);
      HeadSymbol(enc, table[..], bytes[i], rest, peek12);
      var lookup := table[peek12];
      out[i] := Low(lookup, 8);
      ReadsDrop(words, wi, bitbuf, bufbits, rest, Shr(lookup, 8));
      assert rest[|code|..] == EncodeBytes(enc, bytes[i + 1..]) + padding;
      bitbuf := Shr(bitbuf, Shr(lookup, 8));
      bufbits := bufbits - Shr(lookup, 8);
    }
  }

  lemma PeekFits(x: nat)
    ensures Low(x, 12) < 4096
  {
  }

  // Compressing and uncompressing gives back the bytes, for every byte array
  // and every prefix-free code of lengths 1 to 12.
  method RoundTrip(bytes: seq<nat>, enc: seq<nat>) returns (out: array<nat>)
    requires GoodCode(enc) && Symbols(enc, bytes)
    ensures out[..] == bytes
  {
    hide EncodeBytes, Decodes;
    var words := new Word[SafeWindowLength(|bytes|)];
    var n := CompressBytes(bytes, enc, words);
    var table := MakeDecodingTable(enc);
    out := new nat[|bytes|];
    UncompressBytes(out, table, words[..n], enc, bytes, Zeros(32 * n - |EncodeBytes(enc, bytes)|));
  }
}
