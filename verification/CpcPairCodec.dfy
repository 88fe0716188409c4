// Row/column pairs: a prefix code for column deltas and a Golomb code (a unary
// high part and B base bits) for row deltas, through the bit buffer.
module CpcPairCodec {
  import opened Bits
  import opened Modular
  import opened CpcBitStream
  import opened CpcByteCodec
  import opened Wrappers

  function Row(rc: nat): nat { rc / 64 }

  function Col(rc: nat): nat { rc % 64 }

  // The source's shifts and masks by 6 bits.
  lemma SixBits(row: nat, col: nat)
    requires col < 64
    ensures Or(Shl(row, 6), col) == 64 * row + col
    ensures Shr(64 * row + col, 6) == row && Low(64 * row + col, 6) == col
  {
    assert Pow2(6) == 64;
    OrShl(row, col, 6);
    var x := Or(Shl(row, 6), col);
    hide Bit, Or, Shl, Shr, Low;
    HighBits(col, 6);
    SameBits(Shr(x, 6), row);
    SameBits(Low(x, 6), col);
  }

  lemma {:induction false} OrShl(r: nat, c: nat, n: nat)
    requires c < Pow2(n)
    ensures Or(Shl(r, n), c) == r * Pow2(n) + c
  {
    if n == 0 {
    } else {
      OrShl(r, c / 2, n - 1);
      OrDouble(Shl(r, n - 1), c);
      Scale(r, Pow2(n - 1));
    }
  }

  lemma Scale(r: nat, p: nat)
    ensures r * (2 * p) == 2 * (r * p)
  {
  }

  lemma OrDouble(x: nat, c: nat)
    ensures Or(2 * x, c) == c % 2 + 2 * Or(x, c / 2)
  {
  }

  function Unary(v: nat): (s: seq<bool>)
    ensures |s| == v + 1
  {
    Zeros(v) + [true]
  }

  // The column expected after a pair, in the row of the next pair.
  function Expected(rc: nat, pr: nat, pc: nat): nat {
    if Row(rc) != pr then 0 else pc
  }

  // The pair does not come before the predicted position.
  predicate Follows(rc: nat, pr: nat, pc: nat) {
    pr <= Row(rc) && Expected(rc, pr, pc) <= Col(rc)
  }

  predicate Chain(pairs: seq<nat>, pr: nat, pc: nat) {
    pairs == [] || (Follows(pairs[0], pr, pc) && Chain(pairs[1..], Row(pairs[0]), Col(pairs[0]) + 1))
  }

  predicate Increasing(pairs: seq<nat>) {
    forall i :: 0 < i < |pairs| ==> pairs[i - 1] < pairs[i]
  }

  lemma FollowsIffGreater(prev: nat, rc: nat)
    ensures Follows(rc, Row(prev), Col(prev) + 1) <==> prev < rc
  {
  }

  lemma {:induction false} IncreasingChain(pairs: seq<nat>, pr: nat, pc: nat)
    requires Increasing(pairs) && (pairs == [] || Follows(pairs[0], pr, pc))
    ensures Chain(pairs, pr, pc)
  {
    if |pairs| > 1 {
      FollowsIffGreater(pairs[0], pairs[1]);
      IncreasingChain(pairs[1..], Row(pairs[0]), Col(pairs[0]) + 1);
    }
  }

  function EncodePair(enc: seq<nat>, B: nat, rc: nat, pr: nat, pc: nat): (s: seq<bool>)
    requires |enc| == 65 && Follows(rc, pr, pc)
  {
    var y := Row(rc) - pr;
    Codeword(enc[Col(rc) - Expected(rc, pr, pc)]) + Unary(Shr(y, B)) + BitsOf(Low(y, B), B)
  }

  function EncodePairs(enc: seq<nat>, B: nat, pairs: seq<nat>, pr: nat, pc: nat): seq<bool>
    requires |enc| == 65 && Chain(pairs, pr, pc)
  {
    if pairs == [] then []
    else EncodePair(enc, B, pairs[0], pr, pc) + EncodePairs(enc, B, pairs[1..], Row(pairs[0]), Col(pairs[0]) + 1)
  }

  // The position predicted after a list of pairs.
  function LastRow(pairs: seq<nat>, pr: nat): nat {
    if pairs == [] then pr else Row(pairs[|pairs| - 1])
  }

  function LastCol(pairs: seq<nat>, pc: nat): nat {
    if pairs == [] then pc else Col(pairs[|pairs| - 1]) + 1
  }

  lemma {:induction false} EncodePairsAppend(enc: seq<nat>, B: nat, pairs: seq<nat>, rc: nat, pr: nat, pc: nat)
    requires |enc| == 65 && Chain(pairs, pr, pc) && Follows(rc, LastRow(pairs, pr), LastCol(pairs, pc))
    ensures Chain(pairs + [rc], pr, pc)
    ensures EncodePairs(enc, B, pairs + [rc], pr, pc)
         == EncodePairs(enc, B, pairs, pr, pc) + EncodePair(enc, B, rc, LastRow(pairs, pr), LastCol(pairs, pc))
  {
    hide EncodePair, Follows, Row, Col;
    var more := pairs + [rc];
    if pairs == [] {
      assert more[1..] == [];
    } else {
      assert more[1..] == pairs[1..] + [rc];
      EncodePairsAppend(enc, B, pairs[1..], rc, Row(pairs[0]), Col(pairs[0]) + 1);
    }
  }

  // Shifting right loses at least as much on the parts as on the sum.
  lemma {:induction false} ShrSuperadditive(a: nat, b: nat, n: nat)
    ensures Shr(a, n) + Shr(b, n) <= Shr(a + b, n)
  {
    if n != 0 {
      ShrSuperadditive(a / 2, b / 2, n - 1);
      ShrMonotone(a / 2 + b / 2, (a + b) / 2, n - 1);
    }
  }

  lemma {:induction false} ShrMonotone(a: nat, b: nat, n: nat)
    requires a <= b
    ensures Shr(a, n) <= Shr(b, n)
  {
    if n != 0 {
      ShrMonotone(a / 2, b / 2, n - 1);
    }
  }

  // A pair costs at most 12 bits for the column, its row delta shifted down in
  // unary, a stop bit and B base bits.
  lemma EncodedPairLength(enc: seq<nat>, B: nat, rc: nat, pr: nat, pc: nat)
    requires GoodCode(enc) && |enc| == 65 && Follows(rc, pr, pc)
    ensures 2 + B <= |EncodePair(enc, B, rc, pr, pc)| <= 13 + B + Shr(Row(rc) - pr, B)
  {
  }

  // The unary zeros of all pairs together are bounded by the rows covered.
  lemma {:induction false} EncodedPairsLength(enc: seq<nat>, B: nat, pairs: seq<nat>, pr: nat, pc: nat)
    requires GoodCode(enc) && |enc| == 65 && Chain(pairs, pr, pc)
    ensures pr <= LastRow(pairs, pr)
    ensures |EncodePairs(enc, B, pairs, pr, pc)| <= |pairs| * (13 + B) + Shr(LastRow(pairs, pr) - pr, B)
  {
    hide Shr, Row, Col, EncodePair, GoodCode;
    if pairs != [] {
      var row := Row(pairs[0]);
      EncodedPairLength(enc, B, pairs[0], pr, pc);
      EncodedPairsLength(enc, B, pairs[1..], row, Col(pairs[0]) + 1);
      ShrSuperadditive(row - pr, LastRow(pairs, pr) - row, B);
      MulNext(|pairs| - 1, 13 + B);
    }
  }

  lemma MulNext(n: nat, b: nat)
    ensures (n + 1) * b == n * b + b
  {
  }

  // Zero bits are recorded sixteen at a time, then the stop bit.
  method WriteUnary(words: array<Word>, wi0: nat, bitbuf0: nat, bufbits0: nat, value: nat, ghost stream: seq<bool>)
    returns (wi: nat, bitbuf: nat, bufbits: nat)
    requires Wrote(words, wi0, bitbuf0, bufbits0, stream) && bufbits0 < 32
    requires |stream| + value + 1 <= 32 * words.Length
    modifies words
    ensures Wrote(words, wi, bitbuf, bufbits, stream + Unary(value)) && bufbits < 32
  {
    hide Wrote, BitsOf, Pow2;
    var remaining: nat := value;
    wi, bitbuf, bufbits := wi0, bitbuf0, bufbits0;
    assert stream + Zeros(0) == stream;
    while 16 <= remaining
      invariant remaining <= value && bufbits < 32
      invariant Wrote(words, wi, bitbuf, bufbits, stream + Zeros(value - remaining))
    {
      wi, bitbuf, bufbits := EmitZeros(words, wi, bitbuf, bufbits, 16, stream + Zeros(value - remaining));
      remaining := remaining - 16;
      assert stream + Zeros(value - remaining - 16) + Zeros(16) == stream + Zeros(value - remaining);
    }
    StopBit(remaining);
    wi, bitbuf, bufbits := Emit(words, wi, bitbuf, bufbits, Shl(1, remaining), remaining + 1,
                                stream + Zeros(value - remaining));
    assert stream + Zeros(value - remaining) + Unary(remaining) == stream + Unary(value);
  }

  lemma StopBit(n: nat)
    ensures Shl(1, n) < Pow2(n + 1) && BitsOf(Shl(1, n), n + 1) == Unary(n)
  {
  }

  lemma OneBit()
    ensures Bit(1, 0) && forall k: nat :: 0 < k ==> !Bit(1, k)
  {
    forall k: nat | 0 < k ensures !Bit(1, k) {
      NoBits(k - 1);
    }
  }

  function TrailingZeros(x: nat, n: nat): (t: nat)
    ensures t <= n && (t < n ==> Bit(x, t)) && forall k: nat :: k < t ==> !Bit(x, k)
  {
    if n == 0 || x % 2 == 1 then 0 else 1 + TrailingZeros(x / 2, n - 1)
  }

  // Eight bits at a time, until a stop bit is seen. The look-ahead is covered
  // by the bits that follow the unary code.
  method ReadUnary(words: seq<Word>, wi0: nat, bitbuf0: nat, bufbits0: nat, ghost value: nat, ghost tail: seq<bool>)
    returns (wi: nat, bitbuf: nat, bufbits: nat, v: nat)
    requires Reads(words, wi0, bitbuf0, bufbits0, Unary(value) + tail) && bufbits0 < 64 && 7 <= |tail|
    ensures Reads(words, wi, bitbuf, bufbits, tail) && bufbits < 64 && v == value
  {
    hide Reads, BitsOf, Pow2, Low, Shr, TrailingZeros;
    wi, bitbuf, bufbits := wi0, bitbuf0, bufbits0;
    var subtotal: nat := 0;
    while true
      invariant subtotal <= value && bufbits < 64
      invariant Reads(words, wi, bitbuf, bufbits, Unary(value - subtotal) + tail)
      decreases value - subtotal
    {
      ghost var rest := Unary(value - subtotal) + tail;
      wi, bitbuf, bufbits := MaybeFill(words, wi, bitbuf, bufbits, 8, rest);
      var trailingZeros := TrailingZeros(Low(bitbuf, 8), 8);
      UnaryHead(Low(bitbuf, 8), value - subtotal, tail);
      if trailingZeros < 8 {
        ReadsDrop(words, wi, bitbuf, bufbits, rest, 1 + trailingZeros);
        assert rest[1 + trailingZeros..] == tail;
        bufbits := bufbits - (1 + trailingZeros);
        bitbuf := Shr(bitbuf, 1 + trailingZeros);
        v := subtotal + trailingZeros;
        return;
      }
      ReadsDrop(words, wi, bitbuf, bufbits, rest, 8);
      assert rest[8..] == Unary(value - subtotal - 8) + tail;
      subtotal := subtotal + 8;
      bufbits := bufbits - 8;
      bitbuf := Shr(bitbuf, 8);
    }
  }

  // What eight bits show of a unary code.
  lemma UnaryHead(peek: nat, v: nat, tail: seq<bool>)
    requires 7 <= |tail| && BitsOf(peek, 8) == (Unary(v) + tail)[..8]
    ensures TrailingZeros(peek, 8) == if v < 8 then v else 8
  {
    hide Bit, TrailingZeros;
    var rest := Unary(v) + tail;
    assert forall k: nat :: k < 8 ==> Bit(peek, k) == rest[k] by {
      assert forall k: nat :: k < 8 ==> BitsOf(peek, 8)[k] == rest[..8][k];
    }
    assert forall k: nat :: k < v ==> !rest[k];
    assert rest[v];
  }

  // Zero bits after the last pair, so that the 12-bit look-ahead stays inside.
  function Padding(B: nat): nat {
    if B > 10 then 0 else 10 - B
  }

  // The room reserved for n pairs in k rows, in words.
  function SafePairLength(k: nat, n: nat, B: nat): nat {
    var ybits := n * (1 + B) + Shr(k, B);
    var xbits := 12 * n;
    (xbits + ybits + Padding(B) + 31) / 32
  }

  // The room is the least number of words that hold twelve bits, a stop bit and the
  // base bits for each pair, a zero for each of the shifted rows, and what is missing
  // to ten bits after the last base bits.
  lemma RoomIsLeast(k: nat, n: nat, B: nat, words: nat)
    ensures SafePairLength(k, n, B) <= words <==>
      (12 + 1 + B) * n + Shr(k, B) + (if B < 10 then 10 - B else 0) <= 32 * words
  {
    assert (12 + 1 + B) * n == 12 * n + n * (1 + B);
  }

  // Any prefix of the pairs, and the padding, fits the room reserved.
  lemma PrefixFits(enc: seq<nat>, B: nat, pairs: seq<nat>, i: nat, k: nat)
    requires GoodCode(enc) && |enc| == 65 && i <= |pairs| && Chain(pairs[..i], 0, 0)
    requires forall j :: 0 <= j < |pairs| ==> Row(pairs[j]) < k
    ensures |EncodePairs(enc, B, pairs[..i], 0, 0)| + Padding(B) <= 32 * SafePairLength(k, |pairs|, B)
  {
    hide Shr, CodeLen, CodeVal, Matches, Pow2, EncodePairs, Row;
    EncodedPairsLength(enc, B, pairs[..i], 0, 0);
    if i > 0 {
      assert LastRow(pairs[..i], 0) == Row(pairs[i - 1]);
      ShrMonotone(LastRow(pairs[..i], 0), k, B);
    } else {
      ShrMonotone(0, k, B);
    }
    MulMonotone(i, |pairs|, 13 + B);
    assert |pairs| * (13 + B) == 12 * |pairs| + |pairs| * (1 + B);
  }

  lemma MulMonotone(x: nat, y: nat, b: nat)
    requires x <= y
    ensures x * b <= y * b
  {
  }

  // Compresses pairs with rows below k. It fails exactly when the pairs are not
  // strictly increasing, and never writes outside the room reserved.
  method CompressPairs(pairs: seq<nat>, enc: seq<nat>, B: nat, ghost k: nat, words: array<Word>)
    returns (r: Result<nat>)
    requires GoodCode(enc) && |enc| == 65 && B <= 26
    requires forall j :: 0 <= j < |pairs| ==> Row(pairs[j]) < k
    requires SafePairLength(k, |pairs|, B) <= words.Length
    modifies words
    ensures r.Success? <==> Increasing(pairs)
    ensures r.Success? ==> Chain(pairs, 0, 0) && r.value <= SafePairLength(k, |pairs|, B)
    ensures r.Success? ==>
      var e := EncodePairs(enc, B, pairs, 0, 0);
      |e| + Padding(B) <= 32 * r.value && WordBits(words[..r.value]) == e + Zeros(32 * r.value - |e|)
  {
    hide BitsOf, Pow2, Shr, Low, CodeVal, CodeLen, Matches, EncodePairs, EncodePair, Row, Col, Unary, Wrote,
         SafePairLength;
    var bitbuf: nat, bufbits: nat, wi: nat := 0, 0, 0;
    var predictedRow: nat, predictedCol: nat := 0, 0;
    StartWriting(enc, B, words);
    for i := 0 to |pairs|
      invariant bufbits < 32 && Chain(pairs[..i], 0, 0) && Increasing(pairs[..i])
      invariant predictedRow == LastRow(pairs[..i], 0) && predictedCol == LastCol(pairs[..i], 0)
      invariant Wrote(words, wi, bitbuf, bufbits, EncodePairs(enc, B, pairs[..i], 0, 0))
    {
      var rc := pairs[i];
      assert pairs[..i + 1] == pairs[..i] + [rc];
      var expected := Expected(rc, predictedRow, predictedCol);
      FirstOrGreater(pairs, i);
      if Row(rc) < predictedRow || Col(rc) < expected {
        return Failure("pairs are not in order");
      }
      EncodePairsAppend(enc, B, pairs[..i], rc, 0, 0);
      PrefixFits(enc, B, pairs, i + 1, k);
      ghost var stream := EncodePairs(enc, B, pairs[..i], 0, 0);
      wi, bitbuf, bufbits := WritePair(words, wi, bitbuf, bufbits, enc, B, rc, predictedRow, predictedCol, stream);
      predictedRow, predictedCol := Row(rc), Col(rc) + 1;
    }
    assert pairs[..|pairs|] == pairs;
    PrefixFits(enc, B, pairs, |pairs|, k);
    ghost var e := EncodePairs(enc, B, pairs, 0, 0);
    wi, bitbuf, bufbits := EmitZeros(words, wi, bitbuf, bufbits, Padding(B), e);
    var n := FinalFlush(words, wi, bitbuf, bufbits, e + Zeros(Padding(B)));
    assert WordBits(words[..n]) == e + Zeros(32 * n - |e|);
    r := Success(n);
  }

  lemma StartWriting(enc: seq<nat>, B: nat, words: array<Word>)
    requires |enc| == 65
    ensures Wrote(words, 0, 0, 0, EncodePairs(enc, B, [], 0, 0))
  {
  }

  // The order check on one more pair.
  lemma FirstOrGreater(pairs: seq<nat>, i: nat)
    requires i < |pairs| && Increasing(pairs[..i])
    ensures Follows(pairs[i], LastRow(pairs[..i], 0), LastCol(pairs[..i], 0)) <==> Increasing(pairs[..i + 1])
  {
  }

  method WritePair(words: array<Word>, wi0: nat, bitbuf0: nat, bufbits0: nat,
                   enc: seq<nat>, B: nat, rc: nat, pr: nat, pc: nat, ghost stream: seq<bool>)
    returns (wi: nat, bitbuf: nat, bufbits: nat)
    requires GoodCode(enc) && |enc| == 65 && B <= 26 && Follows(rc, pr, pc) && bufbits0 < 32
    requires Wrote(words, wi0, bitbuf0, bufbits0, stream)
    requires |stream + EncodePair(enc, B, rc, pr, pc)| <= 32 * words.Length
    modifies words
    ensures Wrote(words, wi, bitbuf, bufbits, stream + EncodePair(enc, B, rc, pr, pc)) && bufbits < 32
  {
    hide BitsOf, Pow2, Shr, Low, CodeVal, CodeLen, Matches, Wrote, Unary, Row, Col;
    var xDelta := Col(rc) - Expected(rc, pr, pc);
    var yDelta := Row(rc) - pr;
    ColFits(rc);
    var e := enc[xDelta];
    wi, bitbuf, bufbits := Emit(words, wi0, bitbuf0, bufbits0, CodeVal(e), CodeLen(e), stream);
    ghost var s1 := stream + Codeword(e);
    wi, bitbuf, bufbits := WriteUnary(words, wi, bitbuf, bufbits, Shr(yDelta, B), s1);
    ghost var s2 := s1 + Unary(Shr(yDelta, B));
    LowSmall(yDelta, B);
    wi, bitbuf, bufbits := Emit(words, wi, bitbuf, bufbits, Low(yDelta, B), B, s2);
    assert s2 + BitsOf(Low(yDelta, B), B) == stream + EncodePair(enc, B, rc, pr, pc);
  }

  lemma ColFits(rc: nat)
    ensures Col(rc) < 64
  {
  }

  // Reads one pair. At least Padding(B) bits follow it, which covers the 12-bit,
  // 8-bit and B-bit look-aheads.
  method ReadPair(words: seq<Word>, wi0: nat, bitbuf0: nat, bufbits0: nat, table: array<nat>,
                  B: nat, pr: nat, pc: nat, ghost enc: seq<nat>, ghost rc: nat, ghost tail: seq<bool>)
    returns (wi: nat, bitbuf: nat, bufbits: nat, row: nat, col: nat)
    requires GoodCode(enc) && |enc| == 65 && table.Length == 4096 && Decodes(enc, table[..])
    requires B <= 26 && Follows(rc, pr, pc) && Padding(B) <= |tail| && bufbits0 < 64
    requires Reads(words, wi0, bitbuf0, bufbits0, EncodePair(enc, B, rc, pr, pc) + tail)
    ensures Reads(words, wi, bitbuf, bufbits, tail) && bufbits < 64
    ensures row == Row(rc) && col == Col(rc)
  {
    hide Reads, BitsOf, Pow2, Low, Shr, CodeVal, CodeLen, Matches, Decodes, Row, Col, Or, Shl, Unary;
    ghost var x, y := Col(rc) - Expected(rc, pr, pc), Row(rc) - pr;
    ColFits(rc);
    ghost var code := Codeword(enc[x]);
    ghost var lo := BitsOf(Low(y, B), B);
    ghost var rest := EncodePair(enc, B, rc, pr, pc) + tail;
    assert rest == code + (Unary(Shr(y, B)) + (lo + tail));
    wi, bitbuf, bufbits := MaybeFill(words, wi0, bitbuf0, bufbits0, 12, rest);
    var peek12 := Low(bitbuf, 12);
    PeekFits(bitbuf);
    HeadSymbol(enc, table[..], x, rest, peek12);
    var lookup := table[peek12];
    var xDelta := Low(lookup, 8);
    ReadsDrop(words, wi, bitbuf, bufbits, rest, Shr(lookup, 8));
    assert rest[|code|..] == Unary(Shr(y, B)) + (lo + tail);
    bitbuf, bufbits := Shr(bitbuf, Shr(lookup, 8)), bufbits - Shr(lookup, 8);

    var golombHi;
    wi, bitbuf, bufbits, golombHi := ReadUnary(words, wi, bitbuf, bufbits, Shr(y, B), lo + tail);
    wi, bitbuf, bufbits := MaybeFill(words, wi, bitbuf, bufbits, B, lo + tail);
    var golombLo := Low(bitbuf, B);
    SameBaseBits(bitbuf, y, B);
    ReadsDrop(words, wi, bitbuf, bufbits, lo + tail, B);
    assert (lo + tail)[B..] == tail;
    bitbuf, bufbits := Shr(bitbuf, B), bufbits - B;
    var yDelta := Or(Shl(golombHi, B), golombLo);
    HighLow(y, B);
    row := pr + yDelta;
    col := (if yDelta > 0 then 0 else pc) + xDelta;
  }

  lemma SameBaseBits(bitbuf: nat, y: nat, B: nat)
    requires BitsOf(Low(bitbuf, B), B) == BitsOf(Low(y, B), B)
    ensures Low(bitbuf, B) == Low(y, B)
  {
    hide BitsOf, Low, Pow2;
    LowSmall(bitbuf, B);
    LowSmall(y, B);
    BitsDetermine(Low(bitbuf, B), Low(y, B), B);
  }

  lemma HighLow(y: nat, n: nat)
    ensures Or(Shl(Shr(y, n), n), Low(y, n)) == y
  {
  }

  // Uncompresses pairs into an array, given words that hold their encoding.
  method UncompressPairs(out: array<nat>, table: array<nat>, B: nat, words: seq<Word>,
                         ghost enc: seq<nat>, ghost pairs: seq<nat>, ghost padding: seq<bool>)
    requires GoodCode(enc) && |enc| == 65 && table.Length == 4096 && Decodes(enc, table[..]) && out != table
    requires B <= 26 && Chain(pairs, 0, 0) && out.Length == |pairs| && Padding(B) <= |padding|
    requires forall i :: 0 <= i < |pairs| ==> pairs[i] < 0x1_0000_0000
    requires WordBits(words) == EncodePairs(enc, B, pairs, 0, 0) + padding
    modifies out
    ensures out[..] == pairs
  {
    hide BitsOf, Pow2, Low, Shr, CodeVal, CodeLen, Matches, Decodes, Row, Col, Or, Shl, EncodePair, Follows, Reads,
         ToWord;
    var bitbuf: nat, bufbits: nat, wi: nat := 0, 0, 0;
    var predictedRow: nat, predictedCol: nat := 0, 0;
    StartReading(words);
    for i := 0 to out.Length
      invariant bufbits < 64 && Chain(pairs[i..], predictedRow, predictedCol) && out[..i] == pairs[..i]
      invariant Reads(words, wi, bitbuf, bufbits, EncodePairs(enc, B, pairs[i..], predictedRow, predictedCol) + padding)
    {
      ghost var rc := pairs[i];
      ghost var later := pairs[i + 1..];
      assert pairs[i..][1..] == later && pairs[i..][0] == rc;
      ghost var tail := EncodePairs(enc, B, later, Row(rc), Col(rc) + 1) + padding;
      assert EncodePairs(enc, B, pairs[i..], predictedRow, predictedCol) + padding
          == EncodePair(enc, B, rc, predictedRow, predictedCol) + tail;
      var row, col;
      wi, bitbuf, bufbits, row, col :=
        ReadPair(words, wi, bitbuf, bufbits, table, B, predictedRow, predictedCol, enc, rc, tail);
      Rebuild(rc);
      out[i] := ToWord(Or(Shl(row, 6), col));
      predictedRow, predictedCol := row, col + 1;
    }
  }

  lemma StartReading(words: seq<Word>)
    ensures Reads(words, 0, 0, 0, WordBits(words))
  {
  }

  lemma Rebuild(rc: nat)
    requires rc < 0x1_0000_0000
    ensures ToWord(Or(Shl(Row(rc), 6), Col(rc))) == rc
  {
    WordFits(rc);
    SixBits(Row(rc), Col(rc));
    hide Bit, ToWord, Or, Shl, Pow2;
    HighBits(rc, 32);
    SameBits(ToWord(rc), rc);
  }

  // Compressing and uncompressing gives back every strictly increasing list of
  // 32-bit pairs, for every number of base bits up to 26.
  method RoundTripPairs(pairs: seq<nat>, enc: seq<nat>, B: nat, k: nat) returns (out: array<nat>)
    requires GoodCode(enc) && |enc| == 65 && B <= 26 && Increasing(pairs)
    requires forall i :: 0 <= i < |pairs| ==> Row(pairs[i]) < k && pairs[i] < 0x1_0000_0000
    ensures fresh(out) && out[..] == pairs
  {
    hide EncodePairs, Decodes, GoodCode, SafePairLength, Chain, Row;
    var words := new Word[SafePairLength(k, |pairs|, B)];
    var r := CompressPairs(pairs, enc, B, k, words);
    var table := MakeDecodingTable(enc);
    out := new nat[|pairs|];
    ghost var e := EncodePairs(enc, B, pairs, 0, 0);
    UncompressPairs(out, table, B, words[..r.value], enc, pairs, Zeros(32 * r.value - |e|));
  }

  // Base bits from the mean row distance of count items in k places.
  function FloorLog2(x: nat): nat
    requires 1 <= x
  {
    if x == 1 then 0 else 1 + FloorLog2(x / 2)
  }

  function GolombBaseBits(k: nat, count: nat): nat
    requires 1 <= count <= k
  {
    var quotient := (k - count) / count;
    if quotient == 0 then 0 else FloorLog2(quotient)
  }

  lemma {:induction false} LogBetween(x: nat)
    requires 1 <= x
    ensures Pow2(FloorLog2(x)) <= x < Pow2(FloorLog2(x) + 1)
  {
    if x > 1 {
      LogBetween(x / 2);
    }
  }

  // The base bits are the largest that keep count items within the remaining places,
  // so that the mean unary part is between one and two.
  lemma BaseBitsMean(k: nat, count: nat)
    requires 1 <= count <= k
    ensures var B := GolombBaseBits(k, count);
      if count <= k - count then Pow2(B) * count <= k - count < Pow2(B + 1) * count else B == 0
  {
    if count <= k - count {
      QuotientPositive(k - count, count);
      var q := (k - count) / count;
      LogBetween(q);
      Bracket(Pow2(FloorLog2(q)), q, Pow2(FloorLog2(q) + 1), k - count, count);
    } else {
      assert (k - count) / count == 0;
    }
  }

  lemma QuotientPositive(x: nat, count: nat)
    requires 1 <= count <= x
    ensures 1 <= x / count
  {
  }

  lemma Bracket(low: nat, q: nat, high: nat, x: nat, count: nat)
    requires 1 <= count && q == x / count && low <= q < high
    ensures low * count <= x < high * count
  {
    Split(x, count);
    ScaleUp(low, q, count);
    ScaleUp(q + 1, high, count);
    Commute(q, count);
    assert (q + 1) * count == q * count + count;
  }

  lemma ScaleUp(x: nat, y: nat, count: nat)
    requires x <= y
    ensures x * count <= y * count
  {
  }

  // With k at most 2^26 rows, the base bits never exceed 26.
  lemma BaseBitsFit(k: nat, count: nat)
    requires 1 <= count && 1 <= k <= Pow2(26)
    ensures GolombBaseBits(k + count, count) <= 26
  {
    hide Pow2;
    QuotientFits(k, count);
    if k / count != 0 {
      LogFits(k / count, 26);
    }
  }

  lemma QuotientFits(k: nat, count: nat)
    requires 1 <= count
    ensures k / count <= k
  {
  }

  lemma {:induction false} LogFits(x: nat, n: nat)
    requires 1 <= x <= Pow2(n)
    ensures FloorLog2(x) <= n
  {
    if x > 1 {
      LogFits(x / 2, n - 1);
    }
  }
}
