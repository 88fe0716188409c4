// A two-dimensional array of fSize-bit entries packed without gaps into bytes.
// Entry (bucket, entry) occupies fSize consecutive bits, the most significant
// first, and may straddle up to five bytes.
module BitArray {
  import opened Bits
  import opened Wrappers

  // Bit t of a byte string, counted from the most significant bit of byte 0.
  predicate BitAt(s: seq<Byte>, t: nat)
    requires t < 8 * |s|
  {
    Bit(s[t / 8], 7 - t % 8)
  }

  // The number written by the n bits of s from position t on.
  function Number(s: seq<Byte>, t: nat, n: nat): (r: nat)
    requires t + n <= 8 * |s|
    ensures forall k: nat :: Bit(r, k) <==> k < n && BitAt(s, t + n - 1 - k)
  {
    AllZero();
    if n == 0 then 0 else 2 * Number(s, t, n - 1) + (if BitAt(s, t + n - 1) then 1 else 0)
  }

  // Reading n + m bits is reading n bits, shifting and OR-ing m more.
  lemma Join(s: seq<Byte>, t: nat, n: nat, m: nat)
    requires t + n + m <= 8 * |s|
    ensures Number(s, t, n + m) == Or(Shl(Number(s, t, n), m), Number(s, t + n, m))
  {
  }

  // Bits that lie within one byte.
  lemma WithinByte(s: seq<Byte>, i: nat, onset: nat, n: nat)
    requires i < |s| && onset + n <= 8
    ensures Number(s, 8 * i + onset, n) == Low(Shr(s[i], 8 - onset - n), n)
    ensures onset == 0 ==> Number(s, 8 * i, n) == Shr(s[i], 8 - n)
    ensures onset + n == 8 ==> Number(s, 8 * i + onset, n) == Low(s[i], n)
    ensures n == 8 ==> Number(s, 8 * i, 8) == s[i]
  {
    hide Bit, Shr, Low, Number;
    var v := Number(s, 8 * i + onset, n);
    ByteBits(s[i]);
    SameBits(v, Low(Shr(s[i], 8 - onset - n), n));
    if onset == 0 { SameBits(v, Shr(s[i], 8 - n)); }
    if onset + n == 8 { SameBits(v, Low(s[i], n)); }
    if n == 8 { SameBits(v, s[i]); }
  }

  // Shifting a number within the width of its type loses nothing.
  lemma ShiftFits(s: seq<Byte>, t: nat, n: nat, m: nat, w: nat)
    requires t + n <= 8 * |s| && n + m <= w
    ensures Low(Shl(Number(s, t, n), m), w) == Shl(Number(s, t, n), m)
  {
    hide *;
    SameBits(Low(Shl(Number(s, t, n), m), w), Shl(Number(s, t, n), m));
  }

  // Byte i of f, byte 0 being the least significant.
  function FByte(f: nat, i: nat): (r: Byte)
    ensures forall k: nat :: Bit(r, k) <==> k < 8 && Bit(f, k + 8 * i)
  {
    ToByte(Shr(f, 8 * i))
  }

  // The number of bytes that hold n bits.
  function Bytes(n: nat): nat {
    (n + 7) / 8
  }

  // The next eight unconsumed bits of an fSize-bit fingerprint whose bytes are
  // given most significant first; fewer remaining bits are left-aligned.
  function NextFByte(f: seq<Byte>, fSize: nat, cons: nat): Byte
    requires cons < fSize && |f| == Bytes(fSize)
  {
    var r := fSize - cons;
    var left := r % 8;
    if r < 8 then ToByte(Shl(f[0], 8 - r))
    else
      var i := |f| - r / 8 - (if left != 0 then 1 else 0);
      if left == 0 then f[i]
      else ToByte(Or(ToByte(Shl(f[i], 8 - left)), Shr(f[i + 1], left)))
  }

  // The bytes of f, most significant first.
  ghost predicate BytesOf(fs: seq<Byte>, f: nat, fSize: nat) {
    |fs| == Bytes(fSize) && forall i :: 0 <= i < |fs| ==> fs[i] == FByte(f, |fs| - 1 - i)
  }

  // The byte holds the next eight bits of f after cons ones, left-aligned.
  ghost predicate NextBits(byte: Byte, f: nat, fSize: nat, cons: nat) {
    forall k: nat :: Bit(byte, k) <==> k < 8 && 0 <= fSize - cons - 8 + k && Bit(f, fSize - cons - 8 + k)
  }

  // Eight bits remain, or the fingerprint fits a single byte.
  predicate Readable(fSize: nat, cons: nat) {
    8 <= fSize - cons || fSize <= 8
  }

  // The three shapes of the next byte: a short fingerprint, a whole byte of the
  // fingerprint, and parts of two.
  lemma ShortBits(f: nat, fSize: nat, cons: nat)
    requires cons < fSize <= 8 && fSize - cons < 8
    ensures NextBits(ToByte(Shl(FByte(f, 0), 8 - (fSize - cons))), f, fSize, cons)
  {
    hide Bit, Shl, Shr, ToByte, FByte;
  }

  lemma AlignedBits(f: nat, i: nat, fSize: nat, cons: nat)
    requires fSize - cons == 8 * i + 8
    ensures NextBits(FByte(f, i), f, fSize, cons)
  {
    hide Bit, Shl, Shr, ToByte, FByte;
  }

  lemma StraddlingBits(f: nat, i: nat, left: nat, fSize: nat, cons: nat)
    requires 0 < left < 8 && fSize - cons == 8 * i + 8 + left
    ensures NextBits(ToByte(Or(ToByte(Shl(FByte(f, i + 1), 8 - left)), Shr(FByte(f, i), left))), f, fSize, cons)
  {
    hide Bit, Shl, Shr, Or, ToByte, FByte;
  }

  lemma NextFByteBits(fs: seq<Byte>, f: nat, fSize: nat, cons: nat)
    requires BytesOf(fs, f, fSize) && cons < fSize && Readable(fSize, cons)
    ensures NextBits(NextFByte(fs, fSize, cons), f, fSize, cons)
  {
    hide NextBits, Bit, Shl, Shr, Low, Or, ToByte, FByte;
    var r := fSize - cons;
    var q, left := r / 8, r % 8;
    assert r == 8 * q + left;
    if r < 8 {
      ShortBits(f, fSize, cons);
    } else if left == 0 {
      AlignedBits(f, q - 1, fSize, cons);
    } else {
      StraddlingBits(f, q - 1, left, fSize, cons);
    }
  }

  // With fewer bits left of a longer fingerprint the first byte is taken instead
  // of the last, which is wrong for a fingerprint of one.
  lemma NextFByteExact(fSize: nat, cons: nat)
    requires cons < fSize
    ensures Readable(fSize, cons) <==>
      forall fs: seq<Byte>, f: nat :: BytesOf(fs, f, fSize) ==> NextBits(NextFByte(fs, fSize, cons), f, fSize, cons)
  {
    if Readable(fSize, cons) {
      forall fs: seq<Byte>, f: nat | BytesOf(fs, f, fSize)
        ensures NextBits(NextFByte(fs, fSize, cons), f, fSize, cons)
      {
        NextFByteBits(fs, f, fSize, cons);
      }
    } else {
      NextFByteWrong(fSize, cons);
    }
  }

  lemma NextFByteWrong(fSize: nat, cons: nat)
    requires cons < fSize && !Readable(fSize, cons)
    ensures exists fs: seq<Byte>, f: nat ::
      BytesOf(fs, f, fSize) && !NextBits(NextFByte(fs, fSize, cons), f, fSize, cons)
  {
    hide Bit, Shl, Shr, ToByte, FByte;
    var n, r := Bytes(fSize), fSize - cons;
    var fs := seq(n, i requires 0 <= i < n => FByte(1, n - 1 - i));
    WrongBit(n - 1, r);
    assert NextFByte(fs, fSize, cons) == ToByte(Shl(FByte(1, n - 1), 8 - r));
    assert Bit(1, fSize - cons - 8 + (8 - r));
    assert BytesOf(fs, 1, fSize);
  }

  lemma WrongBit(m: nat, r: nat)
    requires 1 <= m && 0 < r < 8
    ensures !Bit(ToByte(Shl(FByte(1, m), 8 - r)), 8 - r) && Bit(1, 0)
  {
    AllZero();
    assert Bit(1, 0) && !Bit(1, 8 * m);
    hide Bit, Shl, Shr, ToByte, FByte;
    assert !Bit(FByte(1, m), 0);
  }

  lemma MulMono(a: nat, x: nat, y: nat)
    requires x <= y
    ensures a * x <= a * y
  {
  }

  function Update(g: seq<seq<nat>>, b: nat, c: nat, f: nat): seq<seq<nat>>
    requires b < |g| && c < |g[b]|
  {
    var row: seq<nat> := g[b][c := f];
    g[b := row]
  }

  // The shape of a table: entry width, entries per bucket, buckets.
  datatype Shape = Shape(fSize: nat, bSize: nat, nBuckets: nat) {
    predicate Buildable() {
      1 <= fSize <= 32 && 1 <= bSize && 1 <= nBuckets
    }

    function Size(): nat {
      fSize * bSize * nBuckets
    }

    // The position of the first bit of an entry.
    function Start(b: nat, c: nat): nat {
      fSize * bSize * b + fSize * c
    }

    lemma RowEnd(b: nat, c: nat)
      requires c < bSize
      ensures fSize * bSize * b <= Start(b, c) && Start(b, c) + fSize <= fSize * bSize * (b + 1)
    {
      var row := fSize * bSize;
      MulMono(fSize, 0, c);
      MulMono(fSize, c + 1, bSize);
      assert row * (b + 1) == row * b + row;
      assert fSize * (c + 1) == fSize * c + fSize;
    }

    lemma StartFits(b: nat, c: nat)
      requires b < nBuckets && c < bSize
      ensures Start(b, c) + fSize <= Size()
    {
      RowEnd(b, c);
      MulMono(fSize * bSize, b + 1, nBuckets);
    }

    // Entries follow each other without gaps, bucket after bucket, to the end.
    lemma PackedInOrder(b: nat, c: nat)
      requires 1 <= bSize
      ensures Start(0, 0) == 0 && Start(nBuckets, 0) == Size()
      ensures Start(b, c + 1) == Start(b, c) + fSize
      ensures Start(b + 1, 0) == Start(b, bSize - 1) + fSize
    {
      var row := fSize * bSize;
      assert row * (b + 1) == row * b + row;
      assert fSize * (c + 1) == fSize * c + fSize;
      assert fSize * bSize == fSize * (bSize - 1) + fSize;
    }

    // No two cells share a bit.
    lemma CellsDisjoint(b: nat, c: nat, b': nat, c': nat)
      requires b < nBuckets && c < bSize && b' < nBuckets && c' < bSize && (b, c) != (b', c')
      ensures Start(b, c) + fSize <= Start(b', c') || Start(b', c') + fSize <= Start(b, c)
    {
      RowEnd(b, c);
      RowEnd(b', c');
      if b < b' {
        MulMono(fSize * bSize, b + 1, b');
      } else if b' < b {
        MulMono(fSize * bSize, b' + 1, b);
      } else if c < c' {
        MulMono(fSize, c + 1, c');
        assert fSize * (c + 1) == fSize * c + fSize;
      } else {
        MulMono(fSize, c' + 1, c);
        assert fSize * (c' + 1) == fSize * c' + fSize;
      }
    }

    // The number stored in a cell, and the table as a sequence of rows.
    function Cell(s: seq<Byte>, b: nat, c: nat): nat
      requires Size() <= 8 * |s| && b < nBuckets && c < bSize
    {
      StartFits(b, c);
      Number(s, Start(b, c), fSize)
    }

    function Rows(s: seq<Byte>): (g: seq<seq<nat>>)
      requires Size() <= 8 * |s|
      ensures |g| == nBuckets && forall b :: 0 <= b < nBuckets ==> |g[b]| == bSize
      ensures forall b, c :: 0 <= b < nBuckets && 0 <= c < bSize ==> g[b][c] == Cell(s, b, c)
    {
      seq(nBuckets, b requires 0 <= b < nBuckets => seq(bSize, c requires 0 <= c < bSize => Cell(s, b, c)))
    }

    // Writing an entry's bits updates that cell of the table and no other.
    lemma WrittenRows(was: seq<Byte>, now: seq<Byte>, b: nat, c: nat, f: nat)
      requires Size() <= 8 * |was| && b < nBuckets && c < bSize && f < Pow2(fSize)
      requires Written(was, now, Start(b, c), fSize, f)
      ensures Rows(now) == Update(Rows(was), b, c, f)
    {
      hide Start, Size, Number, Patched, Pow2;
      StartFits(b, c);
      WrittenNumber(was, now, Start(b, c), fSize, f);
      forall b', c' | 0 <= b' < nBuckets && 0 <= c' < bSize && (b', c') != (b, c)
        ensures Cell(now, b', c') == Cell(was, b', c')
      {
        StartFits(b', c');
        CellsDisjoint(b, c, b', c');
        UnwrittenNumber(was, now, Start(b, c), fSize, f, Start(b', c'), fSize);
      }
      var u := Update(Rows(was), b, c, f);
      assert forall b' :: 0 <= b' < nBuckets ==> Rows(now)[b'] == u[b'];
    }

    lemma ZeroRows(s: seq<Byte>)
      requires Size() <= 8 * |s| && forall i :: 0 <= i < |s| ==> s[i] == 0
      ensures Rows(s) == seq(nBuckets, b => seq(bSize, c => 0))
    {
      hide Start, Size, Number;
      forall b, c | 0 <= b < nBuckets && 0 <= c < bSize ensures Cell(s, b, c) == 0 {
        StartFits(b, c);
        ZeroNumber(s, Start(b, c), fSize);
      }
      assert forall b :: 0 <= b < nBuckets ==> Rows(s)[b] == seq(bSize, c => 0);
    }
  }

  lemma ZeroNumber(s: seq<Byte>, t: nat, n: nat)
    requires t + n <= 8 * |s| && forall i :: 0 <= i < |s| ==> s[i] == 0
    ensures Number(s, t, n) == 0
  {
    hide Bit, Number;
    AllZero();
    SameBits(Number(s, t, n), 0);
  }

  class Compact2DBitArray {
    const shape: Shape
    var store: array<Byte>

    ghost predicate Valid()
      reads this
    {
      shape.Buildable() && shape.Size() <= 8 * store.Length
    }

    ghost function Grid(): seq<seq<nat>>
      requires Valid()
      reads this, store
    {
      shape.Rows(store[..])
    }

    // The guards are exceptions of the source's constructor.
    constructor (shape: Shape)
      requires shape.Buildable()
      ensures Valid() && fresh(store) && this.shape == shape
      ensures 8 * (store.Length - 1) < shape.Size() <= 8 * store.Length
      ensures Grid() == seq(shape.nBuckets, b => seq(shape.bSize, c => 0))
    {
      this.shape := shape;
      store := new Byte[(shape.Size() + 7) / 8](i => 0);
      new;
      shape.ZeroRows(store[..]);
    }

    method GetEntry(b: nat, c: nat) returns (r: Result<nat>)
      requires Valid()
      ensures r.Success? <==> b < shape.nBuckets && c < shape.bSize
      ensures r.Success? ==> r.value == Grid()[b][c] && r.value < Pow2(shape.fSize)
    {
      if shape.nBuckets <= b || shape.bSize <= c {
        return Failure("no such entry");
      }
      shape.StartFits(b, c);
      var v := Read(store, shape.Start(b, c), shape.fSize);
      return Success(v);
    }

    method SetEntry(b: nat, c: nat, f: nat) returns (r: Result<()>)
      requires Valid() && f < Pow2(shape.fSize)
      modifies store
      ensures Valid()
      ensures r.Success? <==> b < shape.nBuckets && c < shape.bSize
      ensures r.Failure? ==> Grid() == old(Grid())
      ensures r.Success? ==> Grid() == Update(old(Grid()), b, c, f)
    {
      if shape.nBuckets <= b || shape.bSize <= c {
        return Failure("no such entry");
      }
      shape.StartFits(b, c);
      Write(store, shape.Start(b, c), shape.fSize, f);
      shape.WrittenRows(old(store[..]), store[..], b, c, f);
      return Success(());
    }
  }

  // Byte i after the low w bits of f are written at position e.
  ghost predicate Patched(byte: Byte, was: Byte, e: nat, w: nat, f: nat, i: nat) {
    forall k: nat :: k < 8 ==>
      (Bit(byte, k) <==> if e <= 8 * i + 7 - k < e + w then Bit(f, e + w - 8 - 8 * i + k) else Bit(was, k))
  }

  ghost predicate Written(was: seq<Byte>, now: seq<Byte>, e: nat, w: nat, f: nat) {
    |now| == |was| && forall i :: 0 <= i < |was| ==> Patched(now[i], was[i], e, w, f, i)
  }

  lemma WrittenNumber(was: seq<Byte>, now: seq<Byte>, e: nat, w: nat, f: nat)
    requires e + w <= 8 * |was| && Written(was, now, e, w, f) && f < Pow2(w)
    ensures Number(now, e, w) == f
  {
    hide Bit, Number, Pow2;
    HighBits(f, w);
    forall k: nat ensures Bit(Number(now, e, w), k) <==> Bit(f, k) {
      if k < w {
        var t := e + w - 1 - k;
        assert Patched(now[t / 8], was[t / 8], e, w, f, t / 8);
        assert e + w - 8 - 8 * (t / 8) + (7 - t % 8) == k;
      }
    }
    SameBits(Number(now, e, w), f);
  }

  lemma UnwrittenNumber(was: seq<Byte>, now: seq<Byte>, e: nat, w: nat, f: nat, t: nat, n: nat)
    requires Written(was, now, e, w, f) && t + n <= 8 * |was|
    requires e + w <= t || t + n <= e
    ensures Number(now, t, n) == Number(was, t, n)
  {
  }

  // The first byte's share of a straddling entry, then whole bytes up to lst.
  method ReadPrefix(store: array<Byte>, e: nat, lst: nat) returns (entry: nat)
    requires e / 8 < lst <= store.Length && 8 * lst < e + 32
    ensures entry == Number(store[..], e, 8 * lst - e)
  {
    hide *;
    var fst, onset := e / 8, e % 8;
    ghost var s := store[..];
    WithinByte(s, fst, onset, 8 - onset);
    entry := Low(store[fst], 8 - onset);
    var ii := 1;
    while ii < lst - fst
      invariant 1 <= ii <= lst - fst
      invariant entry == Number(s, e, 8 * ii - onset)
    {
      var n := 8 * ii - onset;
      assert e + n == 8 * (fst + ii);
      WithinByte(s, fst + ii, 0, 8);
      Join(s, e, n, 8);
      ShiftFits(s, e, n, 8, 32);
      entry := Or(Low(Shl(entry, 8), 32), store[fst + ii]);
      ii := ii + 1;
    }
  }

  // The last byte's share of a straddling entry.
  lemma ReadLast(s: seq<Byte>, e: nat, fSize: nat, lst: nat, shift: nat)
    requires e + fSize <= 8 * |s| && fSize <= 32 && shift <= 8 && e <= 8 * lst && 8 * lst + shift == e + fSize
    requires lst < |s|
    ensures Number(s, e, fSize) == Or(Low(Shl(Number(s, e, 8 * lst - e), shift), 32), Shr(s[lst], 8 - shift))
  {
    hide *;
    WithinByte(s, lst, 0, shift);
    Join(s, e, fSize - shift, shift);
    ShiftFits(s, e, fSize - shift, shift, 32);
  }

  method Read(store: array<Byte>, e: nat, fSize: nat) returns (v: nat)
    requires 1 <= fSize <= 32 && e + fSize <= 8 * store.Length
    ensures v == Number(store[..], e, fSize) && v < Pow2(fSize)
  {
    hide *;
    var fst, lst := e / 8, (e + fSize - 1) / 8;
    var onset, offset := e % 8, (e + fSize) % 8;
    ghost var s := store[..];
    if fst < lst {
      var entry := ReadPrefix(store, e, lst);
      var shift := if offset != 0 then offset else 8;
      assert 8 * lst + shift == e + fSize;
      ReadLast(s, e, fSize, lst, shift);
      v := Or(Low(Shl(entry, shift), 32), Shr(store[lst], (8 - offset) % 8));
    } else {
      WithinByte(s, fst, onset, fSize);
      v := Low(Shr(store[fst], 8 - onset - fSize), fSize);
    }
    Fits(v, fSize);
  }

  // The four shapes of a written byte: an entry inside one byte, and the
  // first, middle and last byte of an entry that straddles several.
  lemma SingleByte(was: Byte, i: nat, onset: nat, w: nat, f: nat)
    requires 1 <= w && onset + w <= 8 && f < Pow2(w)
    ensures var high := ToByte(Shl(Shr(was, 8 - onset), 8 - onset));
      var mid := Shl(FByte(f, 0), 8 - onset - w);
      Patched(ToByte(Or(Or(high, mid), Low(was, 8 - onset - w))), was, 8 * i + onset, w, f, i)
  {
    hide Bit, Shl, Shr, Low, Or, Pow2;
    HighBits(f, w);
  }

  lemma FirstByte(fs: seq<Byte>, was: Byte, i: nat, onset: nat, w: nat, f: nat)
    requires BytesOf(fs, f, w) && onset < 8 < onset + w
    ensures var high := ToByte(Shl(Shr(was, 8 - onset), 8 - onset));
      Patched(ToByte(Or(Shr(NextFByte(fs, w, 0), onset), high)), was, 8 * i + onset, w, f, i)
  {
    hide Bit, Shl, Shr, Low, Or, NextFByte;
    NextFByteBits(fs, f, w, 0);
  }

  lemma MiddleByte(fs: seq<Byte>, was: Byte, fst: nat, onset: nat, ii: nat, w: nat, f: nat)
    requires BytesOf(fs, f, w) && onset < 8 && 1 <= ii && 8 * ii + 8 < onset + w
    ensures Patched(NextFByte(fs, w, 8 * ii - onset), was, 8 * fst + onset, w, f, fst + ii)
  {
    hide Bit, NextFByte;
    NextFByteBits(fs, f, w, 8 * ii - onset);
  }

  lemma LastByte(fs: seq<Byte>, was: Byte, lst: nat, e: nat, w: nat, f: nat)
    requires BytesOf(fs, f, w) && 1 <= w && e < 8 * lst < e + w <= 8 * lst + 8
    ensures var rem := e + w - 8 * lst;
      var own := ToByte(Shl(fs[|fs| - 1], 8 - rem));
      Patched(if rem == 8 then own else ToByte(Or(own, Low(was, 8 - rem))), was, e, w, f, lst)
  {
  }

  lemma Untouched(was: Byte, e: nat, w: nat, f: nat, i: nat)
    requires e + w <= 8 * i || 8 * i + 8 <= e
    ensures Patched(was, was, e, w, f, i)
  {
  }

  method FingerprintBytes(f: nat, fSize: nat) returns (fs: seq<Byte>)
    ensures BytesOf(fs, f, fSize)
  {
    hide FByte;
    fs := [];
    for ii := Bytes(fSize) downto 0
      invariant |fs| == Bytes(fSize) - ii
      invariant forall i :: 0 <= i < |fs| ==> fs[i] == FByte(f, Bytes(fSize) - 1 - i)
    {
      fs := fs + [FByte(f, ii)];
    }
  }

  // All bytes of a straddling entry but the last.
  method WritePrefix(store: array<Byte>, e: nat, lst: nat, fSize: nat, f: nat, fBytes: seq<Byte>) returns (cBits: nat)
    requires e / 8 < lst < store.Length && 8 * lst < e + fSize && BytesOf(fBytes, f, fSize)
    modifies store
    ensures cBits == 8 * lst - e
    ensures forall i :: 0 <= i < store.Length ==>
      if e / 8 <= i < lst then Patched(store[i], old(store[i]), e, fSize, f, i) else store[i] == old(store[i])
  {
    hide Bit, Shl, Shr, Low, Or, ToByte, FByte, NextFByte, Patched;
    var fst, onset := e / 8, e % 8;
    ghost var was := store[..];
    cBits := 0;
    var toWrite := Shr(NextFByte(fBytes, fSize, cBits), onset);
    var onsetP := ToByte(Shl(Shr(store[fst], 8 - onset), 8 - onset));
    FirstByte(fBytes, was[fst], fst, onset, fSize, f);
    store[fst] := ToByte(Or(toWrite, onsetP));
    cBits := cBits + 8 - onset;
    var ii := 1;
    while ii < lst - fst
      invariant 1 <= ii <= lst - fst && cBits == 8 * ii - onset
      invariant forall i :: fst <= i < fst + ii ==> Patched(store[i], was[i], e, fSize, f, i)
      invariant forall i :: 0 <= i < fst || fst + ii <= i < |was| ==> store[i] == was[i]
    {
      MiddleByte(fBytes, was[fst + ii], fst, onset, ii, fSize, f);
      store[fst + ii] := NextFByte(fBytes, fSize, cBits);
      cBits := cBits + 8;
      ii := ii + 1;
    }
  }

  // An entry inside one byte.
  method WriteWithin(store: array<Byte>, e: nat, fSize: nat, f: nat)
    requires 1 <= fSize && e % 8 + fSize <= 8 && e / 8 < store.Length && f < Pow2(fSize)
    modifies store
    ensures forall i :: 0 <= i < store.Length ==>
      if i == e / 8 then Patched(store[i], old(store[i]), e, fSize, f, i) else store[i] == old(store[i])
  {
    hide Bit, Pow2, Shl, Shr, Low, Or, ToByte, FByte, Patched;
    var fst, onset := e / 8, e % 8;
    SingleByte(store[fst], fst, onset, fSize, f);
    var fstP := ToByte(Shl(Shr(store[fst], 8 - onset), 8 - onset));
    var lstP := Low(store[fst], 8 - onset - fSize);
    store[fst] := ToByte(Or(Or(fstP, Shl(FByte(f, 0), 8 - onset - fSize)), lstP));
  }

  method Write(store: array<Byte>, e: nat, fSize: nat, f: nat)
    requires 1 <= fSize <= 32 && e + fSize <= 8 * store.Length && f < Pow2(fSize)
    modifies store
    ensures Written(old(store[..]), store[..], e, fSize, f)
  {
    hide Bit, Pow2, Shl, Shr, Low, Or, ToByte, FByte, NextFByte, Patched;
    var fst, lst := e / 8, (e + fSize - 1) / 8;
    var onset, offset := e % 8, (e + fSize) % 8;
    ghost var was := store[..];
    var fBytes := FingerprintBytes(f, fSize);
    if fst == lst {
      WriteWithin(store, e, fSize, f);
    } else {
      var cBits := WritePrefix(store, e, lst, fSize, f, fBytes);
      var last := ToByte(Shl(fBytes[|fBytes| - 1], 8 - (fSize - cBits)));
      if offset != 0 {
        last := ToByte(Or(last, Low(store[lst], 8 - offset)));
      }
      LastByte(fBytes, was[lst], lst, e, fSize, f);
      store[lst] := last;
    }
    forall i | 0 <= i < |was| && (i < fst || lst < i)
      ensures Patched(store[i], was[i], e, fSize, f, i)
    {
      Untouched(was[i], e, fSize, f, i);
    }
  }
}
