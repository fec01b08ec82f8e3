/** Packing of a column into Arrow buffers: validity bitmap, booleans, fixed-width values,
    128-bit decimals and text, per the Apache Arrow columnar format, section "Physical
    Memory Layout". Models src/export/arrow-writer.ts. */
module ArrowPack {

  import opened Wrappers

  // ----- Bitmaps -----

  function Mask(k: nat): bv8
    requires k < 8
  {
    1 << k
  }

  function BitAt(bits: seq<bv8>, i: nat): bool
    requires i < 8 * |bits|
  {
    bits[i / 8] & Mask(i % 8) != 0
  }

  lemma SetBit(b: bv8, k: nat, j: nat)
    requires k < 8 && j < 8
    ensures (b | Mask(k)) & Mask(j) != 0 <==> j == k || b & Mask(j) != 0
  {
    MaskValue(k);
    MaskValue(j);
  }

  lemma MaskValue(k: nat)
    requires k < 8
    ensures Mask(k) == [1 as bv8, 2, 4, 8, 16, 32, 64, 128][k]
  {
    if k == 0 {} else if k == 1 {} else if k == 2 {} else if k == 3 {}
    else if k == 4 {} else if k == 5 {} else if k == 6 {} else {}
  }

  /** Bits are numbered from the least significant one of the first byte. */
  lemma BitIs(bits: seq<bv8>, i: nat)
    requires i < 8 * |bits|
    ensures BitAt(bits, i) <==> bits[i / 8] & [1 as bv8, 2, 4, 8, 16, 32, 64, 128][i % 8] != 0
  {
    MaskValue(i % 8);
  }

  /** The bytes that hold so many bits, none of them spare. */
  function BytesFor(length: nat): (n: nat)
    ensures length <= 8 * n < length + 8
  {
    (length + 7) / 8
  }

  /** Bit i is set exactly when the i-th flag is, the bits past the end being clear. */
  ghost predicate Marks(bits: seq<bv8>, flags: seq<bool>) {
    && |bits| == BytesFor(|flags|)
    && forall i | 0 <= i < 8 * |bits| :: BitAt(bits, i) == (i < |flags| && flags[i])
  }

  /** Sets bit i of the array: bitmap[i >> 3] |= 1 << (i & 7). */
  method Raise(bits: array<bv8>, i: nat)
    requires i < 8 * bits.Length
    modifies bits
    ensures forall j | 0 <= j < 8 * bits.Length :: BitAt(bits[..], j) == (j == i || old(BitAt(bits[..], j)))
  {
    bits[i / 8] := bits[i / 8] | Mask(i % 8);
    forall j | 0 <= j < 8 * bits.Length ensures BitAt(bits[..], j) == (j == i || old(BitAt(bits[..], j))) {
      if j / 8 == i / 8 {
        SetBit(old(bits[i / 8]), i % 8, j % 8);
      }
    }
  }

  // ----- Validity -----

  function Nulls<T>(vector: seq<Option<T>>): nat {
    if vector == [] then 0
    else Nulls(vector[..|vector| - 1]) + if vector[|vector| - 1].None? then 1 else 0
  }

  function Present<T>(vector: seq<Option<T>>): seq<bool> {
    seq(|vector|, i requires 0 <= i < |vector| => vector[i].Some?)
  }

  lemma NullsStep<T>(vector: seq<Option<T>>, i: nat)
    requires i < |vector|
    ensures Nulls(vector[..i + 1]) == Nulls(vector[..i]) + if vector[i].None? then 1 else 0
  {
    assert vector[..i + 1][..i] == vector[..i];
  }

  /** As many nulls as places without value. */
  lemma {:induction false} NullsCount<T>(vector: seq<Option<T>>)
    ensures Nulls(vector) == |set i: nat | i < |vector| && vector[i].None?|
  {
    var places := set i: nat | i < |vector| && vector[i].None?;
    if vector != [] {
      var n := |vector| - 1;
      NullsCount(vector[..n]);
      var before := set i: nat | i < n && vector[..n][i].None?;
      assert places == before + if vector[n].None? then {n} else {};
    } else {
      assert places == {};
    }
  }

  /** The first n flags are in the bitmap, and nothing else. */
  ghost predicate MarksUpTo(bits: seq<bv8>, flags: seq<bool>, n: nat) {
    && |bits| == BytesFor(|flags|)
    && forall i | 0 <= i < 8 * |bits| :: BitAt(bits, i) == (i < n && i < |flags| && flags[i])
  }

  method RaiseNext(bits: array<bv8>, ghost flags: seq<bool>, i: nat)
    requires i < |flags| && flags[i] && MarksUpTo(bits[..], flags, i)
    modifies bits
    ensures MarksUpTo(bits[..], flags, i + 1)
  {
    Raise(bits, i);
  }

  /** One pass over the column: the bitmap of the values present, and the null count. */
  method ScanVector<T>(vector: seq<Option<T>>) returns (bitmap: seq<bv8>, nullCount: nat)
    ensures Marks(bitmap, Present(vector)) && nullCount == Nulls(vector)
    ensures |bitmap| == (|vector| + 7) / 8
    ensures forall i | 0 <= i < 8 * |bitmap| :: BitAt(bitmap, i) <==> i < |vector| && vector[i].Some?
    ensures nullCount == |set i: nat | i < |vector| && vector[i].None?|
  {
    NullsCount(vector);
    ghost var flags := Present(vector);
    var bits := new bv8[BytesFor(|vector|)](_ => 0);
    nullCount := 0;
    for i := 0 to |vector|
      invariant nullCount == Nulls(vector[..i])
      invariant MarksUpTo(bits[..], flags, i)
    {
      NullsStep(vector, i);
      if vector[i].None? {
        nullCount := nullCount + 1;
      } else {
        RaiseNext(bits, flags, i);
      }
    }
    assert vector[..|vector|] == vector;
    bitmap := bits[..];
  }

  /** Without null the bitmap is left out, and every value is present. */
  datatype Validity = Validity(length: nat, nullCount: nat, bitmap: Option<seq<bv8>>)

  function MakeValidity(length: nat, nullCount: nat, bitmap: seq<bv8>): Validity {
    Validity(length, nullCount, if nullCount > 0 then Some(bitmap) else None)
  }

  ghost predicate Describes<T>(v: Validity, vector: seq<Option<T>>) {
    && v.length == |vector| && v.nullCount == Nulls(vector)
    && (v.bitmap.Some? <==> v.nullCount > 0) && (v.bitmap.Some? ==> |v.bitmap.value| == BytesFor(v.length))
    && forall i | 0 <= i < |vector| :: (v.bitmap.None? || BitAt(v.bitmap.value, i)) == vector[i].Some?
  }

  lemma {:induction false} NoNulls<T>(vector: seq<Option<T>>)
    ensures Nulls(vector) == 0 <==> forall i | 0 <= i < |vector| :: vector[i].Some?
  {
    if vector != [] {
      NoNulls(vector[..|vector| - 1]);
      assert forall i | 0 <= i < |vector| - 1 :: vector[..|vector| - 1][i] == vector[i];
    }
  }

  lemma ValidityDescribes<T>(vector: seq<Option<T>>, bitmap: seq<bv8>)
    requires Marks(bitmap, Present(vector))
    ensures Describes(MakeValidity(|vector|, Nulls(vector), bitmap), vector)
  {
    NoNulls(vector);
    assert forall i | 0 <= i < |vector| :: Present(vector)[i] == vector[i].Some?;
  }

  // ----- Booleans and fixed-width values -----

  /** Bit i is set exactly when value i is true; a null leaves it clear. */
  method PackBools(vector: seq<Option<bool>>) returns (v: Validity, bits: seq<bv8>)
    ensures Describes(v, vector)
    ensures |bits| == BytesFor(|vector|) && forall i | 0 <= i < |vector| :: BitAt(bits, i) == (vector[i] == Some(true))
  {
    var data := new bv8[BytesFor(|vector|)](_ => 0);
    for i := 0 to |vector|
      invariant forall j | 0 <= j < 8 * data.Length :: BitAt(data[..], j) == (j < i && vector[j] == Some(true))
    {
      if vector[i] == Some(true) {
        Raise(data, i);
      }
    }
    var bitmap, nullCount := ScanVector(vector);
    ValidityDescribes(vector, bitmap);
    return MakeValidity(|vector|, nullCount, bitmap), data[..];
  }

  /** Each value at its index; the place of a null keeps the initial zero. */
  method PackFixed<T>(vector: seq<Option<T>>, zero: T) returns (v: Validity, values: seq<T>)
    ensures Describes(v, vector)
    ensures |values| == |vector|
            && forall i | 0 <= i < |vector| :: values[i] == if vector[i].Some? then vector[i].value else zero
  {
    var data := new T[|vector|](_ => zero);
    for i := 0 to |vector|
      invariant forall j | 0 <= j < |vector| :: data[j] == if j < i && vector[j].Some? then vector[j].value else zero
    {
      if vector[i].Some? {
        data[i] := vector[i].value;
      }
    }
    var bitmap, nullCount := ScanVector(vector);
    ValidityDescribes(vector, bitmap);
    return MakeValidity(|vector|, nullCount, bitmap), data[..];
  }

  /** A reader of the buffers sees a value where the validity says so. */
  function DecodeAt<T>(v: Validity, i: nat, value: T): Option<T>
    requires i < v.length && (v.bitmap.Some? ==> |v.bitmap.value| == BytesFor(v.length))
  {
    if v.bitmap.None? || BitAt(v.bitmap.value, i) then Some(value) else None
  }

  function DecodeFixed<T>(v: Validity, values: seq<T>): seq<Option<T>>
    requires |values| == v.length && (v.bitmap.Some? ==> |v.bitmap.value| == BytesFor(v.length))
  {
    seq(v.length, i requires 0 <= i < v.length => DecodeAt(v, i, values[i]))
  }

  function DecodeBools(v: Validity, bits: seq<bv8>): seq<Option<bool>>
    requires |bits| == BytesFor(v.length) && (v.bitmap.Some? ==> |v.bitmap.value| == BytesFor(v.length))
  {
    seq(v.length, i requires 0 <= i < v.length => DecodeAt(v, i, BitAt(bits, i)))
  }

  lemma FixedRoundTrip<T>(vector: seq<Option<T>>, zero: T, v: Validity, values: seq<T>)
    requires Describes(v, vector) && |values| == |vector|
    requires forall i | 0 <= i < |vector| :: values[i] == if vector[i].Some? then vector[i].value else zero
    ensures DecodeFixed(v, values) == vector
  {
    forall i | 0 <= i < |vector| ensures DecodeFixed(v, values)[i] == vector[i] {
    }
  }

  lemma BoolsRoundTrip(vector: seq<Option<bool>>, v: Validity, bits: seq<bv8>)
    requires Describes(v, vector) && |bits| == BytesFor(|vector|)
    requires forall i | 0 <= i < |vector| :: BitAt(bits, i) == (vector[i] == Some(true))
    ensures DecodeBools(v, bits) == vector
  {
    forall i | 0 <= i < |vector| ensures DecodeBools(v, bits)[i] == vector[i] {
      assert BitAt(bits, i) == (vector[i] == Some(true));
      assert vector[i].Some? ==> (vector[i].value <==> vector[i] == Some(true));
    }
  }

  // ----- Decimals -----

  const TWO_32 := 0x1_0000_0000
  const TWO_127 := 0x8000_0000_0000_0000_0000_0000_0000_0000
  const TWO_128 := 0x1_0000_0000_0000_0000_0000_0000_0000_0000
  const TEN_38 := 100000000000000000000000000000000000000

  /** The two's complement integer of four little-endian 32-bit words. */
  function DecodeDecimal(words: seq<int>): int
    requires |words| == 4
  {
    var unsigned := words[0] + TWO_32 * (words[1] + TWO_32 * (words[2] + TWO_32 * words[3]));
    if unsigned >= TWO_127 then unsigned - TWO_128 else unsigned
  }

  /** Word 0 is the least significant, the highest bit of word 3 the sign. */
  lemma DecimalIs(words: seq<int>)
    requires |words| == 4 && forall i | 0 <= i < 4 :: 0 <= words[i] < 0x1_0000_0000
    ensures DecodeDecimal(words)
            == words[0] + 0x1_0000_0000 * words[1] + 0x1_0000_0000_0000_0000 * words[2]
               + 0x1_0000_0000_0000_0000_0000_0000 * (if words[3] >= 0x8000_0000 then words[3] - 0x1_0000_0000 else words[3])
  {
  }

  function Words(scaled: int): (w: seq<int>)
    ensures |w| == 4 && forall i | 0 <= i < 4 :: 0 <= w[i] < TWO_32
  {
    var u := scaled % TWO_128;
    [u % TWO_32, u / TWO_32 % TWO_32, u / TWO_32 / TWO_32 % TWO_32, u / TWO_32 / TWO_32 / TWO_32 % TWO_32]
  }

  /** Four words of the row, least significant first; the other rows are untouched. */
  method WriteDecimal128(words: array<int>, index: nat, scaled: int)
    requires 4 * index + 4 <= words.Length
    modifies words
    ensures words[4 * index..4 * index + 4] == Words(scaled)
    ensures forall i | 0 <= i < words.Length && !(4 * index <= i < 4 * index + 4) :: words[i] == old(words[i])
  {
    var unsigned := scaled % TWO_128;
    var rest := unsigned;
    for w := 0 to 4
      invariant rest == if w == 0 then unsigned else if w == 1 then unsigned / TWO_32
                        else if w == 2 then unsigned / TWO_32 / TWO_32
                        else if w == 3 then unsigned / TWO_32 / TWO_32 / TWO_32
                        else unsigned / TWO_32 / TWO_32 / TWO_32 / TWO_32
      invariant forall i | 0 <= i < w :: words[4 * index + i] == Words(scaled)[i]
      invariant forall i | 0 <= i < words.Length && !(4 * index <= i < 4 * index + w) :: words[i] == old(words[i])
    {
      words[4 * index + w] := rest % TWO_32;
      rest := rest / TWO_32;
    }
  }

  /** The words are exact for every integer of 128 bits, and for no other. */
  lemma DecimalRoundTrip(scaled: int)
    ensures DecodeDecimal(Words(scaled)) == scaled <==> -TWO_127 <= scaled < TWO_127
  {
    var u := scaled % TWO_128;
    var u1 := u / TWO_32;
    var u2 := u1 / TWO_32;
    var u3 := u2 / TWO_32;
    assert u3 / TWO_32 == 0;
    assert u == u % TWO_32 + TWO_32 * (u1 % TWO_32 + TWO_32 * (u2 % TWO_32 + TWO_32 * (u3 % TWO_32)));
  }

  /** An integer is refused exactly when it takes more than 38 digits. */
  predicate CheckedHugeint(value: int) {
    !(value >= TEN_38 || value <= -TEN_38)
  }

  /** Every accepted integer is exact: 38 digits fit 128 bits. */
  lemma AcceptedHugeintIsExact(value: int)
    requires CheckedHugeint(value)
    ensures DecodeDecimal(Words(value)) == value
  {
    DecimalRoundTrip(value);
  }

  datatype Decimals = Decimals(validity: Validity, words: seq<int>) | RangeError

  predicate InRange(value: Option<int>) {
    value.Some? ==> CheckedHugeint(value.value)
  }

  function RowWords(value: Option<int>): seq<int> {
    if value.Some? then Words(value.value) else [0, 0, 0, 0]
  }

  /** The words of the n first rows. */
  function Encoded(vector: seq<Option<int>>, n: nat): (w: seq<int>)
    requires n <= |vector|
    ensures |w| == 4 * n
  {
    if n == 0 then [] else Encoded(vector, n - 1) + RowWords(vector[n - 1])
  }

  function RowOf(words: seq<int>, i: nat): (w: seq<int>)
    requires 4 * i + 4 <= |words|
    ensures |w| == 4
  {
    words[4 * i..4 * i + 4]
  }

  method WriteRow(words: array<int>, index: nat, value: Option<int>)
    requires 4 * index + 4 <= words.Length && forall j | 4 * index <= j < words.Length :: words[j] == 0
    modifies words
    ensures words[..4 * index + 4] == old(words[..4 * index]) + RowWords(value)
    ensures forall j | 4 * index + 4 <= j < words.Length :: words[j] == 0
  {
    if value.Some? {
      WriteDecimal128(words, index, value.value);
    }
  }

  /** The words of every row; a HUGEINT column fails at its first value out of range. */
  method PackDecimals(vector: seq<Option<int>>, hugeint: bool) returns (r: Decimals)
    ensures r.RangeError? <==> hugeint && exists i | 0 <= i < |vector| :: !InRange(vector[i])
    ensures r.RangeError? <==>
              hugeint && exists i | 0 <= i < |vector| ::
                vector[i].Some? && !(-100000000000000000000000000000000000000 < vector[i].value
                                     < 100000000000000000000000000000000000000)
    ensures r.Decimals? ==> Describes(r.validity, vector) && r.words == Encoded(vector, |vector|)
  {
    var words := new int[4 * |vector|](_ => 0);
    for i := 0 to |vector|
      invariant hugeint ==> forall j | 0 <= j < i :: InRange(vector[j])
      invariant forall j | 4 * i <= j < 4 * |vector| :: words[j] == 0
      invariant words[..4 * i] == Encoded(vector, i)
    {
      if hugeint && !InRange(vector[i]) {
        return RangeError;
      }
      WriteRow(words, i, vector[i]);
    }
    assert words[..4 * |vector|] == words[..];
    var bitmap, nullCount := ScanVector(vector);
    ValidityDescribes(vector, bitmap);
    r := Decimals(MakeValidity(|vector|, nullCount, bitmap), words[..]);
  }

  lemma SliceOfPrefix<T>(a: seq<T>, b: seq<T>, i: nat, j: nat)
    requires i <= j <= |a|
    ensures (a + b)[i..j] == a[i..j]
  {
  }

  lemma {:induction false} EncodedAt(vector: seq<Option<int>>, n: nat, i: nat)
    requires i < n <= |vector|
    ensures RowOf(Encoded(vector, n), i) == RowWords(vector[i])
    ensures vector[i].None? ==> RowOf(Encoded(vector, n), i) == [0, 0, 0, 0]
  {
    if i < n - 1 {
      EncodedAt(vector, n - 1, i);
      SliceOfPrefix(Encoded(vector, n - 1), RowWords(vector[n - 1]), 4 * i, 4 * i + 4);
    }
  }

  function DecodeDecimals(v: Validity, words: seq<int>): seq<Option<int>>
    requires |words| == 4 * v.length && (v.bitmap.Some? ==> |v.bitmap.value| == BytesFor(v.length))
  {
    seq(v.length, i requires 0 <= i < v.length => DecodeAt(v, i, DecodeDecimal(RowOf(words, i))))
  }

  lemma DecimalReadsBack(vector: seq<Option<int>>, v: Validity, i: nat)
    requires Describes(v, vector) && i < |vector| && InRange(vector[i])
    ensures DecodeAt(v, i, DecodeDecimal(RowOf(Encoded(vector, |vector|), i))) == vector[i]
  {
    EncodedAt(vector, |vector|, i);
    if vector[i].Some? {
      AcceptedHugeintIsExact(vector[i].value);
    }
  }

  /** A packed column of integers of at most 38 digits reads back as it was. */
  lemma DecimalsRoundTrip(vector: seq<Option<int>>, v: Validity)
    requires Describes(v, vector) && forall i | 0 <= i < |vector| :: InRange(vector[i])
    ensures DecodeDecimals(v, Encoded(vector, |vector|)) == vector
  {
    var words := Encoded(vector, |vector|);
    forall i | 0 <= i < |vector| ensures DecodeAt(v, i, DecodeDecimal(RowOf(words, i))) == vector[i] {
      DecimalReadsBack(vector, v, i);
    }
  }

  // ----- Text -----

  type Bytes = seq<bv8>

  function LengthOf(value: Option<Bytes>): nat {
    if value.Some? then |value.value| else 0
  }

  /** The length of the n first texts, encoded. */
  function Total(vector: seq<Option<Bytes>>, n: nat): nat
    requires n <= |vector|
  {
    if n == 0 then 0 else Total(vector, n - 1) + LengthOf(vector[n - 1])
  }

  /** What an element of an Int32Array keeps of a length: 32 bits, the highest one as sign. */
  function ToInt32(n: nat): int {
    if n < 0x8000_0000 then n
    else if n < TWO_32 then n - TWO_32
    else ToInt32(n - TWO_32)
  }

  /** The texts one after the other. */
  function Joined(vector: seq<Option<Bytes>>, n: nat): (b: Bytes)
    requires n <= |vector|
    ensures |b| == Total(vector, n)
  {
    if n == 0 then []
    else Joined(vector, n - 1) + if vector[n - 1].Some? then vector[n - 1].value else []
  }

  /** The 32-bit two's complement of a length. */
  lemma ToInt32Is(n: nat)
    ensures -0x8000_0000 <= ToInt32(n) < 0x8000_0000 && (n - ToInt32(n)) % 0x1_0000_0000 == 0
  {
  }

  lemma {:induction false} TotalGrows(vector: seq<Option<Bytes>>, i: nat, j: nat)
    requires i <= j <= |vector|
    ensures Total(vector, i) <= Total(vector, j)
  {
    if i < j {
      TotalGrows(vector, i, j - 1);
    }
  }

  /** The offset of text i, and its end, are in the buffer. */
  predicate Fits(vector: seq<Option<Bytes>>, i: nat)
    requires i < |vector|
  {
    0 <= ToInt32(Total(vector, i)) && ToInt32(Total(vector, i)) + LengthOf(vector[i]) <= Total(vector, |vector|)
  }

  predicate NoWrap(vector: seq<Option<Bytes>>) {
    Total(vector, |vector|) < 0x8000_0000
  }

  lemma OffsetIsTotal(vector: seq<Option<Bytes>>, i: nat)
    requires i <= |vector| && NoWrap(vector)
    ensures ToInt32(Total(vector, i)) == Total(vector, i)
    ensures i < |vector| ==> Fits(vector, i)
  {
    TotalGrows(vector, i, |vector|);
    if i < |vector| {
      TotalGrows(vector, i + 1, |vector|);
    }
  }

  /** The offsets of the n first texts, and their end. */
  function OffsetsTo(vector: seq<Option<Bytes>>, n: nat): (r: seq<int>)
    requires n <= |vector|
    ensures |r| == n + 1
  {
    if n == 0 then [0] else OffsetsTo(vector, n - 1) + [ToInt32(Total(vector, n))]
  }

  lemma {:induction false} OffsetAt(vector: seq<Option<Bytes>>, n: nat, i: nat)
    requires i <= n <= |vector|
    ensures OffsetsTo(vector, n)[i] == ToInt32(Total(vector, i))
  {
    if i < n {
      OffsetAt(vector, n - 1, i);
    }
  }

  function Offsets(vector: seq<Option<Bytes>>): (r: seq<int>)
    ensures |r| == |vector| + 1
  {
    OffsetsTo(vector, |vector|)
  }

  method PackOffsets(vector: seq<Option<Bytes>>) returns (offsets: seq<int>, total: nat)
    ensures total == Total(vector, |vector|) && offsets == Offsets(vector)
  {
    var valueOffsets := new int[|vector| + 1](_ => 0);
    total := 0;
    for i := 0 to |vector|
      invariant total == Total(vector, i)
      invariant valueOffsets[..i + 1] == OffsetsTo(vector, i)
    {
      total := total + LengthOf(vector[i]);
      valueOffsets[i + 1] := ToInt32(total);
      assert valueOffsets[..i + 2] == valueOffsets[..i + 1] + [valueOffsets[i + 1]];
    }
    offsets := valueOffsets[..];
  }

  /** Copies a text at an offset, the rest of the buffer untouched. */
  method CopyAt(bytes: array<bv8>, offset: nat, text: Bytes)
    requires offset + |text| <= bytes.Length
    modifies bytes
    ensures bytes[..offset + |text|] == old(bytes[..offset]) + text
  {
    for k := 0 to |text|
      invariant bytes[..offset + k] == old(bytes[..offset]) + text[..k]
    {
      bytes[offset + k] := text[k];
      assert bytes[..offset + k + 1] == bytes[..offset + k] + [text[k]];
    }
    assert text[..|text|] == text;
  }

  /** The i first texts are in the buffer, end to end, unless an offset wrapped. */
  ghost predicate Copied(vector: seq<Option<Bytes>>, i: nat, bytes: Bytes)
    requires i <= |vector|
  {
    NoWrap(vector) ==> Total(vector, i) <= |bytes| && bytes[..Total(vector, i)] == Joined(vector, i)
  }

  lemma CopiedNext(vector: seq<Option<Bytes>>, i: nat, before: Bytes, after: Bytes)
    requires i < |vector| && |before| == |after| == Total(vector, |vector|) && Copied(vector, i, before)
    requires if vector[i].None? then after == before
             else
               var offset, text := ToInt32(Total(vector, i)), vector[i].value;
               Fits(vector, i) && after[..offset + |text|] == before[..offset] + text
    ensures Copied(vector, i + 1, after)
  {
    TotalGrows(vector, i + 1, |vector|);
    if NoWrap(vector) {
      OffsetIsTotal(vector, i);
    }
  }

  /** The bytes of the texts; nothing when a copy would leave the buffer. */
  method CopyTexts(vector: seq<Option<Bytes>>, offsets: seq<int>, total: nat) returns (r: Option<Bytes>)
    requires total == Total(vector, |vector|) && offsets == Offsets(vector)
    ensures r.None? <==> exists i | 0 <= i < |vector| :: vector[i].Some? && !Fits(vector, i)
    ensures r.Some? ==> |r.value| == total
    ensures r.Some? && NoWrap(vector) ==> r.value == Joined(vector, |vector|)
  {
    var bytes := new bv8[total](_ => 0);
    for i := 0 to |vector|
      invariant forall j | 0 <= j < i && vector[j].Some? :: Fits(vector, j)
      invariant Copied(vector, i, bytes[..])
    {
      OffsetAt(vector, |vector|, i);
      ghost var before := bytes[..];
      if vector[i].Some? {
        var offset, text := offsets[i], vector[i].value;
        if offset < 0 || offset + |text| > total {
          return None;
        }
        CopyAt(bytes, offset, text);
        assert bytes[..][..offset + |text|] == bytes[..offset + |text|];
      }
      CopiedNext(vector, i, before, bytes[..]);
    }
    r := Some(bytes[..]);
  }

  datatype Texts = Texts(validity: Validity, offsets: seq<int>, bytes: Bytes) | OffsetError

  /** Offsets of the texts, then their bytes, each copied at its offset: the copy fails on
      an offset out of the buffer. */
  method PackUtf8(vector: seq<Option<Bytes>>) returns (r: Texts)
    ensures r.OffsetError? <==> exists i | 0 <= i < |vector| :: vector[i].Some? && !Fits(vector, i)
    ensures r.Texts? ==>
              && Describes(r.validity, vector) && |r.bytes| == Total(vector, |vector|) && r.offsets == Offsets(vector)
              && (NoWrap(vector) ==> r.bytes == Joined(vector, |vector|))
  {
    var offsets, total := PackOffsets(vector);
    var bytes := CopyTexts(vector, offsets, total);
    if bytes.None? {
      return OffsetError;
    }
    var bitmap, nullCount := ScanVector(vector);
    ValidityDescribes(vector, bitmap);
    r := Texts(MakeValidity(|vector|, nullCount, bitmap), offsets, bytes.value);
  }

  /** Offsets that a reader can follow: from zero to the end of the bytes, never back. */
  predicate Readable(offsets: seq<int>, bytes: Bytes) {
    && offsets != [] && offsets[0] == 0
    && (forall i | 0 <= i < |offsets| :: 0 <= offsets[i] <= |bytes|)
    && forall i | 0 <= i < |offsets| - 1 :: offsets[i] <= offsets[i + 1]
  }

  function DecodeTexts(v: Validity, offsets: seq<int>, bytes: Bytes): seq<Option<Bytes>>
    requires |offsets| == v.length + 1 && Readable(offsets, bytes)
    requires v.bitmap.Some? ==> |v.bitmap.value| == BytesFor(v.length)
  {
    seq(v.length, i requires 0 <= i < v.length => DecodeAt(v, i, bytes[offsets[i]..offsets[i + 1]]))
  }

  lemma {:induction false} JoinedAt(vector: seq<Option<Bytes>>, n: nat, i: nat)
    requires i < n <= |vector|
    ensures Total(vector, i) + LengthOf(vector[i]) <= Total(vector, n)
    ensures Joined(vector, n)[Total(vector, i)..Total(vector, i) + LengthOf(vector[i])]
            == if vector[i].Some? then vector[i].value else []
  {
    if i < n - 1 {
      JoinedAt(vector, n - 1, i);
      SliceOfPrefix(Joined(vector, n - 1), if vector[n - 1].Some? then vector[n - 1].value else [],
                    Total(vector, i), Total(vector, i) + LengthOf(vector[i]));
    }
  }

  lemma OffsetsReadable(vector: seq<Option<Bytes>>, bytes: Bytes)
    requires NoWrap(vector) && |bytes| == Total(vector, |vector|)
    ensures Readable(Offsets(vector), bytes)
  {
    forall i | 0 <= i <= |vector| ensures 0 <= Offsets(vector)[i] <= |bytes| {
      OffsetAt(vector, |vector|, i);
      OffsetIsTotal(vector, i);
      TotalGrows(vector, i, |vector|);
    }
    OffsetAt(vector, |vector|, 0);
    forall i | 0 <= i < |vector| ensures Offsets(vector)[i] <= Offsets(vector)[i + 1] {
      OffsetAt(vector, |vector|, i);
      OffsetAt(vector, |vector|, i + 1);
      OffsetIsTotal(vector, i);
      OffsetIsTotal(vector, i + 1);
    }
  }

  lemma TextAt(vector: seq<Option<Bytes>>, i: nat)
    requires NoWrap(vector) && i < |vector| && Readable(Offsets(vector), Joined(vector, |vector|))
    ensures Joined(vector, |vector|)[Offsets(vector)[i]..Offsets(vector)[i + 1]]
            == if vector[i].Some? then vector[i].value else []
  {
    OffsetsAround(vector, i);
    JoinedAt(vector, |vector|, i);
  }

  lemma OffsetsAround(vector: seq<Option<Bytes>>, i: nat)
    requires NoWrap(vector) && i < |vector|
    ensures Offsets(vector)[i] == Total(vector, i)
    ensures Offsets(vector)[i + 1] == Total(vector, i) + LengthOf(vector[i])
  {
    OffsetAt(vector, |vector|, i);
    OffsetAt(vector, |vector|, i + 1);
    OffsetIsTotal(vector, i);
    OffsetIsTotal(vector, i + 1);
  }

  /** Below two gigabytes, a packed text column reads back as it was. */
  lemma TextsRoundTrip(vector: seq<Option<Bytes>>, v: Validity)
    requires Describes(v, vector) && NoWrap(vector)
    ensures Readable(Offsets(vector), Joined(vector, |vector|))
    ensures DecodeTexts(v, Offsets(vector), Joined(vector, |vector|)) == vector
  {
    var bytes := Joined(vector, |vector|);
    OffsetsReadable(vector, bytes);
    forall i | 0 <= i < |vector|
      ensures DecodeAt(v, i, bytes[Offsets(vector)[i]..Offsets(vector)[i + 1]]) == vector[i]
    {
      TextAt(vector, i);
    }
  }

  lemma {:induction false} FirstWrap(vector: seq<Option<Bytes>>, n: nat) returns (i: nat)
    requires n <= |vector| && Total(vector, n) >= 0x8000_0000
    requires forall j | 0 <= j < |vector| :: LengthOf(vector[j]) < 0x8000_0000
    ensures i <= n && 0x8000_0000 <= Total(vector, i) < TWO_32
  {
    if Total(vector, n - 1) >= 0x8000_0000 {
      i := FirstWrap(vector, n - 1);
    } else {
      i := n;
    }
  }

  /** With texts of less than two gigabytes each, the offsets can be followed exactly when
      the whole column takes less than two gigabytes. */
  lemma ReadableIff(vector: seq<Option<Bytes>>, bytes: Bytes)
    requires |bytes| == Total(vector, |vector|)
    requires forall j | 0 <= j < |vector| :: LengthOf(vector[j]) < 0x8000_0000
    ensures Readable(Offsets(vector), bytes) <==> NoWrap(vector)
  {
    if NoWrap(vector) {
      OffsetsReadable(vector, bytes);
    } else {
      var i := FirstWrap(vector, |vector|);
      OffsetAt(vector, |vector|, i);
      assert Offsets(vector)[i] < 0;
    }
  }
}
