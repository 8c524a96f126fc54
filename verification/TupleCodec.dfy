/** The encoding of rows: header, null bitmap, then the non-null values. */
module TupleCodec {
  import opened Wrappers
  import opened Bytes
  import opened PageFormat
  import opened BPlusNodes
  import opened Tuples

  const TUPLE_MAGIC := 0x31544650
  const TUPLE_VERSION := 1
  const TUPLE_HEADER := 8
  const MAX_COLUMNS := 0xFFFF
  const MAX_TEXT := 0xFFFF_FFFF

  predicate Matches(v: Value, t: DataType) {
    match t
    case Integer => v.IntValue?
    case Text => v.TextValue? && |v.s| <= MAX_TEXT
    case Boolean => v.BoolValue?
  }

  predicate Fits(v: Value, c: Column) {
    if v.Null? then c.nullable else Matches(v, c.dataType)
  }

  /** The tuples that can be stored in a table with this schema. */
  predicate ValidTuple(schema: Schema, t: Tuple) {
    && |t| == |schema| <= MAX_COLUMNS
    && forall i :: 0 <= i < |t| ==> Fits(t[i], schema[i])
  }

  // ---------------------------------------------------------------- null bitmap

  function BitmapSize(columns: nat): nat { (columns + 7) / 8 }

  /** Bit k of a byte. */
  predicate Bit(b: nat, k: nat) {
    if k == 0 then b % 2 == 1 else Bit(b / 2, k - 1)
  }

  /** b with bit k set. */
  function SetBit(b: nat, k: nat): nat {
    if k == 0 then b / 2 * 2 + 1 else b % 2 + 2 * SetBit(b / 2, k - 1)
  }

  lemma {:induction false} SetBitFits(b: nat, k: nat, width: nat)
    requires b < Pow2(width) && k < width
    ensures SetBit(b, k) < Pow2(width)
  {
    assert Pow2(width) == 2 * Pow2(width - 1);
    HalfFits(b, Pow2(width - 1));
    hide Pow2;
    if k > 0 {
      SetBitFits(b / 2, k - 1, width - 1);
    }
  }

  lemma HalfFits(b: nat, half: nat)
    requires b < 2 * half
    ensures b / 2 < half
  {
  }

  lemma {:induction false} SetBitMeans(b: nat, k: nat, j: nat)
    ensures Bit(SetBit(b, k), j) <==> j == k || Bit(b, j)
  {
    if j > 0 && k > 0 {
      SetBitMeans(b / 2, k - 1, j - 1);
    }
  }

  lemma {:induction false} BitsDetermine(a: nat, b: nat, width: nat)
    requires a < Pow2(width) && b < Pow2(width)
    requires forall k :: 0 <= k < width ==> (Bit(a, k) <==> Bit(b, k))
    ensures a == b
  {
    if width > 0 {
      assert Bit(a, 0) <==> Bit(b, 0);
      forall k | 0 <= k < width - 1
        ensures Bit(a / 2, k) <==> Bit(b / 2, k)
      {
        assert Bit(a, k + 1) <==> Bit(b, k + 1);
      }
      BitsDetermine(a / 2, b / 2, width - 1);
    }
  }

  lemma Pow2Eight()
    ensures Pow2(8) == 256
  {
    assert Pow2(4) == 16;
  }

  lemma BytesDetermine(a: byte, b: byte)
    requires forall k :: 0 <= k < 8 ==> (Bit(a, k) <==> Bit(b, k))
    ensures a == b
  {
    Pow2Eight();
    BitsDetermine(a, b, 8);
  }

  /** The bits of a byte, from the low end. */
  lemma BitValues(b: nat)
    ensures Bit(b, 0) <==> b % 2 == 1
    ensures Bit(b, 1) <==> b / 2 % 2 == 1
    ensures Bit(b, 2) <==> b / 4 % 2 == 1
    ensures Bit(b, 3) <==> b / 8 % 2 == 1
    ensures Bit(b, 4) <==> b / 16 % 2 == 1
    ensures Bit(b, 5) <==> b / 32 % 2 == 1
    ensures Bit(b, 6) <==> b / 64 % 2 == 1
    ensures Bit(b, 7) <==> b / 128 % 2 == 1
  {
    hide Bit;
    BitsBelow(b);
    Sixteenth(b);
    assert Bit(b, 0 + 4) <==> Bit(b / 16, 0);
    assert Bit(b, 1 + 4) <==> Bit(b / 16, 1);
    assert Bit(b, 2 + 4) <==> Bit(b / 16, 2);
    assert Bit(b, 3 + 4) <==> Bit(b / 16, 3);
  }

  lemma Sixteenth(b: nat)
    ensures Bit(b / 16, 0) <==> b / 16 % 2 == 1
    ensures Bit(b / 16, 1) <==> b / 32 % 2 == 1
    ensures Bit(b / 16, 2) <==> b / 64 % 2 == 1
    ensures Bit(b / 16, 3) <==> b / 128 % 2 == 1
  {
    hide Bit;
    BitsBelow(b / 16);
    assert b / 16 / 2 == b / 32 && b / 16 / 4 == b / 64 && b / 16 / 8 == b / 128;
  }

  lemma BitsBelow(b: nat)
    ensures Bit(b, 0) <==> b % 2 == 1
    ensures Bit(b, 1) <==> b / 2 % 2 == 1
    ensures Bit(b, 2) <==> b / 4 % 2 == 1
    ensures Bit(b, 3) <==> b / 8 % 2 == 1
    ensures forall k: nat :: Bit(b, k + 4) <==> Bit(b / 16, k)
  {
    assert b / 2 / 2 == b / 4 && b / 4 / 2 == b / 8 && b / 8 / 2 == b / 16;
    forall k: nat
      ensures Bit(b, k + 4) <==> Bit(b / 16, k)
    {
      assert Bit(b, k + 4) <==> Bit(b / 2, k + 3);
      assert Bit(b / 2, k + 3) <==> Bit(b / 4, k + 2);
      assert Bit(b / 4, k + 2) <==> Bit(b / 8, k + 1);
    }
  }

  /** Bit i of a bitmap. */
  predicate NullBit(bitmap: seq<byte>, i: nat)
    requires i / 8 < |bitmap|
  {
    Bit(bitmap[i / 8], i % 8)
  }

  /** Column i of a tuple is null. */
  predicate NullAt(t: Tuple, i: nat) {
    i < |t| && t[i].Null?
  }

  /** The bits of the last byte behind the last column are clear. */
  predicate PaddingClear(bitmap: seq<byte>, columns: nat)
    requires |bitmap| == BitmapSize(columns)
  {
    columns % 8 != 0 ==> ClearFrom(bitmap[|bitmap| - 1], columns % 8)
  }

  predicate ClearFrom(b: byte, low: nat) {
    forall k :: low <= k < 8 ==> !Bit(b, k)
  }

  /** The bits of a bitmap are the nulls of the tuple, and no bit beyond it is set. */
  predicate MarksNulls(bitmap: seq<byte>, t: Tuple) {
    forall i :: 0 <= i < 8 * |bitmap| ==> (NullBit(bitmap, i) <==> NullAt(t, i))
  }

  lemma MarksNullsAt(bitmap: seq<byte>, t: Tuple, i: nat)
    requires MarksNulls(bitmap, t) && i < 8 * |bitmap|
    ensures NullBit(bitmap, i) <==> NullAt(t, i)
  {
  }

  /** Setting the bit of a column that turns out to be null. */
  lemma MarkNull(bitmap: seq<byte>, t: Tuple, v: Value)
    requires MarksNulls(bitmap, t) && |t| < 8 * |bitmap|
    ensures SetBit(bitmap[|t| / 8], |t| % 8) < 256
    ensures v.Null? ==> MarksNulls(bitmap[|t| / 8 := SetBit(bitmap[|t| / 8], |t| % 8)], t + [v])
    ensures !v.Null? ==> MarksNulls(bitmap, t + [v])
  {
    hide SetBit, Bit;
    var j, k := |t| / 8, |t| % 8;
    Pow2Eight();
    SetBitFits(bitmap[j], k, 8);
    var marked := bitmap[j := SetBit(bitmap[j], k)];
    forall i | 0 <= i < 8 * |bitmap|
      ensures v.Null? ==> (NullBit(marked, i) <==> NullAt(t + [v], i))
      ensures !v.Null? ==> (NullBit(bitmap, i) <==> NullAt(t + [v], i))
    {
      MarksNullsAt(bitmap, t, i);
      SetBitMeans(bitmap[j], k, i % 8);
      assert NullAt(t + [v], i) <==> NullAt(t, i) || (i == |t| && v.Null?);
    }
  }

  lemma MarksNone(size: nat)
    ensures MarksNulls(Zeros(size), [])
  {
    forall i | 0 <= i < 8 * size
      ensures !NullBit(Zeros(size), i)
    {
      ZeroBit(i % 8);
    }
  }

  lemma {:induction false} ZeroBit(k: nat)
    ensures !Bit(0, k)
  {
    if k > 0 {
      ZeroBit(k - 1);
    }
  }

  /** A bitmap of a given size is determined by the nulls it marks. */
  lemma BitmapUnique(a: seq<byte>, b: seq<byte>, t: Tuple)
    requires |a| == |b| && MarksNulls(a, t) && MarksNulls(b, t)
    ensures a == b
  {
    hide Bit;
    forall j | 0 <= j < |a|
      ensures a[j] == b[j]
    {
      forall k | 0 <= k < 8
        ensures Bit(a[j], k) <==> Bit(b[j], k)
      {
        MarksNullsAt(a, t, 8 * j + k);
        MarksNullsAt(b, t, 8 * j + k);
        assert (8 * j + k) / 8 == j && (8 * j + k) % 8 == k;
      }
      BytesDetermine(a[j], b[j]);
    }
  }

  /** A bitmap of the right size marks exactly the nulls when it does so for the columns and is clear behind them. */
  lemma MarksNullsMeans(bitmap: seq<byte>, t: Tuple)
    requires |bitmap| == BitmapSize(|t|)
    ensures MarksNulls(bitmap, t) <==>
      PaddingClear(bitmap, |t|) && forall i :: 0 <= i < |t| ==> (NullBit(bitmap, i) <==> t[i].Null?)
  {
    hide Bit;
    var last := |bitmap| - 1;
    if MarksNulls(bitmap, t) {
      forall k | |t| % 8 <= k < 8 && |t| % 8 != 0
        ensures !Bit(bitmap[last], k)
      {
        MarksNullsAt(bitmap, t, 8 * last + k);
        assert (8 * last + k) / 8 == last && (8 * last + k) % 8 == k;
      }
      forall i | 0 <= i < |t|
        ensures NullBit(bitmap, i) <==> t[i].Null?
      {
        MarksNullsAt(bitmap, t, i);
      }
    }
    if PaddingClear(bitmap, |t|) && forall i :: 0 <= i < |t| ==> (NullBit(bitmap, i) <==> t[i].Null?) {
      forall i | 0 <= i < 8 * |bitmap|
        ensures NullBit(bitmap, i) <==> NullAt(t, i)
      {
        if i >= |t| {
          assert i / 8 == last && |t| % 8 <= i % 8 < 8;
        }
      }
    }
  }

  /** The bitmap of a tuple, built by marking its nulls one after the other. */
  function Bitmap(t: Tuple, size: nat): (r: seq<byte>)
    requires |t| <= 8 * size
    ensures |r| == size && MarksNulls(r, t)
  {
    if t == [] then MarksNone(size); Zeros(size)
    else
      var front, v := t[..|t| - 1], t[|t| - 1];
      var r := Bitmap(front, size);
      MarkNull(r, front, v);
      assert front + [v] == t;
      if v.Null? then r[|front| / 8 := SetBit(r[|front| / 8], |front| % 8)] else r
  }

  // ---------------------------------------------------------------- values

  function EncodeValue(v: Value): seq<byte> {
    match v
    case Null => []
    case IntValue(i) => LE(8, ToUnsigned(i))
    case TextValue(s) => LE(4, |s|) + s
    case BoolValue(b) => [if b then 1 else 0]
  }

  function Payload(t: Tuple): seq<byte> {
    if t == [] then [] else EncodeValue(t[0]) + Payload(t[1..])
  }

  /** The record of a tuple. */
  function EncodeTuple(t: Tuple): seq<byte> {
    LE(4, TUPLE_MAGIC) + LE(2, TUPLE_VERSION) + LE(2, |t|) + Bitmap(t, BitmapSize(|t|)) + Payload(t)
  }

  /** Where the parts of the record of a tuple are: magic "PFT1", version, count, null bits, values. */
  lemma EncodingLayout(t: Tuple)
    ensures var b, n := EncodeTuple(t), (|t| + 7) / 8;
      && |b| >= 8 + n && b[..6] == [0x50, 0x46, 0x54, 0x31, 1, 0] && b[6..8] == LE(2, |t|) && b[8 + n..] == Payload(t)
      && forall i :: 0 <= i < |t| ==> i / 8 < n && (Bit(b[8 + i / 8], i % 8) <==> t[i].Null?)
  {
    hide LE, Bit, Payload;
    MagicBytes();
    var b, n := EncodeTuple(t), (|t| + 7) / 8;
    var bits := Bitmap(t, n);
    assert b[8..8 + n] == bits;
    forall i | 0 <= i < |t|
      ensures i / 8 < n && (Bit(b[8 + i / 8], i % 8) <==> t[i].Null?)
    {
      MarksNullsAt(bits, t, i);
      assert b[8 + i / 8] == bits[i / 8];
    }
  }

  lemma MagicBytes()
    ensures LE(4, TUPLE_MAGIC) + LE(2, TUPLE_VERSION) == [0x50, 0x46, 0x54, 0x31, 1, 0]
  {
  }

  /** Values stand one behind the other, a null without a byte. */
  lemma {:induction false} PayloadConcat(a: Tuple, b: Tuple)
    ensures Payload(a + b) == Payload(a) + Payload(b)
  {
    hide EncodeValue;
    if a == [] {
      assert a + b == b;
    } else {
      PayloadConcat(a[1..], b);
      assert (a + b)[1..] == a[1..] + b;
      assert EncodeValue(a[0]) + (Payload(a[1..]) + Payload(b)) == EncodeValue(a[0]) + Payload(a[1..]) + Payload(b);
    }
  }

  lemma ValueBytes(v: Value)
    ensures Payload([v]) == match v
      case Null => []
      case IntValue(i) => LE(8, ToUnsigned(i))
      case TextValue(s) => LE(4, |s|) + s
      case BoolValue(b) => [if b then 1 else 0]
  {
    assert [v][1..] == [];
    assert EncodeValue(v) + [] == EncodeValue(v);
  }

  /** Reads one value of the given type from the front of b: the value and the bytes behind it. */
  function DecodeValue(t: DataType, b: seq<byte>): (r: Option<(Value, seq<byte>)>)
    ensures r.Some? ==> Matches(r.value.0, t) && b == EncodeValue(r.value.0) + r.value.1
  {
    match t
    case Integer =>
      if |b| < 8 then None else
      IntegerFront(b);
      Some((IntValue(ToSigned(FromLE(b[..8]))), b[8..]))
    case Text =>
      if |b| < 4 then None else
      TextFront(b);
      var n := FromLE(b[..4]);
      if |b| - 4 < n then None else Some((TextValue(b[4..4 + n]), b[4 + n..]))
    case Boolean =>
      if b == [] || b[0] > 1 then None else Some((BoolValue(b[0] == 1), b[1..]))
  }

  lemma IntegerFront(b: seq<byte>)
    requires |b| >= 8
    ensures FromLE(b[..8]) < 0x1_0000_0000_0000_0000
    ensures b == LE(8, FromLE(b[..8])) + b[8..]
  {
    Pow256Values();
    FromLEBound(b[..8]);
    LECanonical(b[..8]);
  }

  lemma TextFront(b: seq<byte>)
    requires |b| >= 4
    ensures FromLE(b[..4]) <= MAX_TEXT
    ensures var n := FromLE(b[..4]); n <= |b| - 4 ==> b == LE(4, n) + b[4..4 + n] + b[4 + n..]
  {
    Pow256Values();
    FromLEBound(b[..4]);
    LECanonical(b[..4]);
  }

  /** Decoding the front of an encoding gives back the value. */
  lemma DecodeEncoded(v: Value, t: DataType, rest: seq<byte>)
    requires Matches(v, t)
    ensures DecodeValue(t, EncodeValue(v) + rest) == Some((v, rest))
  {
    Pow256Values();
    var b := EncodeValue(v) + rest;
    match v {
      case IntValue(i) =>
        LERoundTrip(8, ToUnsigned(i));
        assert b[..8] == LE(8, ToUnsigned(i)) && b[8..] == rest;
      case TextValue(s) =>
        LERoundTrip(4, |s|);
        assert b[..4] == LE(4, |s|) && b[4..4 + |s|] == s && b[4 + |s|..] == rest;
      case BoolValue(x) =>
        assert b[1..] == rest;
    }
  }

  function Prepend(v: Value, t: Option<Tuple>): Option<Tuple> {
    if t == None then None else Some([v] + t.value)
  }

  /** The values of columns i and up, read from b under the bitmap; all of b must be used. */
  function DecodeFrom(schema: Schema, bitmap: seq<byte>, i: nat, b: seq<byte>): Option<Tuple>
    requires |bitmap| == BitmapSize(|schema|) && i <= |schema|
    decreases |schema| - i
  {
    if i == |schema| then (if b == [] then Some([]) else None)
    else if NullBit(bitmap, i) then
      (if schema[i].nullable then Prepend(Null, DecodeFrom(schema, bitmap, i + 1, b)) else None)
    else
      var v := DecodeValue(schema[i].dataType, b);
      if v == None then None else Prepend(v.value.0, DecodeFrom(schema, bitmap, i + 1, v.value.1))
  }

  /** The tuple that a record holds, if it is the record of one. */
  function DecodeTuple(schema: Schema, b: seq<byte>): Result<Tuple> {
    if |schema| > MAX_COLUMNS then Err(InvalidArgument) else
    var base := TUPLE_HEADER + BitmapSize(|schema|);
    if |b| < base || b[..TUPLE_HEADER] != LE(4, TUPLE_MAGIC) + LE(2, TUPLE_VERSION) + LE(2, |schema|) then
      Err(TupleCorruption)
    else
      var bitmap := b[TUPLE_HEADER..base];
      if !PaddingClear(bitmap, |schema|) then Err(TupleCorruption) else
      var t := DecodeFrom(schema, bitmap, 0, b[base..]);
      if t == None then Err(TupleCorruption) else Ok(t.value)
  }

  // ---------------------------------------------------------------- round trips

  lemma {:induction false} DecodePayload(schema: Schema, t: Tuple, bitmap: seq<byte>, i: nat)
    requires ValidTuple(schema, t) && |bitmap| == BitmapSize(|schema|) && i <= |t|
    requires MarksNulls(bitmap, t)
    ensures DecodeFrom(schema, bitmap, i, Payload(t[i..])) == Some(t[i..])
    decreases |t| - i
  {
    hide NullBit, MarksNulls;
    if i < |t| {
      DecodePayload(schema, t, bitmap, i + 1);
      MarksNullsAt(bitmap, t, i);
      assert t[i..][1..] == t[i + 1..] && t[i..] == [t[i]] + t[i + 1..];
      assert Fits(t[i], schema[i]);
      if t[i].Null? {
        assert Payload(t[i..]) == Payload(t[i + 1..]);
      } else {
        DecodeEncoded(t[i], schema[i].dataType, Payload(t[i + 1..]));
      }
    }
  }

  /** Decoding the encoding of a valid tuple returns the tuple. */
  lemma DecodeOfEncode(schema: Schema, t: Tuple)
    requires ValidTuple(schema, t)
    ensures DecodeTuple(schema, EncodeTuple(t)) == Ok(t)
  {
    hide LE, NullBit, PaddingClear, DecodeFrom, Payload, MarksNulls, Bitmap;
    var bm := Bitmap(t, BitmapSize(|t|));
    var b := EncodeTuple(t);
    var base := TUPLE_HEADER + |bm|;
    var head := LE(4, TUPLE_MAGIC) + LE(2, TUPLE_VERSION) + LE(2, |t|);
    assert b == head + bm + Payload(t);
    assert b[..TUPLE_HEADER] == head && b[TUPLE_HEADER..base] == bm && b[base..] == Payload(t);
    MarksNullsMeans(bm, t);
    DecodePayload(schema, t, bm, 0);
    assert t[0..] == t;
  }

  /** What decoding from column i on has accepted. */
  predicate Decoded(schema: Schema, bitmap: seq<byte>, i: nat, t: Tuple)
    requires |bitmap| == BitmapSize(|schema|) && i + |t| == |schema|
  {
    forall k :: i <= k < |schema| ==> Fits(t[k - i], schema[k]) && (t[k - i].Null? <==> NullBit(bitmap, k))
  }

  lemma DecodedCons(schema: Schema, bitmap: seq<byte>, i: nat, v: Value, t: Tuple)
    requires |bitmap| == BitmapSize(|schema|) && i + 1 + |t| == |schema|
    requires Decoded(schema, bitmap, i + 1, t)
    requires Fits(v, schema[i]) && (v.Null? <==> NullBit(bitmap, i))
    ensures Decoded(schema, bitmap, i, [v] + t)
    ensures Payload([v] + t) == EncodeValue(v) + Payload(t)
  {
    hide NullBit, Fits;
    assert ([v] + t)[1..] == t;
    forall k | i <= k < |schema|
      ensures Fits(([v] + t)[k - i], schema[k]) && (([v] + t)[k - i].Null? <==> NullBit(bitmap, k))
    {
      if k > i {
        assert ([v] + t)[k - i] == t[k - (i + 1)];
      }
    }
  }

  lemma DecodedNone(schema: Schema, bitmap: seq<byte>)
    requires |bitmap| == BitmapSize(|schema|)
    ensures Decoded(schema, bitmap, |schema|, [])
  {
  }

  lemma {:induction false} DecodedPayload(schema: Schema, bitmap: seq<byte>, i: nat, b: seq<byte>)
    requires |bitmap| == BitmapSize(|schema|) && i <= |schema|
    requires DecodeFrom(schema, bitmap, i, b).Some?
    ensures var t := DecodeFrom(schema, bitmap, i, b).value;
      && i + |t| == |schema| && Payload(t) == b && Decoded(schema, bitmap, i, t)
    decreases |schema| - i
  {
    hide NullBit, DecodeValue, Decoded;
    if i < |schema| {
      var isNull := NullBit(bitmap, i);
      var v := if isNull then Null else DecodeValue(schema[i].dataType, b).value.0;
      var rest := if isNull then b else DecodeValue(schema[i].dataType, b).value.1;
      DecodedPayload(schema, bitmap, i + 1, rest);
      DecodedCons(schema, bitmap, i, v, DecodeFrom(schema, bitmap, i + 1, rest).value);
    } else {
      DecodedNone(schema, bitmap);
    }
  }

  /** Whatever decoding accepts is exactly what encoding the result produces. */
  lemma EncodeOfDecode(schema: Schema, b: seq<byte>)
    requires DecodeTuple(schema, b).Ok?
    ensures var t := DecodeTuple(schema, b).value; ValidTuple(schema, t) && EncodeTuple(t) == b
  {
    hide LE, NullBit, PaddingClear, DecodeFrom, Payload, MarksNulls, Bitmap;
    var base := TUPLE_HEADER + BitmapSize(|schema|);
    var bitmap := b[TUPLE_HEADER..base];
    var t := DecodeTuple(schema, b).value;
    DecodedPayload(schema, bitmap, 0, b[base..]);
    MarksNullsMeans(bitmap, t);
    BitmapUnique(bitmap, Bitmap(t, BitmapSize(|t|)), t);
    assert b == b[..TUPLE_HEADER] + bitmap + b[base..];
  }

  // ---------------------------------------------------------------- the codec

  lemma {:induction false} PayloadSnoc(t: Tuple, v: Value)
    ensures Payload(t + [v]) == Payload(t) + EncodeValue(v)
  {
    hide EncodeValue;
    if t == [] {
      assert [v][1..] == [];
      assert [] + EncodeValue(v) == EncodeValue(v) == EncodeValue(v) + [];
    } else {
      PayloadSnoc(t[1..], v);
      assert (t + [v])[1..] == t[1..] + [v];
      assert EncodeValue(t[0]) + (Payload(t[1..]) + EncodeValue(v)) == Payload(t) + EncodeValue(v);
    }
  }

  /** Header, bitmap and payload of the first columns of a tuple; the bitmap has its final size. */
  function Partial(columns: nat, t: Tuple): seq<byte>
    requires columns <= MAX_COLUMNS && |t| <= columns
  {
    LE(4, TUPLE_MAGIC) + LE(2, TUPLE_VERSION) + LE(2, columns) + Bitmap(t, BitmapSize(columns)) + Payload(t)
  }

  /** One more column: its bit set in place if it is null, its bytes appended if not. */
  lemma PartialExtend(columns: nat, t: Tuple, v: Value)
    requires columns <= MAX_COLUMNS && |t| < columns
    ensures var b, j := Partial(columns, t), TUPLE_HEADER + |t| / 8;
      && j < |b| && SetBit(b[j], |t| % 8) < 256
      && Partial(columns, t + [v]) == if v.Null? then b[j := SetBit(b[j], |t| % 8)] else b + EncodeValue(v)
  {
    hide LE, SetBit, MarksNulls, Payload;
    var bm := Bitmap(t, BitmapSize(columns));
    var head := LE(4, TUPLE_MAGIC) + LE(2, TUPLE_VERSION) + LE(2, columns);
    MarkNull(bm, t, v);
    PayloadSnoc(t, v);
    assert (t + [v])[..|t|] == t;
    var b := head + bm + Payload(t);
    assert b[TUPLE_HEADER + |t| / 8] == bm[|t| / 8];
    if v.Null? {
      assert EncodeValue(v) == [] && Payload(t) + [] == Payload(t);
    } else {
      assert head + bm + (Payload(t) + EncodeValue(v)) == b + EncodeValue(v);
    }
  }

  lemma PartialNone(columns: nat)
    requires columns <= MAX_COLUMNS
    ensures Partial(columns, []) ==
      LE(4, TUPLE_MAGIC) + LE(2, TUPLE_VERSION) + LE(2, columns) + Zeros(BitmapSize(columns))
  {
    hide LE;
  }

  /** Encodes a tuple column by column; every tuple that does not fit the schema is refused. */
  method Encode(schema: Schema, t: Tuple) returns (r: Result<seq<byte>>)
    ensures r == if ValidTuple(schema, t) then Ok(EncodeTuple(t)) else Err(InvalidArgument)
  {
    hide LE, Bitmap, Payload, SetBit, Partial, EncodeValue;
    if |schema| > MAX_COLUMNS || |t| != |schema| {
      return Err(InvalidArgument);
    }
    var output := AppendLE([], 4, TUPLE_MAGIC);
    output := AppendLE(output, 2, TUPLE_VERSION);
    output := AppendLE(output, 2, |schema|);
    output := output + Zeros(BitmapSize(|schema|));
    PartialNone(|schema|);
    assert output == Partial(|schema|, []);
    for i := 0 to |schema|
      invariant output == Partial(|schema|, t[..i])
      invariant forall k :: 0 <= k < i ==> Fits(t[k], schema[k])
    {
      assert t[..i + 1] == t[..i] + [t[i]];
      PartialExtend(|schema|, t[..i], t[i]);
      if t[i].Null? {
        if !schema[i].nullable {
          return Err(InvalidArgument);
        }
        var at := TUPLE_HEADER + i / 8;
        output := output[at := SetBit(output[at], i % 8)];
      } else {
        if !Matches(t[i], schema[i].dataType) {
          return Err(InvalidArgument);
        }
        output := AppendValue(output, t[i]);
      }
    }
    assert t[..|t|] == t;
    PartialAll(t);
    return Ok(output);
  }

  lemma PartialAll(t: Tuple)
    requires |t| <= MAX_COLUMNS
    ensures Partial(|t|, t) == EncodeTuple(t)
  {
  }

  method AppendValue(output: seq<byte>, v: Value) returns (r: seq<byte>)
    requires v.TextValue? ==> |v.s| <= MAX_TEXT
    ensures r == output + EncodeValue(v)
  {
    match v {
      case Null => r := output;
      case IntValue(i) => r := AppendLE(output, 8, ToUnsigned(i));
      case TextValue(s) =>
        r := AppendLE(output, 4, |s|);
        r := r + s;
      case BoolValue(b) => r := output + [if b then 1 else 0];
    }
  }

  /** Reads a value at the offset: the value and the offset behind it. */
  method ReadValue(t: DataType, b: seq<byte>, offset: nat) returns (r: Option<(Value, nat)>)
    requires offset <= |b|
    ensures r.Some? <==> DecodeValue(t, b[offset..]).Some?
    ensures r.Some? ==> offset <= r.value.1 <= |b|
    ensures r.Some? ==> DecodeValue(t, b[offset..]) == Some((r.value.0, b[r.value.1..]))
  {
    hide FromLE, Pow256, ToSigned, LE, EncodeValue, Matches;
    Pow256Values();
    match t {
      case Integer =>
        if |b| - offset < 8 { return None; }
        var n := ReadLE(b, offset, 8);
        GetBound(b, offset, 8);
        assert b[offset..][..8] == b[offset..offset + 8] && b[offset..][8..] == b[offset + 8..];
        return Some((IntValue(ToSigned(n)), offset + 8));
      case Text =>
        if |b| - offset < 4 { return None; }
        var n := ReadLE(b, offset, 4);
        assert b[offset..][..4] == b[offset..offset + 4];
        if |b| - offset - 4 < n { return None; }
        var from := offset + 4;
        assert b[offset..][4..4 + n] == b[from..from + n] && b[offset..][4 + n..] == b[from + n..];
        return Some((TextValue(b[from..from + n]), from + n));
      case Boolean =>
        if offset == |b| || b[offset] > 1 { return None; }
        assert b[offset..][1..] == b[offset + 1..];
        return Some((BoolValue(b[offset] == 1), offset + 1));
    }
  }

  function Behind(front: Tuple, rest: Option<Tuple>): Option<Tuple> {
    if rest == None then None else Some(front + rest.value)
  }

  lemma BehindStep(front: Tuple, v: Value, rest: Option<Tuple>)
    ensures Behind(front, Prepend(v, rest)) == Behind(front + [v], rest)
  {
    if rest.Some? {
      assert front + ([v] + rest.value) == front + [v] + rest.value;
    }
  }

  /** Decodes a record; it accepts exactly what encoding some valid tuple produces. */
  method Decode(schema: Schema, b: seq<byte>) returns (r: Result<Tuple>)
    ensures r == DecodeTuple(schema, b)
  {
    hide LE, NullBit, DecodeFrom, DecodeValue, PaddingClear, Prepend, Behind;
    if |schema| > MAX_COLUMNS {
      return Err(InvalidArgument);
    }
    var headed := ReadHeader(schema, b);
    var base := TUPLE_HEADER + BitmapSize(|schema|);
    if !headed || |b| < base {
      return Err(TupleCorruption);
    }
    var bitmap := b[TUPLE_HEADER..base];
    if !PaddingClear(bitmap, |schema|) {
      return Err(TupleCorruption);
    }
    var tuple: Tuple := [];
    var offset := base;
    ghost var goal := DecodeFrom(schema, bitmap, 0, b[base..]);
    BehindNone(goal);
    for i := 0 to |schema|
      invariant base <= offset <= |b|
      invariant goal == Behind(tuple, DecodeFrom(schema, bitmap, i, b[offset..]))
    {
      DecodeStep(schema, bitmap, i, b[offset..], tuple);
      if NullBit(bitmap, i) {
        if !schema[i].nullable {
          return Err(TupleCorruption);
        }
        tuple := tuple + [Null];
      } else {
        var v := ReadValue(schema[i].dataType, b, offset);
        if v == None {
          return Err(TupleCorruption);
        }
        tuple, offset := tuple + [v.value.0], v.value.1;
      }
    }
    DecodeEnd(schema, bitmap, b[offset..], tuple);
    if offset != |b| {
      return Err(TupleCorruption);
    }
    return Ok(tuple);
  }

  lemma BehindNone(t: Option<Tuple>)
    ensures Behind([], t) == t
  {
    if t.Some? {
      assert [] + t.value == t.value;
    }
  }

  /** What one column contributes to the result. */
  lemma DecodeStep(schema: Schema, bitmap: seq<byte>, i: nat, b: seq<byte>, front: Tuple)
    requires |bitmap| == BitmapSize(|schema|) && i < |schema|
    ensures var v := DecodeValue(schema[i].dataType, b);
      Behind(front, DecodeFrom(schema, bitmap, i, b)) ==
        if NullBit(bitmap, i) then
          (if schema[i].nullable then Behind(front + [Null], DecodeFrom(schema, bitmap, i + 1, b)) else None)
        else if v == None then None
        else Behind(front + [v.value.0], DecodeFrom(schema, bitmap, i + 1, v.value.1))
  {
    hide NullBit, DecodeValue;
    var v := DecodeValue(schema[i].dataType, b);
    if NullBit(bitmap, i) {
      BehindStep(front, Null, DecodeFrom(schema, bitmap, i + 1, b));
    } else if v.Some? {
      BehindStep(front, v.value.0, DecodeFrom(schema, bitmap, i + 1, v.value.1));
    }
  }

  lemma DecodeEnd(schema: Schema, bitmap: seq<byte>, b: seq<byte>, front: Tuple)
    requires |bitmap| == BitmapSize(|schema|)
    ensures Behind(front, DecodeFrom(schema, bitmap, |schema|, b)) == if b == [] then Some(front) else None
  {
    assert front + [] == front;
  }

  /** Reads magic, version and column count field by field. */
  method ReadHeader(schema: Schema, b: seq<byte>) returns (ok: bool)
    requires |schema| <= MAX_COLUMNS
    ensures ok <==>
      |b| >= TUPLE_HEADER && b[..TUPLE_HEADER] == LE(4, TUPLE_MAGIC) + LE(2, TUPLE_VERSION) + LE(2, |schema|)
  {
    hide LE, FromLE;
    if |b| < TUPLE_HEADER {
      return false;
    }
    var magic := ReadLE(b, 0, 4);
    var version := ReadLE(b, 4, 2);
    var columns := ReadLE(b, 6, 2);
    FieldIs(b, 0, 4, TUPLE_MAGIC);
    FieldIs(b, 4, 2, TUPLE_VERSION);
    FieldIs(b, 6, 2, |schema|);
    ok := magic == TUPLE_MAGIC && version == TUPLE_VERSION && columns == |schema|;
    assert b[..8] == b[0..4] + b[4..6] + b[6..8];
    var head := LE(4, TUPLE_MAGIC) + LE(2, TUPLE_VERSION) + LE(2, |schema|);
    assert head[0..4] == LE(4, TUPLE_MAGIC) && head[4..6] == LE(2, TUPLE_VERSION) && head[6..8] == LE(2, |schema|);
    if b[..8] == head {
      assert b[0..4] == head[0..4] && b[4..6] == head[4..6] && b[6..8] == head[6..8];
    }
  }

  /** A field reads as a number exactly when it holds that number's bytes. */
  lemma FieldIs(b: seq<byte>, offset: nat, width: nat, n: nat)
    requires offset + width <= |b| && width in {2, 4} && n < if width == 2 then 0x1_0000 else 0x1_0000_0000
    ensures Get(b, offset, width) == n <==> b[offset..offset + width] == LE(width, n)
  {
    Pow256Values();
    LERoundTrip(width, n);
    LECanonical(b[offset..offset + width]);
  }
}
