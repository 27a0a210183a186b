/** Rows as fixed-size byte images: one field per column, nine bytes of NULL bits, and the delete flag. */
module RowSerializer {
  import opened ByteCodec
  import opened Options
  import Conversions

  datatype ColumnType = IntColumn | FloatColumn | BoolColumn | StrColumn

  /** A double is its bit pattern; `Blank` is neither NULL nor written. */
  datatype Value = Null | IntValue(i: int32) | FloatValue(d: bits64) | BoolValue(b: bool) | StrValue(s: Bytes) | Blank

  const BITMAP_BYTES: nat := 9
  const FOOTER_BYTES: nat := 10
  const MAX_COLUMNS: nat := 72
  const MAX_STRING: nat := 100

  function TypeSize(t: ColumnType): nat {
    match t
    case IntColumn => 4
    case FloatColumn => 8
    case BoolColumn => 1
    case StrColumn => 104
  }

  /** Where the field of column `i` starts; for the number of columns, where the footer does. */
  function Offset(cols: seq<ColumnType>, i: nat): nat
    requires i <= |cols|
  {
    if i == 0 then 0 else Offset(cols, i - 1) + TypeSize(cols[i - 1])
  }

  function RowSize(cols: seq<ColumnType>): nat {
    Offset(cols, |cols|) + FOOTER_BYTES
  }

  predicate HasType(v: Value, t: ColumnType) {
    match v
    case Null => true
    case IntValue(_) => t == IntColumn
    case FloatValue(_) => t == FloatColumn
    case BoolValue(_) => t == BoolColumn
    case StrValue(s) => t == StrColumn && |s| < 0x8000_0000
    case Blank => t == BoolColumn || t == StrColumn
  }

  predicate Typed(cols: seq<ColumnType>, row: seq<Value>) {
    |row| == |cols| <= MAX_COLUMNS && forall i | 0 <= i < |cols| :: HasType(row[i], cols[i])
  }

  /** The documented layout: 4, 8, 1 and 104 bytes for the types, then 72 bits for NULLs and the delete flag. */
  lemma {:induction false} Widths(cols: seq<ColumnType>, t: ColumnType)
    ensures RowSize(cols + [t]) == RowSize(cols) + match t case IntColumn => 4 case FloatColumn => 8 case BoolColumn => 1 case StrColumn => 104
    ensures RowSize([]) == 10 && MAX_COLUMNS == 72
  {
    OffsetsSame(cols, t, |cols|);
  }

  lemma {:induction false} OffsetsSame(cols: seq<ColumnType>, t: ColumnType, i: nat)
    requires i <= |cols|
    ensures Offset(cols + [t], i) == Offset(cols, i)
  {
    if i > 0 { OffsetsSame(cols, t, i - 1); }
  }

  // --- What a column makes of a value ---------------------------------------------------------------------------

  /**
   The library's conversions of strings to numbers, 0 where they throw, and what the machine makes of a double
   that no integer of 32 bits is cut from.
   */
  datatype Library = Library(toInt: Bytes -> int32, toDouble: Bytes -> bits64, wild: bits64 -> int32)

  /** What is stored for a value of any type. */
  function Converted(lib: Library, t: ColumnType, v: Value): (r: Value)
    requires v.StrValue? ==> |v.s| < 0x8000_0000
    ensures HasType(r, t) && (r.Null? <==> v.Null?)
  {
    if v.Null? then Null
    else match t
      case IntColumn => (
        match v
        case IntValue(i) => v
        case FloatValue(d) => IntValue(if Conversions.CanCast(d) then Conversions.Cut(d) else lib.wild(d))
        case BoolValue(b) => IntValue(if b then 1 else 0)
        case StrValue(s) => IntValue(lib.toInt(s))
        case Blank => IntValue(0)
      )
      case FloatColumn => (
        match v
        case IntValue(i) => FloatValue(Conversions.DoubleOf(i))
        case FloatValue(d) => v
        case BoolValue(b) => FloatValue(Conversions.DoubleOf(if b then 1 else 0))
        case StrValue(s) => FloatValue(lib.toDouble(s))
        case Blank => FloatValue(0)
      )
      case BoolColumn => if v.BoolValue? then v else Blank
      case StrColumn => if v.StrValue? then v else Blank
  }

  predicate Storable(cols: seq<ColumnType>, row: seq<Value>) {
    |row| == |cols| <= MAX_COLUMNS && forall i | 0 <= i < |row| :: row[i].StrValue? ==> |row[i].s| < 0x8000_0000
  }

  function Coerced(lib: Library, cols: seq<ColumnType>, row: seq<Value>): (r: seq<Value>)
    requires Storable(cols, row)
    ensures Typed(cols, r) && forall i | 0 <= i < |r| :: r[i] == Converted(lib, cols[i], row[i])
  {
    seq(|row|, i requires 0 <= i < |row| => Converted(lib, cols[i], row[i]))
  }

  /** A value of its column's type is stored as it is; and what was stored is stored as it is again. */
  lemma StoredAsIs(lib: Library, t: ColumnType, v: Value)
    requires v.StrValue? ==> |v.s| < 0x8000_0000
    ensures HasType(v, t) ==> Converted(lib, t, v) == v
    ensures Converted(lib, t, Converted(lib, t, v)) == Converted(lib, t, v)
  {
  }

  /** An integer column keeps of a double its value without the fraction. */
  lemma StoredInt(lib: Library, d: bits64)
    requires Conversions.CanCast(d)
    ensures
      var v, unit := Conversions.K.Value(d), Pow2(Conversions.UNIT);
      var stored := Converted(lib, IntColumn, FloatValue(d));
      && stored.IntValue?
      && if v >= 0 then stored.i * unit <= v < (stored.i + 1) * unit else (stored.i - 1) * unit < v <= stored.i * unit
  {
    hide Pow2, Conversions.K.Value, Conversions.Cut;
    Conversions.CutTowardsZero(d);
  }

  /** A float column keeps the value of an integer exactly, and an integer column gets it back from there. */
  lemma StoredFloat(lib: Library, i: int32)
    ensures
      var stored := Converted(lib, FloatColumn, IntValue(i));
      && stored.FloatValue? && Conversions.K.Value(stored.d) == i * Pow2(Conversions.UNIT)
      && Converted(lib, IntColumn, stored) == IntValue(i)
  {
    hide Pow2;
    Conversions.DoubleOfValue(i);
    Conversions.CutOfDouble(i);
  }

  /** A truth value is 1 or 0 in a column of numbers; an integer column gets the same from a float column. */
  lemma StoredTruth(lib: Library, b: bool)
    ensures
      var i, d := Converted(lib, IntColumn, BoolValue(b)), Converted(lib, FloatColumn, BoolValue(b));
      && (i == IntValue(1) <==> b)
      && (i == IntValue(0) <==> !b)
      && d.FloatValue? && Conversions.K.Value(d.d) == (if b then 1 else 0) * Pow2(Conversions.UNIT)
      && Converted(lib, IntColumn, d) == i
  {
    hide Pow2;
    Conversions.DoubleOfValue(if b then 1 else 0);
    Conversions.CutOfDouble(if b then 1 else 0);
  }

  /** Text in a column of numbers is what the library reads in it. */
  lemma StoredText(lib: Library, s: Bytes)
    requires |s| < 0x8000_0000
    ensures Converted(lib, IntColumn, StrValue(s)) == IntValue(lib.toInt(s))
    ensures Converted(lib, FloatColumn, StrValue(s)) == FloatValue(lib.toDouble(s))
  {
  }

  /** Any other type in a column of truth values or text reads back as false, or as the empty text. */
  lemma StoredBlank(lib: Library, v: Value)
    requires !v.Null? && (v.StrValue? ==> |v.s| < 0x8000_0000)
    ensures Shown(BoolColumn, Converted(lib, BoolColumn, v)) == if v.BoolValue? then v else BoolValue(false)
    ensures Shown(StrColumn, Converted(lib, StrColumn, v)) == if v.StrValue? then v else StrValue([])
  {
  }

  // --- Fields -------------------------------------------------------------------------------------------------

  /** The bytes written for a value; a string of more than 100 bytes goes past its field. */
  function Written(v: Value): Bytes {
    match v
    case Null => []
    case IntValue(i) => Little(Unsigned(i), 4)
    case FloatValue(d) => Little(d, 8)
    case BoolValue(b) => [if b then 1 else 0]
    case StrValue(s) => Little(|s|, 4) + s
    case Blank => []
  }

  lemma WrittenFits(v: Value, t: ColumnType)
    requires HasType(v, t)
    ensures !v.StrValue? ==> |Written(v)| <= TypeSize(t)
    ensures !v.StrValue? && !v.Null? && !v.Blank? ==> |Written(v)| == TypeSize(t)
    ensures v.StrValue? ==> |Written(v)| == 4 + |v.s| && TypeSize(t) == 4 + MAX_STRING
  {
  }

  /** The byte at `p` of an image, or of the memory behind it. */
  function ByteAt(image: Bytes, behind: nat -> byte, p: nat): byte {
    if p < |image| then image[p] else behind(p - |image|)
  }

  function Stretch(image: Bytes, behind: nat -> byte, at: nat, n: nat): (r: Bytes)
    ensures |r| == n && forall k | 0 <= k < n :: r[k] == ByteAt(image, behind, at + k)
  {
    seq<byte>(n, k requires 0 <= k < n => ByteAt(image, behind, at + k))
  }

  /** What is read from a field. A string is read to its stored length, wherever that ends; a negative length throws. */
  function ReadField(t: ColumnType, image: Bytes, behind: nat -> byte, at: nat): Option<Value>
  {
    match t
    case IntColumn => Some(IntValue(FromInt(Stretch(image, behind, at, 4))))
    case FloatColumn =>
      var b := Stretch(image, behind, at, 8);
      FromLittleBound(b);
      Powers();
      Some(FloatValue(FromLittle(b)))
    case BoolColumn => Some(BoolValue(ByteAt(image, behind, at) == 1))
    case StrColumn =>
      var n := FromInt(Stretch(image, behind, at, 4));
      if n < 0 then None else Some(StrValue(Stretch(image, behind, at + 4, n)))
  }

  // --- NULL bits --------------------------------------------------------------------------------------------------

  predicate Bit(b: nat, j: nat) {
    if j == 0 then b % 2 == 1 else Bit(b / 2, j - 1)
  }

  /** `b | 1 << j`. */
  function SetBit(b: nat, j: nat): nat {
    if j == 0 then b / 2 * 2 + 1 else 2 * SetBit(b / 2, j - 1) + b % 2
  }

  lemma Halved(b: nat, w: nat, x: nat)
    requires b < 2 * w
    ensures b / 2 < w && (x < w ==> 2 * x + b % 2 < 2 * w && 2 * x + 1 < 2 * w)
  {
  }

  lemma {:induction false} SetBitBound(b: nat, j: nat, n: nat)
    requires b < Pow2(n) && j < n
    ensures SetBit(b, j) < Pow2(n)
  {
    Halved(b, Pow2(n - 1), if j == 0 then b / 2 else SetBit(b / 2, j - 1));
    if j > 0 { SetBitBound(b / 2, j - 1, n - 1); }
  }

  lemma {:induction false} SetBitMeaning(b: nat, i: nat, j: nat)
    ensures Bit(SetBit(b, i), j) <==> i == j || Bit(b, j)
  {
    if i > 0 && j > 0 { SetBitMeaning(b / 2, i - 1, j - 1); }
  }

  lemma {:induction false} NoBits(j: nat)
    ensures !Bit(0, j)
  {
    if j > 0 { NoBits(j - 1); }
  }

  lemma Eight()
    ensures Pow2(8) == 256
  {
    assert Pow2(2) == 2 * Pow2(1) && Pow2(4) == 2 * Pow2(3) && Pow2(6) == 2 * Pow2(5);
  }

  function Mark(bitmap: Bytes, i: nat): (r: Bytes)
    requires |bitmap| == BITMAP_BYTES && i < MAX_COLUMNS
    ensures |r| == BITMAP_BYTES
  {
    Eight();
    SetBitBound(bitmap[i / 8], i % 8, 8);
    bitmap[i / 8 := SetBit(bitmap[i / 8], i % 8)]
  }

  /** The bits of the first `n` values. */
  function Bitmap(row: seq<Value>, n: nat): (r: Bytes)
    requires n <= |row| <= MAX_COLUMNS
    ensures |r| == BITMAP_BYTES
  {
    if n == 0 then Zeros(BITMAP_BYTES)
    else if row[n - 1].Null? then Mark(Bitmap(row, n - 1), n - 1)
    else Bitmap(row, n - 1)
  }

  lemma {:induction false} BitmapMeaning(row: seq<Value>, n: nat, i: nat)
    requires n <= |row| <= MAX_COLUMNS && i < MAX_COLUMNS
    ensures Bit(Bitmap(row, n)[i / 8], i % 8) <==> i < n && row[i].Null?
  {
    if n == 0 {
      NoBits(i % 8);
    } else {
      BitmapMeaning(row, n - 1, i);
      var m := n - 1;
      SetBitMeaning(Bitmap(row, m)[m / 8], m % 8, i % 8);
      assert i == m <==> i / 8 == m / 8 && i % 8 == m % 8;
    }
  }

  // --- Images -------------------------------------------------------------------------------------------------------

  /** Copies bytes to place `at`; what would go past the end is not kept. */
  function Over(b: Bytes, at: nat, bytes: Bytes): (r: Bytes)
    requires at <= |b|
    ensures |r| == |b|
    ensures forall p | 0 <= p < |b| :: r[p] == if at <= p < at + |bytes| then bytes[p - at] else b[p]
  {
    if at + |bytes| <= |b| then b[..at] + bytes + b[at + |bytes|..] else b[..at] + bytes[..|b| - at]
  }

  lemma {:induction false} OffsetGrows(cols: seq<ColumnType>, i: nat, n: nat)
    requires i <= n <= |cols|
    ensures Offset(cols, i) <= Offset(cols, n)
  {
    if i < n { OffsetGrows(cols, i, n - 1); }
  }

  /** The buffer after the first `n` columns. */
  function Fields(cols: seq<ColumnType>, row: seq<Value>, n: nat): (r: Bytes)
    requires Typed(cols, row) && n <= |cols|
    ensures |r| == RowSize(cols)
  {
    if n == 0 then Zeros(RowSize(cols))
    else OffsetGrows(cols, n - 1, |cols|); Over(Fields(cols, row, n - 1), Offset(cols, n - 1), Written(row[n - 1]))
  }

  function Image(cols: seq<ColumnType>, row: seq<Value>): (r: Bytes)
    requires Typed(cols, row)
    ensures |r| == RowSize(cols)
  {
    Over(Fields(cols, row, |cols|), Offset(cols, |cols|), Bitmap(row, |row|))
  }

  /** Column by column what is read from an image; none where the source throws. */
  function Decoded(cols: seq<ColumnType>, image: Bytes, behind: nat -> byte): (r: seq<Option<Value>>)
    requires |cols| <= MAX_COLUMNS && |image| == RowSize(cols)
    ensures |r| == |cols|
    ensures forall i | 0 <= i < |cols| :: r[i] == DecodedAt(cols, image, behind, i)
  {
    seq(|cols|, i requires 0 <= i < |cols| => DecodedAt(cols, image, behind, i))
  }

  predicate IsNull(cols: seq<ColumnType>, image: Bytes, i: nat)
    requires i < |cols| <= MAX_COLUMNS && |image| == RowSize(cols)
  {
    Bit(image[Offset(cols, |cols|) + i / 8], i % 8)
  }

  function DecodedAt(cols: seq<ColumnType>, image: Bytes, behind: nat -> byte, i: nat): Option<Value>
    requires i < |cols| <= MAX_COLUMNS && |image| == RowSize(cols)
  {
    if IsNull(cols, image, i) then Some(Null) else ReadField(cols[i], image, behind, Offset(cols, i))
  }

  // --- Which write a byte comes from -------------------------------------------------------------------------------

  /** The byte left at `p` by the first `n` columns: that of the last one that reaches there. */
  function LastWrite(cols: seq<ColumnType>, row: seq<Value>, n: nat, p: nat): byte
    requires |row| == |cols| && n <= |cols|
  {
    if n == 0 then 0
    else
      var at := Offset(cols, n - 1);
      if at <= p < at + |Written(row[n - 1])| then Written(row[n - 1])[p - at] else LastWrite(cols, row, n - 1, p)
  }

  lemma {:induction false} FieldsAt(cols: seq<ColumnType>, row: seq<Value>, n: nat, p: nat)
    requires Typed(cols, row) && n <= |cols| && p < RowSize(cols)
    ensures Fields(cols, row, n)[p] == LastWrite(cols, row, n, p)
  {
    if n > 0 {
      OffsetGrows(cols, n - 1, |cols|);
      FieldsAt(cols, row, n - 1, p);
    }
  }

  /** The byte that lies at `p` once a row is in place, in the image or behind it. */
  function Lying(cols: seq<ColumnType>, row: seq<Value>, behind: nat -> byte, p: nat): byte
    requires Typed(cols, row)
  {
    var end := Offset(cols, |cols|);
    if end <= p < end + BITMAP_BYTES then Bitmap(row, |row|)[p - end]
    else if p < RowSize(cols) then LastWrite(cols, row, |cols|, p)
    else behind(p - RowSize(cols))
  }

  lemma {:induction false} ImageAt(cols: seq<ColumnType>, row: seq<Value>, behind: nat -> byte, p: nat)
    requires Typed(cols, row)
    ensures ByteAt(Image(cols, row), behind, p) == Lying(cols, row, behind, p)
  {
    if p < RowSize(cols) { FieldsAt(cols, row, |cols|, p); }
  }

  /** No later column reaches back into the field of column `i`. */
  lemma {:induction false} OwnField(cols: seq<ColumnType>, row: seq<Value>, i: nat, n: nat, p: nat)
    requires |row| == |cols| && i < n <= |cols|
    requires Offset(cols, i) <= p < Offset(cols, i + 1) && p < Offset(cols, i) + |Written(row[i])|
    ensures LastWrite(cols, row, n, p) == Written(row[i])[p - Offset(cols, i)]
  {
    hide Written;
    if n > i + 1 {
      OffsetGrows(cols, i + 1, n - 1);
      OwnField(cols, row, i, n - 1, p);
    }
  }

  lemma {:induction false} SameColumns(cols: seq<ColumnType>, row: seq<Value>)
    requires Typed(cols, row)
    ensures |row| == |cols| <= MAX_COLUMNS
  {
  }

  /** The bytes of a value inside its field are the ones that lie there. */
  lemma {:induction false} OwnBytes(cols: seq<ColumnType>, row: seq<Value>, behind: nat -> byte, i: nat, p: nat)
    requires Typed(cols, row) && i < |cols|
    requires Offset(cols, i) <= p < Offset(cols, i + 1) && p < Offset(cols, i) + |Written(row[i])|
    ensures ByteAt(Image(cols, row), behind, p) == Written(row[i])[p - Offset(cols, i)]
  {
    hide Image, Written, LastWrite, Typed;
    OffsetGrows(cols, i + 1, |cols|);
    ImageAt(cols, row, behind, p);
    SameColumns(cols, row);
    OwnField(cols, row, i, |cols|, p);
  }

  // --- Round trips -----------------------------------------------------------------------------------------------------

  /**
   A value keeps its bytes: always, but for a string of more than 100, of which those past the field must be
   what lies there once later columns, the NULL bits and whatever is behind the image have had their turn; and
   a field that was not written must not have been overrun.
   */
  predicate Survives(cols: seq<ColumnType>, row: seq<Value>, behind: nat -> byte, i: nat)
    requires Typed(cols, row) && i < |cols|
  {
    match row[i]
    case StrValue(s) => forall k | MAX_STRING <= k < |s| :: Lying(cols, row, behind, Offset(cols, i) + 4 + k) == s[k]
    case Blank =>
      if cols[i].BoolColumn? then Lying(cols, row, behind, Offset(cols, i)) != 1
      else forall p | Offset(cols, i) <= p < Offset(cols, i) + 4 :: Lying(cols, row, behind, p) == 0
    case _ => true
  }

  /** What a value reads as: a field that was not written is false, or the empty string. */
  function Shown(t: ColumnType, v: Value): Value {
    if !v.Blank? then v else if t.BoolColumn? then BoolValue(false) else StrValue([])
  }

  lemma {:induction false} NullBits(cols: seq<ColumnType>, row: seq<Value>, i: nat)
    requires Typed(cols, row) && i < |cols|
    ensures IsNull(cols, Image(cols, row), i) <==> row[i].Null?
  {
    hide Bit, Fields;
    BitmapMeaning(row, |row|, i);
  }

  /** The part of a field that holds a number is read back as it was written. */
  lemma {:induction false} ReadBack(cols: seq<ColumnType>, row: seq<Value>, behind: nat -> byte, i: nat)
    requires Typed(cols, row) && i < |cols| && !row[i].Null? && !row[i].Blank?
    ensures
      var n := if row[i].StrValue? then 4 else TypeSize(cols[i]);
      n <= |Written(row[i])| && Stretch(Image(cols, row), behind, Offset(cols, i), n) == Written(row[i])[..n]
  {
    hide Image, Written;
    WrittenFits(row[i], cols[i]);
    var n := if row[i].StrValue? then 4 else TypeSize(cols[i]);
    forall k | 0 <= k < n ensures ByteAt(Image(cols, row), behind, Offset(cols, i) + k) == Written(row[i])[k] {
      OwnBytes(cols, row, behind, i, Offset(cols, i) + k);
    }
  }

  lemma {:induction false} ReadNumber(cols: seq<ColumnType>, row: seq<Value>, behind: nat -> byte, i: nat)
    requires Typed(cols, row) && i < |cols| && !row[i].Null? && !row[i].StrValue? && !row[i].Blank?
    ensures ReadField(cols[i], Image(cols, row), behind, Offset(cols, i)) == Some(row[i])
  {
    hide Image;
    ReadBack(cols, row, behind, i);
    Powers();
    match row[i]
    case IntValue(v) => IntRoundTrip(v); assert Little(Unsigned(v), 4)[..4] == Little(Unsigned(v), 4);
    case FloatValue(d) => LittleRoundTrip(d, 8); assert Little(d, 8)[..8] == Little(d, 8);
    case BoolValue(b) => assert Stretch(Image(cols, row), behind, Offset(cols, i), 1)[0] == if b then 1 else 0;
  }

  /** A string is read back to its full length, and its text is what lies there. */
  lemma {:induction false} ReadString(cols: seq<ColumnType>, row: seq<Value>, behind: nat -> byte, i: nat)
    requires Typed(cols, row) && i < |cols| && row[i].StrValue?
    ensures
      var n := |row[i].s|;
      ReadField(cols[i], Image(cols, row), behind, Offset(cols, i))
        == Some(StrValue(Stretch(Image(cols, row), behind, Offset(cols, i) + 4, n)))
  {
    hide Image;
    ReadBack(cols, row, behind, i);
    var s := row[i].s;
    assert Written(row[i])[..4] == Little(|s|, 4);
    IntRoundTrip(|s|);
  }

  lemma {:induction false} DecodedAtExact(cols: seq<ColumnType>, row: seq<Value>, behind: nat -> byte, i: nat)
    requires Typed(cols, row) && i < |cols|
    ensures DecodedAt(cols, Image(cols, row), behind, i) == Some(Shown(cols[i], row[i])) <==> Survives(cols, row, behind, i)
  {
    hide Image, Lying;
    NullBits(cols, row, i);
    if row[i].StrValue? {
      ReadString(cols, row, behind, i);
      TextExact(cols, row, behind, i);
    } else if row[i].Blank? {
      BlankExact(cols, row, behind, i);
    } else if !row[i].Null? {
      ReadNumber(cols, row, behind, i);
    }
  }

  /** Four bytes spell zero exactly if they are zeros. */
  lemma ZeroWord(b: Bytes)
    requires |b| == 4
    ensures FromInt(b) == 0 <==> forall k | 0 <= k < 4 :: b[k] == 0
  {
    assert b[1..][1..] == b[2..] && b[2..][1..] == b[3..] && b[3..][1..] == [];
    assert FromLittle(b[3..]) == b[3] && FromLittle(b[2..]) == b[2] as int + 256 * b[3] as int;
    assert FromLittle(b[1..]) == b[1] as int + 256 * FromLittle(b[2..]);
    assert FromWord(b) == b[0] as int + 256 * FromLittle(b[1..]);
  }

  lemma {:induction false} BlankExact(cols: seq<ColumnType>, row: seq<Value>, behind: nat -> byte, i: nat)
    requires Typed(cols, row) && i < |cols| && row[i].Blank?
    ensures ReadField(cols[i], Image(cols, row), behind, Offset(cols, i)) == Some(Shown(cols[i], row[i]))
       <==> Survives(cols, row, behind, i)
  {
    hide Image, Lying, FromInt;
    var at := Offset(cols, i);
    if cols[i].BoolColumn? {
      ImageAt(cols, row, behind, at);
    } else {
      var word := Stretch(Image(cols, row), behind, at, 4);
      forall k | 0 <= k < 4 ensures word[k] == Lying(cols, row, behind, at + k) {
        ImageAt(cols, row, behind, at + k);
      }
      ZeroWord(word);
      if FromInt(word) == 0 {
        forall p | at <= p < at + 4 ensures Lying(cols, row, behind, p) == 0 {
          assert word[p - at] == 0;
        }
      }
    }
  }

  lemma {:induction false} TextExact(cols: seq<ColumnType>, row: seq<Value>, behind: nat -> byte, i: nat)
    requires Typed(cols, row) && i < |cols| && row[i].StrValue?
    ensures Stretch(Image(cols, row), behind, Offset(cols, i) + 4, |row[i].s|) == row[i].s <==> Survives(cols, row, behind, i)
  {
    hide Image, Lying;
    var s, at := row[i].s, Offset(cols, i) + 4;
    var text := Stretch(Image(cols, row), behind, at, |s|);
    forall k | 0 <= k < |s| ensures text[k] == if k < MAX_STRING then s[k] else Lying(cols, row, behind, at + k) {
      if k < MAX_STRING {
        OwnBytes(cols, row, behind, i, at + k);
      } else {
        ImageAt(cols, row, behind, at + k);
      }
    }
    if text == s {
      assert forall k | MAX_STRING <= k < |s| :: Lying(cols, row, behind, Offset(cols, i) + 4 + k) == text[k];
    }
  }

  /** The row as it should be read back. */
  function Expected(cols: seq<ColumnType>, row: seq<Value>): (r: seq<Option<Value>>)
    requires |row| == |cols|
    ensures |r| == |row| && forall i | 0 <= i < |r| :: r[i] == Some(Shown(cols[i], row[i]))
  {
    seq(|row|, i requires 0 <= i < |row| => Some(Shown(cols[i], row[i])))
  }

  /** Decoding the image of a row gives the row if and only if every value keeps its bytes. */
  lemma {:induction false} RowRoundTrip(cols: seq<ColumnType>, row: seq<Value>, behind: nat -> byte)
    requires Typed(cols, row)
    ensures Decoded(cols, Image(cols, row), behind) == Expected(cols, row)
       <==> forall i | 0 <= i < |cols| :: Survives(cols, row, behind, i)
  {
    hide Image, DecodedAt, Survives, Shown;
    var got, want := Decoded(cols, Image(cols, row), behind), Expected(cols, row);
    forall i | 0 <= i < |cols| ensures got[i] == want[i] <==> Survives(cols, row, behind, i) {
      DecodedAtExact(cols, row, behind, i);
    }
  }

  /** Rows whose strings fit their fields come back whatever is behind the image. */
  lemma {:induction false} ShortStringsSurvive(cols: seq<ColumnType>, row: seq<Value>, behind: nat -> byte)
    requires Typed(cols, row) && forall i | 0 <= i < |row| && row[i].StrValue? :: |row[i].s| <= MAX_STRING
    ensures forall i | 0 <= i < |cols| :: Survives(cols, row, behind, i)
  {
    forall i | 0 <= i < |cols| && row[i].Blank? ensures Survives(cols, row, behind, i) {
      hide Lying, HasType;
      UnwrittenIsZero(cols, row, behind, i);
    }
  }

  /** Where all strings fit their fields, no column writes into another one's. */
  lemma {:induction false} UnwrittenIsZero(cols: seq<ColumnType>, row: seq<Value>, behind: nat -> byte, i: nat)
    requires Typed(cols, row) && i < |cols| && row[i].Blank?
    requires forall j | 0 <= j < |row| && row[j].StrValue? :: |row[j].s| <= MAX_STRING
    ensures forall p | Offset(cols, i) <= p < Offset(cols, i + 1) :: Lying(cols, row, behind, p) == 0
  {
    OffsetGrows(cols, i + 1, |cols|);
    forall p | Offset(cols, i) <= p < Offset(cols, i + 1) ensures Lying(cols, row, behind, p) == 0 {
      NoOtherWrites(cols, row, i, |cols|, p);
    }
  }

  lemma {:induction false} NoOtherWrites(cols: seq<ColumnType>, row: seq<Value>, i: nat, n: nat, p: nat)
    requires Typed(cols, row) && i < |cols| && n <= |cols| && row[i].Blank?
    requires forall j | 0 <= j < |row| && row[j].StrValue? :: |row[j].s| <= MAX_STRING
    requires Offset(cols, i) <= p < Offset(cols, i + 1)
    ensures LastWrite(cols, row, n, p) == 0
  {
    hide HasType, Offset, Written;
    if n > 0 {
      NoOtherWrites(cols, row, i, n - 1, p);
      WritesBeside(cols, row, i, n - 1, p);
    }
  }

  /** No column reaches into the field of one for which nothing is written. */
  lemma {:induction false} WritesBeside(cols: seq<ColumnType>, row: seq<Value>, i: nat, j: nat, p: nat)
    requires Typed(cols, row) && i < |cols| && j < |cols| && row[i].Blank?
    requires row[j].StrValue? ==> |row[j].s| <= MAX_STRING
    requires Offset(cols, i) <= p < Offset(cols, i + 1)
    ensures !(Offset(cols, j) <= p < Offset(cols, j) + |Written(row[j])|)
  {
    if i == j {
      assert Written(row[j]) == [];
    } else {
      WrittenFits(row[j], cols[j]);
      hide HasType, Written;
      FieldEnds(cols, j);
      hide Offset;
      if j < i { OffsetGrows(cols, j + 1, i); } else { OffsetGrows(cols, i + 1, j); }
    }
  }

  lemma {:induction false} FieldEnds(cols: seq<ColumnType>, j: nat)
    requires j < |cols|
    ensures Offset(cols, j + 1) == Offset(cols, j) + TypeSize(cols[j])
  {
  }

  // --- Serializing again -----------------------------------------------------------------------------------------------

  /** Every value has its column's type. */
  predicate WellTyped(cols: seq<ColumnType>, row: seq<Value>) {
    Typed(cols, row) && forall i | 0 <= i < |row| :: !row[i].Blank?
  }

  /** The row as it is read back: strings with the text that lies there, everything else unchanged. */
  function Reread(cols: seq<ColumnType>, row: seq<Value>, behind: nat -> byte): (r: seq<Value>)
    requires WellTyped(cols, row)
    ensures WellTyped(cols, r)
    ensures forall i | 0 <= i < |cols| :: r[i] == RereadAt(cols, row, behind, i)
  {
    seq(|row|, i requires 0 <= i < |row| => RereadAt(cols, row, behind, i))
  }

  function RereadAt(cols: seq<ColumnType>, row: seq<Value>, behind: nat -> byte, i: nat): (v: Value)
    requires WellTyped(cols, row) && i < |cols|
    ensures HasType(v, cols[i]) && !v.Blank?
  {
    if row[i].StrValue? then StrValue(Stretch(Image(cols, row), behind, Offset(cols, i) + 4, |row[i].s|)) else row[i]
  }

  lemma {:induction false} RereadIs(cols: seq<ColumnType>, row: seq<Value>, behind: nat -> byte, i: nat)
    requires WellTyped(cols, row) && i < |cols|
    ensures DecodedAt(cols, Image(cols, row), behind, i) == Some(Reread(cols, row, behind)[i])
  {
    hide Image;
    NullBits(cols, row, i);
    if row[i].StrValue? {
      ReadString(cols, row, behind, i);
    } else if !row[i].Null? {
      ReadNumber(cols, row, behind, i);
    }
  }

  /** Every byte the row as read back would write is the one that lies there already. */
  lemma {:induction false} WritesWhatLies(cols: seq<ColumnType>, row: seq<Value>, behind: nat -> byte, i: nat, p: nat)
    requires WellTyped(cols, row) && i < |cols|
    requires Offset(cols, i) <= p < Offset(cols, i) + |Written(row[i])|
    ensures |Written(Reread(cols, row, behind)[i])| == |Written(row[i])|
    ensures Written(Reread(cols, row, behind)[i])[p - Offset(cols, i)] == Lying(cols, row, behind, p)
  {
    hide Image, Lying, Little, Reread, Offset, HasType, ByteAt;
    ImageAt(cols, row, behind, p);
    if !row[i].StrValue? || p < Offset(cols, i) + 4 {
      WrittenFits(row[i], cols[i]);
      FieldEnds(cols, i);
      OwnBytes(cols, row, behind, i, p);
    } else {
      var text := Stretch(Image(cols, row), behind, Offset(cols, i) + 4, |row[i].s|);
      assert text[p - Offset(cols, i) - 4] == ByteAt(Image(cols, row), behind, p);
    }
  }

  /** Some of the first `n` columns reaches byte `p`. */
  predicate Covered(cols: seq<ColumnType>, row: seq<Value>, n: nat, p: nat)
    requires |row| == |cols| && n <= |cols|
  {
    exists i | 0 <= i < n :: Offset(cols, i) <= p < Offset(cols, i) + |Written(row[i])|
  }

  lemma {:induction false} CoveredStep(cols: seq<ColumnType>, row: seq<Value>, n: nat, p: nat)
    requires |row| == |cols| && n <= |cols|
    ensures Covered(cols, row, n, p) <==>
              n > 0 && (Covered(cols, row, n - 1, p) || Offset(cols, n - 1) <= p < Offset(cols, n - 1) + |Written(row[n - 1])|)
  {
  }

  lemma {:induction false} LastIsLying(cols: seq<ColumnType>, row: seq<Value>, behind: nat -> byte, n: nat, p: nat)
    requires WellTyped(cols, row) && n <= |cols|
    ensures LastWrite(cols, Reread(cols, row, behind), n, p) == if Covered(cols, row, n, p) then Lying(cols, row, behind, p) else 0
  {
    hide Lying, Written, Reread, Covered, Offset;
    CoveredStep(cols, row, n, p);
    if n > 0 {
      LastIsLying(cols, row, behind, n - 1, p);
      SameLength(cols, row, behind, n - 1);
      if Offset(cols, n - 1) <= p < Offset(cols, n - 1) + |Written(row[n - 1])| {
        WritesWhatLies(cols, row, behind, n - 1, p);
      }
    }
  }

  lemma {:induction false} SameLength(cols: seq<ColumnType>, row: seq<Value>, behind: nat -> byte, i: nat)
    requires WellTyped(cols, row) && i < |cols|
    ensures |Written(Reread(cols, row, behind)[i])| == |Written(row[i])|
  {
    hide Image;
  }

  lemma {:induction false} LastUncovered(cols: seq<ColumnType>, row: seq<Value>, n: nat, p: nat)
    requires |row| == |cols| && n <= |cols|
    ensures !Covered(cols, row, n, p) ==> LastWrite(cols, row, n, p) == 0
  {
    if n > 0 { LastUncovered(cols, row, n - 1, p); }
  }

  /** Serializing what was decoded gives the same bytes, for every row, even where decoding did not give the row back. */
  lemma {:induction false} ImageRoundTrip(cols: seq<ColumnType>, row: seq<Value>, behind: nat -> byte)
    requires WellTyped(cols, row)
    ensures
      var again := Reread(cols, row, behind);
      && (forall i | 0 <= i < |cols| :: DecodedAt(cols, Image(cols, row), behind, i) == Some(again[i]))
      && Image(cols, again) == Image(cols, row)
  {
    hide Image, LastWrite, Reread;
    var again := Reread(cols, row, behind);
    forall i | 0 <= i < |cols| ensures DecodedAt(cols, Image(cols, row), behind, i) == Some(again[i]) {
      RereadIs(cols, row, behind, i);
    }
    SameNulls(cols, row, behind, |row|);
    forall p | 0 <= p < RowSize(cols) ensures Image(cols, again)[p] == Image(cols, row)[p] {
      ImageAt(cols, row, behind, p);
      ImageAt(cols, again, behind, p);
      LastIsLying(cols, row, behind, |cols|, p);
      LastUncovered(cols, row, |cols|, p);
    }
  }

  lemma {:induction false} SameNulls(cols: seq<ColumnType>, row: seq<Value>, behind: nat -> byte, n: nat)
    requires WellTyped(cols, row) && n <= |row|
    ensures Bitmap(Reread(cols, row, behind), n) == Bitmap(row, n)
  {
    hide Image, Mark;
    if n > 0 { SameNulls(cols, row, behind, n - 1); }
  }

  // --- The delete flag ---------------------------------------------------------------------------------------------------

  /** The image with another delete flag. */
  function Flagged(image: Bytes, flag: byte): (r: Bytes)
    requires |image| >= 1
    ensures |r| == |image|
  {
    image[|image| - 1 := flag]
  }

  /** Reading column `i` runs through the delete flag: a string, not NULL, with a stored length that long. */
  predicate ReachesFlag(cols: seq<ColumnType>, image: Bytes, behind: nat -> byte, i: nat)
    requires i < |cols| <= MAX_COLUMNS && |image| == RowSize(cols)
  {
    && !IsNull(cols, image, i) && cols[i].StrColumn?
    && Offset(cols, i) + 4 + FromInt(Stretch(image, behind, Offset(cols, i), 4)) >= RowSize(cols)
  }

  lemma StretchBefore(image: Bytes, image': Bytes, behind: nat -> byte, at: nat, n: nat)
    requires |image'| == |image| >= 1 && image'[..|image| - 1] == image[..|image| - 1] && at + n < |image|
    ensures Stretch(image', behind, at, n) == Stretch(image, behind, at, n)
  {
    forall p | at <= p < at + n ensures ByteAt(image', behind, p) == ByteAt(image, behind, p) {
      assert image'[p] == image'[..|image| - 1][p];
    }
  }

  lemma {:induction false} FlagLeaves(cols: seq<ColumnType>, image: Bytes, behind: nat -> byte, i: nat, flag: byte)
    requires i < |cols| <= MAX_COLUMNS && |image| == RowSize(cols)
    ensures var image' := Flagged(image, flag);
            && IsNull(cols, image', i) == IsNull(cols, image, i)
            && forall n: nat | n <= TypeSize(cols[i]) ::
                 Stretch(image', behind, Offset(cols, i), n) == Stretch(image, behind, Offset(cols, i), n)
  {
    var image' := Flagged(image, flag);
    OffsetGrows(cols, i + 1, |cols|);
    forall n: nat | n <= TypeSize(cols[i])
      ensures Stretch(image', behind, Offset(cols, i), n) == Stretch(image, behind, Offset(cols, i), n)
    {
      StretchBefore(image, image', behind, Offset(cols, i), n);
    }
  }

  lemma {:induction false} FlagAtColumn(cols: seq<ColumnType>, image: Bytes, behind: nat -> byte, i: nat, flag: byte)
    requires i < |cols| <= MAX_COLUMNS && |image| == RowSize(cols)
    ensures DecodedAt(cols, Flagged(image, flag), behind, i) == DecodedAt(cols, image, behind, i)
       <==> !ReachesFlag(cols, image, behind, i) || image[RowSize(cols) - 1] == flag
  {
    hide IsNull, Stretch;
    var image', at := Flagged(image, flag), Offset(cols, i);
    FlagLeaves(cols, image, behind, i, flag);
    OffsetGrows(cols, i + 1, |cols|);
    assert Stretch(image', behind, at, TypeSize(cols[i])) == Stretch(image, behind, at, TypeSize(cols[i]));
    match cols[i]
    case IntColumn =>
    case FloatColumn =>
    case BoolColumn => assert ByteAt(image', behind, at) == ByteAt(image, behind, at);
    case StrColumn =>
      assert Stretch(image', behind, at, 4) == Stretch(image, behind, at, 4);
      var n := FromInt(Stretch(image, behind, at, 4));
      if n >= 0 { FlagInText(image, image', behind, at + 4, n); }
  }

  lemma FlagInText(image: Bytes, image': Bytes, behind: nat -> byte, at: nat, n: nat)
    requires at < |image| && |image'| == |image| && image' == image[|image| - 1 := image'[|image| - 1]]
    ensures Stretch(image', behind, at, n) == Stretch(image, behind, at, n)
       <==> at + n < |image| || image'[|image| - 1] == image[|image| - 1]
  {
    if at + n < |image| {
      StretchBefore(image, image', behind, at, n);
    } else if image'[|image| - 1] != image[|image| - 1] {
      assert Stretch(image', behind, at, n)[|image| - 1 - at] == image'[|image| - 1];
      assert Stretch(image, behind, at, n)[|image| - 1 - at] == image[|image| - 1];
    } else {
      assert image' == image;
    }
  }

  /** Setting or clearing the delete flag changes nothing that is decoded if and only if no string reaches it. */
  lemma {:induction false} FlagIsIgnored(cols: seq<ColumnType>, image: Bytes, behind: nat -> byte)
    requires |cols| <= MAX_COLUMNS && |image| == RowSize(cols)
    ensures (forall flag: byte :: Decoded(cols, Flagged(image, flag), behind) == Decoded(cols, image, behind))
       <==> forall i | 0 <= i < |cols| :: !ReachesFlag(cols, image, behind, i)
  {
    hide DecodedAt, ReachesFlag;
    if forall i | 0 <= i < |cols| :: !ReachesFlag(cols, image, behind, i) {
      forall flag: byte ensures Decoded(cols, Flagged(image, flag), behind) == Decoded(cols, image, behind) {
        forall i | 0 <= i < |cols| { FlagAtColumn(cols, image, behind, i, flag); }
      }
    } else {
      var i :| 0 <= i < |cols| && ReachesFlag(cols, image, behind, i);
      var flag: byte := if image[RowSize(cols) - 1] == 0 then 1 else 0;
      FlagAtColumn(cols, image, behind, i, flag);
      assert Decoded(cols, Flagged(image, flag), behind)[i] != Decoded(cols, image, behind)[i];
    }
  }

  // --- A string that is too long ---------------------------------------------------------------------------------------------

  /** 110 bytes in a table of one column: the last one is taken for the delete flag, and those before it are lost. */
  lemma LongStringOverruns(behind: nat -> byte, c: byte)
    requires c != 0
    ensures
      var cols, s := [StrColumn], seq<byte>(110, _ => c);
      var image := Image(cols, [StrValue(s)]);
      && image[RowSize(cols) - 1] == c
      && !Survives(cols, [StrValue(s)], behind, 0)
      && ReachesFlag(cols, image, behind, 0)
  {
    var cols, s := [StrColumn], seq<byte>(110, _ => c);
    var row := [StrValue(s)];
    assert Typed(cols, row);
    assert Offset(cols, 1) == Offset(cols, 0) + 104 == 104;
    hide Image;
    ImageAt(cols, row, behind, 113);
    assert LastWrite(cols, row, 1, 113) == Written(row[0])[113] == s[109];
    NullBits(cols, row, 0);
    ReadBack(cols, row, behind, 0);
    assert Written(row[0])[..4] == Little(110, 4);
    IntRoundTrip(110);
    FreshBit(row);
    assert Lying(cols, row, behind, Offset(cols, 0) + 4 + 100) == 0 != row[0].s[100];
  }

  lemma FreshBit(row: seq<Value>)
    requires |row| == 1 && !row[0].Null?
    ensures Bitmap(row, 1) == Zeros(BITMAP_BYTES)
  {
    assert Bitmap(row, 0) == Zeros(BITMAP_BYTES);
  }

  // --- The methods ----------------------------------------------------------------------------------------------------

  method WriteOver(buffer: array<byte>, at: nat, bytes: Bytes)
    requires at <= buffer.Length
    modifies buffer
    ensures buffer[..] == Over(old(buffer[..]), at, bytes)
  {
    CopyInto(buffer, at, if at + |bytes| <= buffer.Length then bytes else bytes[..buffer.Length - at]);
  }

  /** The image of a row of values of any types. Bytes of a string that go past the end of the buffer are dropped here. */
  method Serialize(lib: Library, cols: seq<ColumnType>, given: seq<Value>) returns (buffer: array<byte>)
    requires Storable(cols, given)
    ensures fresh(buffer) && buffer[..] == Image(cols, Coerced(lib, cols, given))
  {
    hide Written, Mark, HasType, Converted, Over;
    ghost var row := Coerced(lib, cols, given);
    buffer := new byte[RowSize(cols)](_ => 0);
    assert buffer[..] == Fields(cols, row, 0);
    var nullBitmap := Zeros(BITMAP_BYTES);
    var offset := 0;
    for i := 0 to |cols|
      invariant offset == Offset(cols, i) && buffer.Length == RowSize(cols) && fresh(buffer)
      invariant buffer[..] == Fields(cols, row, i)
      invariant nullBitmap == Bitmap(row, i)
    {
      OffsetGrows(cols, i, |cols|);
      OffsetGrows(cols, i + 1, |cols|);
      if given[i].Null? {
        nullBitmap := Mark(nullBitmap, i);
        NothingWritten(buffer[..], offset);
      } else {
        WriteOver(buffer, offset, Written(Converted(lib, cols[i], given[i])));
      }
      offset := offset + TypeSize(cols[i]);
    }
    CopyInto(buffer, RowSize(cols) - FOOTER_BYTES, nullBitmap);
  }

  lemma NothingWritten(b: Bytes, at: nat)
    requires at <= |b|
    ensures Over(b, at, Written(Null)) == b
  {
  }

  /** Reads the columns one by one, and throws at the first string of negative length. */
  method Deserialize(cols: seq<ColumnType>, data: Bytes, behind: nat -> byte) returns (row: Option<seq<Value>>)
    requires |cols| <= MAX_COLUMNS && |data| == RowSize(cols)
    ensures row.None? <==> exists i | 0 <= i < |cols| :: Decoded(cols, data, behind)[i].None?
    ensures row.Some? ==>
              |row.value| == |cols| && forall i | 0 <= i < |cols| :: Decoded(cols, data, behind)[i] == Some(row.value[i])
  {
    hide ReadField, Bit;
    var footerStart := |data| - FOOTER_BYTES;
    var values: seq<Value> := [];
    var offset := 0;
    for i := 0 to |cols|
      invariant offset == Offset(cols, i) && |values| == i
      invariant forall j | 0 <= j < i :: Decoded(cols, data, behind)[j] == Some(values[j])
    {
      OffsetGrows(cols, i + 1, |cols|);
      var v := Some(Null);
      if !Bit(data[footerStart + i / 8], i % 8) {
        v := ReadField(cols[i], data, behind, offset);
      }
      assert v == DecodedAt(cols, data, behind, i);
      if v.None? {
        assert Decoded(cols, data, behind)[i].None?;
        return None;
      }
      values := values + [v.value];
      offset := offset + TypeSize(cols[i]);
    }
    row := Some(values);
  }
}
