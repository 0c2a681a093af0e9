/**
 * TextOrBytes (src/Stl/Serialization/TextOrBytes.cs): a serialized payload
 * that is either text or raw bytes.  Both are kept as bytes; text is stored
 * as its UTF-16 code units, two bytes each, low byte first, and read back
 * the same way.  ToString renders the length and at most maxLength
 * elements: the characters of a text, the hex digits of bytes.
 */
module Serialization {
  import opened Wrappers

  newtype byte = x: int | 0 <= x < 0x100
  /** A UTF-16 code unit: the model of a .NET char. */
  newtype Utf16 = x: int | 0 <= x < 0x1_0000

  datatype DataFormat = Bytes | Text

  datatype TextOrBytes = TextOrBytes(format: DataFormat, data: seq<byte>)

  // ---------------------------------------------------------------------
  // The char view of the data: Cast<char, byte> and Cast<byte, char>

  /** The bytes of a text, two per code unit, low byte first. */
  function EncodeChars(text: seq<Utf16>): (r: seq<byte>)
    ensures |r| == 2 * |text|
  {
    if text == [] then []
    else [(text[0] as int % 0x100) as byte, (text[0] as int / 0x100) as byte] + EncodeChars(text[1..])
  }

  /** The code units the bytes hold; a trailing odd byte is not part of any. */
  function DecodeChars(data: seq<byte>): (r: seq<Utf16>)
    ensures |r| == |data| / 2
    decreases |data|
  {
    if |data| < 2 then []
    else [(data[0] as int + 0x100 * data[1] as int) as Utf16] + DecodeChars(data[2..])
  }

  /** Reading the bytes of a text back as chars gives the text. */
  lemma {:induction false} DecodeEncode(text: seq<Utf16>)
    ensures DecodeChars(EncodeChars(text)) == text
  {
    if text != [] {
      DecodeEncode(text[1..]);
      var e := EncodeChars(text);
      assert e[2..] == EncodeChars(text[1..]);
      assert [text[0]] + text[1..] == text;
    }
  }

  // ---------------------------------------------------------------------
  // Construction (lines 20-40)

  const EmptyBytes: TextOrBytes := TextOrBytes(Bytes, [])
  const EmptyText: TextOrBytes := TextOrBytes(Text, [])

  /** TextOrBytes(string) and TextOrBytes(ReadOnlyMemory<char>). */
  function FromText(text: seq<Utf16>): (t: TextOrBytes)
    ensures t.format == Text && |t.data| == 2 * |text|
  {
    TextOrBytes(Text, EncodeChars(text))
  }

  /** TextOrBytes(byte[]) and TextOrBytes(ReadOnlyMemory<byte>). */
  function FromBytes(bytes: seq<byte>): (t: TextOrBytes)
    ensures t.format == Bytes && t.data == bytes
  {
    TextOrBytes(Bytes, bytes)
  }

  /** IsEmpty (line 27). */
  predicate IsEmpty(t: TextOrBytes) {
    |t.data| == 0
  }

  /** The empty constants are empty, each in its own format; a text is empty exactly when it has no chars. */
  lemma EmptyValues(text: seq<Utf16>, bytes: seq<byte>)
    ensures IsEmpty(EmptyBytes) && EmptyBytes.format == Bytes
    ensures IsEmpty(EmptyText) && EmptyText.format == Text
    ensures IsEmpty(FromText(text)) <==> text == []
    ensures IsEmpty(FromBytes(bytes)) <==> bytes == []
  {
  }

  /** Bytes (line 24): a fresh array holding the data. */
  method BytesOf(t: TextOrBytes) returns (a: array<byte>)
    ensures fresh(a) && a[..] == t.data
  {
    a := new byte[|t.data|](i requires 0 <= i < |t.data| => t.data[i]);
  }

  // ---------------------------------------------------------------------
  // The views (lines 65-85)

  /** IsText: the chars of a text, or false with an empty default. */
  function IsText(t: TextOrBytes): (r: (bool, seq<Utf16>))
    ensures r.0 <==> t.format == Text
    ensures !r.0 ==> r.1 == []
  {
    if t.format == Text then (true, DecodeChars(t.data)) else (false, [])
  }

  /** A text's char view gives back exactly the text it was built from. */
  lemma IsTextRoundTrip(text: seq<Utf16>, bytes: seq<byte>)
    ensures IsText(FromText(text)) == (true, text)
    ensures IsText(FromBytes(bytes)) == (false, [])
  {
    DecodeEncode(text);
  }

  /** IsBytes as the source has it: it tests for the Text format, and hands out a text's data. */
  function IsBytesAsWritten(t: TextOrBytes): (r: (bool, seq<byte>))
    ensures r.0 <==> t.format == Text
    ensures r.0 ==> r.1 == t.data
    ensures !r.0 ==> r.1 == []
  {
    if t.format == Text then (true, t.data) else (false, [])
  }

  /**
   * IsBytes as written answers false, with no bytes, for a value built from
   * bytes, and true, with the encoded chars, for a text.
   */
  lemma IsBytesAsWrittenIsInverted()
    ensures IsBytesAsWritten(FromBytes([1])) == (false, [])
    ensures IsBytesAsWritten(FromText([0x61])) == (true, EncodeChars([0x61]))
  {
  }

  /** IsBytes as intended: the bytes of a Bytes value, or false with an empty default. */
  function IsBytes(t: TextOrBytes): (r: (bool, seq<byte>))
    ensures r.0 <==> t.format == Bytes
    ensures r.0 ==> r.1 == t.data
    ensures !r.0 ==> r.1 == []
  {
    if t.format == Bytes then (true, t.data) else (false, [])
  }

  /** Exactly one of the two views applies, and the bytes view gives back the bytes a value was built from. */
  lemma ViewsPartition(t: TextOrBytes, bytes: seq<byte>)
    ensures IsText(t).0 != IsBytes(t).0
    ensures IsBytes(FromBytes(bytes)) == (true, bytes)
  {
  }

  // ---------------------------------------------------------------------
  // Rendering (lines 42-59)

  /** An ASCII literal as a .NET string. */
  function Ascii(s: string): (r: seq<Utf16>)
    ensures |r| == |s|
  {
    seq(|s|, i requires 0 <= i < |s| => if s[i] as int < 0x80 then s[i] as int as Utf16 else 0)
  }

  function HexDigit(d: int): Utf16
    requires 0 <= d < 16
  {
    if d < 10 then (0x30 + d) as Utf16 else (0x41 + d - 10) as Utf16
  }

  /** Convert.ToHexString: two upper-case hex digits per byte, no separators. */
  function Hex(bytes: seq<byte>): (r: seq<Utf16>)
    ensures |r| == 2 * |bytes|
  {
    if bytes == [] then []
    else [HexDigit(bytes[0] as int / 16), HexDigit(bytes[0] as int % 16)] + Hex(bytes[1..])
  }

  function HexValue(c: Utf16): int {
    if 0x30 <= c <= 0x39 then c as int - 0x30
    else if 0x41 <= c <= 0x46 then c as int - 0x41 + 10
    else 0
  }

  /** Reads back pairs of hex digits. */
  function UnHex(s: seq<Utf16>): seq<int>
    decreases |s|
  {
    if |s| < 2 then [] else [16 * HexValue(s[0]) + HexValue(s[1])] + UnHex(s[2..])
  }

  /** The hex rendering loses nothing: reading it back gives the bytes. */
  lemma {:induction false} UnHexHex(bytes: seq<byte>)
    ensures UnHex(Hex(bytes)) == seq(|bytes|, i requires 0 <= i < |bytes| => bytes[i] as int)
  {
    if bytes != [] {
      UnHexHex(bytes[1..]);
      assert Hex(bytes)[2..] == Hex(bytes[1..]);
    }
  }

  /** Hex digits are digits and capital letters: never a dot. */
  lemma {:induction false} HexHasNoDot(bytes: seq<byte>)
    ensures forall i :: 0 <= i < |Hex(bytes)| ==> Hex(bytes)[i] != 0x2E
  {
    if bytes != [] {
      HexHasNoDot(bytes[1..]);
      var h := Hex(bytes);
      forall i | 2 <= i < |h| ensures h[i] != 0x2E {
        assert h[i] == Hex(bytes[1..])[i - 2];
      }
    }
  }

  /** A number in decimal, as string interpolation writes it. */
  function Decimal(n: nat): (r: seq<Utf16>)
    ensures r != []
    decreases n
  {
    if n < 10 then [(0x30 + n) as Utf16] else Decimal(n / 10) + [(0x30 + n % 10) as Utf16]
  }

  function Min(a: int, b: int): int {
    if a < b then a else b
  }

  /** The length ToString reports: chars for a text, bytes otherwise. */
  function Length(t: TextOrBytes): nat {
    var isText := IsText(t);
    if isText.0 then |isText.1| else |t.data|
  }

  /**
   * The data part of the rendering (lines 48-50): the first
   * min(length, maxLength) chars of a text, or the hex of that many bytes.
   */
  function Shown(t: TextOrBytes, maxLength: nat): seq<Utf16> {
    var isText := IsText(t);
    if isText.0 then isText.1[..Min(|isText.1|, maxLength)]
    else Hex(t.data[..Min(|t.data|, maxLength)])
  }

  /** What is shown is the start of the data: its first min(length, maxLength) chars or bytes. */
  lemma ShownIsPrefix(t: TextOrBytes, maxLength: nat)
    ensures var n := Min(Length(t), maxLength);
      && (t.format == Text ==> Shown(t, maxLength) == IsText(t).1[..n] && |Shown(t, maxLength)| == n)
      && (t.format == Bytes ==>
            && UnHex(Shown(t, maxLength)) == seq(n, i requires 0 <= i < n => t.data[i] as int)
            && |Shown(t, maxLength)| == 2 * n)
  {
    if t.format == Bytes {
      var n := Min(Length(t), maxLength);
      UnHexHex(t.data[..n]);
    }
  }

  /**
   * The rendering around the data (lines 56-58), with the "..." marker
   * placed when `ellipsis` holds.  A negative maxLength makes the slice
   * throw.
   */
  function Render(t: TextOrBytes, maxLength: int, ellipsis: bool): (r: Option<seq<Utf16>>)
    ensures r.None? <==> maxLength < 0
  {
    if maxLength < 0 then None
    else
      var head := Ascii("[ ") + Decimal(Length(t));
      if t.format == Text then
        Some(head + Ascii(" char(s): `") + Shown(t, maxLength) + Ascii(if ellipsis then "`... ]" else "` ]"))
      else
        Some(head + Ascii(" byte(s): ") + Shown(t, maxLength) + Ascii(if ellipsis then "... ]" else " ]"))
  }

  /** ToString(maxLength) as the source has it: "..." exactly when nothing was cut. */
  function ToStringAsWritten(t: TextOrBytes, maxLength: int): (r: Option<seq<Utf16>>)
    ensures r.None? <==> maxLength < 0
  {
    Render(t, maxLength, !(maxLength < Length(t)))
  }

  /** ToString(maxLength) as intended: "..." exactly when the data was cut. */
  function ToString(t: TextOrBytes, maxLength: int): (r: Option<seq<Utf16>>)
    ensures r.None? <==> maxLength < 0
  {
    Render(t, maxLength, maxLength < Length(t))
  }

  /** ToString() (lines 42-43): ToString(64) as the source has it. */
  function ToStringDefault(t: TextOrBytes): seq<Utf16> {
    ToStringAsWritten(t, 64).value
  }

  /** The rendering ends with "... ]". */
  ghost predicate EndsWithEllipsis(s: seq<Utf16>) {
    |s| >= 5 && s[|s| - 5..] == Ascii("... ]")
  }

  /** The "..." marker appears exactly when Render is asked for it. */
  lemma RenderMarks(t: TextOrBytes, maxLength: nat, ellipsis: bool)
    ensures EndsWithEllipsis(Render(t, maxLength, ellipsis).value) <==> ellipsis
  {
    var s := Render(t, maxLength, ellipsis).value;
    var head := Ascii("[ ") + Decimal(Length(t));
    if t.format == Text {
      var body := head + Ascii(" char(s): `") + Shown(t, maxLength);
      var tail := Ascii(if ellipsis then "`... ]" else "` ]");
      assert s == body + tail;
      assert s[|s| - 3] == tail[|tail| - 3];
    } else {
      var body := head + Ascii(" byte(s): ") + Shown(t, maxLength);
      var tail := Ascii(if ellipsis then "... ]" else " ]");
      assert s == body + tail;
      if ellipsis {
        assert s[|s| - 5..] == tail;
      } else {
        assert s[|s| - 3] == body[|body| - 1];
        var shown := Shown(t, maxLength);
        HexHasNoDot(t.data[..Min(|t.data|, maxLength)]);
        if shown != [] {
          assert body[|body| - 1] == shown[|shown| - 1];
        } else {
          assert body[|body| - 1] == Ascii(" byte(s): ")[9];
        }
      }
    }
  }

  /** As written, the marker appears exactly when nothing was cut. */
  lemma EllipsisAsWrittenMarksUncut(t: TextOrBytes, maxLength: nat)
    ensures EndsWithEllipsis(ToStringAsWritten(t, maxLength).value) <==> Length(t) <= maxLength
  {
    RenderMarks(t, maxLength, !(maxLength < Length(t)));
  }

  /** As written, one byte rendered with room to spare gets "...", and two bytes cut to one do not. */
  lemma EllipsisAsWrittenExample()
    ensures EndsWithEllipsis(ToStringAsWritten(FromBytes([0x01]), 64).value)
    ensures !EndsWithEllipsis(ToStringAsWritten(FromBytes([0x01, 0x02]), 1).value)
  {
    EllipsisAsWrittenMarksUncut(FromBytes([0x01]), 64);
    EllipsisAsWrittenMarksUncut(FromBytes([0x01, 0x02]), 1);
  }

  /** As intended, the marker appears exactly when the data was cut. */
  lemma EllipsisMarksCut(t: TextOrBytes, maxLength: nat)
    ensures EndsWithEllipsis(ToString(t, maxLength).value) <==> maxLength < Length(t)
  {
    RenderMarks(t, maxLength, maxLength < Length(t));
  }

  /**
   * ToString() shows at most 64 elements and, inheriting the inverted
   * condition, puts the "..." marker exactly on data of 64 elements or fewer.
   */
  lemma DefaultShowsSixtyFour(t: TextOrBytes)
    ensures ToStringDefault(t) == Render(t, 64, Length(t) <= 64).value
    ensures EndsWithEllipsis(ToStringDefault(t)) <==> Length(t) <= 64
  {
    EllipsisAsWrittenMarksUncut(t, 64);
  }
}
