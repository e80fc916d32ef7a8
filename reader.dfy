/**
 * ByteArray: a cursor over an in-memory byte buffer with a default byte
 * order. Every read decodes bytes at the cursor and moves the cursor past
 * what it consumed; the cursor setters do no bounds checking, so a cursor
 * outside the buffer only fails at the next read that needs bytes.
 */
module Reader {
  import opened Options
  import opened ByteOrder
  import opened NodeBuffer

  /** The byte order an endian string selects: "LE" is little-endian, every other value big-endian. */
  function OrderOf(endian: string): (order: Endianness)
    ensures order == Little <==> endian == "LE"
  {
    if endian == "LE" then Little else Big
  }

  /**
   * The character readChar gives for byte `b`: String.fromCharCode of the
   * byte read as SIGNED, so bytes 0x80..0xFF become U+FF80..U+FFFF.
   */
  function CharOf(b: byte): (c: char)
    ensures b < 0x80 ==> c as int == b
    ensures b >= 0x80 ==> c as int == b + 0xFF00
  {
    FromCharCode(ToSigned(b, 1))
  }

  /** The outcome of a readLine that stays inside the buffer: the text returned and the bytes consumed. */
  datatype Line = Line(text: string, consumed: nat)

  /**
   * readLine(max, delimiter) over the bytes `s` from the cursor on, one byte
   * and one character at a time: it stops after `max` characters or after a
   * character equal to the delimiter, which is consumed but not returned.
   * None when it would read past the end of `s` (the read raises a range error).
   */
  function ScanLine(s: seq<byte>, max: int, delimiter: char): (r: Option<Line>)
    ensures r.Some? ==> r.value.consumed <= |s| && r.value.consumed <= Max(max, 0)
    ensures r.Some? ==> r.value.consumed == |r.value.text| || r.value.consumed == |r.value.text| + 1
    decreases |s|
  {
    if max <= 0 then Some(Line("", 0))
    else if s == [] then None
    else if CharOf(s[0]) == delimiter then Some(Line("", 1))
    else
      match ScanLine(s[1..], max - 1, delimiter)
      case None => None
      case Some(rest) => Some(Line([CharOf(s[0])] + rest.text, rest.consumed + 1))
  }

  /** `r` with the text `p`, already read, put in front of it. */
  function Prefixed(p: string, r: Option<Line>): (q: Option<Line>)
  {
    match r
    case None => None
    case Some(line) => Some(Line(p + line.text, |p| + line.consumed))
  }

  /**
   * One character of readLine, with the text `p` already read: the delimiter
   * ends the line, any other character joins the text and the scan goes on.
   */
  lemma ScanLineFirst(s: seq<byte>, max: int, delimiter: char, p: string)
    requires s != [] && max > 0
    ensures CharOf(s[0]) == delimiter ==> Prefixed(p, ScanLine(s, max, delimiter)) == Some(Line(p, |p| + 1))
    ensures CharOf(s[0]) != delimiter ==>
              Prefixed(p, ScanLine(s, max, delimiter))
              == Prefixed(p + [CharOf(s[0])], ScanLine(s[1..], max - 1, delimiter))
  {
    if CharOf(s[0]) == delimiter {
      assert p + "" == p;
    } else if ScanLine(s[1..], max - 1, delimiter).Some? {
      var line := ScanLine(s[1..], max - 1, delimiter).value;
      assert p + ([CharOf(s[0])] + line.text) == (p + [CharOf(s[0])]) + line.text;
    }
  }

  /**
   * What readLine returns: the characters of the bytes it consumed, in order,
   * none of them the delimiter; it stopped either on the delimiter (consumed,
   * not returned) or after `max` characters.
   */
  lemma {:induction false} ScanLineText(s: seq<byte>, max: int, delimiter: char)
    requires ScanLine(s, max, delimiter).Some?
    ensures var line := ScanLine(s, max, delimiter).value;
      && (forall j :: 0 <= j < |line.text| ==> line.text[j] == CharOf(s[j]) && line.text[j] != delimiter)
      && (line.consumed == |line.text| + 1 ==> CharOf(s[|line.text|]) == delimiter)
      && (line.consumed == |line.text| ==> line.consumed == Max(max, 0))
  {
    if max > 0 && s != [] && CharOf(s[0]) != delimiter {
      ScanLineText(s[1..], max - 1, delimiter);
    }
  }

  /**
   * readLine stays inside the buffer exactly when `max` bytes remain or the
   * delimiter's byte occurs among the first `max` remaining bytes.
   */
  lemma {:induction false} ScanLineDefined(s: seq<byte>, max: int, delimiter: char)
    ensures ScanLine(s, max, delimiter).Some?
            <==> max <= |s| || exists j :: 0 <= j < |s| && j < max && CharOf(s[j]) == delimiter
  {
    if max > 0 && s != [] && CharOf(s[0]) != delimiter {
      ScanLineDefined(s[1..], max - 1, delimiter);
      if exists j :: 0 <= j < |s| && j < max && CharOf(s[j]) == delimiter {
        var j :| 0 <= j < |s| && j < max && CharOf(s[j]) == delimiter;
        assert CharOf(s[1..][j - 1]) == delimiter;
      }
      if exists j :: 0 <= j < |s| - 1 && j < max - 1 && CharOf(s[1..][j]) == delimiter {
        var j :| 0 <= j < |s| - 1 && j < max - 1 && CharOf(s[1..][j]) == delimiter;
        assert CharOf(s[j + 1]) == delimiter;
      }
    }
  }

  /**
   * Because readChar reads bytes as signed, no byte gives a character with a
   * code in 0x80..0xFF7F: readLine with such a delimiter never stops on it
   * and only ends after `max` characters.
   */
  lemma UnmatchableDelimiter(s: seq<byte>, max: int, delimiter: char)
    requires 0x80 <= delimiter as int < 0xFF80
    requires ScanLine(s, max, delimiter).Some?
    ensures ScanLine(s, max, delimiter).value.consumed == Max(max, 0)
  {
    ScanLineText(s, max, delimiter);
  }

  /**
   * readUTFString decodes one byte past the 4 * length it consumes: when that
   * byte exists, it is the byte under the cursor after the read, which the
   * next read will consume again.
   */
  lemma UtfStringDecodesNextByte(buf: seq<byte>, start: int, length: int)
    requires length > 0 && 0 <= start && start + 4 * length < |buf|
    ensures |TextRange(buf, start, start + 4 * length + 1)| == 4 * length + 1
    ensures TextRange(buf, start, start + 4 * length + 1)[4 * length] == buf[start + 4 * length]
  {
  }

  class ByteArray {
    /** The most characters readNullTerminatedString returns. */
    static const MAX_STRING_LEN := 255

    var offset: int
    var buf: seq<byte>
    var endian: string

    /** Binds `buf` with the cursor at 0; the default endianness is "LE" unless given. */
    constructor (buf: seq<byte>, endian: Option<string>)
      ensures this.offset == 0 && this.buf == buf && this.endian == endian.GetOr("LE")
    {
      this.offset := 0;
      this.buf := buf;
      this.endian := endian.GetOr("LE");
    }

    /** The bytes from the cursor to the end; empty when the cursor lies outside the buffer. */
    function Remaining(): (rest: seq<byte>)
      reads this
    {
      if 0 <= offset <= |buf| then buf[offset..] else []
    }

    /** The byte order of a read: the per-call endian when one is passed, else the instance default. */
    function OrderFor(endian: Option<string>): (order: Endianness)
      reads this
      ensures endian.Some? ==> (order == Little <==> endian.value == "LE")
      ensures endian.None? ==> (order == Little <==> this.endian == "LE")
    {
      OrderOf(endian.GetOr(this.endian))
    }

    method IsEof() returns (eof: bool)
      ensures eof <==> offset >= |buf|
    {
      eof := offset >= |buf|;
    }

    method ResetOffset()
      modifies this`offset
      ensures offset == 0
    {
      offset := 0;
    }

    method SetOffset(offset: int)
      modifies this`offset
      ensures this.offset == offset
    {
      this.offset := offset;
    }

    method ShiftOffset(delta: int)
      modifies this`offset
      ensures offset == old(offset) + delta
    {
      offset := offset + delta;
    }

    method GetOffset() returns (o: int)
      ensures o == offset
    {
      o := offset;
    }

    method SetEndian(endian: string)
      modifies this`endian
      ensures this.endian == endian
    {
      this.endian := endian;
    }

    method GetEndian() returns (e: string)
      ensures e == endian
    {
      e := endian;
    }

    method GetLength() returns (n: nat)
      ensures n == |buf|
    {
      n := |buf|;
    }

    method GetBuffer() returns (b: seq<byte>)
      ensures b == buf
    {
      b := buf;
    }

    method ReadInt8() returns (v: int)
      requires 0 <= offset && offset + 1 <= |buf|
      modifies this`offset
      ensures offset == old(offset) + 1
      ensures v == ToSigned(buf[old(offset)], 1)
      ensures -0x80 <= v < 0x80
    {
      v := ToSigned(buf[offset], 1);
      offset := offset + 1;
    }

    method ReadUInt8() returns (v: int)
      requires 0 <= offset && offset + 1 <= |buf|
      modifies this`offset
      ensures offset == old(offset) + 1
      ensures v == buf[old(offset)]
    {
      v := buf[offset];
      offset := offset + 1;
    }

    method ReadInt16(endian: Option<string>) returns (v: int)
      requires 0 <= offset && offset + 2 <= |buf|
      modifies this`offset
      ensures offset == old(offset) + 2
      ensures v == ToSigned(Unsigned(buf[old(offset)..offset], OrderFor(endian)), 2)
      ensures -0x8000 <= v < 0x8000
    {
      v := ToSigned(Unsigned(buf[offset..offset + 2], OrderFor(endian)), 2);
      offset := offset + 2;
    }

    method ReadUInt16(endian: Option<string>) returns (v: int)
      requires 0 <= offset && offset + 2 <= |buf|
      modifies this`offset
      ensures offset == old(offset) + 2
      ensures v == Unsigned(buf[old(offset)..offset], OrderFor(endian))
      ensures 0 <= v < 0x1_0000
    {
      v := Unsigned(buf[offset..offset + 2], OrderFor(endian));
      offset := offset + 2;
    }

    method ReadInt32(endian: Option<string>) returns (v: int)
      requires 0 <= offset && offset + 4 <= |buf|
      modifies this`offset
      ensures offset == old(offset) + 4
      ensures v == ToSigned(Unsigned(buf[old(offset)..offset], OrderFor(endian)), 4)
      ensures -0x8000_0000 <= v < 0x8000_0000
    {
      v := ToSigned(Unsigned(buf[offset..offset + 4], OrderFor(endian)), 4);
      offset := offset + 4;
    }

    method ReadUInt32(endian: Option<string>) returns (v: int)
      requires 0 <= offset && offset + 4 <= |buf|
      modifies this`offset
      ensures offset == old(offset) + 4
      ensures v == Unsigned(buf[old(offset)..offset], OrderFor(endian))
      ensures 0 <= v < 0x1_0000_0000
    {
      PowersOf256();
      v := Unsigned(buf[offset..offset + 4], OrderFor(endian));
      offset := offset + 4;
    }

    method ReadInt64(endian: Option<string>) returns (v: int)
      requires 0 <= offset && offset + 8 <= |buf|
      modifies this`offset
      ensures offset == old(offset) + 8
      ensures v == ToSigned(Unsigned(buf[old(offset)..offset], OrderFor(endian)), 8)
      ensures -0x8000_0000_0000_0000 <= v < 0x8000_0000_0000_0000
    {
      v := ToSigned(Unsigned(buf[offset..offset + 8], OrderFor(endian)), 8);
      offset := offset + 8;
    }

    method ReadUInt64(endian: Option<string>) returns (v: int)
      requires 0 <= offset && offset + 8 <= |buf|
      modifies this`offset
      ensures offset == old(offset) + 8
      ensures v == Unsigned(buf[old(offset)..offset], OrderFor(endian))
      ensures 0 <= v < 0x1_0000_0000_0000_0000
    {
      PowersOf256();
      v := Unsigned(buf[offset..offset + 8], OrderFor(endian));
      offset := offset + 8;
    }

    /** readFloat, up to the IEEE-754 decoding: the 32-bit pattern the float is decoded from. */
    method ReadFloat(endian: Option<string>) returns (bits: int)
      requires 0 <= offset && offset + 4 <= |buf|
      modifies this`offset
      ensures offset == old(offset) + 4
      ensures bits == Unsigned(buf[old(offset)..offset], OrderFor(endian))
    {
      bits := Unsigned(buf[offset..offset + 4], OrderFor(endian));
      offset := offset + 4;
    }

    /** readDouble, up to the IEEE-754 decoding: the 64-bit pattern the double is decoded from. */
    method ReadDouble(endian: Option<string>) returns (bits: int)
      requires 0 <= offset && offset + 8 <= |buf|
      modifies this`offset
      ensures offset == old(offset) + 8
      ensures bits == Unsigned(buf[old(offset)..offset], OrderFor(endian))
    {
      bits := Unsigned(buf[offset..offset + 8], OrderFor(endian));
      offset := offset + 8;
    }

    method ReadChar() returns (c: char)
      requires 0 <= offset && offset + 1 <= |buf|
      modifies this`offset
      ensures offset == old(offset) + 1
      ensures c == CharOf(buf[old(offset)])
    {
      var v := ReadInt8();
      c := FromCharCode(v);
    }

    /**
     * A length of zero or less gives '' and leaves the cursor alone; otherwise
     * the bytes of [offset, offset + length) that lie in the buffer are
     * decoded and the cursor moves on by `length`, whatever was decoded.
     */
    method ReadString(length: int, encoding: Option<string>, decode: Decoder) returns (s: string)
      modifies this`offset
      ensures length <= 0 ==> s == "" && offset == old(offset)
      ensures length > 0 ==> offset == old(offset) + length
      ensures length > 0 ==> s == ToText(decode, encoding.GetOr("utf8"), buf, old(offset), old(offset) + length)
    {
      if length <= 0 {
        return "";
      }
      s := ToText(decode, encoding.GetOr("utf8"), buf, offset, offset + length);
      offset := offset + length;
    }

    /**
     * `length` counts characters of up to 4 bytes: the cursor moves on by
     * 4 * length, but 4 * length + 1 bytes are decoded as UTF-8.
     */
    method ReadUTFString(length: int, decode: Decoder) returns (s: string)
      modifies this`offset
      ensures length <= 0 ==> s == "" && offset == old(offset)
      ensures length > 0 ==> offset == old(offset) + 4 * length
      ensures length > 0 ==> s == ToText(decode, "utf8", buf, old(offset), old(offset) + 4 * length + 1)
    {
      if length <= 0 {
        return "";
      }
      var byteLength := length * 4;
      s := ToText(decode, "utf8", buf, offset, offset + byteLength + 1);
      offset := offset + byteLength;
    }

    /**
     * A fresh `length`-byte array holding the bytes at the cursor, zero where
     * the buffer ends first; the cursor moves on by `length`.
     */
    method ReadByteArray(length: int) returns (r: seq<byte>)
      requires 0 <= length
      requires 0 <= offset <= |buf|
      modifies this`offset
      ensures offset == old(offset) + length
      ensures |r| == length
      ensures forall i :: 0 <= i < length ==>
                r[i] == if old(offset) + i < |buf| then buf[old(offset) + i] else 0
      ensures old(offset) + length <= |buf| ==> r == buf[old(offset)..offset]
    {
      r := CopyInto(buf, length, offset, offset + length + 1);
      offset := offset + length;
    }

    /**
     * readLine(length, delimiter): reads at most `length` characters with
     * readChar, stopping after the delimiter, '\n' when it is omitted, which is
     * consumed but left out of the result. The reads must stay inside the buffer.
     */
    method ReadLine(length: int, delimiter: Option<char>) returns (line: string)
      requires ScanLine(Remaining(), length, delimiter.GetOr('\n')).Some?
      modifies this`offset
      ensures old(offset) <= offset
      ensures ScanLine(old(Remaining()), length, delimiter.GetOr('\n')) == Some(Line(line, offset - old(offset)))
    {
      line := ReadLineUntil(length, delimiter.GetOr('\n'));
    }

    /** The loop of readLine, with its delimiter settled. */
    method ReadLineUntil(length: int, delimiter: char) returns (line: string)
      requires ScanLine(Remaining(), length, delimiter).Some?
      modifies this`offset
      ensures old(offset) <= offset
      ensures ScanLine(old(Remaining()), length, delimiter) == Some(Line(line, offset - old(offset)))
    {
      ghost var tail := Remaining();
      var str := "";
      var i := 0;
      assert Prefixed(str, ScanLine(tail, length, delimiter)) == ScanLine(tail, length, delimiter) by {
        assert "" + ScanLine(tail, length, delimiter).value.text == ScanLine(tail, length, delimiter).value.text;
      }
      while i < length
        invariant |str| == i && offset == old(offset) + i
        invariant Remaining() == tail
        invariant ScanLine(tail, length - i, delimiter).Some?
        invariant ScanLine(old(Remaining()), length, delimiter) == Prefixed(str, ScanLine(tail, length - i, delimiter))
      {
        assert tail != [] && tail[0] == buf[offset];
        var c := ReadChar();
        ScanLineFirst(tail, length - i, delimiter, str);
        if c == delimiter {
          break;
        }
        assert tail[1..] == buf[offset..];
        str := str + [c];
        i := i + 1;
        tail := tail[1..];
      }
      assert str + "" == str;
      line := str;
    }

    /** readLine with at most MAX_STRING_LEN characters and the NUL character as delimiter. */
    method ReadNullTerminatedString() returns (s: string)
      requires ScanLine(Remaining(), MAX_STRING_LEN, '\0').Some?
      modifies this`offset
      ensures old(offset) <= offset
      ensures ScanLine(old(Remaining()), MAX_STRING_LEN, '\0') == Some(Line(s, offset - old(offset)))
      ensures |s| <= MAX_STRING_LEN
    {
      s := ReadLine(MAX_STRING_LEN, Some('\0'));
    }
  }
}
