/** A client of ByteArray: what callers can derive from its contracts alone. */
module ReaderExamples {
  import opened Options
  import opened ByteOrder
  import opened Reader

  /**
   * 01 02 03 04 as UInt32: 0x04030201 little-endian, 0x01020304 otherwise;
   * resetting the cursor and reading again in the same order gives the same value.
   */
  method ByteOrderExample() {
    var bytes: seq<byte> := [1, 2, 3, 4];
    Bytes32(bytes);
    var r := new ByteArray(bytes, None);
    assert r.buf[0..4] == bytes;
    var little := r.ReadUInt32(None);
    assert little == 0x0403_0201;
    var eof := r.IsEof();
    assert eof;
    r.ResetOffset();
    var reread := r.ReadUInt32(None);
    assert reread == little;
    r.ResetOffset();
    var big := r.ReadUInt32(Some("BE"));
    assert big == 0x0102_0304;
    r.SetOffset(0);
    r.SetEndian("be");
    var again := r.ReadUInt32(None);
    assert again == big;
  }

  /** FF FE as Int16, little-endian: 0xFEFF read as two's complement, -257. */
  method SignedExample() {
    var bytes: seq<byte> := [0xFF, 0xFE];
    Bytes16(bytes);
    var r := new ByteArray(bytes, None);
    assert r.buf[0..2] == bytes;
    var v := r.ReadInt16(None);
    assert v == -257;
  }

  /** "AB\0CD" with readLine(5, '\0'): "AB", and the cursor just past the NUL. */
  method ReadLineExample() {
    var bytes: seq<byte> := [0x41, 0x42, 0, 0x43, 0x44];
    var r := new ByteArray(bytes, None);
    assert r.Remaining() == bytes;
    assert CharOf(0x41) == 'A' && CharOf(0x42) == 'B' && CharOf(0) == '\0';
    assert bytes[1..][1..] == [0, 0x43, 0x44];
    var line := r.ReadLine(5, Some('\0'));
    assert line == "AB";
    var at := r.GetOffset();
    assert at == 3;
  }
}
