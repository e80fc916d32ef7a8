/**
 * The Node.js built-ins that ByteArray calls for its text, byte-range and
 * character reads: the range clamping of Buffer.prototype.toString, the
 * copy of Buffer.prototype.copy into a zero-filled Buffer.alloc target, and
 * String.fromCharCode applied to a signed byte. Text decoding itself (UTF-8
 * and the other encodings) is a function the caller supplies.
 */
module NodeBuffer {
  import opened ByteOrder

  function Max(a: int, b: int): int { if a < b then b else a }

  function Min(a: int, b: int): int { if a < b then a else b }

  /** A text decoder: the string an encoding name gives to a non-empty byte range. */
  type Decoder = (string, seq<byte>) -> string

  /**
   * The bytes that buf.toString(encoding, start, end) decodes. A start at or
   * below zero becomes 0, a start at or past the end of the buffer gives
   * nothing, an end past the buffer is cut to its length, and an end at or
   * before the start gives nothing.
   */
  function TextRange(buf: seq<byte>, start: int, end: int): (r: seq<byte>)
    ensures r == [] <==> Min(end, |buf|) <= Max(start, 0)
    ensures r != [] ==> Max(start, 0) + |r| == Min(end, |buf|)
    ensures forall i :: 0 <= i < |r| ==> r[i] == buf[Max(start, 0) + i]
  {
    var lo := if start <= 0 then 0 else start;
    if lo >= |buf| then []
    else
      var hi := if end > |buf| then |buf| else end;
      if hi <= lo then [] else buf[lo..hi]
  }

  /** What buf.toString(encoding, start, end) returns: '' for an empty range, else the decoded range. */
  function ToText(decode: Decoder, encoding: string, buf: seq<byte>, start: int, end: int): (s: string)
    ensures TextRange(buf, start, end) == [] ==> s == ""
  {
    var bytes := TextRange(buf, start, end);
    if bytes == [] then "" else decode(encoding, bytes)
  }

  /**
   * A target of `targetLength` zero bytes after
   * source.copy(target, 0, sourceStart, sourceEnd): the copy stops at the
   * first of sourceEnd, the end of the source and the end of the target,
   * and every byte it does not reach stays zero.
   */
  function CopyInto(source: seq<byte>, targetLength: nat, sourceStart: int, sourceEnd: int): (target: seq<byte>)
    requires 0 <= sourceStart <= |source| && 0 <= sourceEnd
    ensures |target| == targetLength
    ensures forall i :: 0 <= i < targetLength ==>
              target[i] == if sourceStart + i < sourceEnd && sourceStart + i < |source|
                           then source[sourceStart + i] else 0
  {
    var count := Max(0, Min(sourceEnd - sourceStart, Min(targetLength, |source| - sourceStart)));
    source[sourceStart..sourceStart + count] + seq(targetLength - count, _ => 0)
  }

  /**
   * Asking copy for more source bytes than the target holds changes nothing:
   * the copy is cut at the end of the target.
   */
  lemma CopyIsCutAtTarget(source: seq<byte>, targetLength: nat, sourceStart: int, extra: nat)
    requires 0 <= sourceStart <= |source|
    ensures CopyInto(source, targetLength, sourceStart, sourceStart + targetLength + extra)
            == CopyInto(source, targetLength, sourceStart, sourceStart + targetLength)
  {
    var longer := CopyInto(source, targetLength, sourceStart, sourceStart + targetLength + extra);
    var exact := CopyInto(source, targetLength, sourceStart, sourceStart + targetLength);
    assert forall i :: 0 <= i < targetLength ==> longer[i] == exact[i];
  }

  /**
   * String.fromCharCode of a signed byte `v`: the UTF-16 code unit congruent
   * to `v` modulo 2^16, so negative bytes land in 0xFF80..0xFFFF.
   */
  function FromCharCode(v: int): (c: char)
    requires -0x80 <= v < 0x80
    ensures 0 <= c as int < 0x1_0000 && (c as int - v) % 0x1_0000 == 0
  {
    (if v < 0 then v + 0x1_0000 else v) as char
  }
}
