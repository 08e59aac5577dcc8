/** The byte level of the yEnc codec: one source byte, one encoded line, one whole body.
    A file is a sequence of bytes; `putc` writes the low byte of its argument. */
module YEncCodec {
  type byte = b: int | 0 <= b < 256
  type Bytes = seq<byte>

  const LF: byte := 10
  const CR: byte := 13
  const ESC: byte := 61      // '='
  const CHUNK: nat := 128

  /** Output values that may not appear as they are. */
  predicate Special(c: int) {
    c == 0 || c == 10 || c == 13 || c == 61
  }

  /** One source byte: shifted by 42, and escaped with a further shift by 64 when special. */
  function EncodeByte(b: byte): Bytes {
    var c := (b + 42) % 256;
    if Special(c) then [ESC, (c + 64) % 256] else [c]
  }

  function EncodeLine(s: Bytes): Bytes {
    if s == [] then [] else EncodeByte(s[0]) + EncodeLine(s[1..])
  }

  /** The body: every 128 source bytes become one line, whatever its encoded length. */
  function EncodeBody(s: Bytes): Bytes {
    if s == [] then [] else
    var n := if |s| < CHUNK then |s| else CHUNK;
    EncodeLine(s[..n]) + [LF] + EncodeBody(s[n..])
  }

  /** One encoded character `c`; `esc` says that the character before it was the escape.
      The last reduction is `putc`, which keeps the low byte of a possibly negative value. */
  function DecodeChar(c: byte, esc: bool): byte {
    var c' := if esc then c - 64 else c;
    var decoded := if 0 <= c' <= 41 then c' + 214 else c' - 42;
    decoded % 256
  }

  function DecodeLine(line: Bytes, esc: bool): Bytes {
    if line == [] then []
    else if line[0] == CR || line[0] == LF then DecodeLine(line[1..], esc)
    else if line[0] == ESC && !esc then DecodeLine(line[1..], true)
    else [DecodeChar(line[0], esc)] + DecodeLine(line[1..], false)
  }

  // ----- encoding is undone by decoding -----

  lemma {:induction false} DecodeEncodedByte(b: byte, rest: Bytes)
    ensures DecodeLine(EncodeByte(b) + rest, false) == [b] + DecodeLine(rest, false)
  {
    var e := EncodeByte(b);
    if |e| == 2 {
      assert (e + rest)[1..] == [e[1]] + rest;
      assert ([e[1]] + rest)[1..] == rest;
      assert DecodeLine(e + rest, false) == DecodeLine([e[1]] + rest, true);
    } else {
      assert (e + rest)[1..] == rest;
    }
  }

  /** One line decodes to exactly the bytes it was made from. */
  lemma {:induction false} DecodeEncodedLine(s: Bytes)
    ensures DecodeLine(EncodeLine(s) + [LF], false) == s
  {
    if s == [] {
      assert DecodeLine([LF], false) == DecodeLine([LF][1..], false);
    } else {
      assert EncodeLine(s) + [LF] == EncodeByte(s[0]) + (EncodeLine(s[1..]) + [LF]);
      DecodeEncodedByte(s[0], EncodeLine(s[1..]) + [LF]);
      DecodeEncodedLine(s[1..]);
    }
  }

  lemma {:induction false} EncodeLineConcat(a: Bytes, b: Bytes)
    ensures EncodeLine(a + b) == EncodeLine(a) + EncodeLine(b)
  {
    if a == [] {
      assert a + b == b;
    } else {
      assert (a + b)[1..] == a[1..] + b;
      EncodeLineConcat(a[1..], b);
    }
  }

  // ----- the shape of encoded text -----

  /** The only bytes that ever follow an escape. */
  predicate Escaped(c: byte) {
    c == 64 || c == 74 || c == 77 || c == 125
  }

  /** No NUL, LF or CR, and every escape is followed, inside the line, by one of four bytes. */
  ghost predicate LineShape(l: Bytes) {
    && (forall i | 0 <= i < |l| :: l[i] != 0 && l[i] != LF && l[i] != CR)
    && (forall i | 0 <= i < |l| && l[i] == ESC :: i + 1 < |l| && Escaped(l[i+1]))
  }

  /** No escape pair straddles a line end and no critical character is written. */
  lemma {:induction false} EncodedLineShape(s: Bytes)
    ensures LineShape(EncodeLine(s))
    ensures |s| <= |EncodeLine(s)| <= 2 * |s|
  {
    if s != [] {
      EncodedLineShape(s[1..]);
      var e, r := EncodeByte(s[0]), EncodeLine(s[1..]);
      forall i | 0 <= i < |e + r| && (e + r)[i] == ESC
        ensures i + 1 < |e + r| && Escaped((e + r)[i+1])
      {
        if i >= |e| {
          assert (e + r)[i] == r[i - |e|];
          assert (e + r)[i+1] == r[i + 1 - |e|];
        }
      }
    }
  }

  const YEND: Bytes := [61, 121, 101, 110, 100]                  // "=yend"
  const YBEGIN: Bytes := [61, 121, 98, 101, 103, 105, 110]       // "=ybegin"

  /** The framing lemma: a data line never looks like the end marker, whatever follows it,
      because 'y' is none of the bytes that follow an escape. */
  lemma {:induction false} DataLineIsNoMarker(s: Bytes, rest: Bytes)
    ensures !(YEND <= EncodeLine(s) + [LF] + rest)
    ensures !(YBEGIN <= EncodeLine(s) + [LF] + rest)
  {
    EncodedLineShape(s);
    var l := EncodeLine(s);
    var t := l + [LF] + rest;
    assert t[0] == if l == [] then LF else l[0];
    assert |l| >= 2 ==> t[1] == l[1];
  }

  /** The source bytes whose encoding takes two characters. */
  function EscapeCount(s: Bytes): nat {
    if s == [] then 0
    else (if s[0] in {19, 214, 224, 227} then 1 else 0) + EscapeCount(s[1..])
  }

  lemma {:induction false} EscapeCountConcat(a: Bytes, b: Bytes)
    ensures EscapeCount(a + b) == EscapeCount(a) + EscapeCount(b)
  {
    if a == [] {
      assert a + b == b;
    } else {
      assert (a + b)[1..] == a[1..] + b;
      EscapeCountConcat(a[1..], b);
    }
  }

  lemma {:induction false} EncodedLineLength(s: Bytes)
    ensures |EncodeLine(s)| == |s| + EscapeCount(s)
  {
    if s != [] {
      EncodedLineLength(s[1..]);
    }
  }

  /** The exact length of a body: one character a byte, one more for each escaped byte, and
      one line end for each started block of 128. */
  lemma {:induction false} EncodedBodyLength(s: Bytes)
    ensures |EncodeBody(s)| == |s| + EscapeCount(s) + (|s| + 127) / 128
    decreases |s|
  {
    if s != [] {
      var n := if |s| < CHUNK then |s| else CHUNK;
      EncodedLineLength(s[..n]);
      EncodedBodyLength(s[n..]);
      assert s == s[..n] + s[n..];
      EscapeCountConcat(s[..n], s[n..]);
    }
  }

  /** The lines of the body: all but the last carry exactly 128 source bytes. */
  function Blocks(s: Bytes): seq<Bytes> {
    if s == [] then [] else
    var n := if |s| < CHUNK then |s| else CHUNK;
    [s[..n]] + Blocks(s[n..])
  }

  function Join(parts: seq<Bytes>): Bytes {
    if parts == [] then [] else parts[0] + Join(parts[1..])
  }

  lemma {:induction false} BlocksPartition(s: Bytes)
    ensures Join(Blocks(s)) == s
    ensures |Blocks(s)| == (|s| + 127) / 128
    ensures forall i | 0 <= i < |Blocks(s)| :: 1 <= |Blocks(s)[i]| <= 128
    ensures forall i | 0 <= i < |Blocks(s)| - 1 :: |Blocks(s)[i]| == 128
    decreases |s|
  {
    if s != [] {
      var n := if |s| < CHUNK then |s| else CHUNK;
      BlocksPartition(s[n..]);
      assert s == s[..n] + s[n..];
      assert Blocks(s)[1..] == Blocks(s[n..]);
    }
  }
}
