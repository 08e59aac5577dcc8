/** The framed file: what the encoder writes, what the decoder makes of any file, and the
    laws that connect the two. */
module YEncFile {
  import opened Wrappers
  import opened YEncCodec
  import opened YEncText

  // "=ybegin size="
  const BEGIN_SIZE: Bytes := [61, 121, 98, 101, 103, 105, 110, 32, 115, 105, 122, 101, 61]
  // " line=128 name="
  const LINE_NAME: Bytes := [32, 108, 105, 110, 101, 61, 49, 50, 56, 32, 110, 97, 109, 101, 61]
  // "=yend size=312860 crc32="
  const END_CRC: Bytes := [61, 121, 101, 110, 100, 32, 115, 105, 122, 101, 61, 51, 49, 50, 56, 54, 48,
                           32, 99, 114, 99, 51, 50, 61]
  const NAME_KEY: Bytes := [110, 97, 109, 101, 61]         // "name="
  const SIZE_KEY: Bytes := [115, 105, 122, 101, 61]        // "size="
  const LINE_KEY: Bytes := [108, 105, 110, 101, 61]        // "line="
  const CRC_KEY: Bytes := [99, 114, 99, 51, 50, 61]        // "crc32="
  const LINE_128: Bytes := [49, 50, 56]                    // "128"

  /** `File.size?` is nil for an empty file and interpolates as nothing. */
  function SizeText(n: nat): Bytes {
    if n == 0 then [] else Numeral(n, 10)
  }

  function HeaderText(name: Bytes, size: nat): Bytes {
    BEGIN_SIZE + SizeText(size) + LINE_NAME + name
  }

  /** The trailer; its size field is the constant 312860 whatever the file. */
  function TrailerText(crc: nat): Bytes {
    END_CRC + Upcase(Numeral(crc, 16))
  }

  function EncodedFile(name: Bytes, data: Bytes, crc: nat): Bytes {
    HeaderText(name, |data|) + [LF] + (EncodeBody(data) + (TrailerText(crc) + [LF]))
  }

  // ----- what the decoder does with a file -----

  datatype OutFile = OutFile(name: Bytes, data: Bytes)

  /** The fields of a decoder object; `out` is the file it opened last. */
  datatype YState = YState(filename: Option<Bytes>, filesize: Option<Bytes>, line: Option<Bytes>,
                           crc: Option<Bytes>, out: Option<OutFile>)

  const FRESH := YState(None, None, None, None, None)

  /** `Raised` keeps the fields as they were when the exception was raised. */
  datatype Outcome = Done(st: YState) | Raised(st: YState)

  /** Fields are only set while they are nil. */
  function OrElse(current: Option<Bytes>, found: Option<Bytes>): Option<Bytes> {
    if current.None? then found else current
  }

  function Header(st: YState, line: Bytes): YState {
    st.(filename := OrElse(st.filename, MatchRest(line, NAME_KEY)),
        filesize := OrElse(st.filesize, MatchWord(line, SIZE_KEY)),
        line := OrElse(st.line, MatchWord(line, LINE_KEY)))
  }

  function OpenOut(st: YState): YState
    requires st.filename.Some?
  {
    st.(out := Some(OutFile(st.filename.value, [])))
  }

  function Write(st: YState, data: Bytes): YState
    requires st.out.Some?
  {
    st.(out := Some(OutFile(st.out.value.name, st.out.value.data + data)))
  }

  function EndLine(st: YState, line: Bytes): YState {
    st.(crc := OrElse(st.crc, MatchRest(line, CRC_KEY)))
  }

  function Scan(lines: seq<Bytes>, reading: bool, st: YState): (o: Outcome)
    requires reading ==> st.out.Some?
  {
    if lines == [] then Done(st)
    else if reading then
      if YEND <= lines[0] then Done(EndLine(st, lines[0]))
      else Scan(lines[1..], true, Write(st, DecodeLine(lines[0], false)))
    else if YBEGIN <= lines[0] then
      var h := Header(st, lines[0]);
      if h.filename.None? then Raised(h) else Scan(lines[1..], true, OpenOut(h))
    else Scan(lines[1..], false, st)
  }

  /** Closing a file that was never opened raises. */
  function Close(o: Outcome): Outcome {
    if o.Done? && o.st.out.None? then Raised(o.st) else o
  }

  function DecodeFile(f: Bytes, st: YState): Outcome {
    if Contains(f, YBEGIN) then Close(Scan(Lines(f), false, st)) else Close(Done(st))
  }

  /** Does the decoder meet the end marker? */
  predicate Ends(lines: seq<Bytes>, reading: bool, st: YState)
    requires reading ==> st.out.Some?
  {
    if lines == [] then false
    else if reading then
      YEND <= lines[0] || Ends(lines[1..], true, Write(st, DecodeLine(lines[0], false)))
    else if YBEGIN <= lines[0] then
      var h := Header(st, lines[0]);
      h.filename.Some? && Ends(lines[1..], true, OpenOut(h))
    else Ends(lines[1..], false, st)
  }

  // ----- the header and the trailer read back -----

  lemma {:induction false} HeaderFields(name: Bytes, size: nat)
    requires LF !in name
    ensures var l := HeaderText(name, size) + [LF];
            && MatchRest(l, NAME_KEY) == Some(name)
            && MatchWord(l, LINE_KEY) == Some(LINE_128)
            && (size > 0 ==> MatchWord(l, SIZE_KEY) == Some(Numeral(size, 10)))
    ensures YBEGIN <= HeaderText(name, size) && LF !in HeaderText(name, size)
  {
    var digits := SizeText(size);
    if size > 0 {
      NumeralDigits(size, 10);
      SizeField(digits, name);
    }
    assert forall b | b in digits :: 48 <= b <= 57;
    NameField(digits, name);
    LineField(digits, name);
    assert HeaderText(name, size)[..|BEGIN_SIZE|] == BEGIN_SIZE;
    assert BEGIN_SIZE[..7] == YBEGIN;
  }

  lemma {:induction false} SizeField(digits: Bytes, name: Bytes)
    requires digits != [] && forall b | b in digits :: 48 <= b <= 57
    ensures MatchWord(BEGIN_SIZE + digits + LINE_NAME + name + [LF], SIZE_KEY) == Some(digits)
  {
    var lead: Bytes := [61, 121, 98, 101, 103, 105, 110, 32];
    assert BEGIN_SIZE == lead + SIZE_KEY;
    assert NoStart(lead, SIZE_KEY);
    var tail := LINE_NAME + name + [LF];
    var t := SIZE_KEY + (digits + tail);
    SkipNoStart(lead, t, SIZE_KEY);
    assert BEGIN_SIZE + digits + LINE_NAME + name + [LF] == lead + t;
    assert t[|SIZE_KEY|..] == digits + tail;
    forall b | b in digits ensures !Space(b) {}
    WordEnds(digits, tail);
  }

  lemma {:induction false} NameField(digits: Bytes, name: Bytes)
    requires LF !in name
    requires forall b | b in digits :: 48 <= b <= 57
    ensures MatchRest(BEGIN_SIZE + digits + LINE_NAME + name + [LF], NAME_KEY) == Some(name)
  {
    var gap: Bytes := [32, 108, 105, 110, 101, 61, 49, 50, 56, 32];
    assert LINE_NAME == gap + NAME_KEY;
    assert NoStart(BEGIN_SIZE, NAME_KEY) && NoStart(gap, NAME_KEY);
    forall i | 0 <= i < |digits| ensures digits[i] != 110 { assert digits[i] in digits; }
    assert NoStart(digits, NAME_KEY);
    NoStartConcat(BEGIN_SIZE, digits, NAME_KEY);
    NoStartConcat(BEGIN_SIZE + digits, gap, NAME_KEY);
    var t := NAME_KEY + (name + [LF]);
    SkipNoStart(BEGIN_SIZE + digits + gap, t, NAME_KEY);
    assert BEGIN_SIZE + digits + LINE_NAME + name + [LF] == (BEGIN_SIZE + digits + gap) + t;
    assert t[|NAME_KEY|..] == name + [LF] + [];
    UpToLFEnds(name, []);
  }

  lemma {:induction false} LineField(digits: Bytes, name: Bytes)
    requires forall b | b in digits :: 48 <= b <= 57
    ensures MatchWord(BEGIN_SIZE + digits + LINE_NAME + name + [LF], LINE_KEY) == Some(LINE_128)
  {
    hide NoStart, MatchWord;
    var key: Bytes := [32, 110, 97, 109, 101, 61];
    var lead, tail := BEGIN_SIZE + digits + [32], key + name + [LF];
    var t := LINE_KEY + (LINE_128 + tail);
    NoLineKey(digits);
    SkipNoStart(lead, t, LINE_KEY);
    assert LINE_NAME == [32] + LINE_KEY + LINE_128 + key;
    LineParts(BEGIN_SIZE, digits, [32], LINE_KEY, LINE_128, key, name);
    LineWord(t, tail);
  }

  lemma {:induction false} LineParts(a: Bytes, b: Bytes, c: Bytes, d: Bytes, e: Bytes, f: Bytes, name: Bytes)
    ensures a + b + (c + d + e + f) + name + [LF] == (a + b + c) + (d + (e + (f + name + [LF])))
  {
  }

  lemma {:induction false} NoLineKey(digits: Bytes)
    requires forall b | b in digits :: 48 <= b <= 57
    ensures NoStart(BEGIN_SIZE + digits + [32], LINE_KEY)
  {
    assert NoStart(BEGIN_SIZE, LINE_KEY) && NoStart([32], LINE_KEY);
    forall i | 0 <= i < |digits| ensures digits[i] != 108 { assert digits[i] in digits; }
    assert NoStart(digits, LINE_KEY);
    NoStartConcat(BEGIN_SIZE, digits, LINE_KEY);
    NoStartConcat(BEGIN_SIZE + digits, [32], LINE_KEY);
  }

  lemma {:induction false} LineWord(t: Bytes, tail: Bytes)
    requires t == LINE_KEY + (LINE_128 + tail) && tail != [] && Space(tail[0])
    ensures MatchWord(t, LINE_KEY) == Some(LINE_128)
  {
    assert t[|LINE_KEY|..] == LINE_128 + tail;
    WordEnds(LINE_128, tail);
  }

  lemma {:induction false} TrailerField(crc: nat)
    ensures MatchRest(TrailerText(crc) + [LF], CRC_KEY) == Some(Upcase(Numeral(crc, 16)))
    ensures YEND <= TrailerText(crc) + [LF] && LF !in TrailerText(crc)
  {
    var hex := Upcase(Numeral(crc, 16));
    HexHasNoLF(crc);
    var lead := EndKey();
    TrailerMatches(lead, CRC_KEY, hex);
    assert TrailerText(crc) + [LF] == lead + CRC_KEY + hex + [LF];
    assert forall b | b in TrailerText(crc) :: b in END_CRC || b in hex;
  }

  lemma {:induction false} TrailerMatches(lead: Bytes, key: Bytes, hex: Bytes)
    requires |key| >= 2 && NoStart(lead, key) && LF !in hex
    ensures MatchRest(lead + key + hex + [LF], key) == Some(hex)
  {
    var t := key + (hex + [LF]);
    SkipNoStart(lead, t, key);
    assert lead + key + hex + [LF] == lead + t;
    assert t[..|key|] == key && t[|key|..] == hex + [LF] + [];
    UpToLFEnds(hex, []);
  }

  lemma {:induction false} EndKey() returns (lead: Bytes)
    ensures END_CRC == lead + CRC_KEY && NoStart(lead, CRC_KEY)
    ensures YEND <= END_CRC && LF !in END_CRC
  {
    lead := [61, 121, 101, 110, 100, 32, 115, 105, 122, 101, 61, 51, 49, 50, 56, 54, 48, 32];
    assert END_CRC == lead + CRC_KEY;
    assert END_CRC[..5] == YEND;
  }

  lemma {:induction false} HexHasNoLF(crc: nat)
    ensures LF !in Upcase(Numeral(crc, 16))
  {
    var hex := Upcase(Numeral(crc, 16));
    NumeralDigits(crc, 16);
    forall b | b in hex ensures b != LF {
      var i :| 0 <= i < |hex| && hex[i] == b;
      assert Numeral(crc, 16)[i] in Numeral(crc, 16);
    }
  }

  // ----- the whole-file round trip -----

  lemma {:induction false} DataLine(block: Bytes, tail: Bytes)
    ensures var line := EncodeLine(block) + [LF];
            && Lines(line + tail) == [line] + Lines(tail)
            && !(YEND <= line) && DecodeLine(line, false) == block
  {
    EncodedLineShape(block);
    LinesCons(EncodeLine(block), tail);
    DataLineIsNoMarker(block, []);
    assert EncodeLine(block) + [LF] + [] == EncodeLine(block) + [LF];
    DecodeEncodedLine(block);
  }

  lemma {:induction false} Regroup(a: Bytes, b: Bytes, c: Bytes)
    ensures a + b + c == a + (b + c)
  {
  }

  /** The first line of a body carries its first block and is not the end marker. */
  lemma {:induction false} BodyStep(data: Bytes, rest: Bytes) returns (n: nat, line: Bytes)
    requires data != []
    ensures 1 <= n <= |data|
    ensures Lines(EncodeBody(data) + rest) == [line] + Lines(EncodeBody(data[n..]) + rest)
    ensures !(YEND <= line) && DecodeLine(line, false) == data[..n]
  {
    n := if |data| < CHUNK then |data| else CHUNK;
    line := EncodeLine(data[..n]) + [LF];
    DataLine(data[..n], EncodeBody(data[n..]) + rest);
    Regroup(line, EncodeBody(data[n..]), rest);
  }

  // ----- the shape of a body -----

  /** Every file is its lines, one after the other. */
  lemma {:induction false} LinesJoin(f: Bytes)
    ensures Join(Lines(f)) == f
    decreases |f|
  {
    if f != [] {
      var n := FirstLine(f);
      var first, rest := f[..n], Lines(f[n..]);
      LinesJoin(f[n..]);
      assert Lines(f) == [first] + rest && ([first] + rest)[1..] == rest;
      hide Lines;
      assert f == first + f[n..];
    }
  }

  /** The lines of a body are its blocks of 128 bytes, encoded: as many lines as blocks, and each
      line decodes to exactly its block. */
  lemma {:induction false} BodyLines(s: Bytes)
    ensures |Lines(EncodeBody(s))| == |Blocks(s)|
    ensures forall i | 0 <= i < |Blocks(s)| ::
              && Lines(EncodeBody(s))[i] == EncodeLine(Blocks(s)[i]) + [LF]
              && DecodeLine(Lines(EncodeBody(s))[i], false) == Blocks(s)[i]
    decreases |s|
  {
    if s != [] {
      var n := if |s| < CHUNK then |s| else CHUNK;
      var line, rest := EncodeLine(s[..n]) + [LF], EncodeBody(s[n..]);
      assert EncodeBody(s) == line + rest;
      DataLine(s[..n], rest);
      BodyLines(s[n..]);
      assert Blocks(s) == [s[..n]] + Blocks(s[n..]) && Lines(EncodeBody(s)) == [line] + Lines(rest);
    }
  }

  /** All lines of a body but the last decode to exactly 128 bytes, the last to the bytes that are
      left, and all together to the file. */
  lemma {:induction false} BodyLinesDecode(s: Bytes)
    ensures var lines := Lines(EncodeBody(s));
            && |lines| == (|s| + 127) / 128
            && (forall i | 0 <= i < |lines| - 1 :: |DecodeLine(lines[i], false)| == 128)
            && (lines != [] ==> |DecodeLine(lines[|lines| - 1], false)| == |s| - 128 * (|lines| - 1))
            && DecodeAll(lines) == s
  {
    BodyLines(s);
    BlocksPartition(s);
    DecodeAllBlocks(Lines(EncodeBody(s)), Blocks(s));
    JoinLength(Blocks(s));
  }

  function DecodeAll(lines: seq<Bytes>): Bytes {
    if lines == [] then [] else DecodeLine(lines[0], false) + DecodeAll(lines[1..])
  }

  lemma {:induction false} DecodeAllBlocks(lines: seq<Bytes>, blocks: seq<Bytes>)
    requires |lines| == |blocks| && forall i | 0 <= i < |lines| :: DecodeLine(lines[i], false) == blocks[i]
    ensures DecodeAll(lines) == Join(blocks)
  {
    if lines != [] {
      DecodeAllBlocks(lines[1..], blocks[1..]);
    }
  }

  lemma {:induction false} JoinLength(parts: seq<Bytes>)
    requires forall i | 0 <= i < |parts| - 1 :: |parts[i]| == CHUNK
    ensures parts != [] ==> |Join(parts)| == CHUNK * (|parts| - 1) + |parts[|parts| - 1]|
    ensures parts == [] ==> Join(parts) == []
  {
    if |parts| > 1 {
      JoinLength(parts[1..]);
      assert parts[1..][|parts| - 2] == parts[|parts| - 1];
    } else if |parts| == 1 {
      assert parts[1..] == [] && Join(parts) == parts[0] + [];
    }
  }

  /** In a body 0 and 13 never occur, and 10 occurs as the last byte of every line and nowhere
      else. */
  lemma {:induction false} BodyBytes(s: Bytes)
    ensures 0 !in EncodeBody(s) && CR !in EncodeBody(s)
    ensures Join(Lines(EncodeBody(s))) == EncodeBody(s)
    ensures forall l | l in Lines(EncodeBody(s)) :: l != [] && l[|l| - 1] == LF && LF !in l[..|l| - 1]
    decreases |s|
  {
    LinesJoin(EncodeBody(s));
    BodyLines(s);
    var lines := Lines(EncodeBody(s));
    forall i | 0 <= i < |lines|
      ensures lines[i] != [] && lines[i][|lines[i]| - 1] == LF && LF !in lines[i][..|lines[i]| - 1]
    {
      EncodedLineShape(Blocks(s)[i]);
      assert lines[i][..|lines[i]| - 1] == EncodeLine(Blocks(s)[i]);
    }
    if s != [] {
      var n := if |s| < CHUNK then |s| else CHUNK;
      EncodedLineShape(s[..n]);
      BodyBytes(s[n..]);
    }
  }

  lemma {:induction false} WriteTwice(st: YState, a: Bytes, b: Bytes)
    requires st.out.Some?
    ensures Write(Write(st, a), b) == Write(st, a + b)
  {
    assert st.out.value.data + a + b == st.out.value.data + (a + b);
  }

  lemma {:induction false} WriteNothing(st: YState)
    requires st.out.Some?
    ensures Write(st, []) == st
  {
    assert st.out.value.data + [] == st.out.value.data;
  }

  /** The body is decoded in full and the end marker is met exactly when it is met after it. */
  lemma {:induction false} ScanBody(data: Bytes, rest: Bytes, st: YState)
    requires st.out.Some?
    ensures Scan(Lines(EncodeBody(data) + rest), true, st) == Scan(Lines(rest), true, Write(st, data))
    ensures Ends(Lines(EncodeBody(data) + rest), true, st) == Ends(Lines(rest), true, Write(st, data))
    decreases |data|
  {
    if data == [] {
      assert EncodeBody(data) + rest == rest;
      WriteNothing(st);
    } else {
      var n, line := BodyStep(data, rest);
      ScanBody(data[n..], rest, Write(st, data[..n]));
      WriteTwice(st, data[..n], data[n..]);
      assert data[..n] + data[n..] == data;
    }
  }

  /** The header line opens the output; decoding goes on with the lines after it. */
  lemma {:induction false} ScanHeader(h: Bytes, tail: Bytes)
    requires LF !in h && YBEGIN <= h && MatchRest(h + [LF], NAME_KEY).Some?
    ensures var started := OpenOut(Header(FRESH, h + [LF]));
            && DecodeFile(h + [LF] + tail, FRESH) == Close(Scan(Lines(tail), true, started))
            && Ends(Lines(h + [LF] + tail), false, FRESH) == Ends(Lines(tail), true, started)
  {
    LinesCons(h, tail);
    assert (h + [LF] + tail)[..7] == h[..7];
  }

  lemma {:induction false} ScanTrailer(t: Bytes, st: YState)
    requires LF !in t && YEND <= t + [LF] && st.out.Some?
    ensures Scan(Lines(t + [LF]), true, st) == Done(EndLine(st, t + [LF]))
    ensures Ends(Lines(t + [LF]), true, st)
  {
    LinesCons(t, []);
    assert t + [LF] + [] == t + [LF];
  }

  /** Decoding what the encoder writes gives back the name, the decimal size and every byte,
      for every file and every checksum value. */
  lemma {:induction false} RoundTrip(name: Bytes, data: Bytes, crc: nat)
    requires LF !in name
    ensures var o := DecodeFile(EncodedFile(name, data, crc), FRESH);
            && o.Done?
            && o.st.filename == Some(name)
            && o.st.out == Some(OutFile(name, data))
            && (data != [] ==> o.st.filesize == Some(Numeral(|data|, 10)))
            && o.st.line == Some([49, 50, 56])
            && o.st.crc == Some(Upcase(Numeral(crc, 16)))
    // the decoder stopped at the end marker, so whatever follows it is ignored
    ensures Ends(Lines(EncodedFile(name, data, crc)), false, FRESH)
    ensures Terminated(EncodedFile(name, data, crc))
  {
    hide MatchRest, MatchWord, Scan, Ends, Lines, EncodeBody, HeaderText, TrailerText, Numeral, DecodeFile;
    var h, t := HeaderText(name, |data|), TrailerText(crc);
    HeaderFields(name, |data|);
    TrailerField(crc);
    ScanHeader(h, EncodeBody(data) + (t + [LF]));
    var started := OpenOut(Header(FRESH, h + [LF]));
    ScanBody(data, t + [LF], started);
    ScanTrailer(t, Write(started, data));
    assert [] + data == data;
  }

  lemma {:induction false} ScanKeepsName(lines: seq<Bytes>, st: YState)
    requires st.out.Some?
    ensures Scan(lines, true, st).Done?
    ensures Scan(lines, true, st).st.filename == st.filename
    ensures Scan(lines, true, st).st.out.Some? && Scan(lines, true, st).st.out.value.name == st.out.value.name
  {
    if lines != [] && !(YEND <= lines[0]) {
      ScanKeepsName(lines[1..], Write(st, DecodeLine(lines[0], false)));
    }
  }

  /** A file name survives exactly when it holds no line feed: otherwise it is cut there. */
  lemma {:induction false} NameSurvivesIff(name: Bytes, data: Bytes, crc: nat)
    ensures var o := DecodeFile(EncodedFile(name, data, crc), FRESH);
            o.Done? && (o.st.filename == Some(name) <==> LF !in name)
  {
    if LF !in name {
      RoundTrip(name, data, crc);
    } else {
      var first, more := SplitFirstLine(name);
      HeaderFields(first, |data|);
      var h := HeaderText(first, |data|);
      var tail := more + [LF] + (EncodeBody(data) + (TrailerText(crc) + [LF]));
      assert EncodedFile(name, data, crc) == h + [LF] + tail by {
        Regroup(BEGIN_SIZE + SizeText(|data|) + LINE_NAME, first + [LF], more);
        Regroup(BEGIN_SIZE + SizeText(|data|) + LINE_NAME, first, [LF]);
        assert HeaderText(name, |data|) == h + [LF] + more;
        Regroup(h + [LF], more, [LF]);
        Regroup(h + [LF], more + [LF], EncodeBody(data) + (TrailerText(crc) + [LF]));
      }
      ScanHeader(h, tail);
      ScanKeepsName(Lines(tail), OpenOut(Header(FRESH, h + [LF])));
      assert |first| < |name|;
    }
  }

  // ----- the checksum -----

  /** What `pass_crc32?` compares: the file's lower-case hex against the trailer's text. */
  predicate ChecksumMatches(trailer: Bytes, crc: nat) {
    Numeral(crc, 16) == Strip(Downcase(trailer))
  }

  /** With the encoder's own trailer the check passes exactly when the checksums are equal. */
  lemma {:induction false} ChecksumPassesIff(written: nat, found: nat)
    ensures ChecksumMatches(Upcase(Numeral(written, 16)), found) <==> written == found
  {
    NumeralDigits(written, 16);
    DowncaseUpcase(Numeral(written, 16));
    forall b | b in Numeral(written, 16) ensures !Blank(b) {}
    NumeralReadsBack(written, 16);
    NumeralReadsBack(found, 16);
  }

  /** Which texts pass, whoever wrote them: case and blanks around do not matter; what is left
      must be hexadecimal digits of the right value, and must not start with a zero unless it is
      the single digit. */
  lemma {:induction false} ChecksumMatchesIff(text: Bytes, crc: nat)
    ensures var t := Strip(Downcase(text));
            ChecksumMatches(text, crc) <==>
              && t != [] && (forall b | b in t :: LowerDigit(b))
              && NumeralValue(t, 16) == crc && (|t| == 1 || t[0] != 48)
  {
    var t := Strip(Downcase(text));
    NumeralDigits(crc, 16);
    NumeralReadsBack(crc, 16);
    if t != [] && forall b | b in t :: LowerDigit(b) {
      ValueWritesBack(t);
    }
  }

  /** So a correct checksum in plain hexadecimal digits passes if and only if it has no leading
      zero. */
  lemma {:induction false} HexTextPassesIff(text: Bytes, crc: nat)
    requires text != [] && forall b | b in text :: LowerDigit(b)
    ensures ChecksumMatches(Upcase(text), crc) <==> NumeralValue(text, 16) == crc && (|text| == 1 || text[0] != 48)
    ensures ChecksumMatches(text, crc) <==> NumeralValue(text, 16) == crc && (|text| == 1 || text[0] != 48)
  {
    DowncaseUpcase(text);
    forall i | 0 <= i < |text| ensures Downcase(text)[i] == text[i] { assert text[i] in text; }
    assert Downcase(text) == text;
    assert text[0] in text && text[|text| - 1] in text;
    assert Strip(text) == text;
    ChecksumMatchesIff(text, crc);
    ChecksumMatchesIff(Upcase(text), crc);
  }

  /** Eight digits as other encoders write them, "06B9DF6F", which is the CRC-32 of the one-byte
      file "c": the value is right, and the check fails. */
  lemma {:induction false} PaddedChecksumFails()
    ensures var text: Bytes := [48, 54, 98, 57, 100, 102, 54, 102];
            NumeralValue(text, 16) == 0x06b9df6f && !ChecksumMatches(Upcase(text), 0x06b9df6f)
  {
    var text: Bytes := [48, 54, 98, 57, 100, 102, 54, 102];
    assert text[..7] == [48, 54, 98, 57, 100, 102, 54] && text[..7][..6] == [48, 54, 98, 57, 100, 102];
    assert text[..7][..6][..5] == [48, 54, 98, 57, 100] && text[..7][..6][..5][..4] == [48, 54, 98, 57];
    var four: Bytes := [48, 54, 98, 57];
    assert four[..3] == [48, 54, 98] && four[..3][..2] == [48, 54] && four[..3][..2][..1] == [48];
    assert four[..3][..2][..1][..0] == [];
    assert NumeralValue([48, 54], 16) == 6;
    assert NumeralValue(four, 16) == 0x06b9;
    assert NumeralValue([48, 54, 98, 57, 100, 102], 16) == 0x06b9df;
    assert NumeralValue(text, 16) == 0x06b9df6f;
    HexTextPassesIff(text, 0x06b9df6f);
  }

  // ----- transport robustness -----

  lemma {:induction false} NoBeginSkipped(lines: seq<Bytes>, more: seq<Bytes>, st: YState)
    requires forall l | l in lines :: !(YBEGIN <= l)
    ensures Scan(lines + more, false, st) == Scan(more, false, st)
  {
    if lines == [] {
      assert lines + more == more;
    } else {
      assert lines[0] in lines;
      assert (lines + more)[1..] == lines[1..] + more;
      forall l | l in lines[1..] ensures !(YBEGIN <= l) { assert l in lines; }
      NoBeginSkipped(lines[1..], more, st);
    }
  }

  lemma {:induction false} LineOfPart(f: Bytes, l: Bytes)
    requires l in Lines(f) && YBEGIN <= l
    ensures Contains(f, YBEGIN)
    decreases |f|
  {
    var n := FirstLine(f);
    if l == f[..n] {
      assert YBEGIN <= f;
    } else {
      LineOfPart(f[n..], l);
      assert f == f[..n] + f[n..];
      ContainsConcat(f[..n], f[n..], YBEGIN);
    }
  }

  /** Lines before the header that do not start with "=ybegin" change nothing. */
  lemma {:induction false} LeadingLinesIgnored(lead: Bytes, f: Bytes, st: YState)
    requires Terminated(lead)
    requires forall l | l in Lines(lead) :: !(YBEGIN <= l)
    ensures DecodeFile(lead + f, st) == DecodeFile(f, st)
  {
    LinesConcat(lead, f);
    NoBeginSkipped(Lines(lead), Lines(f), st);
    if Contains(f, YBEGIN) {
      ContainsConcat(lead, f, YBEGIN);
    } else {
      forall l | l in Lines(f) ensures !(YBEGIN <= l) {
        if YBEGIN <= l { LineOfPart(f, l); }
      }
      NoBeginSkipped(Lines(f), [], st);
      assert Lines(f) + [] == Lines(f);
    }
  }

  lemma {:induction false} ScanStops(lines: seq<Bytes>, more: seq<Bytes>, reading: bool, st: YState)
    requires reading ==> st.out.Some?
    requires Ends(lines, reading, st)
    ensures Scan(lines + more, reading, st) == Scan(lines, reading, st)
    ensures !reading ==> exists l :: l in lines && YBEGIN <= l
  {
    assert (lines + more)[1..] == lines[1..] + more;
    if reading {
      if !(YEND <= lines[0]) {
        ScanStops(lines[1..], more, true, Write(st, DecodeLine(lines[0], false)));
      }
    } else if YBEGIN <= lines[0] {
      assert lines[0] in lines;
      ScanStops(lines[1..], more, true, OpenOut(Header(st, lines[0])));
    } else {
      ScanStops(lines[1..], more, false, st);
      var l :| l in lines[1..] && YBEGIN <= l;
      assert l in lines;
    }
  }

  /** Nothing after the "=yend" line is looked at. */
  lemma {:induction false} TrailingTextIgnored(f: Bytes, more: Bytes, st: YState)
    requires Terminated(f) && Ends(Lines(f), false, st)
    ensures DecodeFile(f + more, st) == DecodeFile(f, st)
  {
    ScanStops(Lines(f), Lines(more), false, st);
    LinesConcat(f, more);
    var l :| l in Lines(f) && YBEGIN <= l;
    LineOfPart(f, l);
    ContainsLeft(f, more, YBEGIN);
  }

  // ----- LF replaced by CR LF -----

  ghost predicate SameUpToCr(a: Option<Bytes>, b: Option<Bytes>) {
    match (a, b)
    case (None, None) => true
    case (Some(x), Some(y)) => y == x || y == x + [CR]
    case _ => false
  }

  /** Equal decoded bytes, size and line length; name and checksum equal up to one CR. */
  ghost predicate SameDecoding(a: YState, b: YState) {
    && SameUpToCr(a.filename, b.filename)
    && SameUpToCr(a.crc, b.crc)
    && a.filesize == b.filesize
    && a.line == b.line
    && a.out.Some? == b.out.Some?
    && (a.out.Some? ==> a.out.value.data == b.out.value.data)
  }

  lemma {:induction false} DecodeCrlfLine(l: Bytes, esc: bool)
    ensures DecodeLine(Crlf(l), esc) == DecodeLine(l, esc)
  {
    if l == [] {
    } else if l[0] == LF {
      var c := Crlf(l);
      assert c == [CR, LF] + Crlf(l[1..]);
      assert c[1..] == [LF] + Crlf(l[1..]);
      assert c[1..][1..] == Crlf(l[1..]);
      DecodeCrlfLine(l[1..], esc);
    } else {
      assert Crlf(l)[1..] == Crlf(l[1..]);
      DecodeCrlfLine(l[1..], true);
      DecodeCrlfLine(l[1..], false);
      DecodeCrlfLine(l[1..], esc);
    }
  }

  lemma {:induction false} RestOfCrlf(l: Bytes, key: Bytes)
    requires Plain(key)
    ensures SameUpToCr(MatchRest(l, key), MatchRest(Crlf(l), key))
  {
    SearchCrlf(l, key);
    if After(l, key).Some? {
      UpToLFOfCrlf(After(l, key).value);
    }
  }

  lemma {:induction false} HeaderOfCrlf(a: YState, b: YState, l: Bytes)
    requires SameDecoding(a, b)
    ensures SameDecoding(Header(a, l), Header(b, Crlf(l)))
  {
    RestOfCrlf(l, NAME_KEY);
    SearchCrlf(l, SIZE_KEY);
    SearchCrlf(l, LINE_KEY);
  }

  lemma {:induction false} ScanCrlf(lines: seq<Bytes>, reading: bool, a: YState, b: YState)
    requires reading ==> a.out.Some?
    requires SameDecoding(a, b)
    ensures var o, o' := Scan(lines, reading, a), Scan(CrlfLines(lines), reading, b);
            o.Done? == o'.Done? && SameDecoding(o.st, o'.st)
  {
    if lines != [] {
      var l := lines[0];
      var rest := CrlfLines(lines)[1..];
      assert CrlfLines(lines)[0] == Crlf(l) && rest == CrlfLines(lines[1..]);
      PrefixOfCrlf(YEND, l);
      PrefixOfCrlf(YBEGIN, l);
      if reading {
        if YEND <= l {
          RestOfCrlf(l, CRC_KEY);
        } else {
          DecodeCrlfLine(l, false);
          var d := DecodeLine(l, false);
          ScanCrlf(lines[1..], true, Write(a, d), Write(b, d));
        }
      } else if YBEGIN <= l {
        HeaderOfCrlf(a, b, l);
        var h, h' := Header(a, l), Header(b, Crlf(l));
        if h.filename.Some? {
          ScanCrlf(lines[1..], true, OpenOut(h), OpenOut(h'));
        }
      } else {
        ScanCrlf(lines[1..], false, a, b);
      }
    }
  }

  /** Replacing every LF by CR LF, in any file at all, leaves the decoded bytes unchanged. */
  lemma {:induction false} LineEndsDoNotMatter(f: Bytes, st: YState)
    ensures var o, o' := DecodeFile(f, st), DecodeFile(Crlf(f), st);
            o.Done? == o'.Done? && SameDecoding(o.st, o'.st)
  {
    LinesOfCrlf(f);
    SearchCrlf(f, YBEGIN);
    ScanCrlf(Lines(f), false, st, st);
  }

  /** The encoder's own file after that: the name always has the CR, so the copy is written to
      another file, with the same bytes. */
  lemma {:induction false} NameGetsCr(name: Bytes, data: Bytes, crc: nat)
    requires LF !in name
    ensures var o := DecodeFile(Crlf(EncodedFile(name, data, crc)), FRESH);
            o.Done? && o.st.filename == Some(name + [CR]) && o.st.out == Some(OutFile(name + [CR], data))
  {
    hide Scan, Lines, MatchRest, MatchWord, Numeral, EncodeBody, TrailerText, DecodeFile, Crlf;
    var tail := EncodeBody(data) + (TrailerText(crc) + [LF]);
    var h, h' := HeaderText(name, |data|), HeaderText(name + [CR], |data|);
    assert h' == h + [CR];
    HeaderFields(name, |data|);
    HeaderFields(name + [CR], |data|);
    RoundTrip(name, data, crc);
    LineEndsDoNotMatter(EncodedFile(name, data, crc), FRESH);
    CrlfOfLine(h, tail);
    ScanHeader(h', Crlf(tail));
    ScanKeepsName(Lines(Crlf(tail)), OpenOut(Header(FRESH, h' + [LF])));
  }

  /** The extra CR does not reach the checksum test. */
  lemma {:induction false} ChecksumIgnoresCr(text: Bytes, crc: nat)
    ensures ChecksumMatches(text + [CR], crc) == ChecksumMatches(text, crc)
  {
    var d := Downcase(text + [CR]);
    assert d == Downcase(text) + [CR];
    assert d[..|d| - 1] == Downcase(text);
    assert StripRight(d) == StripRight(Downcase(text));
  }
}
