/** What the decoder makes of files that other encoders wrote: which texts spell which bytes, the
    lines of any file, the leftmost matches of the header patterns, and the outcome. */
module YEncSpelling {
  import opened Wrappers
  import opened YEncCodec
  import opened YEncText
  import opened YEncFile

  // ----- codes -----

  /** Every byte may be written plain, unless its code is a line end or the escape. */
  lemma {:induction false} PlainCode(b: byte, rest: Bytes)
    requires (b + 42) % 256 !in {10, 13, 61}
    ensures DecodeLine([(b + 42) % 256] + rest, false) == [b] + DecodeLine(rest, false)
  {
    assert ([(b + 42) % 256] + rest)[1..] == rest;
  }

  /** Every byte may be written escaped, unless the code behind the escape is a line end. */
  lemma {:induction false} EscapedCode(b: byte, rest: Bytes)
    requires (b + 106) % 256 !in {10, 13}
    ensures DecodeLine([61, (b + 106) % 256] + rest, false) == [b] + DecodeLine(rest, false)
  {
    var l := [61, (b + 106) % 256] + rest;
    assert l[1..] == [(b + 106) % 256] + rest;
    assert ([(b + 106) % 256] + rest)[1..] == rest;
    assert DecodeLine(l, false) == DecodeLine(l[1..], true);
  }

  /** The text writes the data, each byte plain or escaped as its writer liked. */
  ghost predicate Spells(text: Bytes, data: Bytes)
    decreases |text|
  {
    if data == [] then text == [] else
      || (1 <= |text| && text[0] == (data[0] as int + 42) % 256 && text[0] !in {10, 13, 61}
          && Spells(text[1..], data[1..]))
      || (2 <= |text| && text[0] == 61 && text[1] == (data[0] as int + 106) % 256 && text[1] !in {10, 13}
          && Spells(text[2..], data[1..]))
  }

  lemma {:induction false} SpelledDecodes(text: Bytes, data: Bytes, rest: Bytes)
    requires Spells(text, data)
    ensures DecodeLine(text + rest, false) == data + DecodeLine(rest, false)
    decreases |text|
  {
    hide DecodeLine;
    if data == [] {
      assert text + rest == rest;
    } else if text[0] == 61 {
      SpelledDecodes(text[2..], data[1..], rest);
      EscapedCode(data[0], text[2..] + rest);
      assert text + rest == [61, text[1]] + (text[2..] + rest);
    } else {
      SpelledDecodes(text[1..], data[1..], rest);
      PlainCode(data[0], text[1..] + rest);
      assert text + rest == [text[0]] + (text[1..] + rest);
    }
  }

  /** The encoder's lines are among these spellings. */
  lemma {:induction false} EncoderSpells(s: Bytes)
    ensures Spells(EncodeLine(s), s)
  {
    if s != [] {
      EncoderSpells(s[1..]);
      var e, r := EncodeByte(s[0]), EncodeLine(s[1..]);
      assert |e| == 1 ==> (e + r)[1..] == r;
      assert |e| == 2 ==> (e + r)[2..] == r;
    }
  }

  /** A leading dot, which other encoders escape. */
  lemma {:induction false} EscapedDot()
    ensures DecodeLine([61, 110], false) == [4]
  {
    assert [61, 110] + [] == [61, 110];
    EscapedCode(4, []);
  }

  // ----- every line is a spelling -----

  /** A text without its line ends. */
  function Flat(l: Bytes): Bytes {
    if l == [] then [] else (if l[0] == 10 || l[0] == 13 then [] else [l[0]]) + Flat(l[1..])
  }

  lemma {:induction false} FlatHasNoLineEnds(l: Bytes)
    ensures LF !in Flat(l) && CR !in Flat(l)
  {
    if l != [] {
      FlatHasNoLineEnds(l[1..]);
    }
  }

  /** The three steps of the decoder: a line end, an escape, a code. */
  lemma {:induction false} DecodeStep(c: byte, l: Bytes, esc: bool)
    ensures c == 10 || c == 13 ==> DecodeLine([c] + l, esc) == DecodeLine(l, esc)
    ensures c == 61 && !esc ==> DecodeLine([c] + l, esc) == DecodeLine(l, true)
    ensures c != 10 && c != 13 && (c != 61 || esc) ==>
              DecodeLine([c] + l, esc) == [DecodeChar(c, esc)] + DecodeLine(l, false)
  {
    assert ([c] + l)[1..] == l;
  }

  lemma {:induction false} FlatDecodes(l: Bytes, esc: bool)
    ensures DecodeLine(Flat(l), esc) == DecodeLine(l, esc)
  {
    if l != [] {
      hide DecodeLine, DecodeChar;
      assert l == [l[0]] + l[1..];
      DecodeStep(l[0], l[1..], esc);
      if l[0] == 10 || l[0] == 13 {
        FlatDecodes(l[1..], esc);
        assert Flat(l) == Flat(l[1..]);
      } else {
        DecodeStep(l[0], Flat(l[1..]), esc);
        FlatDecodes(l[1..], l[0] == 61 && !esc);
      }
    }
  }

  ghost predicate SpellsUpToEscape(l: Bytes, data: Bytes) {
    Spells(l, data) || (l != [] && l[|l| - 1] == 61 && Spells(l[..|l| - 1], data))
  }

  lemma {:induction false} SpellPlain(b: byte, l: Bytes, data: Bytes)
    requires (b + 42) % 256 !in {10, 13, 61} && SpellsUpToEscape(l, data)
    ensures SpellsUpToEscape([(b + 42) % 256] + l, [b] + data)
  {
    var t := [(b + 42) % 256] + l;
    assert t[1..] == l && ([b] + data)[1..] == data;
    if l != [] {
      assert t[..|t| - 1][1..] == l[..|l| - 1];
    }
  }

  lemma {:induction false} SpellEscaped(b: byte, l: Bytes, data: Bytes)
    requires (b + 106) % 256 !in {10, 13} && SpellsUpToEscape(l, data)
    ensures SpellsUpToEscape([61, (b + 106) % 256] + l, [b] + data)
  {
    var t := [61, (b + 106) % 256] + l;
    assert t[2..] == l && ([b] + data)[1..] == data;
    if l != [] {
      assert t[..|t| - 1][2..] == l[..|l| - 1];
    }
  }

  /** The codes of a decoded byte: the character it was decoded from. */
  lemma {:induction false} CodesOf(c: byte)
    ensures (DecodeChar(c, false) + 42) % 256 == c
    ensures (DecodeChar(c, true) + 106) % 256 == c
  {
  }

  lemma {:induction false} SpelledUpToEscape(l: Bytes)
    requires LF !in l && CR !in l
    ensures SpellsUpToEscape(l, DecodeLine(l, false))
    decreases |l|
  {
    if l != [] {
      hide Spells, SpellsUpToEscape, DecodeLine, DecodeChar;
      assert l[0] in l;
      assert l == [l[0]] + l[1..];
      DecodeStep(l[0], l[1..], false);
      if l[0] != 61 {
        CodesOf(l[0]);
        SpelledUpToEscape(l[1..]);
        SpellPlain(DecodeChar(l[0], false), l[1..], DecodeLine(l[1..], false));
      } else if |l| == 1 {
        LoneEscape();
        assert l == [61];
      } else {
        assert l[1] in l;
        assert l[1..] == [l[1]] + l[2..];
        CodesOf(l[1]);
        DecodeStep(l[1], l[2..], true);
        SpelledUpToEscape(l[2..]);
        SpellEscaped(DecodeChar(l[1], true), l[2..], DecodeLine(l[2..], false));
        assert l == [61, l[1]] + l[2..];
      }
    }
  }

  lemma {:induction false} LoneEscape()
    ensures DecodeLine([61], false) == [] && SpellsUpToEscape([61], [])
  {
    assert [61] + [] == [61];
    DecodeStep(61, [], false);
  }

  /** Any line of any file: without its line ends, and without an escape that nothing follows, it
      spells exactly the bytes that it decodes to. */
  lemma {:induction false} EveryLineIsSpelled(l: Bytes)
    ensures var t := Flat(l);
            || Spells(t, DecodeLine(l, false))
            || (t != [] && t[|t| - 1] == 61 && Spells(t[..|t| - 1], DecodeLine(l, false)))
  {
    FlatDecodes(l, false);
    FlatHasNoLineEnds(l);
    SpelledUpToEscape(Flat(l));
  }

  // ----- whole files -----

  /** Each text on a line of its own. */
  function OnLines(texts: seq<Bytes>): Bytes {
    if texts == [] then [] else texts[0] + [LF] + OnLines(texts[1..])
  }

  /** Data lines in any spelling, none of which looks like the end line. */
  ghost predicate DataLines(texts: seq<Bytes>, parts: seq<Bytes>) {
    && |texts| == |parts|
    && forall i | 0 <= i < |texts| :: Spells(texts[i], parts[i]) && !(YEND <= texts[i])
  }

  lemma {:induction false} SpelledLine(text: Bytes, part: Bytes)
    requires Spells(text, part) && !(YEND <= text)
    ensures LF !in text && !(YEND <= text + [LF]) && DecodeLine(text + [LF], false) == part
  {
    SpelledDecodes(text, part, [LF]);
    assert DecodeLine([LF], false) == DecodeLine([LF][1..], false);
    SpelledHasNoLF(text, part);
    assert |text| >= 5 ==> (text + [LF])[..5] == text[..5];
    assert |text| < 5 ==> (text + [LF])[|text|] == LF;
  }

  lemma {:induction false} SpelledHasNoLF(text: Bytes, data: Bytes)
    requires Spells(text, data)
    ensures LF !in text && CR !in text
    decreases |text|
  {
    if data != [] {
      if text[0] == 61 {
        SpelledHasNoLF(text[2..], data[1..]);
        assert text == [text[0], text[1]] + text[2..];
      } else {
        SpelledHasNoLF(text[1..], data[1..]);
        assert text == [text[0]] + text[1..];
      }
    }
  }

  lemma {:induction false} ScanSpelled(texts: seq<Bytes>, parts: seq<Bytes>, rest: Bytes, st: YState)
    requires DataLines(texts, parts) && st.out.Some?
    ensures Scan(Lines(OnLines(texts) + rest), true, st) == Scan(Lines(rest), true, Write(st, Join(parts)))
  {
    hide Lines, Spells, DecodeLine;
    if texts == [] {
      assert OnLines(texts) + rest == rest;
      WriteNothing(st);
    } else {
      var line, tail := texts[0] + [LF], OnLines(texts[1..]) + rest;
      SpelledLine(texts[0], parts[0]);
      Regroup(line, OnLines(texts[1..]), rest);
      LinesCons(texts[0], tail);
      ScanSpelled(texts[1..], parts[1..], rest, Write(st, parts[0]));
      WriteTwice(st, parts[0], Join(parts[1..]));
    }
  }

  /** A file of any encoder: whatever line lengths it chose, whichever bytes it escaped, and
      whatever else its header and trailer say, the name is the header's and the bytes are those
      spelled. */
  lemma {:induction false} SpelledFileDecodes(header: Bytes, texts: seq<Bytes>, parts: seq<Bytes>, trailer: Bytes)
    requires LF !in header && YBEGIN <= header && After(header + [LF], NAME_KEY).Some?
    requires DataLines(texts, parts)
    requires LF !in trailer && YEND <= trailer
    ensures var name := UpToLF(After(header + [LF], NAME_KEY).value);
            && DecodeFile(header + [LF] + (OnLines(texts) + (trailer + [LF])), FRESH)
               == Done(YState(Some(name), MatchWord(header + [LF], SIZE_KEY), MatchWord(header + [LF], LINE_KEY),
                              MatchRest(trailer + [LF], CRC_KEY), Some(OutFile(name, Join(parts)))))
  {
    hide Lines, Spells, DecodeLine, After, MatchWord, DecodeFile, Scan;
    var started := OpenOut(Header(FRESH, header + [LF]));
    ScanHeader(header, OnLines(texts) + (trailer + [LF]));
    ScanSpelled(texts, parts, trailer + [LF], started);
    assert YEND <= trailer + [LF];
    ScanTrailer(trailer, Write(started, Join(parts)));
    assert [] + Join(parts) == Join(parts);
  }

  // ----- the lines of any file -----

  /** The lines of a file, one after the other, are the file; each holds a line end as its last
      byte and nowhere else, except that the last line may have none. */
  lemma {:induction false} LinesAreLines(f: Bytes)
    ensures Join(Lines(f)) == f
    ensures forall i | 0 <= i < |Lines(f)| :: Lines(f)[i] != [] && LF !in Lines(f)[i][..|Lines(f)[i]| - 1]
    ensures forall i | 0 <= i < |Lines(f)| - 1 :: Lines(f)[i][|Lines(f)[i]| - 1] == LF
    decreases |f|
  {
    LinesJoin(f);
    hide Lines, Join;
    if f == [] {
      NoLines();
    } else if LF in f {
      var l, rest := SplitFirstLine(f);
      LinesAreLines(rest);
      LinesCons(l, rest);
      assert (l + [LF])[..|l|] == l;
    } else {
      LinesUnterminated(f);
      assert f[..|f| - 1] <= f;
    }
  }

  // ----- leftmost matches -----

  /** The text found stands behind the key at one place, and the key at no earlier place; nothing is
      found just when the key stands nowhere. */
  lemma {:induction false} AfterIsLeftmost(s: Bytes, key: Bytes)
    requires key != []
    ensures After(s, key).Some? ==>
              exists i :: 0 <= i <= |s| && s[i..] == key + After(s, key).value
                          && forall j | 0 <= j < i :: !(key <= s[j..])
    ensures After(s, key).None? ==> forall j | 0 <= j <= |s| :: !(key <= s[j..])
  {
    assert s[0..] == s;
    if key <= s {
      assert s[0..] == key + After(s, key).value;
    } else if s != [] {
      AfterIsLeftmost(s[1..], key);
      if After(s, key).Some? {
        var i :| 0 <= i <= |s[1..]| && s[1..][i..] == key + After(s[1..], key).value
                 && forall j | 0 <= j < i :: !(key <= s[1..][j..]);
        assert s[i + 1..] == s[1..][i..];
        forall j | 0 <= j < i + 1 ensures !(key <= s[j..]) {
          if j > 0 { assert s[j..] == s[1..][j - 1..]; }
        }
      } else {
        forall j | 0 <= j <= |s| ensures !(key <= s[j..]) {
          if j > 0 { assert s[j..] == s[1..][j - 1..]; }
        }
      }
    }
  }

  /** A word goes up to the first blank, the rest of a line up to its line end. */
  lemma {:induction false} UpTo(t: Bytes)
    ensures |Word(t)| <= |t| && Word(t) == t[..|Word(t)|] && (forall b | b in Word(t) :: !Space(b))
    ensures |Word(t)| < |t| ==> Space(t[|Word(t)|])
    ensures |UpToLF(t)| <= |t| && UpToLF(t) == t[..|UpToLF(t)|] && LF !in UpToLF(t)
    ensures |UpToLF(t)| < |t| ==> t[|UpToLF(t)|] == LF
  {
    if t != [] {
      UpTo(t[1..]);
    }
  }

  /** The leftmost place of the key that no blank follows decides; `i` is that place. */
  lemma {:induction false} WordIsLeftmost(s: Bytes, key: Bytes) returns (i: nat)
    requires key != []
    ensures i <= |s| && forall j | 0 <= j < i :: !WordAt(s, j, key)
    ensures MatchWord(s, key).Some? ==> WordAt(s, i, key) && MatchWord(s, key) == Some(Word(s[i..][|key|..]))
    ensures MatchWord(s, key).None? ==> i == |s|
  {
    assert s[0..] == s;
    i := 0;
    if WordAt(s, 0, key) {
    } else if s != [] {
      i := WordIsLeftmost(s[1..], key);
      assert s[i + 1..] == s[1..][i..];
      forall j | 0 <= j < i + 1 ensures !WordAt(s, j, key) {
        if j > 0 {
          assert s[j..] == s[1..][j - 1..];
          assert !WordAt(s[1..], j - 1, key);
        }
      }
      i := i + 1;
    }
  }

  /** The key stands at the place, and neither the end nor a blank directly behind it. */
  predicate WordAt(s: Bytes, i: nat, key: Bytes)
    requires i <= |s|
  {
    key <= s[i..] && i + |key| < |s| && !Space(s[i + |key|])
  }

  // ----- the outcome -----

  lemma {:induction false} ScanOutcome(lines: seq<Bytes>, st: YState, k: nat)
    requires k <= |lines| && (forall j | 0 <= j < k :: !(YBEGIN <= lines[j])) && (k < |lines| ==> YBEGIN <= lines[k])
    ensures var o := Scan(lines, false, st);
            && (k == |lines| ==> o == Done(st))
            && (k < |lines| && st.filename.None? && After(lines[k], NAME_KEY).None? ==> o.Raised? && o.st.out == st.out)
            && (k < |lines| && st.filename.Some? ==>
                  o.Done? && o.st.out.Some? && o.st.out.value.name == st.filename.value)
            && (k < |lines| && st.filename.None? && After(lines[k], NAME_KEY).Some? ==>
                  && o.Done? && o.st.out.Some?
                  && o.st.out.value.name == UpToLF(After(lines[k], NAME_KEY).value))
  {
    hide After, MatchWord, DecodeLine;
    if k > 0 {
      ScanOutcome(lines[1..], st, k - 1);
    } else if k < |lines| {
      var h := Header(st, lines[0]);
      if h.filename.Some? {
        ScanKeepsName(lines[1..], OpenOut(h));
      }
    }
  }

  /** Decoding any file at all raises if and only if no line starts with "=ybegin", or the first
      that does gives no name; otherwise the output carries the name that line gives. */
  lemma {:induction false} OutcomeIff(f: Bytes, k: nat)
    requires k <= |Lines(f)| && (forall j | 0 <= j < k :: !(YBEGIN <= Lines(f)[j]))
    requires k < |Lines(f)| ==> YBEGIN <= Lines(f)[k]
    ensures var o := DecodeFile(f, FRESH);
            && (o.Raised? <==> k == |Lines(f)| || After(Lines(f)[k], NAME_KEY).None?)
            && (o.Done? ==> o.st.out.Some? && o.st.out.value.name == UpToLF(After(Lines(f)[k], NAME_KEY).value))
  {
    hide Scan, Lines, After;
    ScanOutcome(Lines(f), FRESH, k);
    if k < |Lines(f)| {
      LineOfPart(f, Lines(f)[k]);
    }
  }

  lemma {:induction false} ScanKeepsFields(lines: seq<Bytes>, reading: bool, st: YState)
    requires reading ==> st.out.Some?
    ensures var o := Scan(lines, reading, st).st;
            && (st.filename.Some? ==> o.filename == st.filename) && (st.filesize.Some? ==> o.filesize == st.filesize)
            && (st.line.Some? ==> o.line == st.line) && (st.crc.Some? ==> o.crc == st.crc)
  {
    hide DecodeLine, MatchRest, MatchWord;
    if lines != [] {
      if reading {
        if !(YEND <= lines[0]) {
          ScanKeepsFields(lines[1..], true, Write(st, DecodeLine(lines[0], false)));
        }
      } else if YBEGIN <= lines[0] {
        var h := Header(st, lines[0]);
        if h.filename.Some? {
          ScanKeepsFields(lines[1..], true, OpenOut(h));
        }
      } else {
        ScanKeepsFields(lines[1..], false, st);
      }
    }
  }

  /** A field that is set stays: a second file decoded by one object does not change it. */
  lemma {:induction false} FieldsStay(f: Bytes, st: YState)
    ensures var o := DecodeFile(f, st).st;
            && (st.filename.Some? ==> o.filename == st.filename) && (st.filesize.Some? ==> o.filesize == st.filesize)
            && (st.line.Some? ==> o.line == st.line) && (st.crc.Some? ==> o.crc == st.crc)
  {
    ScanKeepsFields(Lines(f), false, st);
  }

  // ----- the trailer -----

  /** The size that the trailer gives is 312860, whatever the file. */
  lemma {:induction false} TrailerSizeIsConstant(crc: nat)
    ensures MatchWord(TrailerText(crc) + [LF], SIZE_KEY) == Some([51, 49, 50, 56, 54, 48])
  {
    var lead, key := TrailerParts();
    SizeBetween(lead, SIZE_KEY, [51, 49, 50, 56, 54, 48], key, Upcase(Numeral(crc, 16)));
  }

  lemma {:induction false} TrailerParts() returns (lead: Bytes, key: Bytes)
    ensures END_CRC == lead + SIZE_KEY + [51, 49, 50, 56, 54, 48] + key
    ensures NoStart(lead, SIZE_KEY) && key != [] && Space(key[0])
  {
    lead, key := [61, 121, 101, 110, 100, 32], [32, 99, 114, 99, 51, 50, 61];
    assert END_CRC == lead + SIZE_KEY + [51, 49, 50, 56, 54, 48] + key;
  }

  lemma {:induction false} SizeBetween(lead: Bytes, key: Bytes, number: Bytes, next: Bytes, more: Bytes)
    requires |key| >= 2 && NoStart(lead, key) && number != [] && forall b | b in number :: !Space(b)
    requires next != [] && Space(next[0])
    ensures MatchWord(lead + key + number + next + more + [LF], key) == Some(number)
  {
    var tail := next + more + [LF];
    var t := key + (number + tail);
    SkipNoStart(lead, t, key);
    assert t[..|key|] == key && t[|key|..] == number + tail;
    WordEnds(number, tail);
    assert lead + key + number + next + more + [LF] == lead + t;
  }

  // ----- the checksum text -----

  lemma {:induction false} StripsRight(s: Bytes) returns (j: nat)
    ensures j <= |s| && StripRight(s) == s[..j] && (j > 0 ==> !Blank(s[j - 1]))
    ensures forall k | j <= k < |s| :: Blank(s[k])
  {
    if s != [] && Blank(s[|s| - 1]) {
      j := StripsRight(s[..|s| - 1]);
    } else {
      j := |s|;
    }
  }

  lemma {:induction false} StripsLeft(s: Bytes) returns (i: nat)
    ensures i <= |s| && StripLeft(s) == s[i..] && (i < |s| ==> !Blank(s[i]))
    ensures forall k | 0 <= k < i :: Blank(s[k])
  {
    if s != [] && Blank(s[0]) {
      i := StripsLeft(s[1..]);
      assert s[1..][i..] == s[i + 1..];
      forall k | 0 <= k < i + 1 ensures Blank(s[k]) {
        if k > 0 { assert s[k] == s[1..][k - 1]; }
      }
      i := i + 1;
    } else {
      i := 0;
    }
  }

  /** A text is blanks, the stripped text, which neither begins nor ends with one, and blanks. */
  lemma {:induction false} StripTakesBlanks(s: Bytes) returns (i: nat, j: nat)
    ensures i <= j <= |s| && Strip(s) == s[i..j]
    ensures forall k | 0 <= k < i || j <= k < |s| :: Blank(s[k])
    ensures i < j ==> !Blank(s[i]) && !Blank(s[j - 1])
  {
    j := StripsRight(s);
    i := StripsLeft(s[..j]);
    hide StripLeft, StripRight;
    forall k | 0 <= k < i ensures Blank(s[k]) { assert s[..j][k] == s[k]; }
  }
}
