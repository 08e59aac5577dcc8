/** The header map: reading back the fields that a HEAD response was written from, and what the map
    holds for any text. */
module NewsHeader {
  import opened Wrappers
  import opened NewsText

  datatype Field = Field(key: string, value: string)

  predicate Trimmed(s: string) {
    s != "" ==> !White(s[0]) && !White(s[|s|-1])
  }

  /** A name without a colon, and a text; neither begins or ends with a blank. */
  predicate FieldOk(f: Field) {
    Trimmed(f.key) && ':' !in f.key && Trimmed(f.value)
  }

  predicate AllWhite(s: string) {
    forall i | 0 <= i < |s| :: White(s[i])
  }

  /** A line that gives the field, as RFC 3977, section 6.2.2, has it: a name, a colon and a text,
      with any blanks around each of them. It is on one line and does not look like a status. */
  ghost predicate Gives(line: string, f: Field) {
    && FieldOk(f) && !HasCrlf(line) && !(NO_SUCH <= line) && !(HEAD_FOLLOWS <= line)
    && exists a, b, c, d :: Spaced(line, f, a, b, c, d)
  }

  predicate Spaced(line: string, f: Field, a: string, b: string, c: string, d: string) {
    && AllWhite(a) && AllWhite(b) && AllWhite(c) && AllWhite(d)
    && line == (a + f.key + b) + ":" + (c + f.value + d)
  }

  ghost predicate GiveAll(lines: seq<string>, fields: seq<Field>) {
    |lines| == |fields| && forall i | 0 <= i < |lines| :: Gives(lines[i], fields[i])
  }

  /** The lines, each with its line end, then the closing dot. */
  function HeadBlock(lines: seq<string>): string {
    if lines == [] then "." else lines[0] + CRLF + HeadBlock(lines[1..])
  }

  /** The last field of a name counts. */
  function FieldMap(fields: seq<Field>, h: map<string, string>): map<string, string> {
    if fields == [] then h else FieldMap(fields[1..], h[fields[0].key := fields[0].value])
  }

  // ----- splitting and trimming -----

  lemma {:induction false} ColonFound(key: string, rest: string)
    requires ':' !in key
    ensures ColonSplit(key + ":" + rest) == (key, rest)
    decreases |key|
  {
    var s := key + ":" + rest;
    if key == "" {
      assert s[0] == ':' && s[1..] == rest;
    } else {
      assert s[0] == key[0] && s[1..] == key[1..] + ":" + rest;
      ColonFound(key[1..], rest);
      assert key[0] in key && [key[0]] + key[1..] == key;
    }
  }

  /** A line is split at its first colon; without one all of it is the key. */
  lemma {:induction false} SplitAtColon(l: string)
    ensures ':' !in ColonSplit(l).0
    ensures ':' in l ==> l == ColonSplit(l).0 + ":" + ColonSplit(l).1
    ensures ':' !in l ==> ColonSplit(l) == (l, "")
    decreases |l|
  {
    if l != "" && l[0] != ':' {
      SplitAtColon(l[1..]);
      assert l == [l[0]] + l[1..];
    } else if l != "" {
      assert l == "" + ":" + l[1..];
    }
  }

  lemma {:induction false} LeftBlanks(a: string, s: string)
    requires AllWhite(a) && (s != "" ==> !White(s[0]))
    ensures TrimLeft(a + s) == s
  {
    if a == "" {
      assert a + s == s;
    } else {
      assert (a + s)[1..] == a[1..] + s;
      LeftBlanks(a[1..], s);
    }
  }

  lemma {:induction false} RightBlanks(s: string, b: string)
    requires AllWhite(b) && (s != "" ==> !White(s[|s| - 1]))
    ensures TrimRight(s + b) == s
  {
    if b == "" {
      assert s + b == s;
    } else {
      assert (s + b)[..|s + b| - 1] == s + b[..|b| - 1];
      RightBlanks(s, b[..|b| - 1]);
    }
  }

  /** Trimming takes off the blanks on both sides, whatever they are, and nothing else. */
  lemma {:induction false} BlanksGo(a: string, s: string, b: string)
    requires AllWhite(a) && AllWhite(b) && Trimmed(s)
    ensures Trim(a + s + b) == s
  {
    if s == "" {
      assert a + s + b == (a + b) + "";
      LeftBlanks(a + b, "");
    } else {
      assert a + s + b == a + (s + b);
      LeftBlanks(a, s + b);
      RightBlanks(s, b);
    }
  }

  /** Every text is blanks, a trimmed text and blanks, so `BlanksGo` says what trimming makes of it. */
  lemma {:induction false} BlanksAround(t: string) returns (a: string, s: string, b: string)
    ensures AllWhite(a) && AllWhite(b) && Trimmed(s) && t == a + s + b
  {
    if t != "" && White(t[0]) {
      a, s, b := BlanksAround(t[1..]);
      a := [t[0]] + a;
    } else if t != "" && White(t[|t| - 1]) {
      a, s, b := BlanksAround(t[..|t| - 1]);
      b := b + [t[|t| - 1]];
    } else {
      a, s, b := "", t, "";
    }
  }

  // ----- reading back -----

  lemma {:induction false} FieldIsEntered(line: string, f: Field, h: map<string, string>)
    requires Gives(line, f)
    ensures HeaderLine(h, line) == h[f.key := f.value]
  {
    var a, b, c, d :| Spaced(line, f, a, b, c, d);
    var key, value := a + f.key + b, c + f.value + d;
    forall x | x in key ensures x != ':' {
      assert x in a || x in f.key || x in b;
    }
    ColonFound(key, value);
    assert ':' in line by { assert line[|key|] == ':'; }
    BlanksGo(a, f.key, b);
    BlanksGo(c, f.value, d);
  }

  lemma {:induction false} LinesOfHead(lines: seq<string>, fields: seq<Field>, h: map<string, string>)
    requires GiveAll(lines, fields)
    ensures HeaderOf(Lines(HeadBlock(lines)), h) == FieldMap(fields, h)
    decreases |lines|
  {
    hide Lines;
    if lines == [] {
      OneDot(h);
    } else {
      var l, f, more := lines[0], fields[0], lines[1..];
      assert Gives(l, f);
      assert GiveAll(more, fields[1..]) by {
        forall i | 0 <= i < |more| ensures Gives(more[i], fields[1..][i]) { assert Gives(lines[i + 1], fields[i + 1]); }
      }
      LinesConcat(l, HeadBlock(more));
      FieldIsEntered(l, f, h);
      OneLine(l);
      var rest := Lines(HeadBlock(more));
      assert ([l] + rest)[1..] == rest;
      LinesOfHead(more, fields[1..], h[f.key := f.value]);
    }
  }

  lemma {:induction false} OneLine(l: string)
    requires !HasCrlf(l) && l != ""
    ensures Lines(l) == [l]
  {
    LineAlone(l, "");
    assert "" + l == l;
  }

  lemma {:induction false} OneDot(h: map<string, string>)
    ensures HeaderOf(Lines("."), h) == h
  {
    OneLine(".");
    assert ["."][1..] == [];
  }

  /** Reading back: the map made of a complete response is the map of the fields its lines give,
      whatever blanks stand around names and texts. */
  lemma {:induction false} FieldsReadBack(status: string, lines: seq<string>, fields: seq<Field>)
    requires GiveAll(lines, fields) && HEAD_FOLLOWS <= status && !HasCrlf(status)
    ensures HeaderMap(status + CRLF + HeadBlock(lines)) == FieldMap(fields, map[])
  {
    hide Lines;
    LinesConcat(status, HeadBlock(lines));
    OneLine(status);
    var rest := Lines(HeadBlock(lines));
    assert ([status] + rest)[1..] == rest;
    assert HeaderLine(map[], status) == map[] by {
      assert status[0] == HEAD_FOLLOWS[0] != NO_SUCH[0];
    }
    LinesOfHead(lines, fields, map[]);
  }

  lemma {:induction false} NoStatusStart(f: Field, start: string)
    requires ':' !in f.key && (forall i | 0 <= i < |f.key| :: !White(f.key[i]))
    requires ':' !in start && |start| > 3 && White(start[3])
    ensures !(start <= f.key + ": " + f.value)
  {
    var line, n := f.key + ": " + f.value, |f.key|;
    assert line[n] == ':';
    assert n < |start| ==> start[n] in start && start[n] != line[n];
    assert n >= |start| ==> line[3] == f.key[3] && line[3] != start[3];
  }

  /** A field as servers send it: a name without blanks, a colon, one blank and a text. */
  lemma {:induction false} SentFieldGives(f: Field)
    requires FieldOk(f) && (forall i | 0 <= i < |f.key| :: !White(f.key[i])) && !HasCrlf(f.value)
    ensures Gives(f.key + ": " + f.value, f)
  {
    var line := f.key + ": " + f.value;
    NoStatusStart(f, NO_SUCH);
    NoStatusStart(f, HEAD_FOLLOWS);
    forall i | 0 <= i < |line| - 1 ensures !(line[i] == '\r' && line[i + 1] == '\n') {
      if i >= |f.key| + 2 {
        assert line[i] == f.value[i - |f.key| - 2] && line[i + 1] == f.value[i - |f.key| - 1];
        assert !(f.value[i - |f.key| - 2] == '\r' && f.value[i - |f.key| - 2 + 1] == '\n');
      }
    }
    assert line == ("" + f.key + "") + ":" + (" " + f.value + "");
    assert Spaced(line, f, "", "", " ", "");
  }

  /** A line without a colon that is no status gives a field without a text. */
  lemma {:induction false} NoColonNoText(line: string, h: map<string, string>)
    requires ':' !in line && line != "." && !(NO_SUCH <= line) && !(HEAD_FOLLOWS <= line)
    ensures HeaderLine(h, line) == h[Trim(line) := ""]
  {
    SplitAtColon(line);
    BlanksGo("", "", "");
    assert "" + "" + "" == "";
  }

  // ----- any text -----

  /** The key and the text that a line enters, if any. */
  function Entered(line: string): Option<(string, string)> {
    if NO_SUCH <= line then Some(("Subject", "No such article"))
    else if line == "." || HEAD_FOLLOWS <= line then None
    else
      var (key, value) := ColonSplit(line);
      Some((Trim(key), Trim(value)))
  }

  /** What the last of the lines that enter the key enters for it. */
  function LastEntered(lines: seq<string>, key: string): Option<string> {
    if lines == [] then None
    else
      var last := Entered(lines[|lines| - 1]);
      if last.Some? && last.value.0 == key then Some(last.value.1) else LastEntered(lines[..|lines| - 1], key)
  }

  function Lookup(h: map<string, string>, key: string): Option<string> {
    if key in h then Some(h[key]) else None
  }

  lemma {:induction false} HeaderOfSnoc(lines: seq<string>, line: string, h: map<string, string>)
    ensures HeaderOf(lines + [line], h) == HeaderLine(HeaderOf(lines, h), line)
    decreases |lines|
  {
    hide HeaderLine;
    if lines == [] {
      assert lines + [line] == [line] && [line][1..] == [];
    } else {
      assert (lines + [line])[0] == lines[0] && (lines + [line])[1..] == lines[1..] + [line];
      HeaderOfSnoc(lines[1..], line, HeaderLine(h, lines[0]));
    }
  }

  /** For every text and key: the map of a read holds what the last line for the key enters. */
  lemma {:induction false} LastLineCounts(lines: seq<string>, key: string)
    ensures Lookup(HeaderOf(lines, map[]), key) == LastEntered(lines, key)
    decreases |lines|
  {
    hide ColonSplit, Trim;
    if lines != [] {
      var n := |lines| - 1;
      LastLineCounts(lines[..n], key);
      HeaderOfSnoc(lines[..n], lines[n], map[]);
      assert lines == lines[..n] + [lines[n]];
    }
  }

  lemma {:induction false} LastOfTwo(a: seq<string>, b: seq<string>, key: string)
    ensures LastEntered(a + b, key) == if LastEntered(b, key).Some? then LastEntered(b, key) else LastEntered(a, key)
    decreases |b|
  {
    hide Entered;
    if b == [] {
      assert a + b == a;
    } else {
      assert (a + b)[..|a + b| - 1] == a + b[..|b| - 1];
      LastOfTwo(a, b[..|b| - 1], key);
    }
  }

  /** An article that is not there is given a subject that says so, wherever the line stands in the
      read, if and only if no later line of the read gives another subject. */
  lemma {:induction false} MissingIsMarkedIff(txt: string, before: seq<string>, status: string, after: seq<string>)
    requires NO_SUCH <= status && Lines(txt) == before + [status] + after
    ensures Lookup(HeaderMap(txt), "Subject") == Some("No such article")
       <==> LastEntered(after, "Subject").None? || LastEntered(after, "Subject").value == "No such article"
  {
    hide Lines;
    LastLineCounts(Lines(txt), "Subject");
    LastOfTwo(before + [status], after, "Subject");
    LastOfTwo(before, [status], "Subject");
  }
}
