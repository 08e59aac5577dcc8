/** The text operations of the reader: splitting a buffer at its last line end, splitting text
    into lines, and the header map of one read. */
module NewsText {
  const CRLF: string := "\r\n"

  predicate HasCrlf(s: string) {
    exists i | 0 <= i < |s| - 1 :: s[i] == '\r' && s[i+1] == '\n'
  }

  /** `splitter` with its defaults: everything before the last CR LF and everything after it;
      the whole text and nothing when there is none. */
  function LastSplit(s: string): (r: (string, string))
    ensures HasCrlf(s) ==> s == r.0 + CRLF + r.1 && !HasCrlf(r.1)
    ensures !HasCrlf(s) ==> r == (s, "")
  {
    if |s| < 2 then (s, "")
    else if s[|s|-2] == '\r' && s[|s|-1] == '\n' then (s[..|s|-2], "")
    else
      var (p, q) := LastSplit(s[..|s|-1]);
      if HasCrlf(s[..|s|-1]) then
        assert s == p + CRLF + (q + [s[|s|-1]]);
        (p, q + [s[|s|-1]])
      else
        (s, "")
  }

  /** `split(separator: "\r\n")`: the pieces between line ends, the empty ones left out. */
  function Lines(s: string): seq<string> {
    LinesFrom(s, "")
  }

  function Piece(p: string): seq<string> {
    if p == "" then [] else [p]
  }

  function LinesFrom(s: string, piece: string): seq<string>
    decreases |s|
  {
    if s == "" then Piece(piece)
    else if |s| >= 2 && s[0] == '\r' && s[1] == '\n' then Piece(piece) + LinesFrom(s[2..], "")
    else LinesFrom(s[1..], piece + [s[0]])
  }

  predicate White(c: char) {
    c == ' ' || '\t' <= c <= '\r'
  }

  function TrimLeft(s: string): string {
    if s != "" && White(s[0]) then TrimLeft(s[1..]) else s
  }

  function TrimRight(s: string): string {
    if s != "" && White(s[|s|-1]) then TrimRight(s[..|s|-1]) else s
  }

  function Trim(s: string): string {
    TrimRight(TrimLeft(s))
  }

  /** `splitter` at the first colon. */
  function ColonSplit(s: string): (string, string) {
    if s == "" then ("", "")
    else if s[0] == ':' then ("", s[1..])
    else
      var (k, v) := ColonSplit(s[1..]);
      ([s[0]] + k, v)
  }

  const NO_SUCH: string := "430 No such article"
  const HEAD_FOLLOWS: string := "221 "

  function HeaderLine(h: map<string, string>, line: string): map<string, string> {
    if NO_SUCH <= line then h["Subject" := "No such article"]
    else if line != "." && !(HEAD_FOLLOWS <= line) then
      var (key, value) := ColonSplit(line);
      h[Trim(key) := Trim(value)]
    else h
  }

  function HeaderOf(lines: seq<string>, h: map<string, string>): map<string, string> {
    if lines == [] then h else HeaderOf(lines[1..], HeaderLine(h, lines[0]))
  }

  /** The header map that `parseHeader` makes of one read. */
  function HeaderMap(txt: string): map<string, string> {
    HeaderOf(Lines(txt), map[])
  }

  // ----- laws of splitting -----

  lemma {:induction false} LinesFromConcat(s: string, t: string, piece: string)
    ensures LinesFrom(s + CRLF + t, piece) == LinesFrom(s, piece) + Lines(t)
    decreases |s|
  {
    var u := s + CRLF + t;
    if s == "" {
      assert u == CRLF + t;
      assert u[2..] == t;
    } else if |s| >= 2 && s[0] == '\r' && s[1] == '\n' {
      assert u[0] == s[0] && u[1] == s[1] && u[2..] == s[2..] + CRLF + t;
      LinesFromConcat(s[2..], t, "");
    } else {
      assert u[0] == s[0] && u[1] == (if |s| >= 2 then s[1] else '\r');
      assert u[1..] == s[1..] + CRLF + t;
      LinesFromConcat(s[1..], t, piece + [s[0]]);
    }
  }

  /** Lines do not reach over a line end. */
  lemma {:induction false} LinesConcat(s: string, t: string)
    ensures Lines(s + CRLF + t) == Lines(s) + Lines(t)
  {
    LinesFromConcat(s, t, "");
  }

  lemma {:induction false} LineAlone(l: string, piece: string)
    requires !HasCrlf(l)
    ensures LinesFrom(l, piece) == Piece(piece + l)
    decreases |l|
  {
    if l == "" {
      assert piece + l == piece;
    } else {
      LineAlone(l[1..], piece + [l[0]]);
      assert piece + [l[0]] + l[1..] == piece + l;
    }
  }

  lemma {:induction false} NoCrlfPrefix(q: string)
    requires q != "" && !HasCrlf(q)
    ensures !HasCrlf(q[..|q|-1])
  {
    var t := q[..|q|-1];
    forall i | 0 <= i < |t| - 1 ensures !(t[i] == '\r' && t[i+1] == '\n') {
      assert t[i] == q[i] && t[i+1] == q[i+1];
    }
  }

  /** The split of a text with a line end is determined by where its last line end is. */
  lemma {:induction false} SplitUnique(p: string, q: string)
    requires !HasCrlf(q)
    ensures HasCrlf(p + CRLF + q) && LastSplit(p + CRLF + q) == (p, q)
    decreases |q|
  {
    var s := p + CRLF + q;
    var n := |s|;
    assert s[|p|] == '\r' && s[|p|+1] == '\n';
    if q == "" {
      assert s[..n-2] == p;
    } else {
      NoCrlfPrefix(q);
      SplitUnique(p, q[..|q|-1]);
      assert s[..n-1] == p + CRLF + q[..|q|-1];
      assert s[n-2] == if |q| == 1 then '\n' else q[|q|-2];
      assert |q| >= 2 ==> !(q[|q|-2] == '\r' && q[|q|-2+1] == '\n');
      assert q[..|q|-1] + [s[n-1]] == q;
    }
  }

  /** Splitting a longer buffer: a line end of the first part stays one. */
  lemma {:induction false} SplitExtend(s: string, t: string)
    requires HasCrlf(s)
    ensures var (p, q) := LastSplit(s);
            LastSplit(s + t) == if HasCrlf(q + t)
                                then (p + CRLF + LastSplit(q + t).0, LastSplit(q + t).1)
                                else (p, q + t)
    ensures HasCrlf(s + t)
  {
    var (p, q) := LastSplit(s);
    assert s + t == p + CRLF + (q + t);
    if HasCrlf(q + t) {
      var (p', q') := LastSplit(q + t);
      assert s + t == (p + CRLF + p') + CRLF + q';
      SplitUnique(p + CRLF + p', q');
    } else {
      SplitUnique(p, q + t);
    }
  }
}
