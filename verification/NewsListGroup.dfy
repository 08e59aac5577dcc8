/** LISTGROUP: the ids reported do not depend on how the stream is cut into reads, as long as
    no read cuts a line. */
module NewsListGroup {
  import opened NewsText
  import opened NewsModel
  import opened NewsStream
  import opened NewsBlock

  /** The lines that the read loop sees, read by read, from the text left over before. */
  function Pieces(carry: string, chunks: seq<string>): seq<string>
    decreases |chunks|
  {
    if chunks == [] then []
    else
      var (p, q) := LastSplit(carry + chunks[0]);
      Lines(p) + Pieces(q, chunks[1..])
  }

  // ----- any text: reads that leave a line end in the buffer -----

  /** Chunking independence for any text: when every read leaves a line end in the buffer, the
      lines seen are the lines of the whole text up to its last line end, wherever the cuts are,
      between CR and LF too. */
  lemma {:induction false} CutsDoNotMatter(carry: string, chunks: seq<string>)
    requires EndsLines(carry, chunks) && chunks != []
    ensures HasCrlf(carry + Join(chunks))
    ensures Pieces(carry, chunks) == Lines(LastSplit(carry + Join(chunks)).0)
    decreases |chunks|
  {
    var buffer, more := carry + chunks[0], chunks[1..];
    var (p, q) := LastSplit(buffer);
    assert carry + Join(chunks) == buffer + Join(more);
    SplitExtend(buffer, Join(more));
    if more == [] {
      assert q + Join(more) == q && buffer + Join(more) == buffer;
      assert Pieces(q, more) == [];
      assert Lines(p) + [] == Lines(p);
    } else {
      CutsDoNotMatter(q, more);
      LinesConcat(p, LastSplit(q + Join(more)).0);
    }
  }

  // ----- an article list -----

  /** An article number as it stands in the list: anything but a dot, without blanks and ends. */
  predicate IdLine(id: string) {
    id != "" && forall i | 0 <= i < |id| :: '0' <= id[i] <= '9'
  }

  predicate IdLines(ids: seq<string>) {
    forall i | 0 <= i < |ids| :: IdLine(ids[i])
  }

  predicate StartsLine(t: string) {
    |t| >= 2 && t[0] == '\r' && t[1] == '\n'
  }

  /** Each read leaves a line end in the buffer, or leaves it empty, or stops just before one. */
  predicate CleanCuts(carry: string, chunks: seq<string>)
    decreases |chunks|
  {
    chunks == [] ||
    var buffer := carry + chunks[0];
    && (HasCrlf(buffer) || buffer == "" || StartsLine(Join(chunks[1..])))
    && CleanCuts(LastSplit(buffer).1, chunks[1..])
  }

  /** Where the stream stands: before a line, just before the end of a line already reported
      (the closing dot included), or at the end. */
  datatype Place = AtLine | BeforeEnd | BeforeLastEnd | AtEnd

  function Remaining(at: Place, ids: seq<string>): string {
    match at
    case AtLine => Block(ids)
    case BeforeEnd => CRLF + Block(ids)
    case BeforeLastEnd => CRLF
    case AtEnd => ""
  }

  predicate PlaceOk(at: Place, ids: seq<string>) {
    IdLines(ids) && ((at.BeforeLastEnd? || at.AtEnd?) ==> ids == [])
  }

  lemma {:induction false} IdsArePlain(ids: seq<string>)
    requires IdLines(ids)
    ensures PlainLines(ids) && NonEmpty(ids) == ids
  {
    forall i | 0 <= i < |ids| ensures PlainLine(ids[i]) && ids[i] != "" {
      assert IdLine(ids[i]) && '0' <= ids[i][0];
    }
    NonEmptyIsAll(ids);
  }

  lemma {:induction false} SomeIds(ids: seq<string>, k: nat)
    requires IdLines(ids) && k <= |ids|
    ensures IdLines(ids[..k]) && IdLines(ids[k..])
  {
    forall i | 0 <= i < k ensures IdLine(ids[..k][i]) { assert ids[..k][i] == ids[i]; }
    forall i | 0 <= i < |ids| - k ensures IdLine(ids[k..][i]) { assert ids[k..][i] == ids[k + i]; }
  }

  /** Cutting the rest of the list at a line end: the lines before it are the next ids, and the
      closing dot only when nothing is left. */
  lemma {:induction false} CutList(ids: seq<string>, p: string, t: string) returns (k: nat, at: Place)
    requires IdLines(ids) && p + CRLF + t == Block(ids)
    ensures k <= |ids| && (at.AtLine? || (at.AtEnd? && k == |ids|))
    ensures t == Remaining(at, ids[k..])
    ensures Lines(p) == ids[..k] + (if at.AtEnd? then ["."] else [])
  {
    IdsArePlain(ids);
    k := CutBlock(ids, p, t);
    SomeIds(ids, k);
    IdsArePlain(ids[..k]);
    at := if t == "" then AtEnd else AtLine;
  }

  /** The same from any place in the stream. */
  lemma {:induction false} CutRemaining(at: Place, ids: seq<string>, p: string, t: string)
    returns (k: nat, at': Place)
    requires PlaceOk(at, ids) && p + CRLF + t == Remaining(at, ids)
    ensures k <= |ids| && PlaceOk(at', ids[k..]) && t == Remaining(at', ids[k..])
    ensures at'.AtLine? || (at'.AtEnd? && k == |ids|)
    ensures Lines(p) == ids[..k] + (if at'.AtEnd? && !at.BeforeLastEnd? then ["."] else [])
  {
    DotLine();
    if at.AtLine? {
      k, at' := CutList(ids, p, t);
    } else if at.BeforeEnd? {
      assert CRLF + Block(ids) == "" + CRLF + Block(ids);
      FirstEnd("", Block(ids), p, t);
      if p == "" {
        k, at' := 0, AtLine;
        assert ids[..0] + [] == [];
        assert ids[0..] == ids;
      } else {
        k, at' := CutList(ids, p[2..], t);
        assert p == "" + CRLF + p[2..];
        LinesConcat("", p[2..]);
      }
    } else {
      assert |p| + 2 + |t| == |Remaining(at, ids)|;
      k, at' := 0, AtEnd;
    }
  }

  /** A read without a line end that stops just before one takes exactly one whole line. */
  lemma {:induction false} WholeLine(at: Place, ids: seq<string>, b: string, t: string) returns (k: nat, at': Place)
    requires PlaceOk(at, ids) && b + t == Remaining(at, ids) && b != "" && !HasCrlf(b) && StartsLine(t)
    ensures at.AtLine? && k <= |ids| && PlaceOk(at', ids[k..]) && t == Remaining(at', ids[k..])
    ensures [b] == ids[..k] + (if at'.BeforeLastEnd? then ["."] else [])
    ensures at'.BeforeEnd? || (at'.BeforeLastEnd? && k == |ids|)
  {
    var s := Remaining(at, ids);
    NoSecondEnd(s, b, t);
    assert at.AtLine?;
    assert t == CRLF + t[2..];
    assert s == b + CRLF + t[2..];
    var l, u := if ids == [] then "." else ids[0], if ids == [] then "" else Block(ids[1..]);
    assert s == l + CRLF + u;
    DotLine();
    assert ids != [] ==> IdLine(ids[0]);
    FirstEndIsUnique(l, u, b, t[2..]);
    assert b == l && t == CRLF + u;
    k := if ids == [] then 0 else 1;
    at' := if ids == [] then BeforeLastEnd else BeforeEnd;
    assert ids[..k] == if ids == [] then [] else [b];
  }

  lemma {:induction false} NoSecondEnd(s: string, b: string, t: string)
    requires s == b + t && b != "" && StartsLine(t) && !HasCrlf(b)
    ensures !StartsLine(s) && s != ""
  {
    assert s[0] == b[0];
    if |b| == 1 {
      assert s[1] == t[0] == '\r';
    } else {
      assert s[1] == b[1];
      assert !(b[0] == '\r' && b[0+1] == '\n');
    }
  }

  /** Any other read without a line end is a line of its own that the list does not have next. */
  lemma {:induction false} CutLine(at: Place, ids: seq<string>, b: string, t: string)
    requires PlaceOk(at, ids) && b + t == Remaining(at, ids) && b != "" && !HasCrlf(b) && !StartsLine(t)
    ensures b != "." && (ids == [] || b != ids[0])
  {
    var s := Remaining(at, ids);
    assert s[0] == b[0];
    if at.AtLine? {
      var l := if ids == [] then "." else ids[0];
      assert ids != [] ==> IdLine(ids[0]);
      assert s[|l|..|l|+2] == CRLF by {
        assert s == l + CRLF + (if ids == [] then "" else Block(ids[1..]));
      }
      assert s[|l|..][..2] == CRLF && StartsLine(s[|l|..]);
      assert t == s[|b|..];
    } else {
      assert ids != [] ==> IdLine(ids[0]);
      assert b[0] == '\r';
    }
  }

  lemma {:induction false} IdsAreNotDots(ids: seq<string>)
    requires IdLines(ids)
    ensures NotDots(ids) == ids && "." !in ids
  {
    if ids != [] {
      assert IdLine(ids[0]);
      assert IdLines(ids[1..]) by {
        forall i | 0 <= i < |ids[1..]| ensures IdLine(ids[1..][i]) { assert ids[1..][i] == ids[i+1]; }
      }
      IdsAreNotDots(ids[1..]);
      assert ids == [ids[0]] + ids[1..];
      assert '0' <= ids[0][0] <= '9';
    }
  }

  /** The closing dot, if its line has not been reported yet. */
  function Closing(at: Place): seq<string> {
    if at.AtLine? || at.BeforeEnd? then ["."] else []
  }

  /** What one read without trouble reports, and where it leaves the stream. */
  lemma {:induction false} CleanRead(at: Place, ids: seq<string>, buffer: string, t: string)
    returns (k: nat, at': Place)
    requires PlaceOk(at, ids) && buffer + t == Remaining(at, ids)
    requires HasCrlf(buffer) || buffer == "" || StartsLine(t)
    ensures k <= |ids| && PlaceOk(at', ids[k..])
    ensures LastSplit(buffer).1 + t == Remaining(at', ids[k..])
    ensures Closing(at) == [] ==> Closing(at') == []
    ensures Closing(at') == [] ==> k == |ids|
    ensures Lines(LastSplit(buffer).0) + Closing(at') == ids[..k] + Closing(at)
    ensures !HasCrlf(LastSplit(buffer).1)
  {
    hide LastSplit, HasCrlf, Lines, StartsLine;
    var (p, q) := LastSplit(buffer);
    DotLine();
    if HasCrlf(buffer) {
      assert buffer + t == p + CRLF + (q + t);
      k, at' := CutRemaining(at, ids, p, q + t);
      assert ids[..k] + [] == ids[..k];
    } else if buffer == "" {
      k, at' := 0, at;
      assert ids[0..] == ids && ids[..0] == [] && "" + t == t;
    } else {
      k, at' := WholeLine(at, ids, buffer, t);
      LineOf(buffer);
      assert "" + t == t;
    }
  }

  /** From any place in the stream: reads that cut no line report the rest of the list and then
      the dot; if a read cuts a line, what is reported is not the rest of the list. */
  lemma {:induction false} ReportsFrom(at: Place, ids: seq<string>, carry: string, chunks: seq<string>)
    requires PlaceOk(at, ids) && carry + Join(chunks) == Remaining(at, ids) && !HasCrlf(carry)
    ensures CleanCuts(carry, chunks) ==> Pieces(carry, chunks) == ids + Closing(at)
    ensures !CleanCuts(carry, chunks) ==> NotDots(Pieces(carry, chunks)) != ids
    decreases |chunks|
  {
    hide HasCrlf, Remaining;
    if chunks == [] {
      assert carry + "" == carry;
      HasNoneOnlyAtEnd(at, ids);
    } else {
      var buffer, more := carry + chunks[0], chunks[1..];
      var (p, q) := LastSplit(buffer);
      assert carry + Join(chunks) == buffer + Join(more);
      if HasCrlf(buffer) || buffer == "" || StartsLine(Join(more)) {
        var k, at' := CleanRead(at, ids, buffer, Join(more));
        ReportsFrom(at', ids[k..], q, more);
        ReportStep(ids, k, Lines(p), Closing(at'), Closing(at), Pieces(q, more));
      } else {
        CutLine(at, ids, buffer, Join(more));
        LineAlone(buffer, "");
        assert "" + buffer == buffer;
        var pieces := Pieces(carry, chunks);
        assert pieces == [buffer] + Pieces(q, more);
        assert NotDots(pieces)[0] == buffer;
      }
    }
  }

  lemma {:induction false} HasNoneOnlyAtEnd(at: Place, ids: seq<string>)
    requires PlaceOk(at, ids)
    ensures HasCrlf(Remaining(at, ids)) || (at.AtEnd? && ids == [])
  {
    var s := Remaining(at, ids);
    if at.AtLine? {
      var l := if ids == [] then "." else ids[0];
      assert s[|l|] == '\r' && s[|l|+1] == '\n';
    } else if !at.AtEnd? {
      assert s[0] == '\r' && s[0+1] == '\n';
    }
  }

  lemma {:induction false} ReportStep(
      ids: seq<string>, k: nat, lines: seq<string>, after: seq<string>, before: seq<string>, more: seq<string>)
    requires IdLines(ids) && k <= |ids| && lines + after == ids[..k] + before
    requires before in [[], ["."]] && after in [[], ["."]] && (before == [] ==> after == [])
    requires after == [] ==> k == |ids|
    ensures more == ids[k..] + after ==> lines + more == ids + before
    ensures NotDots(more) != ids[k..] ==> NotDots(lines + more) != ids
  {
    hide IdLines;
    NotDotsConcat(lines, more);
    assert ids == ids[..k] + ids[k..];
    SomeIds(ids, k);
    IdsAreNotDots(ids[..k]);
    if after == [] {
      assert lines == ids[..k] + before;
      NotDotsConcat(ids[..k], before);
      assert NotDots(before) == [];
      assert ids[..k] + [] == ids[..k];
      if more == ids[k..] + after { assert more == []; assert lines + more == lines; }
    } else {
      assert before == after == ["."];
      assert lines == (lines + after)[..|lines|] == (ids[..k] + before)[..k] == ids[..k];
    }
    assert NotDots(lines) == ids[..k];
    assert (ids[..k] + NotDots(more))[k..] == NotDots(more);
  }

  /** Chunking independence of the article list, with its exact condition: for every way to cut
      the block into reads, between CR and LF too, the ids seen are the ids of the list, in
      order, none lost, repeated or cut, if and only if no read cuts a line without holding a
      line end. In that case the closing dot is seen once, after them. */
  lemma {:induction false} IdsSeenIff(ids: seq<string>, chunks: seq<string>)
    requires IdLines(ids) && Join(chunks) == Block(ids)
    ensures NotDots(Pieces("", chunks)) == ids <==> CleanCuts("", chunks)
    ensures CleanCuts("", chunks) ==> Pieces("", chunks) == ids + ["."]
  {
    assert "" + Join(chunks) == Join(chunks);
    ReportsFrom(AtLine, ids, "", chunks);
    NotDotsConcat(ids, ["."]);
    IdsAreNotDots(ids);
    assert NotDots(["."]) == [];
    assert ids + [] == ids;
  }

  /** The condition can fail: a read of half a number without a line end. */
  lemma {:induction false} HalfANumber()
    ensures var chunks := ["1", "2\r\n.\r\n"];
            Join(chunks) == Block(["12"]) && NotDots(Pieces("", chunks)) != ["12"]
  {
    var tail := "2\r\n.\r\n";
    var chunks := ["1", tail];
    assert chunks[1..] == [tail] && [tail][1..] == [];
    assert Join([tail]) == tail + Join([]) == tail;
    assert Join(chunks) == "1" + tail;
    assert ["12"][1..] == [];
    assert Block(["12"]) == "12" + CRLF + ("." + CRLF);
    assert "" + chunks[0] == "1";
    assert !CleanCuts("", chunks);
    assert IdLine("12");
    IdsSeenIff(["12"], chunks);
  }
}
