/** The first read of a list: what it holds besides the status line is dropped, so the list is
    told only when the read ends with that line. */
module NewsListStart {
  import opened Wrappers
  import opened NewsText
  import opened NewsModel
  import opened NewsStream
  import opened NewsBlock
  import opened NewsListGroup
  import opened NewsListRun
  import opened NewsConservation

  /** LISTGROUP has been sent and nothing has been read. */
  predicate Waiting(r: Reader) {
    r.isOpen && !r.resultsComing && r.response == "" && r.op == Some(ListGroupArticles) && r.delegate.ArticleIds?
  }

  /** Whatever follows the status line in its read is dropped. */
  lemma {:induction false} RestOfReadIsDropped(r: Reader, line: string, u: string)
    requires Waiting(r) && S211_LIST <= line
    ensures var r' := Take(r, Arrive([line + u]));
            && Fetching(r') && r'.response == ""
            && Told(r'.log, IdsOf) == Told(r.log, IdsOf) && DoneIn(r'.log) == DoneIn(r.log)
  {
    hide Take, Told, DoneIn;
    assert S211_LIST <= line + u;
    Followed(r, line + u);
    ToldSnoc(r.log, Heard(line + u), IdsOf);
    assert Told(r.log, IdsOf) + [] == Told(r.log, IdsOf);
  }

  // ----- no more is told than is read -----

  function InkOf(ls: seq<string>): nat {
    if ls == [] then 0 else Ink(ls[0]) + InkOf(ls[1..])
  }

  lemma {:induction false} InkOfConcat(a: seq<string>, b: seq<string>)
    ensures InkOf(a + b) == InkOf(a) + InkOf(b)
    decreases |a|
  {
    hide Ink;
    if a == [] {
      assert a + b == b;
    } else {
      assert (a + b)[0] == a[0] && (a + b)[1..] == a[1..] + b;
      InkOfConcat(a[1..], b);
    }
  }

  lemma {:induction false} InkOfLines(s: string, piece: string)
    ensures InkOf(LinesFrom(s, piece)) == Ink(piece) + Ink(s)
    decreases |s|
  {
    assert [piece][1..] == [] && InkOf([]) == 0;
    assert InkOf(Piece(piece)) == Ink(piece);
    if s == "" {
    } else if |s| >= 2 && s[0] == '\r' && s[1] == '\n' {
      InkOfLines(s[2..], "");
      InkOfConcat(Piece(piece), LinesFrom(s[2..], ""));
      assert s[1..][1..] == s[2..] && s[1..][0] == '\n';
    } else {
      InkOfLines(s[1..], piece + [s[0]]);
      InkConcat(piece, [s[0]]);
      assert [s[0]][1..] == "";
    }
  }

  lemma {:induction false} DotsTaken(ls: seq<string>)
    ensures InkOf(NotDots(ls)) + (if "." in ls then 1 else 0) <= InkOf(ls)
  {
    if ls != [] {
      DotsTaken(ls[1..]);
      assert "."[1..] == "" && Ink(".") == 1;
      InkOfConcat([ls[0]], NotDots(ls[1..]));
      assert [ls[0]][1..] == [] && InkOf([ls[0]]) == Ink(ls[0]) + InkOf([]);
      assert [] + NotDots(ls[1..]) == NotDots(ls[1..]);
    }
  }

  /** What has been told so far, "Done" included. */
  function InkTold(r: Reader): nat {
    InkOf(Told(r.log, IdsOf)) + DoneIn(r.log)
  }

  predicate Fetches(r: Reader) {
    r.delegate.ArticleIds? && (r.isOpen ==> Fetching(r))
  }

  /** With what waits and, while the reader is open, what is still to come. */
  function InkBefore(r: Reader, t: string): nat {
    InkTold(r) + if r.isOpen then Ink(r.response + t) else 0
  }

  function InkMidway(r: Reader, t: string): nat {
    InkTold(r) + Ink(r.response + if r.isOpen then t else "")
  }

  lemma {:induction false} ReadInkTold(r: Reader, chunk: string, t: string)
    requires Fetching(r) && NoBlank(r.response + (chunk + t))
    ensures var r' := TakeBuffer(r.(response := r.response + chunk));
            && Fetches(r') && NoBlank(r'.response + t) && NoBlank(r'.response)
            && InkMidway(r', t) <= InkMidway(r, chunk + t)
  {
    hide Lines, LastSplit, HasCrlf, Told, DoneIn, TakeBuffer, NotDots, Ink, NoBlank;
    var buffer := r.response + chunk;
    var (p, q) := LastSplit(buffer);
    var lines := Lines(p);
    FetcherReads(r.(response := buffer));
    assert lines == LinesFrom(p, "") by { LinesAre(p); }
    InkOfLines(p, "");
    DotsTaken(lines);
    InkOfConcat(Told(r.log, IdsOf), NotDots(lines));
    NoInkInEnd();
    assert r.response + (chunk + t) == buffer + t;
    RestHasNoBlank(buffer, t);
    InkConcat(buffer, t);
    InkConcat(q, t);
    InkConcat(p + CRLF, q);
    InkConcat(p, CRLF);
    assert q + "" == q;
  }

  lemma {:induction false} LoopInkTold(r: Reader, chunks: seq<string>, t: string)
    requires Fetches(r) && NoBlank(r.response + (Join(chunks) + t)) && NoBlank(r.response)
    ensures var (r', left) := ReadLoop(r, chunks);
            && Fetches(r') && NoBlank(r'.response) && (r'.isOpen ==> left == [] && NoBlank(r'.response + t))
            && InkMidway(r', t) <= InkMidway(r, Join(chunks) + t)
    decreases |chunks|
  {
    hide TakeBuffer, Told, DoneIn, Ink, NoBlank;
    if chunks == [] {
      assert Join(chunks) + t == t;
    } else if r.isOpen {
      assert Join(chunks) + t == chunks[0] + (Join(chunks[1..]) + t);
      ReadInkTold(r, chunks[0], Join(chunks[1..]) + t);
      LoopInkTold(TakeBuffer(r.(response := r.response + chunks[0])), chunks[1..], t);
    }
  }

  lemma {:induction false} LookInkTold(r: Reader, t: string)
    requires Fetches(r) && NoBlank(r.response)
    ensures var r' := ProcessResponse(r, r.response);
            && Fetches(r') && (r'.isOpen ==> r.isOpen && r'.response == r.response)
            && InkBefore(r', t) <= InkMidway(r, t)
  {
    hide ProcessResponse, Told, DoneIn, Notify, NoBlank;
    NoBlankIsQuiet(r.response);
    QuietProcess(r, r.response);
    QuietLook(r, IdsOf);
    DoneCloses(Log(r, Heard(r.response)));
    InkConcat(r.response, if r.isOpen then t else "");
    assert "."[1..] == "" && Ink(".") == 1;
    assert Told(r.log, IdsOf) + [] == Told(r.log, IdsOf);
  }

  lemma {:induction false} EventInkTold(r: Reader, batch: seq<string>, t: string)
    requires Fetches(r) && (r.isOpen ==> NoBlank(r.response + (Join(batch) + t)) && NoBlank(r.response))
    ensures var r' := Deliver(r, batch);
            && Fetches(r') && (r'.isOpen ==> NoBlank(r'.response + t) && NoBlank(r'.response))
            && InkBefore(r', t) <= InkBefore(r, Join(batch) + t)
  {
    hide ReadLoop, ProcessResponse, Told, DoneIn, Ink, NoBlank;
    if batch == [] {
      assert Join(batch) + t == t;
    } else if r.isOpen {
      LoopInkTold(r, batch, t);
      var (r1, left) := ReadLoop(r, batch);
      LookInkTold(r1, t);
      var r2 := ProcessResponse(r1, r1.response);
      assert Deliver(r, batch) == Deliver(r2, left) == r2;
    }
  }

  lemma {:induction false} RunInkTold(r: Reader, batches: seq<seq<string>>)
    requires Fetches(r) && (r.isOpen ==> NoBlank(r.response + Join(Flat(batches))) && NoBlank(r.response))
    ensures InkTold(Exec(r, Arrivals(batches))) <= InkBefore(r, Join(Flat(batches)))
    decreases |batches|
  {
    hide Deliver, Fetches, NoBlank, InkTold, Ink, Join;
    if batches != [] {
      var batch, more := batches[0], batches[1..];
      var steps := Arrivals(batches);
      assert steps[0] == Arrive(batch) && steps[1..] == Arrivals(more);
      JoinConcat(batch, Flat(more));
      EventInkTold(r, batch, Join(Flat(more)));
      RunInkTold(Deliver(r, batch), more);
    }
  }

  lemma {:induction false} InkOfBlock(ids: seq<string>)
    ensures Ink(Block(ids)) == InkOf(ids) + 1
  {
    NoInkInEnd();
    if ids == [] {
      assert ("." + CRLF)[1..] == CRLF;
    } else {
      InkOfBlock(ids[1..]);
      InkConcat(ids[0] + CRLF, Block(ids[1..]));
      InkConcat(ids[0], CRLF);
    }
  }

  /** A list of which the first read has taken something is not told in full and finished. */
  lemma {:induction false} CutListFails(r: Reader, v: string, ids: seq<string>, batches: seq<seq<string>>)
    requires Fetching(r) && r.response == "" && IdLines(ids) && v != "" && v + Join(Flat(batches)) == Block(ids)
    ensures !Finishes(r, Exec(r, Arrivals(batches)), IdsOf, ids)
  {
    hide Told, DoneIn, Exec, Block, NoBlank, Ink;
    var t := Join(Flat(batches));
    InkOfBlock(ids);
    InkConcat(v, t);
    StartHasInk(v, t, ids);
    BlockHasNoBlank(ids);
    assert NoBlank(t) by { EndHasNoBlank(v, t); }
    assert NoBlank("") by { NothingIsNoBlank(); }
    assert r.response + t == t;
    RunInkTold(r, batches);
    InkOfConcat(Told(r.log, IdsOf), ids);
  }

  lemma {:induction false} NothingIsNoBlank()
    ensures NoBlank("")
  {
  }

  lemma {:induction false} EndHasNoBlank(v: string, t: string)
    requires NoBlank(v + t)
    ensures NoBlank(t)
  {
    forall i | 0 <= i < |t| ensures t[i] != ' ' { assert t[i] == (v + t)[|v| + i]; }
  }

  lemma {:induction false} StartHasInk(v: string, t: string, ids: seq<string>)
    requires IdLines(ids) && v != "" && v + t == Block(ids)
    ensures Ink(v) > 0
  {
    assert v[0] == Block(ids)[0];
    assert ids != [] ==> IdLine(ids[0]) && Block(ids)[0] == ids[0][0];
  }

  // ----- a read that ends between CR and LF -----

  lemma {:induction false} FirstLineStart(s: string, piece: string)
    requires piece != "" || (s != "" && s[0] == '\n')
    ensures LinesFrom(s, piece) != [] && LinesFrom(s, piece)[0] != ""
    ensures LinesFrom(s, piece)[0][0] == if piece != "" then piece[0] else s[0]
    decreases |s|
  {
    if s == "" {
    } else if |s| >= 2 && s[0] == '\r' && s[1] == '\n' {
      assert LinesFrom(s, piece) == [piece] + LinesFrom(s[2..], "");
    } else {
      FirstLineStart(s[1..], piece + [s[0]]);
    }
  }

  /** The first read that is not empty reports a line that starts with the LF. */
  lemma {:induction false} ReadStrays(r: Reader, ids: seq<string>, chunk: string)
    requires Fetching(r) && r.response == "" && IdLines(ids) && chunk != "" && chunk[0] == '\n'
    ensures Strays(r, TakeBuffer(r.(response := chunk)), ids)
  {
    hide LastSplit, HasCrlf, Told, DoneIn, TakeBuffer, Lines;
    var (p, q) := LastSplit(chunk);
    assert HasCrlf(chunk) ==> (p + CRLF + q)[0] == '\n';
    assert p != "" && p[0] == '\n';
    FetcherReads(r.(response := chunk));
    FirstLineStart(p, "");
    LinesAre(p);
    var line := Lines(p)[0];
    assert line[0] == '\n' && "."[0] == '.';
    assert NotDots(Lines(p))[0] == line;
    var before, told := Told(r.log, IdsOf), NotDots(Lines(p));
    assert (before + told)[|before|] == line;
    assert ids != [] ==> IdLine(ids[0]) && (before + ids)[|before|] == ids[0] && ids[0][0] != '\n';
  }

  lemma {:induction false} EmptyRead(r: Reader)
    requires Fetching(r) && r.response == ""
    ensures var r' := TakeBuffer(r.(response := ""));
            Fetching(r') && r'.response == "" && Told(r'.log, IdsOf) == Told(r.log, IdsOf)
  {
    hide LastSplit, HasCrlf, Told, DoneIn, TakeBuffer, Lines;
    DotLine();
    FetcherReads(r.(response := ""));
    assert Told(r.log, IdsOf) + [] == Told(r.log, IdsOf);
  }

  /** Nothing has been read yet but empty reads. */
  predicate Idle(r: Reader, r': Reader) {
    Fetching(r') && r'.response == "" && Told(r'.log, IdsOf) == Told(r.log, IdsOf)
  }

  lemma {:induction false} LoopStrays(r: Reader, ids: seq<string>, chunks: seq<string>)
    requires Fetching(r) && r.response == "" && IdLines(ids) && (Join(chunks) == "" || Join(chunks)[0] == '\n')
    ensures var (r', left) := ReadLoop(r, chunks);
            Strays(r, r', ids) || (Join(chunks) == "" && Idle(r, r') && left == [])
    decreases |chunks|
  {
    hide TakeBuffer, Told, Strays, IdLines;
    if chunks != [] {
      var chunk, more := chunks[0], chunks[1..];
      assert "" + chunk == chunk;
      var r1 := TakeBuffer(r.(response := chunk));
      if chunk == "" {
        assert Join(chunks) == Join(more);
        EmptyRead(r);
        LoopStrays(r1, ids, more);
        StraysFrom(r, r1, ReadLoop(r1, more).0, ids);
      } else {
        assert chunk[0] == Join(chunks)[0];
        ReadStrays(r, ids, chunk);
        ReadLoopGrows(r1, more);
        StraysStay(r, r1, ReadLoop(r1, more).0, ids);
      }
    }
  }

  lemma {:induction false} StraysFrom(r: Reader, r1: Reader, r2: Reader, ids: seq<string>)
    requires Told(r1.log, IdsOf) == Told(r.log, IdsOf)
    ensures Strays(r1, r2, ids) ==> Strays(r, r2, ids)
  {
  }

  lemma {:induction false} EventStrays(r: Reader, ids: seq<string>, batch: seq<string>)
    requires Fetching(r) && r.response == "" && IdLines(ids) && (Join(batch) == "" || Join(batch)[0] == '\n')
    ensures var r' := Deliver(r, batch); Strays(r, r', ids) || (Join(batch) == "" && Idle(r, r'))
  {
    hide ReadLoop, ProcessResponse, Told, DoneIn, Strays, IdLines, Join;
    if batch == [] {
      JoinNothing("");
    } else {
      LoopStrays(r, ids, batch);
      var (r1, left) := ReadLoop(r, batch);
      var r2 := ProcessResponse(r1, r1.response);
      assert Deliver(r, batch) == Deliver(r2, left);
      if Strays(r, r1, ids) {
        ProcessGrows(r1, r1.response);
        DeliverGrows(r2, left);
        StraysStay(r, r1, Deliver(r2, left), ids);
      } else {
        EmptyIsQuiet("", "");
        QuietLook(r1, IdsOf);
      }
    }
  }

  /** A list with an LF before it is not told: its first line is reported with the LF. */
  lemma {:induction false} RunStrays(r: Reader, ids: seq<string>, batches: seq<seq<string>>)
    requires Fetching(r) && r.response == "" && IdLines(ids)
    requires Join(Flat(batches)) != "" && Join(Flat(batches))[0] == '\n'
    ensures Strays(r, Exec(r, Arrivals(batches)), ids)
    decreases |batches|
  {
    hide Deliver, Told, Strays, IdLines, Join;
    if batches == [] {
      JoinNothing("");
      assert false;
    } else {
      var batch, more := batches[0], batches[1..];
      var steps := Arrivals(batches);
      assert steps[0] == Arrive(batch) && steps[1..] == Arrivals(more);
      JoinConcat(batch, Flat(more));
      var r1 := Deliver(r, batch);
      assert Join(batch) != "" ==> Join(batch)[0] == Join(Flat(batches))[0];
      EventStrays(r, ids, batch);
      if Strays(r, r1, ids) {
        ArrivalsGrow(r1, more);
        StraysStay(r, r1, Exec(r1, Arrivals(more)), ids);
      } else {
        assert "" + Join(Flat(more)) == Join(Flat(more));
        RunStrays(r1, ids, more);
        StraysFrom(r, r1, Exec(r1, Arrivals(more)), ids);
      }
    }
  }

  // ----- which first reads do -----

  /** Reading the status line and the list, the first read holding the whole status line: the
      command is told exactly the ids of the list and then "Done", once, if and only if that read
      ends with the status line or just after its line end, and no later read cuts a line before
      the dot is seen. */
  lemma {:induction false} FirstReadIff(r: Reader, line: string, u: string, ids: seq<string>, batches: seq<seq<string>>)
    requires Waiting(r) && S211_LIST <= line && IdLines(ids) && u + Join(Flat(batches)) == CRLF + Block(ids)
    ensures var r' := Exec(r, [Arrive([line + u])] + Arrivals(batches));
            Finishes(r, r', IdsOf, ids) <==> (u == "" || u == CRLF) && FetchCuts("", [], batches)
  {
    hide Take, Exec, Told, DoneIn, Remaining, Block, Finishes, Strays, FetchCuts, Flat, Join, HasCrlf, IdLines, Waiting;
    RestOfReadIsDropped(r, line, u);
    var first := Arrive([line + u]);
    var r1 := Take(r, first);
    var r' := Exec(r1, Arrivals(batches));
    assert Exec(r, [first] + Arrivals(batches)) == r' by { FirstStep(r, first, Arrivals(batches)); }
    SameStart(r, r1, r', ids);
    var t := Join(Flat(batches));
    assert !HasCrlf("") by { DotLine(); }
    assert "" + t == t;
    if u == "" {
      StartsBeforeEnd(ids);
      StartOver(r1, BeforeEnd, ids, t);
      FetcherRuns(r1, BeforeEnd, ids, batches);
    } else if u == CRLF {
      assert t == (u + t)[2..] == Block(ids);
      StartsAtLine(ids);
      StartOver(r1, AtLine, ids, t);
      FetcherRuns(r1, AtLine, ids, batches);
    } else if |u| == 1 {
      assert t == (u + t)[1..] == (CRLF + Block(ids))[1..];
      RunStrays(r1, ids, batches);
    } else {
      assert u[..2] == (u + t)[..2] == CRLF;
      assert (u + t)[2..] == Block(ids) && u[2..] + t == (u + t)[2..];
      CutListFails(r1, u[2..], ids, batches);
    }
    StraysDoNotFinish(r1, r', ids);
  }

  lemma {:induction false} SameStart(r: Reader, r1: Reader, r2: Reader, ids: seq<string>)
    requires Told(r1.log, IdsOf) == Told(r.log, IdsOf) && DoneIn(r1.log) == DoneIn(r.log)
    ensures Finishes(r1, r2, IdsOf, ids) <==> Finishes(r, r2, IdsOf, ids)
  {
  }

  lemma {:induction false} StraysDoNotFinish(r: Reader, r': Reader, ids: seq<string>)
    ensures Strays(r, r', ids) ==> !Finishes(r, r', IdsOf, ids)
  {
  }

  lemma {:induction false} StartsBeforeEnd(ids: seq<string>)
    requires IdLines(ids)
    ensures PlaceOk(BeforeEnd, ids) && Closing(BeforeEnd) == ["."] && Remaining(BeforeEnd, ids) == CRLF + Block(ids)
  {
  }

  lemma {:induction false} StartsAtLine(ids: seq<string>)
    requires IdLines(ids)
    ensures PlaceOk(AtLine, ids) && Closing(AtLine) == ["."] && Remaining(AtLine, ids) == Block(ids)
  {
  }
}
