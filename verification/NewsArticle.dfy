/** ARTICLE: the text put together over many reads, and when it is handed over: the exact condition,
    for every article and every way the stream is cut. */
module NewsArticle {
  import opened Wrappers
  import opened NewsText
  import opened NewsModel
  import opened NewsStream
  import opened NewsBlock
  import opened NewsConservation

  predicate Collecting(r: Reader) {
    r.isOpen && r.resultsComing && r.op == Some(Article)
  }

  // ----- one article -----

  /** Cutting an article at a line end: the dot is the last line before it just when nothing comes
      after it, and what comes after it starts a line. */
  lemma {:induction false} CutText(ls: seq<string>, p: string, u: string) returns (k: nat)
    requires PlainLines(ls) && p + CRLF + u == Block(ls)
    ensures k <= |ls| && (u == "" || u == Block(ls[k..]))
    ensures u == "" <==> Lines(p) != [] && Last(Lines(p)) == "."
  {
    k := CutBlock(ls, p, u);
    RestLines(ls, k);
    NonEmptyHasNoDot(ls[..k]);
    assert NonEmpty(ls[..k]) + [] == NonEmpty(ls[..k]);
  }

  // ----- the program's own delegate, which closes the reader on the first "Done" -----

  function TextsOf(e: Event): seq<string> {
    if e.GotArticleText? then [e.text] else []
  }

  predicate Assembling(r: Reader) {
    Collecting(r) && r.delegate.OneArticle?
  }

  predicate Continues(r: Reader, r': Reader) {
    Assembling(r') && Told(r'.log, TextsOf) == Told(r.log, TextsOf) && DoneIn(r'.log) == DoneIn(r.log)
  }

  lemma {:induction false} AssemblerReads(r: Reader)
    requires Assembling(r)
    ensures var (p, q) := LastSplit(r.response);
            var r' := TakeBuffer(r);
            var text := r.article + p + CRLF;
            && r'.response == q && r'.article == text && r'.delegate == r.delegate
            && (Lines(text) != [] && Last(Lines(text)) == "." ==>
                  Finishes(r, r', TextsOf, [text]) && r'.log[|r'.log|-1] == Notified(Finished))
            && (!(Lines(text) != [] && Last(Lines(text)) == ".") ==> Continues(r, r'))
  {
    hide Lines, LastSplit, Told, DoneIn, Notify;
    var (p, q) := LastSplit(r.response);
    var text := r.article + p + CRLF;
    var r1 := Log(r.(response := q, article := text), GotArticleText(text));
    ToldSnoc(r.log, GotArticleText(text), TextsOf);
    DoneCloses(r1);
    ToldSnoc(r1.log, Notified(Finished), TextsOf);
    assert Told(r1.log, TextsOf) + [] == Told(r1.log, TextsOf);
  }

  /** Between reads: nothing lost, only whole lines put together, less than a line waiting. */
  ghost predicate Midway(r: Reader, ls: seq<string>, t: string) {
    && Assembling(r) && PlainLines(ls) && r.article + r.response + t == Block(ls)
    && !HasCrlf(r.response) && AtLine(r.response + t, ls)
  }

  ghost predicate AtLine(text: string, ls: seq<string>) {
    exists k | 0 <= k <= |ls| :: text == Block(ls[k..])
  }

  lemma {:induction false} EndOnEnd(x: string)
    ensures Lines(x + CRLF) == Lines(x)
  {
    LinesConcat(x, "");
    assert x + CRLF + "" == x + CRLF;
    assert Lines("") == [];
    assert Lines(x) + [] == Lines(x);
  }

  /** One read that leaves a line end in the buffer: the article is handed over exactly when the
      whole block is there. */
  lemma {:induction false} AssemblerTakesRead(r: Reader, ls: seq<string>, chunk: string, t: string)
    requires Midway(r, ls, chunk + t) && HasCrlf(r.response + chunk)
    ensures var r' := TakeBuffer(r.(response := r.response + chunk));
            && r'.response == LastSplit(r.response + chunk).1
            && (r'.response + t == "" ==>
                  Finishes(r, r', TextsOf, [Block(ls)]) && r'.log[|r'.log|-1] == Notified(Finished))
            && (r'.response + t != "" ==>
                  Continues(r, r') && Midway(r', ls, t))
  {
    hide Lines, LastSplit, HasCrlf, PlainLines, Told, DoneIn, Block, TakeBuffer, DoneLast;
    var buffer := r.response + chunk;
    var (p, q) := LastSplit(buffer);
    AssemblerReads(r.(response := buffer));
    var x := r.article + p;
    assert x + CRLF + (q + t) == Block(ls) by {
      assert r.article + r.response + (chunk + t) == r.article + buffer + t;
    }
    var k := CutText(ls, x, q + t);
    EndOnEnd(x);
    assert x + CRLF == r.article + p + CRLF;
    assert x + CRLF + q + t == x + CRLF + (q + t);
    assert q + t == "" ==> x + CRLF + "" == x + CRLF;
  }

  lemma {:induction false} BlockEnds(ls: seq<string>)
    requires PlainLines(ls)
    ensures EndsInDot(Block(ls))
    ensures Lines(Block(ls)) != [] && Last(Lines(Block(ls))) == "."
  {
    hide Lines, PlainLines, EndsInDot, Block;
    LinesOfBlock(ls);
    DotEnds(ls);
  }

  lemma {:induction false} DotEnds(ls: seq<string>)
    ensures EndsInDot(Block(ls))
  {
    hide EndsInDot;
    if ls == [] {
      DotIsEnd();
    } else {
      DotEnds(ls[1..]);
      EndStays(ls[0] + CRLF, Block(ls[1..]));
    }
  }

  lemma {:induction false} DotIsEnd()
    ensures EndsInDot("." + CRLF)
  {
    assert ("." + CRLF)[0..] == "." + CRLF;
  }

  lemma {:induction false} EndStays(l: string, c: string)
    requires EndsInDot(c)
    ensures EndsInDot(l + c)
  {
    assert (l + c)[|l + c| - 3..] == c[|c| - 3..];
  }

  /** The closing dot in a read of its own, without its line end, completes the block too. */
  lemma {:induction false} AssemblerTakesDot(r: Reader, ls: seq<string>, chunk: string)
    requires Midway(r, ls, chunk + CRLF) && r.response + chunk == "."
    ensures var r' := TakeBuffer(r.(response := r.response + chunk));
            && r'.response == "" && Finishes(r, r', TextsOf, [Block(ls)]) && r'.log[|r'.log|-1] == Notified(Finished)
  {
    hide Lines, Told, DoneIn, Block, TakeBuffer, DoneLast;
    DotLine();
    AssemblerReads(r.(response := "."));
    BlockEnds(ls);
    assert r.article + r.response + (chunk + CRLF) == r.article + "." + CRLF;
  }

  // ----- when the block can no longer be handed over -----

  /** What has been told since does not include the text. */
  predicate NotTold(r: Reader, r': Reader, text: string) {
    Told(r.log, TextsOf) <= Told(r'.log, TextsOf) && text !in Told(r'.log, TextsOf)[|Told(r.log, TextsOf)|..]
  }

  lemma {:induction false} NotToldThen(r: Reader, r1: Reader, r2: Reader, text: string)
    requires NotTold(r, r1, text) && NotTold(r1, r2, text)
    ensures NotTold(r, r2, text)
  {
    hide Told;
    var t, t1, t2 := Told(r.log, TextsOf), Told(r1.log, TextsOf), Told(r2.log, TextsOf);
    assert t2[..|t1|] == t1 && t2[..|t|] == t1[..|t|] == t;
    assert t2[|t|..] == t1[|t|..] + t2[|t1|..];
  }

  lemma {:induction false} SameTold(r: Reader, r': Reader, text: string)
    requires Told(r'.log, TextsOf) == Told(r.log, TextsOf)
    ensures NotTold(r, r', text)
  {
  }

  /** The end of a text. */
  predicate EndOf(s: string, text: string) {
    |s| <= |text| && s == text[|text| - |s|..]
  }

  /** Some text has been lost, or nothing has but a line end was put in; `t` is still to come. */
  predicate Spoiled(r: Reader, text: string, t: string) {
    && r.delegate.OneArticle?
    && (r.isOpen ==>
          && Assembling(r)
          && (|| Ink(Text(r) + t) < Ink(text)
              || (Ink(Text(r) + t) == Ink(text) && |Text(r) + t| >= |text| + 2 && EndOf(r.response + t, text))))
  }

  predicate EndsInDot(text: string) {
    |text| >= 3 && text[|text| - 3..] == "." + CRLF
  }

  /** The end of a block, with something before it, has ink in its last three characters. */
  lemma {:induction false} EndHasInk(s: string, text: string, p: string)
    requires EndsInDot(text) && EndOf(p + s, text) && Ink(s) == 0
    ensures |s| <= 2
    ensures |s| == 2 && p != "" ==> p[|p| - 1] == '.'
  {
    var n := |text|;
    assert forall i | 0 <= i < |p + s| :: (p + s)[i] == text[n - |p + s| + i];
    if |s| >= 3 {
      var i := |s| - 3;
      assert s[i] == text[n - 3] == ('.' as char) by {
        assert (p + s)[|p| + i] == s[i];
        assert text[n - 3] == text[n - 3..][0];
      }
      assert s == s[..i] + s[i..] && s[i..][0] == '.';
      InkConcat(s[..i], s[i..]);
    } else if |s| == 2 && p != "" {
      assert (p + s)[|p| - 1] == text[n - 3] == text[n - 3..][0];
    }
  }

  /** What a read makes of a spoiled article is not the block. */
  lemma {:induction false} SpoiledText(article: string, buffer: string, t: string, text: string)
    requires EndsInDot(text)
    requires || Ink(article + buffer + t) < Ink(text)
             || (Ink(article + buffer + t) == Ink(text) && |article + buffer + t| >= |text| + 2
                 && EndOf(buffer + t, text))
    ensures article + LastSplit(buffer).0 + CRLF != text
  {
    hide Ink, LastSplit, HasCrlf, EndOf;
    var (p, q) := LastSplit(buffer);
    var x, all := article + p + CRLF, article + buffer + t;
    ReadInk(article, buffer);
    InkConcat(article + buffer, t);
    InkConcat(x, q);
    InkConcat(q, t);
    assert (p + CRLF)[|p + CRLF| - 1] == '\n';
    if x == text {
      assert Ink(q + t) == 0;
      if HasCrlf(buffer) {
        assert all == x + (q + t);
        assert buffer + t == p + CRLF + (q + t);
        EndHasInk(q + t, text, p + CRLF);
        assert false;
      } else {
        assert q + t == t;
        assert |all| + 2 == |x| + |t|;
        EndHasInk(t, text, buffer);
        assert false;
      }
    }
  }

  lemma {:induction false} SpoiledRead(r: Reader, text: string, chunk: string, t: string)
    requires Spoiled(r, text, chunk + t) && r.isOpen && EndsInDot(text)
    ensures var r' := TakeBuffer(r.(response := r.response + chunk)); Spoiled(r', text, t) && NotTold(r, r', text)
  {
    hide Ink, LastSplit, HasCrlf, Lines, Told, DoneIn, TakeBuffer, DoneLast, EndOf;
    var buffer := r.response + chunk;
    var (p, q) := LastSplit(buffer);
    var r' := TakeBuffer(r.(response := buffer));
    assert Text(r) + (chunk + t) == r.article + buffer + t && r.response + (chunk + t) == buffer + t;
    SpoiledText(r.article, buffer, t, text);
    AssemblerReads(r.(response := buffer));
    ReadInk(r.article, buffer);
    InkConcat(r.article + buffer, t);
    InkConcat(Text(r'), t);
    RestIsEnd(buffer, t, text);
    assert HasCrlf(buffer) ==> Text(r') == r.article + buffer;
    var told, x := Told(r.log, TextsOf), r'.article;
    assert (told + [x])[|told|..] == [x];
  }

  lemma {:induction false} RestIsEnd(buffer: string, t: string, text: string)
    ensures EndOf(buffer + t, text) ==> EndOf(LastSplit(buffer).1 + t, text)
  {
    hide HasCrlf;
    var (p, q) := LastSplit(buffer);
    assert HasCrlf(buffer) ==> buffer + t == (p + CRLF) + (q + t);
    assert !HasCrlf(buffer) ==> buffer + t == buffer + (q + t);
    if EndOf(buffer + t, text) {
      var n := |text|;
      assert forall i | 0 <= i < |buffer + t| :: (buffer + t)[i] == text[n - |buffer + t| + i];
      assert q + t == (buffer + t)[|buffer + t| - |q + t|..];
    }
  }

  /** Any other read that leaves no line end in the buffer puts one in that was not received, or
      takes a dot that starts a line for the closing one. */
  lemma {:induction false} AssemblerSpoils(r: Reader, ls: seq<string>, chunk: string, t: string)
    requires Midway(r, ls, chunk + t) && !HasCrlf(r.response + chunk) && !(r.response + chunk == "." && t == CRLF)
    ensures var r' := TakeBuffer(r.(response := r.response + chunk));
            Spoiled(r', Block(ls), t) && NotTold(r, r', Block(ls))
  {
    hide Ink, HasCrlf, Lines, LastSplit, Told, DoneIn, TakeBuffer, DoneLast, Block, AtLine, EndOf;
    var buffer, text := r.response + chunk, Block(ls);
    var r' := TakeBuffer(r.(response := buffer));
    AssemblerReads(r.(response := buffer));
    var x := r.article + buffer + CRLF;
    assert text == r.article + buffer + t;
    assert AtLine(buffer + t, ls) by { assert r.response + (chunk + t) == buffer + t; }
    NotTheBlock(r.article, buffer, t, ls);
    InkConcat(r.article + buffer, CRLF);
    InkConcat(r.article + buffer, t);
    NoInkInEnd();
    InkConcat(x, t);
    assert Text(r') + t == x + t;
    assert "" + t == t;
    var told := Told(r.log, TextsOf);
    assert (told + [x])[|told|..] == [x];
  }

  lemma {:induction false} NotTheBlock(article: string, buffer: string, t: string, ls: seq<string>)
    requires article + buffer + t == Block(ls) && PlainLines(ls) && AtLine(buffer + t, ls)
    requires !HasCrlf(buffer) && !(buffer == "." && t == CRLF)
    ensures article + buffer + CRLF != Block(ls) && EndOf(t, Block(ls))
  {
    hide HasCrlf, Block, AtLine, PlainLines;
    if t == CRLF {
      WholeRest(ls, buffer);
    } else {
      assert Block(ls)[|article + buffer|..] == t && (article + buffer + CRLF)[|article + buffer|..] == CRLF;
    }
    assert t == Block(ls)[|Block(ls)| - |t|..];
  }

  lemma {:induction false} WholeRest(ls: seq<string>, buffer: string)
    requires PlainLines(ls) && !HasCrlf(buffer) && AtLine(buffer + CRLF, ls)
    ensures buffer == "."
  {
    hide HasCrlf;
    var k :| 0 <= k <= |ls| && buffer + CRLF == Block(ls[k..]);
    RestLines(ls, k);
    DotLine();
    assert buffer + CRLF == buffer + CRLF + "";
    if ls[k..] == [] {
      FirstEndIsUnique(".", "", buffer, "");
    } else {
      var l := ls[k..][0];
      assert PlainLine(l);
      FirstEndIsUnique(l, Block(ls[k..][1..]), buffer, "");
      BlockHasEnd(ls[k..][1..]);
      assert false;
    }
  }

  // ----- looks at leftovers -----

  /** On logging in again the article is asked for again, and starts from nothing. */
  lemma {:induction false} ConnectedAgain(r: Reader)
    requires r.delegate.OneArticle? && r.connected
    ensures var r' := Notify(r, Connected);
            && r'.delegate == r.delegate && r'.isOpen == r.isOpen
            && (Assembling(r) ==> Assembling(r') && r'.article in {"", r.article})
            && (r'.log == r.log + [Notified(Connected)]
                || exists c :: r'.log == r.log + [Notified(Connected), Sent(c)])
  {
    var r1 := Log(r, Notified(Connected));
    var (d, calls) := React(r.delegate, Connected);
    if calls == [] {
      assert PerformAll(r1, calls) == r1;
    } else {
      var call := CallArticle(r.delegate.group.value, r.delegate.id);
      assert calls == [call] && calls[1..] == [];
      var r2 := Perform(r1, call);
      assert PerformAll(r1, calls) == PerformAll(r2, []) == r2;
      var c := if r.resultsComing then GetArticle(call.id) else Group(call.group);
      assert r2.log == r1.log || r2.log == r1.log + [Sent(c)];
      assert r.log + [Notified(Connected)] + [Sent(c)] == r.log + [Notified(Connected), Sent(c)];
    }
  }

  /** A status text that is left over is lost; nothing is told, and the reader goes on with less
      text or is closed. */
  lemma {:induction false} StatusLook(r: Reader)
    requires r.delegate.OneArticle? && !Quiet(r.response)
    ensures var r' := ProcessResponse(r, r.response);
            && Told(r'.log, TextsOf) == Told(r.log, TextsOf) && r'.delegate == r.delegate && (r'.isOpen ==> r.isOpen)
            && (Assembling(r) && r'.isOpen ==> Assembling(r') && r'.response == "" && r'.article in {"", r.article})
  {
    hide Notify, Told, ProcessResponse, Quiet;
    var s := r.response;
    var r1 := Log(r, Heard(s));
    var r' := ProcessResponse(r, s);
    StatusCases(r, s);
    ConnectedAgain(r1.(connected := true));
    NoAction(r1, ConnectionFailed);
    NoAction(r1.(isOpen := false), Disconnected);
    AddsNothing(r.log, r1.log, r'.log, TextsOf);
  }

  lemma {:induction false} SpoiledLook(r: Reader, text: string, t: string)
    requires Spoiled(r, text, t)
    ensures var r' := ProcessResponse(r, r.response);
            Spoiled(r', text, t) && NotTold(r, r', text) && (r'.isOpen ==> r.isOpen)
  {
    hide Ink, Quiet, ProcessResponse, Told, DoneIn, EndOf;
    var r' := ProcessResponse(r, r.response);
    if Quiet(r.response) {
      QuietLook(r, TextsOf);
      DoneCloses(Log(r, Heard(r.response)));
      QuietProcess(r, r.response);
      assert Told(r.log, TextsOf) + [] == Told(r.log, TextsOf);
    } else {
      StatusLook(r);
      StatusHasInk(r.response);
      InkConcat(Text(r), t);
      InkConcat(r.article, r.response);
      InkConcat("", t);
      InkConcat(r.article, t);
      NoInkInEnd();
      assert r.article + "" == r.article && "" + "" == "";
    }
    SameTold(r, r', text);
  }

  lemma {:induction false} SpoiledLoops(r: Reader, text: string, chunks: seq<string>, t: string)
    requires Spoiled(r, text, Join(chunks) + t) && EndsInDot(text)
    ensures var (r', left) := ReadLoop(r, chunks);
            Spoiled(r', text, t) && NotTold(r, r', text) && (r'.isOpen ==> left == [])
    decreases |chunks|
  {
    hide TakeBuffer, Told, Ink, EndOf, EndsInDot;
    SameTold(r, r, text);
    if chunks == [] {
      assert Join(chunks) + t == t;
    } else if r.isOpen {
      var r1 := TakeBuffer(r.(response := r.response + chunks[0]));
      assert Join(chunks) + t == chunks[0] + (Join(chunks[1..]) + t);
      SpoiledRead(r, text, chunks[0], Join(chunks[1..]) + t);
      SpoiledLoops(r1, text, chunks[1..], t);
      NotToldThen(r, r1, ReadLoop(r1, chunks[1..]).0, text);
    }
  }

  lemma {:induction false} SpoiledTakes(r: Reader, text: string, batch: seq<string>, t: string)
    requires Spoiled(r, text, Join(batch) + t) && EndsInDot(text)
    ensures Spoiled(Deliver(r, batch), text, t) && NotTold(r, Deliver(r, batch), text)
  {
    hide ReadLoop, ProcessResponse, Told, Ink, EndOf, EndsInDot, Join, NotTold;
    SameTold(r, r, text);
    if batch == [] {
      JoinNothing("");
      assert Join(batch) + t == t;
    } else if r.isOpen {
      SpoiledLoops(r, text, batch, t);
      var (r1, left) := ReadLoop(r, batch);
      SpoiledLook(r1, text, t);
      var r2 := ProcessResponse(r1, r1.response);
      NotToldThen(r, r1, r2, text);
      assert Deliver(r, batch) == Deliver(r2, left) == r2;
    }
  }

  lemma {:induction false} SpoiledRuns(r: Reader, text: string, batches: seq<seq<string>>)
    requires Spoiled(r, text, Join(Flat(batches))) && EndsInDot(text)
    ensures NotTold(r, Exec(r, Arrivals(batches)), text)
    decreases |batches|
  {
    hide Deliver, Spoiled, NotTold, EndsInDot, Join;
    SameTold(r, r, text);
    if batches != [] {
      var batch, more := batches[0], batches[1..];
      var steps := Arrivals(batches);
      assert steps[0] == Arrive(batch) && steps[1..] == Arrivals(more);
      JoinConcat(batch, Flat(more));
      SpoiledTakes(r, text, batch, Join(Flat(more)));
      SpoiledRuns(Deliver(r, batch), text, more);
      NotToldThen(r, Deliver(r, batch), Exec(r, steps), text);
    }
  }

  // ----- the exact condition -----

  /** The reads bring the block: each leaves a line end in the buffer, unless it is the closing dot
      with only its line end to come, and no event leaves over a lone dot or a status text. */
  predicate BlockComes(carry: string, chunks: seq<string>, batches: seq<seq<string>>)
    decreases |batches|, |chunks|
  {
    if chunks == [] then batches == [] || (carry != "." && Quiet(carry) && BlockComes(carry, batches[0], batches[1..]))
    else
      var buffer, t := carry + chunks[0], Join(chunks[1..]) + Join(Flat(batches));
      || (buffer == "." && t == CRLF)
      || (HasCrlf(buffer)
          && (LastSplit(buffer).1 + t == "" || BlockComes(LastSplit(buffer).1, chunks[1..], batches)))
  }

  /** The article has been handed over as the last thing, whole. */
  predicate HandedOver(r: Reader, r': Reader, ls: seq<string>) {
    Finishes(r, r', TextsOf, [Block(ls)]) && r'.log[|r'.log|-1] == Notified(Finished) && r'.response == ""
  }

  /** The block cannot come any more. */
  predicate Lost(r: Reader, r': Reader, ls: seq<string>, t: string) {
    Spoiled(r', Block(ls), t) && NotTold(r, r', Block(ls))
  }

  lemma {:induction false} FirstOfBlock(carry: string, chunks: seq<string>, batches: seq<seq<string>>)
    requires chunks != []
    ensures var buffer, t := carry + chunks[0], Join(chunks[1..]) + Join(Flat(batches));
            && Join(chunks) + Join(Flat(batches)) == chunks[0] + t
            && (BlockComes(carry, chunks, batches) <==>
                  || (buffer == "." && t == CRLF)
                  || (HasCrlf(buffer)
                      && (LastSplit(buffer).1 + t == "" || BlockComes(LastSplit(buffer).1, chunks[1..], batches))))
  {
    assert Join(chunks) == chunks[0] + Join(chunks[1..]);
  }

  /** The first of some reads. */
  lemma {:induction false} AssemblerTakesFirst(
      r: Reader, ls: seq<string>, chunks: seq<string>, more: seq<seq<string>>)
    requires chunks != [] && Midway(r, ls, Join(chunks) + Join(Flat(more)))
    ensures var buffer, t := r.response + chunks[0], Join(chunks[1..]) + Join(Flat(more));
            var r1 := TakeBuffer(r.(response := buffer));
            var comes := BlockComes(r.response, chunks, more);
            || (comes && HandedOver(r, r1, ls))
            || (!comes && !HasCrlf(buffer) && Lost(r, r1, ls, t))
            || (HasCrlf(buffer) && r1.response == LastSplit(buffer).1 && Continues(r, r1) && Midway(r1, ls, t)
                && comes == BlockComes(r1.response, chunks[1..], more))
  {
    hide TakeBuffer, LastSplit, HasCrlf, Told, DoneIn, Block, AtLine, BlockComes, Join, Finishes, Spoiled, NotTold;
    var buffer, t := r.response + chunks[0], Join(chunks[1..]) + Join(Flat(more));
    FirstOfBlock(r.response, chunks, more);
    DotLine();
    if HasCrlf(buffer) {
      AssemblerTakesRead(r, ls, chunks[0], t);
      EmptyHalves(LastSplit(buffer).1, t);
    } else if buffer == "." && t == CRLF {
      AssemblerTakesDot(r, ls, chunks[0]);
    } else {
      AssemblerSpoils(r, ls, chunks[0], t);
    }
  }

  lemma {:induction false} EmptyHalves(a: string, b: string)
    ensures a + b == "" ==> a == "" && b == ""
  {
    assert |a + b| == |a| + |b|;
  }

  lemma {:induction false} HandedOverIsClosed(r: Reader, r': Reader, ls: seq<string>)
    requires HandedOver(r, r', ls)
    ensures !r'.isOpen
  {
  }

  lemma {:induction false} MidwayIsPlain(r: Reader, ls: seq<string>, t: string)
    requires Midway(r, ls, t)
    ensures PlainLines(ls)
  {
  }

  lemma {:induction false} ContinuesThen(r: Reader, r1: Reader, r2: Reader, ls: seq<string>)
    requires Continues(r, r1)
    ensures Continues(r1, r2) ==> Continues(r, r2)
    ensures HandedOver(r1, r2, ls) ==> HandedOver(r, r2, ls)
    ensures forall told :: Finishes(r1, r2, TextsOf, told) ==> Finishes(r, r2, TextsOf, told)
    ensures NotTold(r1, r2, Block(ls)) ==> NotTold(r, r2, Block(ls))
  {
    hide Told, DoneIn, DoneLast, Block;
  }

  /** The reads of one event, with the events `more` still to come. */
  lemma {:induction false} AssemblerLoops(r: Reader, ls: seq<string>, chunks: seq<string>, more: seq<seq<string>>)
    requires Midway(r, ls, Join(chunks) + Join(Flat(more)))
    ensures var (r', left) := ReadLoop(r, chunks);
            var comes := BlockComes(r.response, chunks, more);
            || (comes && HandedOver(r, r', ls))
            || (!comes && !EndsLines(r.response, chunks) && Lost(r, r', ls, Join(Flat(more)))
                && (r'.isOpen ==> left == []))
            || (Continues(r, r') && Midway(r', ls, Join(Flat(more))) && left == []
                && EndsLines(r.response, chunks) && r'.response == Carry(r.response, chunks)
                && comes == BlockComes(r'.response, [], more))
    decreases |chunks|
  {
    hide TakeBuffer, LastSplit, HasCrlf, Told, DoneIn, Block, AtLine, BlockComes, Join, Finishes, Spoiled, NotTold,
         DoneLast;
    if chunks == [] {
      JoinNothing("");
      assert Join(chunks) + Join(Flat(more)) == Join(Flat(more));
    } else {
      var buffer, t := r.response + chunks[0], Join(chunks[1..]) + Join(Flat(more));
      var r1 := TakeBuffer(r.(response := buffer));
      var (r2, left) := ReadLoop(r1, chunks[1..]);
      assert ReadLoop(r, chunks) == (r2, left);
      AssemblerTakesFirst(r, ls, chunks, more);
      var comes := BlockComes(r.response, chunks, more);
      if comes && HandedOver(r, r1, ls) {
        HandedOverIsClosed(r, r1, ls);
      } else if !comes && !HasCrlf(buffer) && Lost(r, r1, ls, t) {
        BlockEnds(ls) by { MidwayIsPlain(r, ls, Join(chunks) + Join(Flat(more))); }
        SpoiledLoops(r1, Block(ls), chunks[1..], Join(Flat(more)));
        NotToldThen(r, r1, r2, Block(ls));
      } else {
        AssemblerLoops(r1, ls, chunks[1..], more);
        ContinuesThen(r, r1, r2, ls);
      }
    }
  }

  /** One event: the article is handed over, or a lone dot ends it with nothing, or it is spoiled,
      or it goes on. */
  lemma {:induction false} AssemblerTakes(r: Reader, ls: seq<string>, batch: seq<string>, more: seq<seq<string>>)
    requires Midway(r, ls, Join(batch) + Join(Flat(more))) && batch != []
    ensures var r' := Deliver(r, batch);
            var comes := BlockComes(r.response, batch, more);
            var carry := Carry(r.response, batch);
            || (comes && Finishes(r, r', TextsOf, [Block(ls)]))
            || (!comes && Finishes(r, r', TextsOf, []))
            || (!comes && !(EndsLines(r.response, batch) && Quiet(carry)) && Lost(r, r', ls, Join(Flat(more))))
            || (Continues(r, r') && Midway(r', ls, Join(Flat(more))) && EndsLines(r.response, batch)
                && r'.response == carry && carry != "." && Quiet(carry) && comes == BlockComes(carry, [], more))
  {
    hide LastSplit, HasCrlf, Told, DoneIn, DoneLast, Block, AtLine, BlockComes, Join, Spoiled, NotTold, ReadLoop,
         ProcessResponse, Quiet, EndsLines, Carry;
    AssemblerLoops(r, ls, batch, more);
    var (r1, left) := ReadLoop(r, batch);
    var r2 := ProcessResponse(r1, r1.response);
    assert Deliver(r, batch) == Deliver(r2, left);
    var comes := BlockComes(r.response, batch, more);
    if comes && HandedOver(r, r1, ls) {
      HandedOverStays(r, r1, ls);
    } else if !comes && !EndsLines(r.response, batch) && Lost(r, r1, ls, Join(Flat(more)))
              && (r1.isOpen ==> left == []) {
      SpoiledLook(r1, Block(ls), Join(Flat(more)));
      NotToldThen(r, r1, r2, Block(ls));
    } else {
      AssemblerLooks(r, r1, ls, more);
    }
  }

  lemma {:induction false} HandedOverStays(r: Reader, r': Reader, ls: seq<string>)
    requires HandedOver(r, r', ls)
    ensures var r2 := ProcessResponse(r', r'.response); !r2.isOpen && Finishes(r, r2, TextsOf, [Block(ls)])
  {
    hide Told, DoneIn, ProcessResponse, Block;
    assert Quiet("");
    QuietLook(r', TextsOf);
  }

  /** The look at what a good event leaves over. */
  lemma {:induction false} AssemblerLooks(r: Reader, r1: Reader, ls: seq<string>, more: seq<seq<string>>)
    requires Continues(r, r1) && Midway(r1, ls, Join(Flat(more)))
    ensures var r2 := ProcessResponse(r1, r1.response);
            var comes := BlockComes(r1.response, [], more);
            || (r1.response == "." && !comes && Finishes(r, r2, TextsOf, []))
            || (!Quiet(r1.response) && !comes && Lost(r, r2, ls, Join(Flat(more))))
            || (r1.response != "." && Quiet(r1.response) && Continues(r, r2) && Midway(r2, ls, Join(Flat(more)))
                && r2.response == r1.response)
  {
    hide LastSplit, HasCrlf, Told, DoneIn, Block, AtLine, Join, NotTold, ProcessResponse, Quiet, Ink, EndOf;
    var s, t := r1.response, Join(Flat(more));
    var r2 := ProcessResponse(r1, s);
    MidwayHasMore(r1, ls, more);
    if Quiet(s) {
      QuietLook(r1, TextsOf);
      assert Told(r.log, TextsOf) + [] == Told(r.log, TextsOf);
    } else {
      StatusLook(r1);
      StatusHasInk(s);
      SameTold(r, r2, Block(ls));
      InkConcat(r1.article + s, t);
      InkConcat(r1.article, s);
      InkConcat("", t);
      InkConcat(r1.article, t);
      NoInkInEnd();
      assert r1.article + "" == r1.article && "" + "" == "";
    }
  }

  /** Something is still to come, so another event is. */
  lemma {:induction false} MidwayHasMore(r: Reader, ls: seq<string>, more: seq<seq<string>>)
    requires Midway(r, ls, Join(Flat(more)))
    ensures more != []
  {
    if more == [] {
      var k :| 0 <= k <= |ls| && r.response + Join(Flat(more)) == Block(ls[k..]);
      BlockHasEnd(ls[k..]);
      JoinNothing(r.response);
      assert false;
    }
  }

  lemma {:induction false} AssemblerRuns(r: Reader, ls: seq<string>, batches: seq<seq<string>>)
    requires Midway(r, ls, Join(Flat(batches))) && Quiet(r.response) && r.response != "."
    ensures var r' := Exec(r, Arrivals(batches));
            var comes := BlockComes(r.response, [], batches);
            && (comes ==> Finishes(r, r', TextsOf, [Block(ls)]))
            && (!comes ==> NotTold(r, r', Block(ls)))
            && (!comes && Conserves(r.response, batches) ==> Finishes(r, r', TextsOf, []))
    decreases |batches|
  {
    hide LastSplit, HasCrlf, Told, DoneIn, DoneLast, Block, AtLine, Join, Spoiled, Deliver, Quiet, EndsLines, Carry,
         Conserves, Finishes, NotTold;
    MidwayHasMore(r, ls, batches);
    var batch, more := batches[0], batches[1..];
    var steps := Arrivals(batches);
    assert steps[0] == Arrive(batch) && steps[1..] == Arrivals(more);
    JoinConcat(batch, Flat(more));
    ConservesNext(r.response, batches);
    EmptyBatch(r);
    var r1, r' := Deliver(r, batch), Exec(r, steps);
    var comes := BlockComes(r.response, batch, more);
    if batch == [] {
      assert batch + Flat(more) == Flat(more);
      AssemblerRuns(r, ls, more);
    } else {
      AssemblerTakes(r, ls, batch, more);
      if (comes && Finishes(r, r1, TextsOf, [Block(ls)])) || (!comes && Finishes(r, r1, TextsOf, [])) {
        FinishedStays(r, r1, ls, more);
      } else if !comes && Lost(r, r1, ls, Join(Flat(more)))
                && !(EndsLines(r.response, batch) && Quiet(Carry(r.response, batch))) {
        BlockEnds(ls) by { MidwayIsPlain(r, ls, Join(Flat(batches))); }
        SpoiledRuns(r1, Block(ls), more);
        NotToldThen(r, r1, r', Block(ls));
      } else {
        AssemblerRuns(r1, ls, more);
        ContinuesThen(r, r1, r', ls);
      }
    }
  }

  lemma {:induction false} FinishedStays(r: Reader, r': Reader, ls: seq<string>, more: seq<seq<string>>)
    requires Finishes(r, r', TextsOf, [Block(ls)]) || Finishes(r, r', TextsOf, [])
    ensures Exec(r', Arrivals(more)) == r'
    ensures Finishes(r, r', TextsOf, []) ==> NotTold(r, r', Block(ls))
  {
    hide Told, DoneIn, DoneLast, Block;
    NothingArrives(r', more);
    assert Told(r.log, TextsOf) + [] == Told(r.log, TextsOf);
  }

  /** The article command, exactly: for every article, every way its block is cut into reads and
      these are batched into events, the command is given the whole block if and only if the reads
      bring it. It is then given nothing else, told "Done" once, and closes the reader. Otherwise
      it is never given the block; when only a lone dot is the reason, it is told "Done" and given
      nothing. */
  lemma {:induction false} ArticleIsHandedOverIff(r: Reader, ls: seq<string>, batches: seq<seq<string>>)
    requires Assembling(r) && r.article == "" && r.response == "" && PlainLines(ls)
    requires Join(Flat(batches)) == Block(ls)
    ensures var r' := Exec(r, Arrivals(batches));
            && (BlockComes("", [], batches) <==> Told(r'.log, TextsOf) == Told(r.log, TextsOf) + [Block(ls)])
            && (BlockComes("", [], batches) <==> Finishes(r, r', TextsOf, [Block(ls)]))
            && (BlockComes("", [], batches) <==> !NotTold(r, r', Block(ls)))
            && (!BlockComes("", [], batches) && Conserves("", batches) ==> Finishes(r, r', TextsOf, []))
  {
    hide Exec, Told, DoneIn, DoneLast, PlainLines, Block, BlockComes, Conserves, Join, Flat;
    assert r.article + r.response + Block(ls) == Block(ls);
    assert r.response + Block(ls) == Block(ls[0..]) by { assert ls[0..] == ls; }
    assert Quiet("") && !HasCrlf("") by { DotLine(); }
    AssemblerRuns(r, ls, batches);
    var r' := Exec(r, Arrivals(batches));
    var told := Told(r.log, TextsOf);
    assert (told + [Block(ls)])[|told|..] == [Block(ls)];
  }

  /** An ordinary article, none of whose lines looks like a status line, in reads that leave a line
      end each: the command is told "Done" once and closes the reader, and is given the block or
      nothing. */
  lemma {:induction false} OrdinaryArticle(r: Reader, ls: seq<string>, batches: seq<seq<string>>)
    requires Assembling(r) && r.article == "" && r.response == "" && TextLines(ls)
    requires Join(Flat(batches)) == Block(ls) && EndsLines("", Flat(batches))
    ensures Finishes(r, Exec(r, Arrivals(batches)), TextsOf, if BlockComes("", [], batches) then [Block(ls)] else [])
  {
    hide Exec, Finishes, TextLines, Block, BlockComes, EndsLines, Join, Flat, NotTold, QuietLeftovers;
    PlainOf(ls);
    assert "" + Join(Flat(batches)) == Join(Flat(batches));
    OrdinaryLeftovers(ls, "", batches);
    ArticleIsHandedOverIff(r, ls, batches);
  }

  /** The GROUP reply sends the ARTICLE command that waits for it, and starts from nothing. */
  lemma {:induction false} ArticleIsAskedFor(r: Reader, id: string, selected: string)
    requires r.isOpen && !r.resultsComing && r.response == "" && r.article == "" && r.delegate.OneArticle?
    requires r.op == Some(Article) && r.groupCommand == GetArticle(id)
    requires S211 <= selected && !(S211_LIST <= selected)
    ensures var r' := Take(r, Arrive([selected]));
            && Assembling(r') && r'.article == "" && r'.response == ""
            && r'.log == r.log + [Heard(selected)] + [Sent(GetArticle(id))]
            && Told(r'.log, TextsOf) == Told(r.log, TextsOf) && DoneIn(r'.log) == DoneIn(r.log)
  {
    hide Take, Notify, Told, DoneIn;
    StatusRead(r, selected);
    StatusesDiffer(S211, S200, 1, selected);
    StatusesDiffer(S211, S381, 0, selected);
    StatusesDiffer(S211, S281, 1, selected);
    StatusesDiffer(S211, S502, 0, selected);
    StatusesDiffer(S211, S205, 1, selected);
    StatusesDiffer(S211, S215, 2, selected);
    assert |selected| >= 4;
    ToldSnoc(r.log, Heard(selected), TextsOf);
    ToldSnoc(r.log + [Heard(selected)], Sent(GetArticle(id)), TextsOf);
    assert Told(r.log, TextsOf) + [] + [] == Told(r.log, TextsOf);
  }

  /** Asking for an article of a group sends GROUP, and the article starts from nothing. */
  lemma {:induction false} ArticleIsRequested(r: Reader, group: string, id: string)
    requires r.isOpen && r.connected && !r.resultsComing
    ensures var r' := Perform(r, CallArticle(group, id));
            && r'.isOpen && !r'.resultsComing && r'.response == "" && r'.article == "" && r'.delegate == r.delegate
            && r'.op == Some(Article) && r'.groupCommand == GetArticle(id)
            && r'.log == r.log + [Sent(Group(group))]
            && Told(r'.log, TextsOf) == Told(r.log, TextsOf) && DoneIn(r'.log) == DoneIn(r.log)
  {
    hide Told, DoneIn;
    ToldSnoc(r.log, Sent(Group(group)), TextsOf);
    assert Told(r.log, TextsOf) + [] == Told(r.log, TextsOf);
  }

  /** The same from the request on: GROUP, its reply, the article. */
  lemma {:induction false} ArticleRun(
      r: Reader, group: string, id: string, selected: string, ls: seq<string>, batches: seq<seq<string>>)
    requires r.isOpen && r.connected && !r.resultsComing && r.delegate.OneArticle?
    requires S211 <= selected && !(S211_LIST <= selected)
    requires PlainLines(ls) && Join(Flat(batches)) == Block(ls)
    ensures var r' := Exec(r, [User(CallArticle(group, id)), Arrive([selected])] + Arrivals(batches));
            && (BlockComes("", [], batches) <==> Told(r'.log, TextsOf) == Told(r.log, TextsOf) + [Block(ls)])
            && (BlockComes("", [], batches) ==> !r'.isOpen && DoneIn(r'.log) == DoneIn(r.log) + 1)
            && (BlockComes("", [], batches) <==> !NotTold(r, r', Block(ls)))
  {
    hide Perform, Deliver, Told, DoneIn, PlainLines, Join, BlockComes, Block, Flat;
    var r1 := Perform(r, CallArticle(group, id));
    ArticleIsRequested(r, group, id);
    ArticleIsAskedFor(r1, id, selected);
    var r2 := Take(r1, Arrive([selected]));
    ArticleIsHandedOverIff(r2, ls, batches);
    var steps := [User(CallArticle(group, id)), Arrive([selected])] + Arrivals(batches);
    assert steps[0] == User(CallArticle(group, id)) && steps[1..][0] == Arrive([selected]);
    assert steps[1..][1..] == Arrivals(batches);
    assert Exec(r, steps) == Exec(r1, steps[1..]) == Exec(r2, Arrivals(batches));
  }

  // ----- the two ways an event can lose it, in reads that leave a line end each -----

  /** Two reads in two events, the first ending on `s`, the start of a line. */
  lemma {:induction false} TwoEvents(l: string, s: string, rest: string)
    requires !HasCrlf(s) && (s == "." || !Quiet(s)) && |rest| > 0
    ensures var batches := [[l + CRLF + s], [rest]];
            && Flat(batches) == [l + CRLF + s, rest] && Join(Flat(batches)) == l + CRLF + s + rest
            && !BlockComes("", [], batches)
  {
    hide HasCrlf, LastSplit, Quiet;
    var c0 := l + CRLF + s;
    var batches := [[c0], [rest]];
    TwoReads(c0, rest);
    assert batches[1..] == [[rest]] && [[rest]][1..] == [] && [c0][1..] == [] && [rest][1..] == [];
    assert Join([]) + Join(Flat([[rest]])) == rest;
    SplitUnique(l, s);
    assert "" + c0 == c0 && |c0| >= 2 && c0 != ".";
    assert |s + rest| > 0;
    assert !BlockComes(s, [], [[rest]]);
    assert BlockComes("", [], batches) == (Quiet("") && BlockComes("", [c0], [[rest]]));
  }

  /** For every article of one line: the dot in one event and its line end in the next, and the
      command is told "Done" and given nothing. */
  lemma {:induction false} LateEndLosesArticle(r: Reader, l: string)
    requires Assembling(r) && r.article == "" && r.response == "" && PlainLine(l)
    ensures var r' := Exec(r, Arrivals([[l + CRLF + "."], [CRLF]]));
            !r'.isOpen && Told(r'.log, TextsOf) == Told(r.log, TextsOf) && DoneIn(r'.log) == DoneIn(r.log) + 1
  {
    hide Exec, Told, DoneIn, BlockComes, Flat;
    DotLine();
    TwoEvents(l, ".", CRLF);
    var batches := [[l + CRLF + "."], [CRLF]];
    assert [l][1..] == [];
    assert Block([l]) == l + CRLF + ("." + CRLF) == l + CRLF + "." + CRLF;
    assert PlainLines([l]);
    LateEndConserves(l);
    ArticleIsHandedOverIff(r, [l], batches);
    assert Told(r.log, TextsOf) + [] == Told(r.log, TextsOf);
  }

  lemma {:induction false} LateEndConserves(l: string)
    ensures Conserves("", [[l + CRLF + "."], [CRLF]])
  {
    hide HasCrlf, LastSplit, Quiet, Conserves;
    var c0, c1 := l + CRLF + ".", CRLF;
    var batches := [[c0], [c1]];
    DotLine();
    SplitUnique(l, ".");
    SplitUnique(".", "");
    assert "" + c0 == c0 && "." + c1 == "." + CRLF + "" && batches[1..] == [[c1]] && [[c1]][1..] == [];
    OneEnd("", c0);
    OneEnd(".", c1);
    EmptyIsQuiet("", "");
    NothingConserves("");
    ConservesNext(".", [[c1]]);
    ConservesNext("", batches);
  }

  /** For every article of two lines whose second looks like a status line, such as "211 people":
      that line in one event and its line end in the next, and the command is never given the
      article. */
  lemma {:induction false} StatusLineLosesArticle(r: Reader, l: string, s: string)
    requires Assembling(r) && r.article == "" && r.response == "" && PlainLine(l) && PlainLine(s) && !Quiet(s)
    ensures NotTold(r, Exec(r, Arrivals([[l + CRLF + s], [CRLF + "." + CRLF]])), Block([l, s]))
  {
    hide Exec, Told, DoneIn, BlockComes, Flat, Quiet, NotTold, Block;
    var rest := CRLF + "." + CRLF;
    TwoEvents(l, s, rest);
    BlockOfMore(s, []);
    BlockOfMore(l, [s]);
    assert [s] + [] == [s] && [l] + [s] == [l, s];
    assert Block([l, s]) == l + CRLF + s + rest;
    assert PlainLines([l, s]);
    ArticleIsHandedOverIff(r, [l, s], [[l + CRLF + s], [rest]]);
  }

  /** A witness, for every second line that starts with "211 ", such as "x" and "211 people": the
      command is given an article with an empty line instead. */
  lemma {:induction false} PeopleAreLost(r: Reader, l: string, s: string)
    requires Assembling(r) && r.article == "" && r.response == "" && PlainLine(l) && PlainLine(s) && S211 <= s
    ensures var r' := Exec(r, Arrivals([[l + CRLF + s], [CRLF + "." + CRLF]]));
            Finishes(r, r', TextsOf, [Block([l, ""])]) && Block([l, ""]) != Block([l, s])
  {
    hide Exec, Finishes, Told, BlockComes, Deliver, Quiet, Continues, Block, Midway, PlainLine, Flat;
    var c, rest := l + CRLF + s, CRLF + "." + CRLF;
    var r1 := Deliver(r, [c]);
    assert [[c], [rest]][1..] == [[rest]] && Arrivals([[c], [rest]]) == [Arrive([c])] + Arrivals([[rest]]);
    FirstStep(r, Arrive([c]), Arrivals([[rest]]));
    LineIsLost(r, l, s);
    TwoLines(l, s);
    RestIsMidway(r, r1, l, rest);
    EmptyIsQuiet("", "");
    RestComes(rest);
    AssemblerRuns(r1, [l, ""], [[rest]]);
    FinishesLater(r, r1, Exec(r1, Arrivals([[rest]])), [l, ""]);
  }

  lemma {:induction false} TwoLines(l: string, s: string)
    requires PlainLine(l) && S211 <= s
    ensures var rest := CRLF + "." + CRLF;
            && Block([l, ""]) == l + CRLF + rest && Block([""]) == rest && PlainLines([l, ""])
            && Block([l, ""]) != Block([l, s])
  {
    hide Block, HasCrlf;
    BlockOfMore("", []);
    BlockOfMore(l, [""]);
    BlockOfMore(s, []);
    BlockOfMore(l, [s]);
    assert [""] + [] == [""] && [l] + [""] == [l, ""] && [s] + [] == [s] && [l] + [s] == [l, s];
    LinesAreLonger(l, s);
    DotLine();
  }

  lemma {:induction false} LinesAreLonger(l: string, s: string)
    requires S211 <= s
    ensures l + CRLF + (CRLF + "." + CRLF) != l + CRLF + (s + CRLF + ("." + CRLF))
  {
    assert |l + CRLF + (CRLF + "." + CRLF)| < |l + CRLF + (s + CRLF + ("." + CRLF))|;
  }

  lemma {:induction false} RestIsMidway(r: Reader, r1: Reader, l: string, rest: string)
    requires Continues(r, r1) && r1.article == l + CRLF && r1.response == "" && PlainLines([l, ""])
    requires Block([l, ""]) == l + CRLF + rest && Block([""]) == rest
    ensures Midway(r1, [l, ""], Join(Flat([[rest]])))
  {
    hide Block, PlainLines, Told, DoneIn;
    DotLine();
    assert [[rest]][1..] == [];
    assert Flat([[rest]]) == [rest] + Flat([]) == [rest] && [rest][1..] == [];
    assert Join([rest]) == rest + Join([]) == rest;
    assert AtLine("" + rest, [l, ""]) by { assert [l, ""][1..] == [""] && "" + rest == rest; }
    assert r1.article + r1.response + rest == l + CRLF + rest;
  }

  lemma {:induction false} FinishesLater(r: Reader, r1: Reader, r2: Reader, ls: seq<string>)
    requires Continues(r, r1) && Finishes(r1, r2, TextsOf, [Block(ls)])
    ensures Finishes(r, r2, TextsOf, [Block(ls)])
  {
    hide Told, DoneIn, DoneLast, Block;
  }

  lemma {:induction false} RestComes(rest: string)
    requires rest == CRLF + "." + CRLF
    ensures BlockComes("", [], [[rest]])
  {
    hide LastSplit, HasCrlf;
    assert [[rest]][1..] == [] && [rest][1..] == [];
    DotLine();
    SplitUnique(CRLF + ".", "");
    assert "" + rest == rest == (CRLF + ".") + CRLF + "";
    assert Join([]) + Join(Flat([])) == "" && "" + "" == "";
    assert BlockComes("", [rest], []);
    assert Quiet("");
  }

  /** The event that ends inside the line. */
  lemma {:induction false} LineIsLost(r: Reader, l: string, s: string)
    requires Assembling(r) && r.article == "" && r.response == "" && PlainLine(l) && PlainLine(s) && S211 <= s
    ensures var r' := Deliver(r, [l + CRLF + s]);
            Continues(r, r') && r'.article == l + CRLF && r'.response == ""
  {
    hide Told, DoneIn, TakeBuffer, ProcessResponse, Lines, LastSplit, HasCrlf;
    var c := l + CRLF + s;
    var r1 := TakeBuffer(r.(response := c));
    assert "" + c == c && [c][1..] == [];
    SplitUnique(l, s);
    AssemblerReads(r.(response := c));
    LineOf(l);
    EndOnEnd(l);
    assert "" + l + CRLF == l + CRLF;
    assert ReadLoop(r, [c]) == ReadLoop(r1, []) == (r1, []);
    GroupLook(r1);
    var r2 := ProcessResponse(r1, s);
    assert Deliver(r, [c]) == Deliver(r2, []) == r2;
  }

  lemma {:induction false} GroupLook(r: Reader)
    requires Assembling(r) && S211 <= r.response
    ensures var r' := ProcessResponse(r, r.response); Continues(r, r') && r'.article == r.article && r'.response == ""
  {
    hide Told, DoneIn, Notify;
    var s := r.response;
    StatusesDiffer(S211, S200, 1, s);
    StatusesDiffer(S211, S381, 0, s);
    StatusesDiffer(S211, S281, 1, s);
    StatusesDiffer(S211, S502, 0, s);
    StatusesDiffer(S211, S205, 1, s);
    StatusesDiffer(S211, S215, 2, s);
    assert |s| >= 4;
    ToldSnoc(r.log, Heard(s), TextsOf);
    ToldSnoc(r.log + [Heard(s)], Sent(r.groupCommand), TextsOf);
    assert Told(r.log, TextsOf) + [] + [] == Told(r.log, TextsOf) + [] == Told(r.log, TextsOf);
  }
}
