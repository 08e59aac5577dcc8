/** LISTGROUP through the whole reader: what the delegate is told, for every way the stream is
    cut into reads and the reads are batched into stream events. */
module NewsListRun {
  import opened Wrappers
  import opened NewsText
  import opened NewsModel
  import opened NewsStream
  import opened NewsBlock
  import opened NewsListGroup

  function IdsOf(e: Event): seq<string> {
    if e.GotIds? then e.ids else []
  }

  predicate NoBlank(s: string) {
    forall i | 0 <= i < |s| :: s[i] != ' '
  }

  predicate Listing(r: Reader) {
    r.isOpen && r.resultsComing && r.op == Some(ListGroupArticles)
  }

  lemma {:induction false} BlankIsMissing(status: string, s: string)
    requires NoBlank(s) && |status| > 3 && status[3] == ' '
    ensures !(status <= s)
  {
    if |status| <= |s| {
      assert s[..|status|][3] == s[3] != ' ';
    }
  }

  lemma {:induction false} NoBlankIsQuiet(s: string)
    requires NoBlank(s)
    ensures Quiet(s)
  {
    BlankIsMissing(S200, s);
    BlankIsMissing(S381, s);
    BlankIsMissing(S281, s);
    BlankIsMissing(S502, s);
    BlankIsMissing(S205, s);
    BlankIsMissing(S215, s);
    BlankIsMissing(S211_LIST, s);
    BlankIsMissing(S211, s);
  }

  lemma {:induction false} RestHasNoBlank(s: string, t: string)
    requires NoBlank(s + t)
    ensures NoBlank(LastSplit(s).1 + t) && NoBlank(LastSplit(s).1)
  {
    var q := LastSplit(s).1;
    var d := |s| - |q|;
    assert s == s[..d] + q;
    forall i | 0 <= i < |q + t| ensures (q + t)[i] != ' ' {
      assert (q + t)[i] == (s + t)[d + i];
    }
    forall i | 0 <= i < |q| ensures q[i] != ' ' {
      assert q[i] == (q + t)[i];
    }
  }

  // ----- a delegate that only listens -----

  lemma {:induction false} PiecesConcat(carry: string, a: seq<string>, b: seq<string>)
    ensures Pieces(carry, a + b) == Pieces(carry, a) + Pieces(Carry(carry, a), b)
    decreases |a|
  {
    if a == [] {
      assert a + b == b;
    } else {
      assert (a + b)[0] == a[0] && (a + b)[1..] == a[1..] + b;
      PiecesConcat(LastSplit(carry + a[0]).1, a[1..], b);
    }
  }

  predicate Listening(r: Reader) {
    Listing(r) && r.delegate == Script([])
  }

  lemma {:induction false} ListenerReads(r: Reader)
    requires Listening(r)
    ensures var (p, q) := LastSplit(r.response);
            var r' := TakeBuffer(r);
            Listening(r') && r'.response == q && Told(r'.log, IdsOf) == Told(r.log, IdsOf) + NotDots(Lines(p))
  {
    hide Lines, LastSplit, NotDots;
    var (p, q) := LastSplit(r.response);
    var ids := NotDots(Lines(p));
    var r1 := Log(r.(response := q), GotIds(ids));
    ToldSnoc(r.log, GotIds(ids), IdsOf);
    ListenerHears(r1, Finished);
    ToldSnoc(r1.log, Notified(Finished), IdsOf);
    assert Told(r1.log, IdsOf) + [] == Told(r1.log, IdsOf);
  }

  lemma {:induction false} ListenerLoops(r: Reader, chunks: seq<string>)
    requires Listening(r)
    ensures var (r', left) := ReadLoop(r, chunks);
            && Listening(r') && left == [] && r'.response == Carry(r.response, chunks)
            && Told(r'.log, IdsOf) == Told(r.log, IdsOf) + NotDots(Pieces(r.response, chunks))
    decreases |chunks|
  {
    hide TakeBuffer, Lines, LastSplit, Told;
    if chunks == [] {
      assert Told(r.log, IdsOf) + [] == Told(r.log, IdsOf);
    } else {
      var r1 := r.(response := r.response + chunks[0]);
      ListenerReads(r1);
      ListenerLoops(TakeBuffer(r1), chunks[1..]);
      NotDotsConcat(Lines(LastSplit(r1.response).0), Pieces(LastSplit(r1.response).1, chunks[1..]));
    }
  }

  lemma {:induction false} CarryHasNoBlank(carry: string, a: seq<string>, rest: string)
    requires NoBlank(carry + Join(a) + rest)
    ensures NoBlank(Carry(carry, a) + rest) && NoBlank(Carry(carry, a))
    decreases |a|
  {
    hide NoBlank, LastSplit;
    if a == [] {
      assert carry + Join(a) == carry;
      Prefixes(carry, rest);
    } else {
      assert carry + Join(a) + rest == (carry + a[0]) + (Join(a[1..]) + rest);
      RestHasNoBlank(carry + a[0], Join(a[1..]) + rest);
      var q := LastSplit(carry + a[0]).1;
      assert q + Join(a[1..]) + rest == q + (Join(a[1..]) + rest);
      CarryHasNoBlank(q, a[1..], rest);
    }
  }

  lemma {:induction false} Prefixes(s: string, t: string)
    requires NoBlank(s + t)
    ensures NoBlank(s)
  {
    forall i | 0 <= i < |s| ensures s[i] != ' ' { assert s[i] == (s + t)[i]; }
  }

  /** One event: the reads are taken, and the leftover is looked at for a status. */
  lemma {:induction false} ListenerTakes(r: Reader, batch: seq<string>, rest: string)
    requires Listening(r) && NoBlank(r.response + Join(batch) + rest)
    ensures var r' := Deliver(r, batch);
            && Listening(r') && r'.response == Carry(r.response, batch) && NoBlank(r'.response + rest)
            && Told(r'.log, IdsOf) == Told(r.log, IdsOf) + NotDots(Pieces(r.response, batch))
  {
    hide NoBlank, ReadLoop, ProcessResponse, Told, Notify, Lines, LastSplit;
    CarryHasNoBlank(r.response, batch, rest);
    if batch == [] {
      assert NotDots(Pieces(r.response, batch)) == [];
      assert Told(r.log, IdsOf) + [] == Told(r.log, IdsOf);
    } else {
      ListenerLoops(r, batch);
      var r1 := ReadLoop(r, batch).0;
      var s := r1.response;
      NoBlankIsQuiet(s);
      QuietProcess(r1, s);
      var r2 := Log(r1, Heard(s));
      ToldSnoc(r1.log, Heard(s), IdsOf);
      ListenerHears(r2, Finished);
      ToldSnoc(r2.log, Notified(Finished), IdsOf);
      assert Told(r1.log, IdsOf) + [] == Told(r1.log, IdsOf) && Told(r2.log, IdsOf) + [] == Told(r2.log, IdsOf);
      var r3 := ProcessResponse(r1, s);
      assert Deliver(r, batch) == Deliver(r3, []) == r3;
    }
  }

  lemma {:induction false} NothingRead(carry: string)
    ensures NotDots(Pieces(carry, [])) == []
  {
    assert Pieces(carry, []) == [];
  }

  /** Whatever the batches, a delegate that only listens is told the lines of the reads. */
  lemma {:induction false} ListenerRuns(r: Reader, batches: seq<seq<string>>)
    requires Listening(r) && NoBlank(r.response + Join(Flat(batches)))
    ensures Told(Exec(r, Arrivals(batches)).log, IdsOf)
         == Told(r.log, IdsOf) + NotDots(Pieces(r.response, Flat(batches)))
    decreases |batches|
  {
    hide NoBlank, Told, Deliver, Lines, LastSplit, Join, Pieces, Carry, NotDots;
    if batches == [] {
      NothingRead(r.response);
      assert Told(r.log, IdsOf) + [] == Told(r.log, IdsOf);
    } else {
      var batch, more := batches[0], batches[1..];
      JoinConcat(batch, Flat(more));
      assert r.response + Join(Flat(batches)) == r.response + Join(batch) + Join(Flat(more));
      ListenerTakes(r, batch, Join(Flat(more)));
      var r1 := Deliver(r, batch);
      var steps := Arrivals(batches);
      assert steps[0] == Arrive(batch) && steps[1..] == Arrivals(more);
      ListenerRuns(r1, more);
      PiecesConcat(r.response, batch, Flat(more));
      NotDotsConcat(Pieces(r.response, batch), Pieces(r1.response, Flat(more)));
    }
  }

  lemma {:induction false} BlockHasNoBlank(ids: seq<string>)
    requires IdLines(ids)
    ensures NoBlank(Block(ids))
    decreases |ids|
  {
    if ids != [] {
      assert IdLine(ids[0]);
      assert IdLines(ids[1..]) by {
        forall i | 0 <= i < |ids[1..]| ensures IdLine(ids[1..][i]) { assert ids[1..][i] == ids[i+1]; }
      }
      BlockHasNoBlank(ids[1..]);
    }
  }

  /** The reader reports exactly the ids of the list, however the reads are cut and batched, if
      and only if no read cuts a line without holding a line end. */
  lemma {:induction false} IdsReportedIff(r: Reader, ids: seq<string>, batches: seq<seq<string>>)
    requires Listening(r) && r.response == "" && IdLines(ids) && Join(Flat(batches)) == Block(ids)
    ensures Told(Exec(r, Arrivals(batches)).log, IdsOf) == Told(r.log, IdsOf) + ids <==> CleanCuts("", Flat(batches))
  {
    BlockHasNoBlank(ids);
    assert r.response + Block(ids) == Block(ids);
    ListenerRuns(r, batches);
    IdsSeenIff(ids, Flat(batches));
    var told := NotDots(Pieces("", Flat(batches)));
    assert (Told(r.log, IdsOf) + told)[|Told(r.log, IdsOf)|..] == told;
    assert (Told(r.log, IdsOf) + ids)[|Told(r.log, IdsOf)|..] == ids;
  }

  // ----- the program's own delegate, which closes the reader on the first "Done" -----

  predicate Fetching(r: Reader) {
    Listing(r) && r.delegate.ArticleIds?
  }

  /** The next `k` ids have been reported and nothing else has happened. */
  predicate Advances(r: Reader, r': Reader, ids: seq<string>) {
    Fetching(r') && Told(r'.log, IdsOf) == Told(r.log, IdsOf) + ids && DoneIn(r'.log) == DoneIn(r.log)
  }

  lemma {:induction false} FetcherReads(r: Reader)
    requires Fetching(r)
    ensures var (p, q) := LastSplit(r.response);
            var lines := Lines(p);
            var r' := TakeBuffer(r);
            && r'.response == q && r'.delegate == r.delegate
            && ("." in lines ==> Finishes(r, r', IdsOf, NotDots(lines)) && r'.log[|r'.log|-1] == Notified(Finished))
            && ("." !in lines ==> Advances(r, r', NotDots(lines)))
  {
    hide Lines, LastSplit, NotDots;
    var (p, q) := LastSplit(r.response);
    var ids := NotDots(Lines(p));
    var r1 := Log(r.(response := q), GotIds(ids));
    ToldSnoc(r.log, GotIds(ids), IdsOf);
    DoneCloses(r1);
    ToldSnoc(r1.log, Notified(Finished), IdsOf);
    assert Told(r1.log, IdsOf) + [] == Told(r1.log, IdsOf);
  }

  lemma {:induction false} LinesOfRead(ids: seq<string>, k: nat, lines: seq<string>, after: seq<string>)
    requires IdLines(ids) && k <= |ids| && lines + after == ids[..k] + ["."]
    requires after == ["."] || (after == [] && k == |ids|)
    ensures after == [] ==> NotDots(lines) == ids && "." in lines
    ensures after == ["."] ==> NotDots(lines) == ids[..k] && "." !in lines
  {
    SomeIds(ids, k);
    IdsAreNotDots(ids[..k]);
    if after == [] {
      NotDotsConcat(ids[..k], ["."]);
      assert NotDots(["."]) == [];
      assert lines + [] == lines;
      assert lines[k] == ".";
      assert ids[..k] + [] == ids[..k] == ids;
    } else {
      assert lines == (lines + after)[..|lines|] == (ids[..k] + ["."])[..k] == ids[..k];
    }
  }

  /** One read that cuts no line. */
  lemma {:induction false} FetcherTakesRead(r: Reader, at: Place, ids: seq<string>, chunk: string, t: string)
    returns (k: nat, at': Place)
    requires Fetching(r) && PlaceOk(at, ids) && Closing(at) == ["."]
    requires r.response + chunk + t == Remaining(at, ids)
    requires HasCrlf(r.response + chunk) || r.response + chunk == "" || StartsLine(t)
    ensures k <= |ids| && PlaceOk(at', ids[k..])
    ensures var r' := TakeBuffer(r.(response := r.response + chunk));
            && r'.response == LastSplit(r.response + chunk).1 && !HasCrlf(r'.response)
            && r'.response + t == Remaining(at', ids[k..])
            && (Closing(at') == [] ==> Finishes(r, r', IdsOf, ids) && r'.log[|r'.log|-1] == Notified(Finished))
            && (Closing(at') == ["."] ==> Advances(r, r', ids[..k]))
  {
    hide Lines, LastSplit, HasCrlf, Remaining, Told, DoneIn, TakeBuffer, NotDots;
    var buffer := r.response + chunk;
    k, at' := CleanRead(at, ids, buffer, t);
    FetcherReads(r.(response := buffer));
    LinesOfRead(ids, k, Lines(LastSplit(buffer).0), Closing(at'));
  }

  lemma {:induction false} AdvancesThen(r: Reader, r1: Reader, r2: Reader, ids: seq<string>, k: nat, j: nat)
    requires k <= |ids| && j <= |ids[k..]| && Advances(r, r1, ids[..k])
    ensures ids[k..][j..] == ids[k + j..]
    ensures Advances(r1, r2, ids[k..][..j]) ==> Advances(r, r2, ids[..k + j])
    ensures Finishes(r1, r2, IdsOf, ids[k..]) ==> Finishes(r, r2, IdsOf, ids)
  {
    hide Told, DoneIn;
    var before := Told(r.log, IdsOf);
    assert before + ids[..k] + ids[k..][..j] == before + ids[..k + j];
    assert before + ids[..k] + ids[k..] == before + ids;
  }

  /** Nothing is left after the dot but its line end. */
  predicate DotSeen(rest: string) {
    rest == "" || rest == CRLF
  }

  /** Until the dot has been seen each read leaves a line end in the buffer, or leaves it empty, or
      stops just before one; a lone dot left over by an event counts as seen. */
  predicate FetchCuts(carry: string, chunks: seq<string>, batches: seq<seq<string>>)
    decreases |batches|, |chunks|
  {
    if chunks == [] then carry == "." || batches == [] || FetchCuts(carry, batches[0], batches[1..])
    else
      var buffer, t := carry + chunks[0], Join(chunks[1..]) + Join(Flat(batches));
      && (HasCrlf(buffer) || buffer == "" || StartsLine(t))
      && (DotSeen(LastSplit(buffer).1 + t) || FetchCuts(LastSplit(buffer).1, chunks[1..], batches))
  }

  /** Reads that cut no line will do, in any events. */
  lemma {:induction false} CleanCutsFetch(carry: string, chunks: seq<string>, batches: seq<seq<string>>)
    requires CleanCuts(carry, chunks + Flat(batches))
    ensures FetchCuts(carry, chunks, batches)
    decreases |batches|, |chunks|
  {
    hide HasCrlf, LastSplit, StartsLine;
    if chunks == [] {
      assert chunks + Flat(batches) == Flat(batches);
      if batches != [] {
        CleanCutsFetch(carry, batches[0], batches[1..]);
      }
    } else {
      var all, more := chunks + Flat(batches), chunks[1..] + Flat(batches);
      assert all[0] == chunks[0] && all[1..] == more;
      JoinConcat(chunks[1..], Flat(batches));
      CleanCutsFetch(LastSplit(carry + chunks[0]).1, chunks[1..], batches);
    }
  }

  lemma {:induction false} SeenWhenClosing(at: Place, ids: seq<string>)
    requires PlaceOk(at, ids)
    ensures DotSeen(Remaining(at, ids)) <==> Closing(at) == []
  {
    assert at.AtLine? ==> |Block(ids)| >= 3 by {
      assert ids != [] ==> IdLine(ids[0]);
    }
  }

  /** What has been told is no start of the list. */
  predicate Strays(r: Reader, r': Reader, ids: seq<string>) {
    !(Told(r'.log, IdsOf) <= Told(r.log, IdsOf) + ids)
  }

  lemma {:induction false} StraysStay(r: Reader, r1: Reader, r2: Reader, ids: seq<string>)
    requires Strays(r, r1, ids) && r1.log <= r2.log
    ensures Strays(r, r2, ids)
  {
    hide Told;
    ToldGrows(r1.log, r2.log, IdsOf);
    PrefixOfPrefix(Told(r1.log, IdsOf), Told(r2.log, IdsOf), Told(r.log, IdsOf) + ids);
  }

  lemma {:induction false} PrefixOfPrefix(a: seq<string>, b: seq<string>, c: seq<string>)
    requires a <= b
    ensures b <= c ==> a <= c
  {
  }

  lemma {:induction false} StraysThen(r: Reader, r1: Reader, r2: Reader, ids: seq<string>, k: nat)
    requires k <= |ids| && Advances(r, r1, ids[..k]) && Strays(r1, r2, ids[k..])
    ensures Strays(r, r2, ids)
  {
    hide Told;
    assert Told(r.log, IdsOf) + ids[..k] + ids[k..] == Told(r.log, IdsOf) + ids;
  }

  /** A read that cuts a line is reported as an id that the list does not have next. */
  lemma {:induction false} FetcherStrays(r: Reader, at: Place, ids: seq<string>, chunk: string, t: string)
    requires Fetching(r) && PlaceOk(at, ids)
    requires r.response + chunk + t == Remaining(at, ids)
    requires !HasCrlf(r.response + chunk) && r.response + chunk != "" && !StartsLine(t)
    ensures Strays(r, TakeBuffer(r.(response := r.response + chunk)), ids)
  {
    hide Lines, LastSplit, HasCrlf, Remaining, Told, DoneIn, TakeBuffer, StartsLine, Finishes;
    var buffer := r.response + chunk;
    var r1 := r.(response := buffer);
    CutLine(at, ids, buffer, t);
    FetcherReads(r1);
    LineOf(buffer);
    assert [buffer][1..] == [];
    assert NotDots([buffer]) == [buffer];
    var before := Told(r.log, IdsOf);
    assert Told(TakeBuffer(r1).log, IdsOf) == before + [buffer];
    assert ids != [] ==> (before + ids)[..|before| + 1][|before|] == ids[0];
    assert (before + [buffer])[|before|] == buffer;
  }

  /** Between reads: `k` more ids have been told, and the rest of the list is to come. */
  predicate Awaits(r: Reader, r': Reader, at: Place, ids: seq<string>, k: nat, rest: string)
    requires k <= |ids|
  {
    && Advances(r, r', ids[..k]) && PlaceOk(at, ids[k..]) && Closing(at) == ["."]
    && !HasCrlf(r'.response) && r'.response + rest == Remaining(at, ids[k..])
  }

  /** All has been told, and "Done" last. */
  predicate Fetched(r: Reader, r': Reader, ids: seq<string>) {
    && Finishes(r, r', IdsOf, ids) && r'.log[|r'.log|-1] == Notified(Finished)
    && NoBlank(r'.response) && r'.response != "."
  }

  lemma {:induction false} AwaitsThen(
      r: Reader, r1: Reader, r2: Reader, at: Place, ids: seq<string>, k: nat, j: nat, rest: string)
    requires k <= |ids| && j <= |ids[k..]| && Advances(r, r1, ids[..k])
    ensures Awaits(r1, r2, at, ids[k..], j, rest) ==> Awaits(r, r2, at, ids, k + j, rest)
    ensures Fetched(r1, r2, ids[k..]) ==> Fetched(r, r2, ids)
    ensures Finishes(r1, r2, IdsOf, ids[k..]) ==> Finishes(r, r2, IdsOf, ids)
  {
    hide Told, DoneIn, Remaining, HasCrlf, NoBlank;
    AdvancesThen(r, r1, r2, ids, k, j);
  }

  /** The first of some reads. */
  lemma {:induction false} FetcherTakesFirst(
      r: Reader, at: Place, ids: seq<string>, chunks: seq<string>, more: seq<seq<string>>)
    returns (k: nat, at': Place)
    requires chunks != [] && Awaits(r, r, at, ids, 0, Join(chunks) + Join(Flat(more)))
    ensures k <= |ids|
    ensures var r1 := TakeBuffer(r.(response := r.response + chunks[0]));
            var cuts := FetchCuts(r.response, chunks, more);
            || (Strays(r, r1, ids) && !cuts)
            || (Fetched(r, r1, ids) && cuts)
            || (Advances(r, r1, ids[..k]) && Awaits(r1, r1, at', ids[k..], 0, Join(chunks[1..]) + Join(Flat(more)))
                && cuts == FetchCuts(r1.response, chunks[1..], more))
  {
    hide TakeBuffer, Lines, LastSplit, HasCrlf, Told, DoneIn, Remaining, Finishes, NoBlank, StartsLine, DotSeen, Strays,
         FetchCuts, Join;
    assert ids[0..] == ids;
    FirstCut(r.response, chunks, more);
    AwaitsIsFetching(r, r, at, ids, 0, Join(chunks) + Join(Flat(more)));
    var t := Join(chunks[1..]) + Join(Flat(more));
    var buffer := r.response + chunks[0];
    var r1 := TakeBuffer(r.(response := buffer));
    assert r.response + (Join(chunks) + Join(Flat(more))) == r.response + chunks[0] + t;
    if HasCrlf(buffer) || buffer == "" || StartsLine(t) {
      k, at' := FetcherTakesRead(r, at, ids, chunks[0], t);
      SeenWhenClosing(at', ids[k..]);
      if Closing(at') == [] {
        RemainingHasNoBlank(at', ids[k..], r1.response, t);
      } else {
        StartOver(r1, at', ids[k..], t);
      }
    } else {
      FetcherStrays(r, at, ids, chunks[0], t);
      k, at' := 0, at;
    }
  }

  lemma {:induction false} FirstCut(carry: string, chunks: seq<string>, batches: seq<seq<string>>)
    requires chunks != []
    ensures var buffer, t := carry + chunks[0], Join(chunks[1..]) + Join(Flat(batches));
            && Join(chunks) == chunks[0] + Join(chunks[1..])
            && (FetchCuts(carry, chunks, batches) <==>
                  && (HasCrlf(buffer) || buffer == "" || StartsLine(t))
                  && (DotSeen(LastSplit(buffer).1 + t) || FetchCuts(LastSplit(buffer).1, chunks[1..], batches)))
  {
  }

  lemma {:induction false} AwaitsIsFetching(
      r: Reader, r': Reader, at: Place, ids: seq<string>, k: nat, rest: string)
    requires k <= |ids| && Awaits(r, r', at, ids, k, rest)
    ensures Fetching(r')
  {
  }

  /** The reads of one event, with the events `more` still to come. */
  lemma {:induction false} FetcherLoops(
      r: Reader, at: Place, ids: seq<string>, chunks: seq<string>, more: seq<seq<string>>)
    returns (k: nat, at': Place)
    requires Awaits(r, r, at, ids, 0, Join(chunks) + Join(Flat(more)))
    ensures k <= |ids|
    ensures var (r', left) := ReadLoop(r, chunks);
            var cuts := FetchCuts(r.response, chunks, more);
            || (Strays(r, r', ids) && !cuts)
            || (Fetched(r, r', ids) && cuts)
            || (Awaits(r, r', at', ids, k, Join(Flat(more))) && left == [] && cuts == FetchCuts(r'.response, [], more))
    decreases |chunks|
  {
    hide TakeBuffer, Strays, FetchCuts, Awaits, Fetched, Advances;
    AwaitsIsFetching(r, r, at, ids, 0, Join(chunks) + Join(Flat(more)));
    if chunks == [] {
      k, at' := 0, at;
      assert Join([]) + Join(Flat(more)) == Join(Flat(more));
    } else {
      var r1 := TakeBuffer(r.(response := r.response + chunks[0]));
      var (r2, left) := ReadLoop(r1, chunks[1..]);
      assert ReadLoop(r, chunks) == (r2, left);
      k, at' := FetcherTakesFirst(r, at, ids, chunks, more);
      var cuts := FetchCuts(r.response, chunks, more);
      if Strays(r, r1, ids) && !cuts {
        ReadLoopGrows(r1, chunks[1..]);
        StraysStay(r, r1, r2, ids);
      } else if Fetched(r, r1, ids) && cuts {
        FetchedIsClosed(r, r1, ids);
      } else {
        var j, at2 := FetcherLoops(r1, at', ids[k..], chunks[1..], more);
        AwaitsThen(r, r1, r2, at2, ids, k, j, Join(Flat(more)));
        if Strays(r1, r2, ids[k..]) {
          StraysThen(r, r1, r2, ids, k);
        }
        k, at' := k + j, at2;
      }
    }
  }

  lemma {:induction false} FetchedIsClosed(r: Reader, r': Reader, ids: seq<string>)
    requires Fetched(r, r', ids)
    ensures !r'.isOpen
  {
  }

  lemma {:induction false} StartOver(r: Reader, at: Place, ids: seq<string>, rest: string)
    requires Fetching(r) && PlaceOk(at, ids) && Closing(at) == ["."] && !HasCrlf(r.response)
    requires r.response + rest == Remaining(at, ids)
    ensures Awaits(r, r, at, ids, 0, rest)
  {
    hide Told, DoneIn, Remaining, HasCrlf;
    assert ids[0..] == ids && ids[..0] == [] && Told(r.log, IdsOf) + [] == Told(r.log, IdsOf);
  }

  lemma {:induction false} FinishedIsClosed(r: Reader, r': Reader, ids: seq<string>)
    requires Finishes(r, r', IdsOf, ids)
    ensures !r'.isOpen
  {
  }

  lemma {:induction false} RemainingHasNoBlank(at: Place, ids: seq<string>, s: string, t: string)
    requires PlaceOk(at, ids) && s + t == Remaining(at, ids)
    ensures NoBlank(s)
    ensures s == "." ==> ids == [] && Closing(at) == ["."]
  {
    BlockHasNoBlank(ids);
    assert NoBlank(Remaining(at, ids));
    Prefixes(s, t);
    assert ids != [] ==> IdLine(ids[0]) && Block(ids)[0] == ids[0][0];
    assert s != "" ==> s[0] == Remaining(at, ids)[0];
  }

  /** The look at the leftover after an event finishes the list or changes nothing. */
  lemma {:induction false} LooksAtLeftover(r: Reader, r1: Reader, at: Place, ids: seq<string>, k: nat, rest: string)
    requires k <= |ids| && (Awaits(r, r1, at, ids, k, rest) || Fetched(r, r1, ids))
    ensures var r2 := ProcessResponse(r1, r1.response);
            && (Awaits(r, r1, at, ids, k, rest) && r1.response != "." ==>
                  Awaits(r, r2, at, ids, k, rest) && r2.response == r1.response)
            && (Awaits(r, r1, at, ids, k, rest) && r1.response == "." ==> Finishes(r, r2, IdsOf, ids))
            && (Fetched(r, r1, ids) ==> Finishes(r, r2, IdsOf, ids))
  {
    hide NoBlank, Told, DoneIn, ProcessResponse, HasCrlf, Remaining;
    if Awaits(r, r1, at, ids, k, rest) {
      RemainingHasNoBlank(at, ids[k..], r1.response, rest);
    }
    NoBlankIsQuiet(r1.response);
    QuietLook(r1, IdsOf);
    assert ids[k..] == [] ==> ids[..k] == ids;
    assert Told(r.log, IdsOf) + ids + [] == Told(r.log, IdsOf) + ids;
  }

  /** One event under the closing delegate. */
  lemma {:induction false} FetcherTakes(
      r: Reader, at: Place, ids: seq<string>, batch: seq<string>, more: seq<seq<string>>)
    returns (k: nat, at': Place)
    requires Awaits(r, r, at, ids, 0, Join(batch) + Join(Flat(more))) && batch != []
    ensures k <= |ids|
    ensures var r' := Deliver(r, batch);
            var cuts := FetchCuts(r.response, batch, more);
            || (Strays(r, r', ids) && !cuts)
            || (Finishes(r, r', IdsOf, ids) && cuts)
            || (Awaits(r, r', at', ids, k, Join(Flat(more))) && r'.response != "."
                && cuts == FetchCuts(r'.response, [], more))
  {
    hide NoBlank, Lines, LastSplit, HasCrlf, Told, DoneIn, Remaining, ReadLoop, ProcessResponse, Notify, Join, Flat,
         Awaits, Fetched, Strays, Finishes, FetchCuts;
    AwaitsIsFetching(r, r, at, ids, 0, Join(batch) + Join(Flat(more)));
    k, at' := FetcherLoops(r, at, ids, batch, more);
    var (r1, left) := ReadLoop(r, batch);
    var r2 := ProcessResponse(r1, r1.response);
    assert Deliver(r, batch) == Deliver(r2, left);
    if Strays(r, r1, ids) && !FetchCuts(r.response, batch, more) {
      ProcessGrows(r1, r1.response);
      DeliverGrows(r2, left);
      StraysStay(r, r1, Deliver(r2, left), ids);
    } else {
      LooksAtLeftover(r, r1, at', ids, k, Join(Flat(more)));
      EventIsOver(r, r1, r2, at', ids, k, Join(Flat(more)), left);
      DotIsSeen(more);
    }
  }

  lemma {:induction false} DotIsSeen(batches: seq<seq<string>>)
    ensures FetchCuts(".", [], batches)
  {
  }

  lemma {:induction false} EventIsOver(
      r: Reader, r1: Reader, r2: Reader, at: Place, ids: seq<string>, k: nat, rest: string, left: seq<string>)
    requires k <= |ids|
    requires (Awaits(r, r1, at, ids, k, rest) && left == []) || Finishes(r, r2, IdsOf, ids)
    ensures Deliver(r2, left) == r2
  {
  }

  lemma {:induction false} FetcherRuns(r: Reader, at: Place, ids: seq<string>, batches: seq<seq<string>>)
    requires Awaits(r, r, at, ids, 0, Join(Flat(batches))) && r.response != "."
    ensures var r' := Exec(r, Arrivals(batches));
            && (FetchCuts(r.response, [], batches) ==> Finishes(r, r', IdsOf, ids))
            && (!FetchCuts(r.response, [], batches) ==> Strays(r, r', ids))
    decreases |batches|
  {
    hide HasCrlf, Told, DoneIn, Remaining, Deliver, Join, Finishes, LastSplit, StartsLine, DotSeen, Strays;
    assert ids[0..] == ids;
    if batches == [] {
      JoinNothing(r.response);
      HasNoneOnlyAtEnd(at, ids);
      assert false;
    } else {
      var batch, more := batches[0], batches[1..];
      var steps := Arrivals(batches);
      var r1 := Deliver(r, batch);
      assert steps[0] == Arrive(batch) && steps[1..] == Arrivals(more);
      if batch == [] {
        assert batch + Flat(more) == Flat(more);
        assert r1 == r by { EmptyBatch(r); }
        FetcherRuns(r, at, ids, more);
      } else {
        JoinConcat(batch, Flat(more));
        var k, at' := FetcherTakes(r, at, ids, batch, more);
        if Awaits(r, r1, at', ids, k, Join(Flat(more))) && r1.response != "."
           && FetchCuts(r.response, batch, more) == FetchCuts(r1.response, [], more) {
          StartOver(r1, at', ids[k..], Join(Flat(more)));
          FetcherRuns(r1, at', ids[k..], more);
          var r2 := Exec(r1, Arrivals(more));
          AwaitsThen(r, r1, r2, at', ids, k, 0, "");
          if Strays(r1, r2, ids[k..]) {
            StraysThen(r, r1, r2, ids, k);
          }
        } else if Finishes(r, r1, IdsOf, ids) && FetchCuts(r.response, batch, more) {
          FinishedIsClosed(r, r1, ids);
          NothingArrives(r1, more);
        } else {
          ArrivalsGrow(r1, more);
          StraysStay(r, r1, Exec(r1, Arrivals(more)), ids);
        }
      }
    }
  }

  /** The list command, exactly: for every way the block is cut into reads and these are batched
      into events, the command is told exactly the ids of the list, in order, if and only if until
      the dot is seen no read cuts a line. All ids are then told before the first "Done", it is told
      "Done" once, and it closes the reader. */
  lemma {:induction false} ListIsFetchedIff(r: Reader, ids: seq<string>, batches: seq<seq<string>>)
    requires Fetching(r) && r.response == "" && IdLines(ids) && Join(Flat(batches)) == Block(ids)
    ensures var r' := Exec(r, Arrivals(batches));
            && (FetchCuts("", [], batches) <==> Told(r'.log, IdsOf) == Told(r.log, IdsOf) + ids)
            && (FetchCuts("", [], batches) <==> Finishes(r, r', IdsOf, ids))
  {
    hide HasCrlf, Told, DoneIn, FetchCuts;
    assert r.response + Block(ids) == Block(ids);
    assert !HasCrlf("") by { DotLine(); }
    StartOver(r, AtLine, ids, Join(Flat(batches)));
    FetcherRuns(r, AtLine, ids, batches);
  }

  // ----- from the login -----

  function LoginLog(username: string, password: string, group: string,
                    hello: string, more: string, welcome: string, follows: string): seq<Event> {
    [Heard(hello), Sent(AuthUser(username)), Heard(more), Sent(AuthPass(password)),
     Heard(welcome), Notified(Connected), Sent(ListGroup(group)), Heard(follows)]
  }

  lemma {:induction false} LoginLists(
      username: string, password: string, group: string,
      hello: string, more: string, welcome: string, follows: string)
    requires S200 <= hello && S381 <= more && S281 <= welcome && S211_LIST <= follows
    ensures Exec(Fresh(username, password, ArticleIds(group)), LoginSteps(hello, more, welcome, follows)) ==
            Reader(true, true, true, Some(ListGroupArticles), NoCommand, "", "", "", username, password,
                   ArticleIds(group), LoginLog(username, password, group, hello, more, welcome, follows))
  {
    hide Take, Exec;
    var r := Fresh(username, password, ArticleIds(group));
    var r0 := r.(isOpen := true);
    var log := LoginLog(username, password, group, hello, more, welcome, follows);
    var r1 := r0.(log := log[..2]);
    var r2 := r0.(log := log[..4]);
    var r3 := r0.(connected := true, op := Some(ListGroupArticles), log := log[..7]);
    Greeted(r0, hello);
    Asked(r1, more);
    Welcomed(r2, welcome, group);
    Followed(r3, follows);
    assert [] + [Heard(hello), Sent(AuthUser(username))] == log[..2];
    assert log[..2] + [Heard(more), Sent(AuthPass(password))] == log[..4];
    assert log[..4] + [Heard(welcome), Notified(Connected), Sent(ListGroup(group))] == log[..7];
    assert log[..7] + [Heard(follows)] == log;
    Opened(r);
    FiveSteps(r, Open, Arrive([hello]), Arrive([more]), Arrive([welcome]), Arrive([follows]));
  }

  lemma {:induction false} Followed(r: Reader, follows: string)
    requires r.isOpen && !r.resultsComing && r.response == "" && S211_LIST <= follows
    ensures Take(r, Arrive([follows])) == r.(resultsComing := true, log := r.log + [Heard(follows)])
  {
    hide Take, ProcessResponse;
    StatusRead(r, follows);
    ListFollows(r.(response := follows), follows);
  }

  lemma {:induction false} ListFollows(r: Reader, follows: string)
    requires S211_LIST <= follows
    ensures ProcessResponse(r, follows) == Clear(Log(r, Heard(follows)).(resultsComing := true))
  {
    hide Notify, Clear, Send;
    StatusesDiffer(S211_LIST, S200, 1, follows);
    StatusesDiffer(S211_LIST, S381, 0, follows);
    StatusesDiffer(S211_LIST, S281, 1, follows);
    StatusesDiffer(S211_LIST, S502, 0, follows);
    StatusesDiffer(S211_LIST, S205, 1, follows);
    StatusesDiffer(S211_LIST, S215, 2, follows);
  }

  lemma {:induction false} Welcomed(r: Reader, welcome: string, group: string)
    requires r.isOpen && !r.resultsComing && r.response == "" && r.delegate == ArticleIds(group)
    requires S281 <= welcome
    ensures Take(r, Arrive([welcome])) ==
            r.(connected := true, op := Some(ListGroupArticles),
               log := r.log + [Heard(welcome), Notified(Connected), Sent(ListGroup(group))])
  {
    hide Take, Notify;
    StatusRead(r, welcome);
    StatusesDiffer(S281, S200, 1, welcome);
    StatusesDiffer(S281, S381, 0, welcome);
    WelcomeListens(Log(r.(response := welcome), Heard(welcome)).(connected := true), group);
    assert r.log + [Heard(welcome)] + [Notified(Connected)] + [Sent(ListGroup(group))]
        == r.log + [Heard(welcome), Notified(Connected), Sent(ListGroup(group))];
  }

  lemma {:induction false} WelcomeListens(r1: Reader, group: string)
    requires r1.isOpen && r1.connected && r1.delegate == ArticleIds(group)
    ensures Notify(r1, Connected) == r1.(op := Some(ListGroupArticles), response := "",
                                         log := r1.log + [Notified(Connected)] + [Sent(ListGroup(group))])
  {
    var r2 := Log(r1, Notified(Connected));
    var calls := [CallListArticles(group)];
    assert calls[1..] == [];
    assert PerformAll(r2, calls) == PerformAll(Perform(r2, calls[0]), []) == Perform(r2, calls[0]);
  }

  /** From a new reader: log in, ask for the list, receive it in any reads that cut no line until
      the dot is seen. The command is told exactly the ids of the list and then "Done", once. */
  lemma {:induction false} FetchSession(
      username: string, password: string, group: string,
      hello: string, more: string, welcome: string, follows: string,
      ids: seq<string>, batches: seq<seq<string>>)
    requires S200 <= hello && S381 <= more && S281 <= welcome && S211_LIST <= follows
    requires IdLines(ids) && Join(Flat(batches)) == Block(ids) && FetchCuts("", [], batches)
    ensures var r := Exec(Fresh(username, password, ArticleIds(group)),
                          LoginSteps(hello, more, welcome, follows) + Arrivals(batches));
            !r.isOpen && Told(r.log, IdsOf) == ids && DoneIn(r.log) == 1 && DoneLast(r.log)
  {
    hide Exec, LoginLog;
    LoginLists(username, password, group, hello, more, welcome, follows);
    var r := Exec(Fresh(username, password, ArticleIds(group)), LoginSteps(hello, more, welcome, follows));
    ExecConcat(Fresh(username, password, ArticleIds(group)), LoginSteps(hello, more, welcome, follows),
               Arrivals(batches));
    ListIsFetchedIff(r, ids, batches);
    LoginReportsNothing(username, password, group, hello, more, welcome, follows);
    assert [] + ids == ids;
  }

  lemma {:induction false} LoginReportsNothing(
      username: string, password: string, group: string,
      hello: string, more: string, welcome: string, follows: string)
    ensures var log := LoginLog(username, password, group, hello, more, welcome, follows);
            Told(log, IdsOf) == [] && DoneIn(log) == 0
  {
    NothingReported(LoginLog(username, password, group, hello, more, welcome, follows));
  }

  lemma {:induction false} NothingReported(log: seq<Event>)
    requires forall e | e in log :: !e.GotIds? && e != Notified(Finished)
    ensures Told(log, IdsOf) == [] && DoneIn(log) == 0
  {
    if log != [] {
      NothingReported(log[..|log|-1]);
    }
  }
}
