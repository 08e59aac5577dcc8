/** The header loop: one HEAD at a time, each sent from the callback for the one before. */
module NewsHeads {
  import opened Wrappers
  import opened NewsText
  import opened NewsModel
  import opened NewsStream

  // ----- what happens, apart from looks at the buffer -----

  function MoveOf(e: Event): seq<Event> {
    if e.Heard? then [] else [e]
  }

  /** Everything sent and reported, in order. */
  function Moves(log: seq<Event>): seq<Event> {
    if log == [] then [] else Moves(log[..|log|-1]) + MoveOf(log[|log|-1])
  }

  lemma {:induction false} MovesSnoc(log: seq<Event>, e: Event)
    ensures Moves(log + [e]) == Moves(log) + MoveOf(e)
  {
    assert (log + [e])[..|log|] == log;
  }

  /** After one header: it is reported for the article asked for, and the next is asked for. */
  function Round(ids: seq<string>, k: nat, text: string): seq<Event>
    requires k < |ids|
  {
    [GotHeader(ids[k], HeaderMap(text)), Notified(NextArticle)]
    + (if k + 1 < |ids| then [Sent(Head(ids[k + 1]))] else [])
  }

  /** All rounds: one for each read, until every article has been asked for. */
  function Rounds(ids: seq<string>, k: nat, carry: string, chunks: seq<string>): seq<Event>
    decreases |chunks|
  {
    if chunks == [] || k >= |ids| then []
    else
      var (p, q) := LastSplit(carry + chunks[0]);
      Round(ids, k, p) + Rounds(ids, k + 1, q, chunks[1..])
  }

  lemma {:induction false} RoundsConcat(ids: seq<string>, k: nat, carry: string, a: seq<string>, b: seq<string>)
    requires k + |a| <= |ids|
    ensures Rounds(ids, k, carry, a + b) == Rounds(ids, k, carry, a) + Rounds(ids, k + |a|, Carry(carry, a), b)
    decreases |a|
  {
    hide LastSplit, Round;
    if a == [] {
      assert a + b == b;
    } else {
      assert (a + b)[0] == a[0] && (a + b)[1..] == a[1..] + b;
      RoundsConcat(ids, k + 1, LastSplit(carry + a[0]).1, a[1..], b);
    }
  }

  // ----- the loop -----

  /** `k` headers have been reported and the next one has been asked for. */
  predicate Asking(r: Reader, group: string, ids: seq<string>, k: nat) {
    && r.isOpen && r.connected && r.resultsComing && r.op == Some(ArticleHeader)
    && k < |ids| && r.articleId == ids[k] && r.delegate == HeadLoop(Some(group), ids, k + 1)
  }

  /** All headers have been reported and the reader is closed. */
  predicate AllAsked(r: Reader, ids: seq<string>, k: nat) {
    !r.isOpen && k == |ids|
  }

  lemma {:induction false} NextIsAsked(r: Reader, group: string, ids: seq<string>, k: nat)
    requires Asking(r, group, ids, k)
    ensures var r' := Notify(r, NextArticle);
            && r'.response == r.response && r'.op == r.op
            && (k + 1 < |ids| ==>
                  && Asking(r', group, ids, k + 1)
                  && r'.log == r.log + [Notified(NextArticle)] + [Sent(Head(ids[k + 1]))])
            && (k + 1 == |ids| ==> AllAsked(r', ids, k + 1) && r'.log == r.log + [Notified(NextArticle)])
  {
    var r1 := Log(r, Notified(NextArticle));
    if k + 1 < |ids| {
      var calls := [CallHeader(group, ids[k + 1])];
      var r2 := r1.(delegate := HeadLoop(Some(group), ids, k + 2));
      assert calls[1..] == [];
      assert PerformAll(r2, calls) == PerformAll(Perform(r2, calls[0]), []);
    } else {
      assert [CallClose][1..] == [];
      assert PerformAll(r1, [CallClose]) == PerformAll(Perform(r1, CallClose), []);
    }
  }

  /** One read is one round, whatever it holds. */
  lemma {:induction false} ReadIsRound(r: Reader, group: string, ids: seq<string>, k: nat)
    requires Asking(r, group, ids, k)
    ensures var (p, q) := LastSplit(r.response);
            var r' := TakeBuffer(r);
            && r'.response == q && Moves(r'.log) == Moves(r.log) + Round(ids, k, p)
            && (if k + 1 < |ids| then Asking(r', group, ids, k + 1) else AllAsked(r', ids, k + 1))
  {
    hide Notify, Lines, LastSplit, HeaderMap, Moves;
    var (p, q) := LastSplit(r.response);
    var got := GotHeader(ids[k], HeaderMap(p));
    var r1 := Log(r.(response := q), got);
    NextIsAsked(r1, group, ids, k);
    MovesSnoc(r.log, got);
    MovesSnoc(r1.log, Notified(NextArticle));
    var log2 := r1.log + [Notified(NextArticle)];
    if k + 1 < |ids| {
      MovesSnoc(log2, Sent(Head(ids[k + 1])));
      assert Moves(r.log) + [got] + [Notified(NextArticle)] + [Sent(Head(ids[k + 1]))]
          == Moves(r.log) + Round(ids, k, p);
    } else {
      assert Moves(r.log) + [got] + [Notified(NextArticle)] == Moves(r.log) + Round(ids, k, p);
    }
  }

  /** The reads that the loop gets to. */
  function Reached(ids: seq<string>, k: nat, chunks: seq<string>): seq<string>
    requires k <= |ids|
  {
    Upto(chunks, |ids| - k)
  }

  /** The first `n` reads, or all. */
  function Upto(chunks: seq<string>, n: nat): seq<string> {
    if |chunks| <= n then chunks else chunks[..n]
  }

  lemma {:induction false} ReachedNext(ids: seq<string>, k: nat, chunks: seq<string>)
    requires k < |ids| && chunks != []
    ensures var reached := Reached(ids, k, chunks);
            reached != [] && reached[0] == chunks[0] && reached[1..] == Reached(ids, k + 1, chunks[1..])
  {
    var reached := Reached(ids, k, chunks);
    assert reached[1..] == Reached(ids, k + 1, chunks[1..]);
  }

  /** The reads of one event. */
  lemma {:induction false} LoopIsRounds(r: Reader, group: string, ids: seq<string>, k: nat, chunks: seq<string>)
    requires Asking(r, group, ids, k)
    ensures var r' := ReadLoop(r, chunks).0;
            var reached := Reached(ids, k, chunks);
            && Moves(r'.log) == Moves(r.log) + Rounds(ids, k, r.response, reached)
            && r'.response == Carry(r.response, reached)
            && (if k + |chunks| < |ids| then Asking(r', group, ids, k + |chunks|) && ReadLoop(r, chunks).1 == []
                else AllAsked(r', ids, k + |reached|))
    decreases |chunks|
  {
    hide TakeBuffer, LastSplit, Moves, Round, Reached;
    if chunks == [] {
      assert Reached(ids, k, chunks) == [] by { ReachedNothing(ids, k); }
      assert Moves(r.log) + [] == Moves(r.log);
    } else {
      var r1 := r.(response := r.response + chunks[0]);
      var r2 := TakeBuffer(r1);
      ReadIsRound(r1, group, ids, k);
      ReachedNext(ids, k, chunks);
      if k + 1 < |ids| {
        LoopIsRounds(r2, group, ids, k + 1, chunks[1..]);
      } else {
        ReachedNone(ids, chunks[1..]);
        assert ReadLoop(r, chunks) == ReadLoop(r2, chunks[1..]) == (r2, chunks[1..]);
      }
    }
  }

  lemma {:induction false} ReachedNothing(ids: seq<string>, k: nat)
    requires k <= |ids|
    ensures Reached(ids, k, []) == []
  {
  }

  lemma {:induction false} ReachedNone(ids: seq<string>, chunks: seq<string>)
    ensures Reached(ids, |ids|, chunks) == []
  {
  }

  // ----- whole runs -----

  /** A leftover that no look at the buffer acts on. */
  predicate Inert(s: string) {
    Quiet(s) && s != "."
  }

  /** Every event leaves over a text that is not acted on. */
  predicate InertLeftovers(ids: seq<string>, k: nat, carry: string, batches: seq<seq<string>>)
    requires k <= |ids|
    decreases |batches|
  {
    batches != [] && k < |ids| ==>
      var reached := Reached(ids, k, batches[0]);
      && (batches[0] == [] || Inert(Carry(carry, reached)))
      && InertLeftovers(ids, k + |reached|, Carry(carry, reached), batches[1..])
  }

  lemma {:induction false} InertLook(r: Reader, s: string)
    requires Inert(s)
    ensures ProcessResponse(r, s) == Log(r, Heard(s)) && Moves(Log(r, Heard(s)).log) == Moves(r.log)
  {
    hide Quiet;
    QuietProcess(r, s);
    MovesSnoc(r.log, Heard(s));
    assert Moves(r.log) + [] == Moves(r.log);
  }

  lemma {:induction false} EventIsRounds(r: Reader, group: string, ids: seq<string>, k: nat, batch: seq<string>)
    requires Asking(r, group, ids, k) && batch != []
    requires Inert(Carry(r.response, Reached(ids, k, batch)))
    ensures var r' := Deliver(r, batch);
            var reached := Reached(ids, k, batch);
            && Moves(r'.log) == Moves(r.log) + Rounds(ids, k, r.response, reached)
            && r'.response == Carry(r.response, reached)
            && (if k + |batch| < |ids| then Asking(r', group, ids, k + |batch|) else AllAsked(r', ids, k + |reached|))
  {
    hide ReadLoop, ProcessResponse, Inert, Rounds, Carry, Reached;
    LoopIsRounds(r, group, ids, k, batch);
    var (r1, left) := ReadLoop(r, batch);
    InertLook(r1, r1.response);
    var r2 := Log(r1, Heard(r1.response));
    assert Deliver(r, batch) == Deliver(r2, left);
    assert !r2.isOpen || left == [];
    assert Deliver(r2, left) == r2;
  }

  lemma {:induction false} RunIsRounds(r: Reader, group: string, ids: seq<string>, k: nat, batches: seq<seq<string>>)
    requires Asking(r, group, ids, k) && InertLeftovers(ids, k, r.response, batches)
    ensures var r' := Exec(r, Arrivals(batches));
            && Moves(r'.log) == Moves(r.log) + Rounds(ids, k, r.response, Flat(batches))
            && (r'.isOpen <==> k + |Flat(batches)| < |ids|)
    decreases |batches|
  {
    hide Deliver, Moves, Rounds, Carry, Inert, Reached;
    if batches == [] {
      NoRounds(ids, k, r.response, []);
      assert Moves(r.log) + [] == Moves(r.log);
    } else {
      var batch, more := batches[0], batches[1..];
      var steps := Arrivals(batches);
      assert steps[0] == Arrive(batch) && steps[1..] == Arrivals(more);
      if batch == [] {
        EmptyBatch(r);
        ReachedNothing(ids, k);
        assert batch + Flat(more) == Flat(more);
        RunIsRounds(r, group, ids, k, more);
      } else {
        var reached := Reached(ids, k, batch);
        EventIsRounds(r, group, ids, k, batch);
        var r1 := Deliver(r, batch);
        ReachedSplit(ids, k, batch);
        if k + |batch| < |ids| {
          RunIsRounds(r1, group, ids, k + |batch|, more);
          RoundsConcat(ids, k, r.response, batch, Flat(more));
        } else {
          NothingArrives(r1, more);
          var rest := batch[|reached|..] + Flat(more);
          assert Flat(batches) == reached + rest;
          RoundsConcat(ids, k, r.response, reached, rest);
          NoRounds(ids, |ids|, Carry(r.response, reached), rest);
          assert Rounds(ids, k, r.response, reached) + [] == Rounds(ids, k, r.response, reached);
        }
      }
    }
  }

  lemma {:induction false} NoRounds(ids: seq<string>, k: nat, carry: string, chunks: seq<string>)
    requires chunks == [] || k >= |ids|
    ensures Rounds(ids, k, carry, chunks) == []
  {
  }

  lemma {:induction false} ReachedSplit(ids: seq<string>, k: nat, chunks: seq<string>)
    requires k <= |ids|
    ensures var reached := Reached(ids, k, chunks);
            && k + |reached| <= |ids| && |reached| <= |chunks| && chunks == reached + chunks[|reached|..]
            && (k + |chunks| <= |ids| ==> reached == chunks)
            && (k + |chunks| >= |ids| ==> k + |reached| == |ids|)
  {
  }

  // ----- what the rounds are -----

  /** The ids that header callbacks carry, in order. */
  function Reported(moves: seq<Event>): seq<string> {
    if moves == [] then []
    else (if moves[0].GotHeader? then [moves[0].id] else []) + Reported(moves[1..])
  }

  /** The ids that HEAD was sent for, in order. */
  function Requested(moves: seq<Event>): seq<string> {
    if moves == [] then []
    else (if moves[0].Sent? && moves[0].cmd.Head? then [moves[0].cmd.id] else []) + Requested(moves[1..])
  }

  /** Whatever is read: the n-th header callback carries the n-th id, and HEAD goes out for the
      ids in list order, each exactly once. */
  lemma {:induction false} RoundsGoInOrder(ids: seq<string>, k: nat, carry: string, chunks: seq<string>)
    requires k <= |ids|
    ensures var n := if k + |chunks| < |ids| then k + |chunks| else |ids|;
            && Reported(Rounds(ids, k, carry, chunks)) == ids[k..n]
            && (k < |ids| ==> Requested(Rounds(ids, k, carry, chunks)) == ids[k + 1..if n < |ids| then n + 1 else n])
    decreases |chunks|
  {
    hide LastSplit, Round, Reported, Requested, Rounds;
    NothingMoves();
    if chunks != [] && k < |ids| {
      var (p, q) := LastSplit(carry + chunks[0]);
      var more := Rounds(ids, k + 1, q, chunks[1..]);
      FirstRound(ids, k, carry, chunks);
      if k + 1 == |ids| {
        NoRounds(ids, k + 1, q, chunks[1..]);
      }
      RoundsGoInOrder(ids, k + 1, q, chunks[1..]);
      RoundReports(ids, k, p, more);
      FirstOfThem(ids, k, if k + |chunks| < |ids| then k + |chunks| else |ids|);
    } else {
      NoRounds(ids, k, carry, chunks);
    }
  }

  lemma {:induction false} FirstRound(ids: seq<string>, k: nat, carry: string, chunks: seq<string>)
    requires chunks != [] && k < |ids|
    ensures var (p, q) := LastSplit(carry + chunks[0]);
            Rounds(ids, k, carry, chunks) == Round(ids, k, p) + Rounds(ids, k + 1, q, chunks[1..])
  {
  }

  lemma {:induction false} NothingMoves()
    ensures Reported([]) == [] && Requested([]) == []
  {
  }

  lemma {:induction false} FirstOfThem(ids: seq<string>, k: nat, n: nat)
    requires k < n <= |ids|
    ensures [ids[k]] + ids[k + 1..n] == ids[k..n]
    ensures k + 1 < |ids| ==> [ids[k + 1]] + ids[k + 2..if n < |ids| then n + 1 else n]
                              == ids[k + 1..if n < |ids| then n + 1 else n]
  {
  }

  lemma {:induction false} RoundReports(ids: seq<string>, k: nat, p: string, more: seq<Event>)
    requires k < |ids|
    ensures Reported(Round(ids, k, p) + more) == [ids[k]] + Reported(more)
    ensures Requested(Round(ids, k, p) + more)
         == (if k + 1 < |ids| then [ids[k + 1]] else []) + Requested(more)
  {
    var moves := Round(ids, k, p) + more;
    var tail := moves[1..][1..];
    assert moves[0] == GotHeader(ids[k], HeaderMap(p)) && moves[1..][0] == Notified(NextArticle);
    assert Reported(moves) == [ids[k]] + Reported(tail) && Requested(moves) == Requested(tail);
    if k + 1 < |ids| {
      assert tail[0] == Sent(Head(ids[k + 1])) && tail[1..] == more;
    } else {
      assert tail == more;
    }
  }

  /** Complete responses, each in a read of its own. */
  function OneReadEach(texts: seq<string>): seq<string> {
    if texts == [] then [] else [texts[0] + CRLF] + OneReadEach(texts[1..])
  }

  function Answers(ids: seq<string>, k: nat, texts: seq<string>): seq<Event>
    requires k + |texts| <= |ids|
    decreases |texts|
  {
    if texts == [] then [] else Round(ids, k, texts[0]) + Answers(ids, k + 1, texts[1..])
  }

  /** With one read for each response every header map is made of the response to the HEAD for
      the article it is reported for. */
  lemma {:induction false} MapsAreAttributed(ids: seq<string>, k: nat, texts: seq<string>)
    requires k + |texts| == |ids|
    ensures Rounds(ids, k, "", OneReadEach(texts)) == Answers(ids, k, texts)
    decreases |texts|
  {
    hide Round;
    if texts != [] {
      var chunks := OneReadEach(texts);
      assert !HasCrlf("");
      SplitUnique(texts[0], "");
      assert "" + chunks[0] == texts[0] + CRLF + "" && chunks[1..] == OneReadEach(texts[1..]);
      MapsAreAttributed(ids, k + 1, texts[1..]);
    }
  }

  // ----- which reads attribute the maps correctly -----

  /** The text that each read's map is made of. */
  function RoundTexts(carry: string, chunks: seq<string>): seq<string>
    decreases |chunks|
  {
    if chunks == [] then []
    else
      var (p, q) := LastSplit(carry + chunks[0]);
      [p] + RoundTexts(q, chunks[1..])
  }

  /** The reads correspond to the responses: each read brings the last line end of its response
      and no line end after it; the start of the next response may come along. For the last
      response a read of exactly its one line will do, with the line end still to come. */
  predicate OnePerResponse(carry: string, chunks: seq<string>, texts: seq<string>)
    decreases |chunks|
  {
    texts == [] ||
    (chunks != [] &&
     var buffer, n := carry + chunks[0], |texts[0]| + 2;
     || (n <= |buffer| && !HasCrlf(buffer[n..]) && OnePerResponse(buffer[n..], chunks[1..], texts[1..]))
     || (|texts| == 1 && buffer == texts[0] && !HasCrlf(buffer)))
  }

  /** Section 3.2 of RFC 3977: a response begins with the digits of its code. */
  predicate Responses(texts: seq<string>) {
    forall i | 0 <= i < |texts| :: texts[i] != "" && '0' <= texts[i][0] <= '9'
  }

  lemma {:induction false} RoundsAreAnswers(ids: seq<string>, k: nat, carry: string, chunks: seq<string>)
    requires k <= |ids|
    ensures |RoundTexts(carry, Reached(ids, k, chunks))| == |Reached(ids, k, chunks)|
    ensures k + |Reached(ids, k, chunks)| <= |ids|
    ensures Rounds(ids, k, carry, chunks) == Answers(ids, k, RoundTexts(carry, Reached(ids, k, chunks)))
    decreases |chunks|
  {
    hide LastSplit, Round, Reached;
    if chunks == [] {
      ReachedNothing(ids, k);
    } else if k == |ids| {
      ReachedNone(ids, chunks);
    } else {
      var (p, q) := LastSplit(carry + chunks[0]);
      ReachedNext(ids, k, chunks);
      RoundsAreAnswers(ids, k + 1, q, chunks[1..]);
      var texts := RoundTexts(q, Reached(ids, k + 1, chunks[1..]));
      assert ([p] + texts)[1..] == texts;
    }
  }

  lemma {:induction false} FirstText(carry: string, chunks: seq<string>, texts: seq<string>)
    requires chunks != [] && texts != []
    ensures var (p, q) := LastSplit(carry + chunks[0]);
            RoundTexts(carry, chunks) == texts <==> p == texts[0] && RoundTexts(q, chunks[1..]) == texts[1..]
  {
    hide LastSplit;
    var (p, q) := LastSplit(carry + chunks[0]);
    var more := RoundTexts(q, chunks[1..]);
    assert ([p] + more)[0] == p && ([p] + more)[1..] == more;
    assert texts == [texts[0]] + texts[1..];
  }

  /** A response whose line end comes with the next read: the map after it does not start with a
      response code. */
  lemma {:induction false} LateLineEnd(more: seq<string>, rest: string, texts: seq<string>)
    requires Responses(texts) && texts != [] && Join(more) == CRLF + rest
    ensures RoundTexts("", Upto(more, |texts|)) != texts
  {
    assert |CRLF + rest| >= 2 && (CRLF + rest)[0] == '\r';
    if more == [] {
      assert false;
    } else {
      var p := LastSplit("" + more[0]).0;
      assert p != "" ==> p[0] == ("" + more[0])[0] == Join(more)[0];
      assert RoundTexts("", Upto(more, |texts|))[0] == p && texts[0] != p;
    }
  }

  lemma {:induction false} UptoNext(chunks: seq<string>, n: nat)
    requires chunks != [] && n > 0
    ensures var first := Upto(chunks, n);
            first != [] && first[0] == chunks[0] && first[1..] == Upto(chunks[1..], n - 1)
  {
    assert Upto(chunks, n)[1..] == Upto(chunks[1..], n - 1);
  }

  lemma {:induction false} LaterResponses(texts: seq<string>)
    requires Responses(texts) && texts != []
    ensures Responses(texts[1..])
  {
    forall i | 0 <= i < |texts[1..]| ensures texts[1..][i] == texts[i + 1] {}
  }

  /** For every way to cut the responses into any number of reads: the first reads, as many as
      there are responses, each show the response to the HEAD that the map is reported for, if and
      only if the reads correspond to the responses. */
  lemma {:induction false} AttributedIff(carry: string, chunks: seq<string>, texts: seq<string>)
    requires carry + Join(chunks) == Join(OneReadEach(texts)) && Responses(texts)
    ensures RoundTexts(carry, Upto(chunks, |texts|)) == texts <==> OnePerResponse(carry, chunks, texts)
    decreases |chunks|
  {
    hide LastSplit, HasCrlf, Upto;
    if chunks == [] || texts == [] {
      NoFirst(carry, chunks, texts);
    } else {
      var buffer, more := carry + chunks[0], chunks[1..];
      var need, rest := texts[0] + CRLF, Join(OneReadEach(texts[1..]));
      var (p, q) := LastSplit(buffer);
      assert carry + Join(chunks) == buffer + Join(more);
      assert Join(OneReadEach(texts)) == need + rest;
      UptoNext(chunks, |texts|);
      FirstText(carry, Upto(chunks, |texts|), texts);
      LaterResponses(texts);
      if |need| <= |buffer| && !HasCrlf(buffer[|need|..]) {
        RightRead(buffer, texts[0], Join(more), rest);
        AttributedIff(q, more, texts[1..]);
      } else {
        WrongRead(buffer, texts[0], Join(more), rest);
        if |texts| == 1 {
          NoFirst(q, more, texts[1..]);
        } else if p == texts[0] {
          LateLineEnd(more, rest, texts[1..]);
        }
      }
    }
  }

  lemma {:induction false} NoFirst(carry: string, chunks: seq<string>, texts: seq<string>)
    requires chunks == [] || texts == []
    ensures RoundTexts(carry, Upto(chunks, |texts|)) == []
  {
  }

  /** A read that does not correspond to its response shows its text only when it lacks the line
      end, and no other. */
  lemma {:induction false} WrongRead(buffer: string, text: string, later: string, rest: string)
    requires buffer + later == text + CRLF + rest
    requires |text| + 2 <= |buffer| ==> HasCrlf(buffer[|text| + 2..])
    ensures LastSplit(buffer).0 == text <==> buffer == text && !HasCrlf(buffer)
    ensures buffer == text ==> later == CRLF + rest
  {
    hide HasCrlf;
    var (p, q) := LastSplit(buffer);
    DropRead(text, q);
    if buffer == text {
      assert later == (buffer + later)[|buffer|..] == CRLF + rest;
    }
  }

  lemma {:induction false} DropRead(text: string, q: string)
    ensures (text + CRLF + q)[|text| + 2..] == q
  {
  }

  /** A read that holds its response: what is over, and what follows it. */
  lemma {:induction false} RightRead(buffer: string, text: string, later: string, rest: string)
    requires buffer + later == text + CRLF + rest && |text| + 2 <= |buffer|
    requires !HasCrlf(buffer[|text| + 2..])
    ensures LastSplit(buffer) == (text, buffer[|text| + 2..]) && buffer[|text| + 2..] + later == rest
    ensures HasCrlf(buffer)
  {
    hide HasCrlf;
    var n := |text| + 2;
    var b := buffer[n..];
    assert buffer == text + CRLF + b by { assert buffer[..n] == (buffer + later)[..n]; }
    assert b + later == rest by { assert b + later == (buffer + later)[n..]; }
    SplitUnique(text, b);
  }

  lemma {:induction false} OneReadEachMeets(texts: seq<string>)
    ensures OnePerResponse("", OneReadEach(texts), texts)
  {
    if texts != [] {
      var chunks := OneReadEach(texts);
      assert "" + chunks[0] == texts[0] + CRLF && (texts[0] + CRLF)[|texts[0]| + 2..] == "";
      assert chunks[1..] == OneReadEach(texts[1..]);
      OneReadEachMeets(texts[1..]);
    }
  }

  /** The responses to HEAD that the reader knows: section 6.2.2 of RFC 3977. */
  predicate HeadResponses(texts: seq<string>) {
    forall i | 0 <= i < |texts| :: HEAD_FOLLOWS <= texts[i] || NO_SUCH <= texts[i]
  }

  /** The start of such a response is not acted on when it is left over. */
  lemma {:induction false} StartIsInert(c: string, t: string, texts: seq<string>)
    requires HeadResponses(texts) && c + t == Join(OneReadEach(texts))
    ensures Inert(c)
  {
    if texts != [] {
      var all := Join(OneReadEach(texts));
      assert HEAD_FOLLOWS <= texts[0] || NO_SUCH <= texts[0];
      assert all[0] == texts[0][0] && all[1] == texts[0][1];
      assert |c| >= 1 ==> c[0] == all[0];
      assert |c| >= 2 ==> c[1] == all[1];
    }
  }

  lemma {:induction false} AfterReads(carry: string, chunks: seq<string>, texts: seq<string>, j: nat)
    requires OnePerResponse(carry, chunks, texts) && j <= |chunks| && j <= |texts|
    requires carry + Join(chunks) == Join(OneReadEach(texts))
    ensures |chunks| >= |texts|
    ensures var c := Carry(carry, chunks[..j]);
            && (j == |texts| ==> c == "")
            && (j < |texts| ==>
                  OnePerResponse(c, chunks[j..], texts[j..]) && c + Join(chunks[j..]) == Join(OneReadEach(texts[j..])))
    decreases |chunks|
  {
    hide LastSplit, HasCrlf, Join, OneReadEach, OnePerResponse, Carry;
    NoReadYet(carry);
    if texts == [] {
      NothingAsked(carry, chunks);
      assert chunks[..j] == [];
    } else {
      var b, last := AfterRead(carry, chunks, texts);
      var more := chunks[1..];
      if j == 0 {
        assert chunks[..0] == [] && chunks[0..] == chunks && texts[0..] == texts;
        if !last {
          AfterReads(b, more, texts[1..], 0);
        }
      } else {
        CarryNext(carry, chunks[..j]);
        assert chunks[..j][1..] == more[..j - 1];
        if last {
          assert more[..j - 1] == [];
          NoReadYet(b);
        } else {
          AfterReads(b, more, texts[1..], j - 1);
          assert more[j - 1..] == chunks[j..] && texts[1..][j - 1..] == texts[j..];
        }
      }
    }
  }

  lemma {:induction false} NoReadYet(carry: string)
    ensures Carry(carry, []) == carry
  {
  }

  lemma {:induction false} NothingAsked(carry: string, chunks: seq<string>)
    requires carry + Join(chunks) == Join(OneReadEach([]))
    ensures carry == ""
  {
    assert |carry + Join(chunks)| == |carry| + |Join(chunks)|;
  }

  lemma {:induction false} CarryNext(carry: string, chunks: seq<string>)
    requires chunks != []
    ensures Carry(carry, chunks) == Carry(LastSplit(carry + chunks[0]).1, chunks[1..])
  {
  }

  /** One read on; `last` when it brings the last response without its line end. */
  lemma {:induction false} AfterRead(carry: string, chunks: seq<string>, texts: seq<string>)
    returns (b: string, last: bool)
    requires OnePerResponse(carry, chunks, texts) && texts != []
    requires carry + Join(chunks) == Join(OneReadEach(texts))
    ensures chunks != [] && b == LastSplit(carry + chunks[0]).1
    ensures last ==> |texts| == 1 && b == ""
    ensures !last ==>
              OnePerResponse(b, chunks[1..], texts[1..]) && b + Join(chunks[1..]) == Join(OneReadEach(texts[1..]))
  {
    hide LastSplit, HasCrlf;
    var buffer, later, rest := carry + chunks[0], Join(chunks[1..]), Join(OneReadEach(texts[1..]));
    var n := |texts[0]| + 2;
    assert carry + Join(chunks) == buffer + later;
    assert Join(OneReadEach(texts)) == texts[0] + CRLF + rest;
    b := LastSplit(buffer).1;
    last := !(n <= |buffer| && !HasCrlf(buffer[n..]) && OnePerResponse(buffer[n..], chunks[1..], texts[1..]));
    if !last {
      RightRead(buffer, texts[0], later, rest);
    }
  }

  /** Reads that correspond to the responses leave over nothing that is acted on, in any events. */
  lemma {:induction false} MeetingIsInert(
      ids: seq<string>, k: nat, carry: string, texts: seq<string>, batches: seq<seq<string>>)
    requires k + |texts| == |ids| && HeadResponses(texts) && OnePerResponse(carry, Flat(batches), texts)
    requires carry + Join(Flat(batches)) == Join(OneReadEach(texts))
    ensures InertLeftovers(ids, k, carry, batches)
    decreases |batches|
  {
    hide Inert, Carry, OnePerResponse, OneReadEach, Join;
    if batches != [] && k < |ids| {
      var chunks, batch, more := Flat(batches), batches[0], batches[1..];
      var reached := Reached(ids, k, batch);
      var j := |reached|;
      assert chunks[..j] == reached;
      AfterReads(carry, chunks, texts, j);
      if j == |texts| {
        assert Inert("") by { NothingIsInert(); }
      } else {
        assert reached == batch && chunks[j..] == Flat(more);
        var rest := texts[j..];
        assert HeadResponses(rest) by {
          forall i | 0 <= i < |rest| ensures rest[i] == texts[j + i] {}
        }
        StartIsInert(Carry(carry, batch), Join(Flat(more)), rest);
        MeetingIsInert(ids, k + j, Carry(carry, batch), rest, more);
      }
    }
  }

  lemma {:induction false} NothingIsInert()
    ensures Inert("")
  {
  }

  lemma {:induction false} WholeResponsesLeaveNothing(texts: seq<string>, j: nat)
    requires j <= |texts|
    ensures |OneReadEach(texts)| == |texts| && Carry("", OneReadEach(texts)[..j]) == ""
    decreases |texts|
  {
    if texts == [] {
    } else if j == 0 {
      WholeResponsesLeaveNothing(texts[1..], 0);
    } else {
      var chunks := OneReadEach(texts);
      assert !HasCrlf("");
      SplitUnique(texts[0], "");
      assert "" + chunks[0] == texts[0] + CRLF + "";
      WholeResponsesLeaveNothing(texts[1..], j - 1);
      assert chunks[..j][0] == chunks[0] && chunks[..j][1..] == OneReadEach(texts[1..])[..j-1];
    }
  }

  lemma {:induction false} WholeResponsesAreInert(
      ids: seq<string>, k: nat, texts: seq<string>, batches: seq<seq<string>>)
    requires k + |texts| == |ids| && Flat(batches) == OneReadEach(texts)
    ensures InertLeftovers(ids, k, "", batches)
    decreases |batches|
  {
    if batches != [] && k < |ids| {
      var batch, more := batches[0], batches[1..];
      WholeResponsesLeaveNothing(texts, 0);
      assert |batch| <= |texts|;
      WholeResponsesLeaveNothing(texts, |batch|);
      assert batch == OneReadEach(texts)[..|batch|];
      assert Reached(ids, k, batch) == batch;
      DropResponses(texts, |batch|);
      assert Flat(more) == OneReadEach(texts)[|batch|..];
      WholeResponsesAreInert(ids, k + |batch|, texts[|batch|..], more);
    }
  }

  lemma {:induction false} DropResponses(texts: seq<string>, j: nat)
    requires j <= |texts| && |OneReadEach(texts)| == |texts|
    ensures OneReadEach(texts)[j..] == OneReadEach(texts[j..])
    decreases j
  {
    if j == 0 {
      assert texts[0..] == texts;
    } else {
      WholeResponsesLeaveNothing(texts[1..], 0);
      DropResponses(texts[1..], j - 1);
      assert OneReadEach(texts)[j..] == OneReadEach(texts[1..])[j-1..];
      assert texts[1..][j-1..] == texts[j..];
    }
  }

  // ----- from the login -----

  /** Everything sent and told up to the first HEAD. */
  function Prelude(username: string, password: string, group: string, id: string): seq<Event> {
    [Sent(AuthUser(username)), Sent(AuthPass(password)), Notified(Connected), Sent(Group(group)), Sent(Head(id))]
  }

  lemma {:induction false} FirstHead(
      username: string, password: string, group: string, ids: seq<string>,
      hello: string, more: string, welcome: string, selected: string)
    requires ids != []
    requires S200 <= hello && S381 <= more && S281 <= welcome && S211 <= selected && !(S211_LIST <= selected)
    ensures var r := Exec(Fresh(username, password, HeadLoop(Some(group), ids, 0)),
                          LoginSteps(hello, more, welcome, selected));
            Asking(r, group, ids, 0) && r.response == "" && Moves(r.log) == Prelude(username, password, group, ids[0])
  {
    hide Take, Exec, Moves;
    var r := Fresh(username, password, HeadLoop(Some(group), ids, 0));
    var r0 := r.(isOpen := true);
    Opened(r);
    Greeted(r0, hello);
    var r1 := Take(r0, Arrive([hello]));
    Asked(r1, more);
    var r2 := Take(r1, Arrive([more]));
    GroupIsSelected(r2, group, ids, welcome);
    var r3 := Take(r2, Arrive([welcome]));
    HeadIsSent(r3, group, ids, selected);
    FiveSteps(r, Open, Arrive([hello]), Arrive([more]), Arrive([welcome]), Arrive([selected]));
    var r4 := Take(r3, Arrive([selected]));
    var e0, e1, e2 := Sent(AuthUser(username)), Sent(AuthPass(password)), Notified(Connected);
    var e3, e4 := Sent(Group(group)), Sent(Head(ids[0]));
    PairMoves([], hello, e0);
    PairMoves(r1.log, more, e1);
    PairMoves(r2.log, welcome, e2);
    MovesSnoc(r2.log + [Heard(welcome), e2], e3);
    PairMoves(r3.log, selected, e4);
    assert r3.log == r2.log + [Heard(welcome), e2] + [e3];
    assert r4.log == r3.log + [Heard(selected), e4];
    NoMoves();
    assert [] + [e0] + [e1] + [e2] + [e3] + [e4] == Prelude(username, password, group, ids[0]);
  }

  lemma {:induction false} NoMoves()
    ensures Moves([]) == []
  {
  }

  lemma {:induction false} PairMoves(log: seq<Event>, h: string, e: Event)
    requires !e.Heard?
    ensures Moves(log + [Heard(h), e]) == Moves(log) + [e]
  {
    hide Moves;
    MovesSnoc(log, Heard(h));
    MovesSnoc(log + [Heard(h)], e);
    assert log + [Heard(h)] + [e] == log + [Heard(h), e] && Moves(log) + [] == Moves(log);
  }

  lemma {:induction false} GroupIsSelected(r: Reader, group: string, ids: seq<string>, welcome: string)
    requires r.isOpen && !r.resultsComing && r.response == "" && ids != [] && S281 <= welcome
    requires r.delegate == HeadLoop(Some(group), ids, 0)
    ensures Take(r, Arrive([welcome])) ==
            r.(connected := true, op := Some(ArticleHeader), articleId := ids[0], groupCommand := Head(ids[0]),
               delegate := HeadLoop(Some(group), ids, 1),
               log := r.log + [Heard(welcome), Notified(Connected), Sent(Group(group))])
  {
    hide Take, Notify;
    StatusRead(r, welcome);
    StatusesDiffer(S281, S200, 1, welcome);
    StatusesDiffer(S281, S381, 0, welcome);
    WelcomeSelects(Log(r.(response := welcome), Heard(welcome)).(connected := true), group, ids);
    assert r.log + [Heard(welcome)] + [Notified(Connected)] + [Sent(Group(group))]
        == r.log + [Heard(welcome), Notified(Connected), Sent(Group(group))];
  }

  lemma {:induction false} WelcomeSelects(r1: Reader, group: string, ids: seq<string>)
    requires r1.isOpen && r1.connected && !r1.resultsComing && ids != []
    requires r1.delegate == HeadLoop(Some(group), ids, 0)
    ensures Notify(r1, Connected) ==
            r1.(op := Some(ArticleHeader), response := "", articleId := ids[0], groupCommand := Head(ids[0]),
                delegate := HeadLoop(Some(group), ids, 1),
                log := r1.log + [Notified(Connected)] + [Sent(Group(group))])
  {
    var r2 := Log(r1, Notified(Connected)).(delegate := HeadLoop(Some(group), ids, 1));
    var calls := [CallHeader(group, ids[0])];
    assert calls[1..] == [];
    assert PerformAll(r2, calls) == PerformAll(Perform(r2, calls[0]), []) == Perform(r2, calls[0]);
  }

  lemma {:induction false} HeadIsSent(r: Reader, group: string, ids: seq<string>, selected: string)
    requires r.isOpen && r.connected && !r.resultsComing && r.response == "" && ids != []
    requires r.op == Some(ArticleHeader) && r.articleId == ids[0] && r.groupCommand == Head(ids[0])
    requires r.delegate == HeadLoop(Some(group), ids, 1) && S211 <= selected && !(S211_LIST <= selected)
    ensures var r' := Take(r, Arrive([selected]));
            && Asking(r', group, ids, 0) && r'.response == ""
            && r'.log == r.log + [Heard(selected)] + [Sent(Head(ids[0]))]
  {
    hide Take, Notify;
    StatusRead(r, selected);
    StatusesDiffer(S211, S200, 1, selected);
    StatusesDiffer(S211, S381, 0, selected);
    StatusesDiffer(S211, S281, 1, selected);
    StatusesDiffer(S211, S502, 0, selected);
    StatusesDiffer(S211, S205, 1, selected);
    StatusesDiffer(S211, S215, 2, selected);
    assert |selected| >= 4;
  }

  /** From a new reader, over every run whose leftovers are not acted on: what is sent and
      reported is the login, GROUP, and then one round for each read until the list is done,
      when the reader closes. */
  lemma {:induction false} HeadSession(
      username: string, password: string, group: string, ids: seq<string>,
      hello: string, more: string, welcome: string, selected: string, batches: seq<seq<string>>)
    requires ids != []
    requires S200 <= hello && S381 <= more && S281 <= welcome && S211 <= selected && !(S211_LIST <= selected)
    requires InertLeftovers(ids, 0, "", batches)
    ensures var r := Exec(Fresh(username, password, HeadLoop(Some(group), ids, 0)),
                          LoginSteps(hello, more, welcome, selected) + Arrivals(batches));
            && Moves(r.log) == Prelude(username, password, group, ids[0]) + Rounds(ids, 0, "", Flat(batches))
            && (r.isOpen <==> |Flat(batches)| < |ids|)
  {
    hide Exec, Moves, Rounds, InertLeftovers;
    FirstHead(username, password, group, ids, hello, more, welcome, selected);
    var r := Exec(Fresh(username, password, HeadLoop(Some(group), ids, 0)), LoginSteps(hello, more, welcome, selected));
    ExecConcat(Fresh(username, password, HeadLoop(Some(group), ids, 0)), LoginSteps(hello, more, welcome, selected),
               Arrivals(batches));
    RunIsRounds(r, group, ids, 0, batches);
  }

  /** With one read for each response, in any batches: every article asked for gets the map of
      its own response, and then the reader is closed. */
  lemma {:induction false} HeadSessionAnswered(
      username: string, password: string, group: string, ids: seq<string>,
      hello: string, more: string, welcome: string, selected: string,
      texts: seq<string>, batches: seq<seq<string>>)
    requires ids != [] && |texts| == |ids| && Flat(batches) == OneReadEach(texts)
    requires S200 <= hello && S381 <= more && S281 <= welcome && S211 <= selected && !(S211_LIST <= selected)
    ensures var r := Exec(Fresh(username, password, HeadLoop(Some(group), ids, 0)),
                          LoginSteps(hello, more, welcome, selected) + Arrivals(batches));
            !r.isOpen && Moves(r.log) == Prelude(username, password, group, ids[0]) + Answers(ids, 0, texts)
  {
    hide Exec, Moves, Rounds, InertLeftovers, Answers;
    WholeResponsesAreInert(ids, 0, texts, batches);
    HeadSession(username, password, group, ids, hello, more, welcome, selected, batches);
    MapsAreAttributed(ids, 0, texts);
    WholeResponsesLeaveNothing(texts, 0);
  }

  /** From a new reader, for every way to cut the responses into reads and these into events whose
      leftovers are not acted on: the reader reports a map for each read until all articles have one.
      The maps are those of the responses to the HEADs they are reported for if and only if the
      reads correspond to the responses. */
  lemma {:induction false} HeadSessionAttributedIff(
      username: string, password: string, group: string, ids: seq<string>,
      hello: string, more: string, welcome: string, selected: string,
      texts: seq<string>, batches: seq<seq<string>>)
    requires ids != [] && |texts| == |ids| && Responses(texts) && Join(Flat(batches)) == Join(OneReadEach(texts))
    requires S200 <= hello && S381 <= more && S281 <= welcome && S211 <= selected && !(S211_LIST <= selected)
    requires InertLeftovers(ids, 0, "", batches)
    ensures var r := Exec(Fresh(username, password, HeadLoop(Some(group), ids, 0)),
                          LoginSteps(hello, more, welcome, selected) + Arrivals(batches));
            var shown := RoundTexts("", Reached(ids, 0, Flat(batches)));
            && |shown| <= |ids| && Moves(r.log) == Prelude(username, password, group, ids[0]) + Answers(ids, 0, shown)
            && (shown == texts <==> OnePerResponse("", Flat(batches), texts))
  {
    hide Exec, Moves, Rounds, InertLeftovers, Answers, Reached, RoundTexts, OnePerResponse;
    HeadSession(username, password, group, ids, hello, more, welcome, selected, batches);
    RoundsAreAnswers(ids, 0, "", Flat(batches));
    assert "" + Join(Flat(batches)) == Join(Flat(batches));
    AttributedIff("", Flat(batches), texts);
    ReachedIs(ids, Flat(batches));
  }

  lemma {:induction false} ReachedIs(ids: seq<string>, chunks: seq<string>)
    ensures Reached(ids, 0, chunks) == Upto(chunks, |ids|)
  {
  }

  /** Reads that correspond to the responses to HEAD, in any events: every article asked for gets
      the map of its own response, and then the reader is closed. */
  lemma {:induction false} HeadSessionMeets(
      username: string, password: string, group: string, ids: seq<string>,
      hello: string, more: string, welcome: string, selected: string,
      texts: seq<string>, batches: seq<seq<string>>)
    requires ids != [] && |texts| == |ids| && HeadResponses(texts)
    requires Join(Flat(batches)) == Join(OneReadEach(texts)) && OnePerResponse("", Flat(batches), texts)
    requires S200 <= hello && S381 <= more && S281 <= welcome && S211 <= selected && !(S211_LIST <= selected)
    ensures var r := Exec(Fresh(username, password, HeadLoop(Some(group), ids, 0)),
                          LoginSteps(hello, more, welcome, selected) + Arrivals(batches));
            !r.isOpen && Moves(r.log) == Prelude(username, password, group, ids[0]) + Answers(ids, 0, texts)
  {
    hide Exec, Moves, Rounds, InertLeftovers, Answers, RoundTexts, OnePerResponse, OneReadEach, Join, Carry;
    assert "" + Join(Flat(batches)) == Join(Flat(batches));
    MeetingIsInert(ids, 0, "", texts, batches);
    AfterReads("", Flat(batches), texts, 0);
    HeadSession(username, password, group, ids, hello, more, welcome, selected, batches);
    RoundsAreAnswers(ids, 0, "", Flat(batches));
    KnownAreResponses(texts);
    AttributedIff("", Flat(batches), texts);
    ReachedIs(ids, Flat(batches));
  }

  lemma {:induction false} KnownAreResponses(texts: seq<string>)
    requires HeadResponses(texts)
    ensures Responses(texts)
  {
    forall i | 0 <= i < |texts| ensures texts[i] != "" && '0' <= texts[i][0] <= '9' {
      assert HEAD_FOLLOWS <= texts[i] || NO_SUCH <= texts[i];
    }
  }

  lemma {:induction false} DotHasNoFields()
    ensures HeaderMap(".") == map[]
  {
    LineAlone(".", "");
    assert "" + "." == ".";
    assert Lines(".") == ["."] && ["."][1..] == [];
    assert HeaderMap(".") == HeaderOf([], HeaderLine(map[], ".")) == map[];
  }

  /** A response in two reads counts as two: its second part, here the closing dot alone, is taken
      for the response for the next article. */
  lemma {:induction false} SplitResponseShifts(a: string, b: string, response: string)
    ensures var moves := Rounds([a, b], 0, "", [response + CRLF, "." + CRLF]);
            Reported(moves) == [a, b] && moves[|moves| - 2] == GotHeader(b, map[])
  {
    hide HeaderMap, LastSplit, Rounds;
    var ids, texts := [a, b], [response, "."];
    assert texts[1..] == ["."] && ["."][1..] == [];
    assert OneReadEach(["."]) == ["." + CRLF] + OneReadEach([]) == ["." + CRLF];
    assert OneReadEach(texts) == [response + CRLF] + ["." + CRLF] == [response + CRLF, "." + CRLF];
    MapsAreAttributed(ids, 0, texts);
    DotHasNoFields();
    var second := Round(ids, 1, ".");
    assert Answers(ids, 1, ["."]) == second + Answers(ids, 2, []) == second;
    assert Answers(ids, 0, texts) == Round(ids, 0, response) + second;
    assert |second| == 2 && second[0] == GotHeader(b, map[]);
    RoundsGoInOrder(ids, 0, "", [response + CRLF, "." + CRLF]);
    assert ids[0..2] == ids;
  }
}
