/** ARTICLE, for any text at all: what is put together over many reads and many stream events,
    and when it is exactly what was received. */
module NewsConservation {
  import opened Wrappers
  import opened NewsText
  import opened NewsModel
  import opened NewsStream

  // ----- two measures of a text: its length, and how much is in it besides line ends -----

  function Ink(s: string): nat {
    if s == "" then 0 else (if s[0] == '\r' || s[0] == '\n' then 0 else 1) + Ink(s[1..])
  }

  lemma {:induction false} InkConcat(a: string, b: string)
    ensures Ink(a + b) == Ink(a) + Ink(b)
  {
    if a == "" {
      assert a + b == b;
    } else {
      assert (a + b)[0] == a[0] && (a + b)[1..] == a[1..] + b;
      InkConcat(a[1..], b);
    }
  }

  lemma {:induction false} NoInkInEnd()
    ensures Ink(CRLF) == 0 && Ink("") == 0
  {
    assert CRLF[1..] == "\n" && "\n"[1..] == "";
  }

  lemma {:induction false} StatusHasInk(s: string)
    ensures !Quiet(s) ==> Ink(s) > 0
  {
    assert S200[0] == S281[0] == S205[0] == S215[0] == S211_LIST[0] == S211[0] == '2';
    assert S381[0] == '3' && S502[0] == '5';
    assert !Quiet(s) ==> s != "" && (s[0] == '2' || s[0] == '3' || s[0] == '5');
  }

  // ----- one event -----

  /** How many reads leave no line end in the buffer. */
  function Unended(carry: string, chunks: seq<string>): nat
    decreases |chunks|
  {
    if chunks == [] then 0
    else
      (if HasCrlf(carry + chunks[0]) then 0 else 1) + Unended(LastSplit(carry + chunks[0]).1, chunks[1..])
  }

  lemma {:induction false} UnendedNone(carry: string, chunks: seq<string>)
    ensures Unended(carry, chunks) == 0 <==> EndsLines(carry, chunks)
    decreases |chunks|
  {
    if chunks != [] {
      UnendedNone(LastSplit(carry + chunks[0]).1, chunks[1..]);
    }
  }

  /** Article text is coming; the delegate takes no action, such as one that only shows what it is
      told. */
  predicate Watched(r: Reader) {
    r.resultsComing && r.op == Some(Article) && r.delegate == Script([])
  }

  /** All text that the reader has kept: what is put together and what waits for its line end. */
  function Text(r: Reader): string {
    r.article + r.response
  }

  lemma {:induction false} WatchedRead(r: Reader)
    requires Watched(r) && r.isOpen
    ensures var (p, q) := LastSplit(r.response);
            var r' := TakeBuffer(r);
            Watched(r') && r'.isOpen && r'.article == r.article + p + CRLF && r'.response == q
  {
    hide Lines, LastSplit;
    var (p, q) := LastSplit(r.response);
    var r1 := r.(response := q, article := r.article + p + CRLF);
    var r2 := Log(r1, GotArticleText(r1.article));
    assert PerformAll(Log(r2, Notified(Finished)), []) == Log(r2, Notified(Finished));
  }

  lemma {:induction false} ReadInk(article: string, buffer: string)
    ensures var (p, q) := LastSplit(buffer);
            Ink(article + p + CRLF + q) == Ink(article + buffer)
  {
    var (p, q) := LastSplit(buffer);
    if HasCrlf(buffer) {
      assert article + p + CRLF + q == article + buffer;
    } else {
      assert article + p + CRLF + q == article + buffer + CRLF;
      InkConcat(article + buffer, CRLF);
      NoInkInEnd();
    }
  }

  /** Each read keeps all text; a read that leaves no line end in the buffer puts in one that was
      not received. */
  lemma {:induction false} TextOfReads(r: Reader, chunks: seq<string>)
    requires Watched(r) && r.isOpen
    ensures var (r', left) := ReadLoop(r, chunks);
            var all := Text(r) + Join(chunks);
            && Watched(r') && r'.isOpen && left == [] && r'.response == Carry(r.response, chunks)
            && |Text(r')| == |all| + 2 * Unended(r.response, chunks) && Ink(Text(r')) == Ink(all)
            && (EndsLines(r.response, chunks) ==> Text(r') == all)
    decreases |chunks|
  {
    hide TakeBuffer, LastSplit, HasCrlf, Ink;
    if chunks == [] {
      assert Text(r) + Join(chunks) == Text(r);
    } else {
      var buffer, more := r.response + chunks[0], chunks[1..];
      var (p, q) := LastSplit(buffer);
      var r1 := r.(response := buffer);
      WatchedRead(r1);
      TextOfReads(TakeBuffer(r1), more);
      ReadInk(r.article, buffer);
      InkConcat(r.article + p + CRLF + q, Join(more));
      InkConcat(r.article + buffer, Join(more));
      assert Text(r) + Join(chunks) == r.article + buffer + Join(more);
      if HasCrlf(buffer) {
        assert r.article + p + CRLF + q == r.article + buffer;
      }
    }
  }

  /** The look at what an event leaves over: a status text is cleared, anything else is kept. */
  lemma {:induction false} LeftoverIsKeptIff(r: Reader)
    requires Watched(r) && r.isOpen
    ensures var r' := ProcessResponse(r, r.response);
            && Watched(r') && r'.article == r.article
            && r'.response == (if Quiet(r.response) then r.response else "")
            && (Quiet(r.response) ==> r'.isOpen)
  {
    hide Notify;
    var r1 := Log(r, Heard(r.response));
    ListenerHears(r1, Finished);
    ListenerHears(r1.(connected := true), Connected);
    ListenerHears(r1, ConnectionFailed);
    ListenerHears(r1.(isOpen := false), Disconnected);
  }

  // ----- whole runs -----

  /** Every read leaves a line end in the buffer, and no event leaves over a status text. */
  predicate Conserves(carry: string, batches: seq<seq<string>>) {
    EndsLines(carry, Flat(batches)) && QuietLeftovers(carry, batches)
  }

  lemma {:induction false} NothingConserves(carry: string)
    ensures Conserves(carry, [])
  {
  }

  lemma {:induction false} ConservesNext(carry: string, batches: seq<seq<string>>)
    requires batches != []
    ensures Conserves(carry, batches) <==>
              && EndsLines(carry, batches[0]) && (batches[0] != [] ==> Quiet(Carry(carry, batches[0])))
              && Conserves(Carry(carry, batches[0]), batches[1..])
  {
    hide QuietLeftovers;
    EndsConcat(carry, batches[0], Flat(batches[1..]));
    QuietNext(carry, batches);
  }

  /** One event: the text afterwards is what was there and what arrived, up to line ends put in
      and a status text cleared. */
  lemma {:induction false} TextOfEvent(r: Reader, batch: seq<string>)
    requires Watched(r) && r.isOpen
    ensures var r' := Deliver(r, batch);
            var all := Text(r) + Join(batch);
            var kept := batch == [] || Quiet(Carry(r.response, batch));
            && Watched(r') && Ink(Text(r')) <= Ink(all)
            && (kept ==> r'.isOpen && r'.response == Carry(r.response, batch))
            && (kept ==> |Text(r')| == |all| + 2 * Unended(r.response, batch))
            && (kept && EndsLines(r.response, batch) ==> Text(r') == all)
            && (!kept ==> Ink(Text(r')) < Ink(all))
  {
    hide ReadLoop, ProcessResponse, Quiet, Ink;
    if batch == [] {
      assert Text(r) + Join(batch) == Text(r);
    } else {
      TextOfReads(r, batch);
      var r1 := ReadLoop(r, batch).0;
      LeftoverIsKeptIff(r1);
      var r2 := ProcessResponse(r1, r1.response);
      assert Deliver(r, batch) == Deliver(r2, []) == r2;
      StatusHasInk(r1.response);
      InkConcat(r1.article, r1.response);
      assert r1.article + "" == r1.article;
    }
  }

  /** Text besides line ends only goes; text only gets longer as long as none goes. */
  lemma {:induction false} TextOfRun(r: Reader, batches: seq<seq<string>>)
    requires Watched(r)
    ensures var r' := Exec(r, Arrivals(batches));
            var all := Text(r) + Join(Flat(batches));
            && Ink(Text(r')) <= Ink(all)
            && (r.isOpen ==>
                  || Ink(Text(r')) < Ink(all)
                  || (|Text(r')| >= |all| && (|Text(r')| == |all| ==> Conserves(r.response, batches))))
            && (r.isOpen && Conserves(r.response, batches) ==> Text(r') == all)
    decreases |batches|
  {
    hide Deliver, Ink, Quiet, Join, Carry, EndsLines, Unended, Text, Watched, Conserves;
    var all := Text(r) + Join(Flat(batches));
    if batches == [] {
      JoinNothing(Text(r));
      NothingConserves(r.response);
    } else if !r.isOpen {
      NothingArrives(r, batches);
      InkConcat(Text(r), Join(Flat(batches)));
    } else {
      var batch, more := batches[0], batches[1..];
      var steps := Arrivals(batches);
      assert steps[0] == Arrive(batch) && steps[1..] == Arrivals(more);
      var r1 := Deliver(r, batch);
      TextOfEvent(r, batch);
      TextOfRun(r1, more);
      JoinConcat(batch, Flat(more));
      assert all == Text(r) + Join(batch) + Join(Flat(more));
      InkConcat(Text(r) + Join(batch), Join(Flat(more)));
      InkConcat(Text(r1), Join(Flat(more)));
      UnendedNone(r.response, batch);
      ConservesNext(r.response, batches);
    }
  }

  /** Conservation, over every sequence of reads in any stream events and for any text: what is put
      together, followed by what waits for its line end, is exactly what was received, if and only
      if every read leaves a line end in the buffer and no event leaves over a status text. */
  lemma {:induction false} TextIsConservedIff(r: Reader, batches: seq<seq<string>>)
    requires Watched(r) && r.isOpen
    ensures Text(Exec(r, Arrivals(batches))) == Text(r) + Join(Flat(batches)) <==> Conserves(r.response, batches)
  {
    TextOfRun(r, batches);
  }

  lemma {:induction false} OneEvent(r: Reader, batch: seq<string>)
    ensures Exec(r, Arrivals([batch])) == Deliver(r, batch)
  {
    hide Deliver;
    assert [batch][1..] == [] && [Arrive(batch)] + [] == [Arrive(batch)] && [Arrive(batch)][1..] == [];
    assert Exec(r, [Arrive(batch)]) == Exec(Deliver(r, batch), []);
  }

  lemma {:induction false} OneRead(r: Reader, chunk: string)
    requires Watched(r) && r.isOpen
    ensures var r1 := TakeBuffer(r.(response := r.response + chunk));
            Deliver(r, [chunk]) == ProcessResponse(r1, r1.response)
  {
    hide ProcessResponse, TakeBuffer;
    var r1 := TakeBuffer(r.(response := r.response + chunk));
    assert [chunk][1..] == [] && ReadLoop(r1, []) == (r1, []);
    assert ReadLoop(r, [chunk]) == (r1, []);
    var r2 := ProcessResponse(r1, r1.response);
    assert Deliver(r, [chunk]) == Deliver(r2, []) == r2;
  }

  /** The failing side, for every status text: an event that leaves it over loses it. */
  lemma {:induction false} StatusTextIsLost(r: Reader, status: string)
    requires Watched(r) && r.isOpen && r.response == "" && !Quiet(status) && !HasCrlf(status)
    ensures Text(Exec(r, Arrivals([[CRLF + status]]))) == r.article + CRLF
  {
    hide ProcessResponse, TakeBuffer, Quiet, Deliver, LastSplit;
    var chunk := CRLF + status;
    assert "" + chunk == chunk && chunk == "" + CRLF + status && r.article + "" == r.article;
    SplitUnique("", status);
    WatchedRead(r.(response := chunk));
    OneEvent(r, [chunk]);
    OneRead(r, chunk);
    var r1 := TakeBuffer(r.(response := chunk));
    LeftoverIsKeptIff(r1);
    assert r1.article + "" == r1.article;
  }
}
