/** What the stream brings: reads, batches of reads, text left over, and the runs they make. */
module NewsStream {
  import opened NewsText
  import opened NewsModel

  function Join(chunks: seq<string>): string {
    if chunks == [] then "" else chunks[0] + Join(chunks[1..])
  }

  /** Every read leaves a line end in the buffer. */
  predicate EndsLines(carry: string, chunks: seq<string>)
    decreases |chunks|
  {
    chunks == [] || (HasCrlf(carry + chunks[0]) && EndsLines(LastSplit(carry + chunks[0]).1, chunks[1..]))
  }

  /** Two ways to cut one text at a line end. */
  lemma {:induction false} FirstEnd(l: string, t: string, p: string, u: string)
    requires !HasCrlf(l) && l + CRLF + t == p + CRLF + u
    ensures |p| >= |l|
    ensures |p| == |l| ==> p == l && u == t
    ensures |p| > |l| ==> |p| >= |l| + 2 && p == l + CRLF + p[|l| + 2..] && p[|l| + 2..] + CRLF + u == t
  {
    var s := l + CRLF + t;
    assert s[|p|] == (p + CRLF + u)[|p|] == '\r' && s[|p|+1] == (p + CRLF + u)[|p|+1] == '\n';
    assert s[|l|] == '\r' && s[|l|+1] == '\n';
    if |p| == |l| {
      assert p == s[..|p|] && l == s[..|l|];
      assert u == s[|p|+2..] && t == s[|l|+2..];
    } else {
      assert |p| != |l| + 1;
      assert p == s[..|p|];
      assert t == s[|l|+2..];
      assert p[|l|+2..] == s[|l|+2..|p|];
      assert p == l + CRLF + p[|l|+2..];
      assert u == s[|p|+2..];
      assert t == s[|l|+2..|p|] + s[|p|..];
      assert s[|p|..] == CRLF + u;
    }
  }

  /** The text before the first line end is determined. */
  lemma {:induction false} FirstEndIsUnique(l: string, t: string, b: string, u: string)
    requires !HasCrlf(l) && !HasCrlf(b) && l + CRLF + t == b + CRLF + u
    ensures l == b && t == u
  {
    var s := l + CRLF + t;
    assert s[|l|] == '\r' && s[|l|+1] == '\n' && (b + CRLF + u)[|b|] == '\r' && (b + CRLF + u)[|b|+1] == '\n';
    assert l == s[..|l|] == b && t == s[|l|+2..] && u == s[|b|+2..];
  }

  /** How often "Done" was reported. */
  function DoneIn(log: seq<Event>): nat {
    if log == [] then 0
    else DoneIn(log[..|log|-1]) + (if log[|log|-1] == Notified(Finished) then 1 else 0)
  }

  /** The last thing reported was "Done"; at most a look at the leftover came after it. */
  predicate DoneLast(log: seq<Event>) {
    log != [] &&
    (log[|log|-1] == Notified(Finished)
     || (log[|log|-1].Heard? && |log| >= 2 && log[|log|-2] == Notified(Finished)))
  }

  /** All that `of` finds in the log, in order: all ids reported so far, for example. */
  function Told<T>(log: seq<Event>, of: Event -> seq<T>): seq<T> {
    if log == [] then [] else Told(log[..|log|-1], of) + of(log[|log|-1])
  }

  lemma {:induction false} ToldSnoc<T>(log: seq<Event>, e: Event, of: Event -> seq<T>)
    ensures Told(log + [e], of) == Told(log, of) + of(e)
    ensures DoneIn(log + [e]) == DoneIn(log) + (if e == Notified(Finished) then 1 else 0)
  {
    assert (log + [e])[..|log|] == log;
  }

  /** All of this has been told, then "Done", once, and the reader is closed. */
  predicate Finishes<T(==)>(r: Reader, r': Reader, of: Event -> seq<T>, told: seq<T>) {
    && !r'.isOpen && Told(r'.log, of) == Told(r.log, of) + told
    && DoneIn(r'.log) == DoneIn(r.log) + 1 && DoneLast(r'.log)
  }

  /** The delegates of the program that close the reader on "Done". */
  predicate Closer(d: Delegate) {
    d.ArticleIds? || d.GroupLister? || d.OneArticle?
  }

  lemma {:induction false} DoneCloses(r: Reader)
    requires Closer(r.delegate)
    ensures Notify(r, Finished) == Log(r, Notified(Finished)).(isOpen := false)
  {
    var r1 := Log(r, Notified(Finished));
    assert PerformAll(r1, [CallClose]) == PerformAll(Perform(r1, CallClose), [CallClose][1..]);
    assert [CallClose][1..] == [];
  }

  /** To other notices than "Connected" and "Done" these delegates do nothing. */
  lemma {:induction false} NoAction(r: Reader, n: Notice)
    requires Closer(r.delegate) && !n.Connected? && !n.Finished?
    ensures Notify(r, n) == Log(r, Notified(n))
  {
    assert PerformAll(Log(r, Notified(n)), []) == Log(r, Notified(n));
  }

  /** The look at a quiet leftover: a lone dot ends everything, anything else changes nothing. */
  lemma {:induction false} QuietLook<T>(r: Reader, of: Event -> seq<T>)
    requires Quiet(r.response) && (r.response == "." ==> Closer(r.delegate))
    requires of(Heard(r.response)) == [] && of(Notified(Finished)) == []
    ensures var r' := ProcessResponse(r, r.response);
            && (r.response == "." ==> Finishes(r, r', of, []))
            && (r.response != "." ==> r' == Log(r, Heard(r.response)))
    ensures Told(Log(r, Heard(r.response)).log, of) == Told(r.log, of)
    ensures DoneIn(Log(r, Heard(r.response)).log) == DoneIn(r.log)
  {
    hide Quiet, ProcessResponse, Told, DoneIn;
    QuietProcess(r, r.response);
    var r1 := Log(r, Heard(r.response));
    ToldSnoc(r.log, Heard(r.response), of);
    if r.response == "." {
      DoneCloses(r1);
    }
    ToldSnoc(r1.log, Notified(Finished), of);
    assert Told(r.log, of) + [] == Told(r.log, of) && Told(r1.log, of) + [] == Told(r1.log, of);
  }

  lemma {:induction false} ToldNothing<T>(log: seq<Event>, es: seq<Event>, of: Event -> seq<T>)
    requires forall e | e in es :: of(e) == []
    ensures Told(log + es, of) == Told(log, of)
    decreases |es|
  {
    if es == [] {
      assert log + es == log;
    } else {
      var n := |es| - 1;
      ToldNothing(log, es[..n], of);
      assert log + es == log + es[..n] + [es[n]];
      ToldSnoc(log + es[..n], es[n], of);
      assert Told(log, of) + [] == Told(log, of);
    }
  }

  lemma {:induction false} AddsNothing<T>(log: seq<Event>, log1: seq<Event>, log': seq<Event>, of: Event -> seq<T>)
    requires exists e :: log1 == log + [e] && of(e) == []
    requires log1 <= log' && forall i | |log1| <= i < |log'| :: of(log'[i]) == []
    ensures Told(log', of) == Told(log, of)
  {
    hide Told;
    var es := log'[|log|..];
    assert log' == log + es;
    forall i | 0 <= i < |es| ensures of(es[i]) == [] {
      assert es[i] == log'[|log| + i];
    }
    ToldNothing(log, es, of);
  }

  // ----- nothing that was told is taken back -----

  lemma {:induction false} CallGrows(r: Reader, c: Call)
    ensures r.log <= Perform(r, c).log
  {
  }

  lemma {:induction false} PerformGrows(r: Reader, cs: seq<Call>)
    ensures r.log <= PerformAll(r, cs).log
    decreases |cs|
  {
    hide Perform;
    if cs != [] {
      CallGrows(r, cs[0]);
      PerformGrows(Perform(r, cs[0]), cs[1..]);
    }
  }

  lemma {:induction false} NotifyGrows(r: Reader, n: Notice)
    ensures r.log <= Notify(r, n).log
  {
    hide React;
    var (d, calls) := React(r.delegate, n);
    PerformGrows(Log(r, Notified(n)).(delegate := d), calls);
  }

  /** At most a command has been sent, and results may be coming now. */
  ghost predicate Acknowledges(r: Reader, r': Reader) {
    && r' == r.(response := r'.response, resultsComing := r'.resultsComing, log := r'.log)
    && (r.resultsComing ==> r'.resultsComing)
    && (r'.log == r.log || exists c :: r'.log == r.log + [Sent(c)])
  }

  /** What a status text brings about: it is noted and cleared, and one of these happens. */
  lemma {:induction false} StatusCases(r: Reader, buffer: string)
    requires !Quiet(buffer)
    ensures var r1, r' := Log(r, Heard(buffer)), ProcessResponse(r, buffer);
            && r'.response == ""
            && (|| r' == Clear(Notify(r1.(connected := true), Connected))
                || r' == Clear(Notify(r1, ConnectionFailed))
                || r' == Clear(Notify(r1.(isOpen := false), Disconnected))
                || Acknowledges(r1, r'))
  {
    hide Notify, ProcessResponse;
    if S200 <= buffer || S381 <= buffer {
      LoginCases(r, buffer);
    } else if S281 <= buffer || S502 <= buffer || S205 <= buffer {
      NoticeCases(r, buffer);
    } else {
      ResultCases(r, buffer);
    }
  }

  lemma {:induction false} LoginCases(r: Reader, buffer: string)
    requires S200 <= buffer || S381 <= buffer
    ensures ProcessResponse(r, buffer).response == "" && Acknowledges(Log(r, Heard(buffer)), ProcessResponse(r, buffer))
  {
    hide Notify;
    var r1, r' := Log(r, Heard(buffer)), ProcessResponse(r, buffer);
    var c := if S200 <= buffer then AuthUser(r.username) else AuthPass(r.password);
    assert r'.log == r1.log || r'.log == r1.log + [Sent(c)];
  }

  lemma {:induction false} NoticeCases(r: Reader, buffer: string)
    requires !(S200 <= buffer) && !(S381 <= buffer) && (S281 <= buffer || S502 <= buffer || S205 <= buffer)
    ensures var r1, r' := Log(r, Heard(buffer)), ProcessResponse(r, buffer);
            || r' == Clear(Notify(r1.(connected := true), Connected))
            || r' == Clear(Notify(r1, ConnectionFailed))
            || r' == Clear(Notify(r1.(isOpen := false), Disconnected))
  {
    hide Notify;
  }

  lemma {:induction false} ResultCases(r: Reader, buffer: string)
    requires !(S200 <= buffer) && !(S381 <= buffer) && !(S281 <= buffer) && !(S502 <= buffer) && !(S205 <= buffer)
    requires !Quiet(buffer)
    ensures ProcessResponse(r, buffer).response == "" && Acknowledges(Log(r, Heard(buffer)), ProcessResponse(r, buffer))
  {
    hide Notify;
    var r1, r' := Log(r, Heard(buffer)), ProcessResponse(r, buffer);
    assert r'.log == r1.log || r'.log == r1.log + [Sent(r.groupCommand)];
  }

  lemma {:induction false} ProcessGrows(r: Reader, buffer: string)
    ensures r.log <= ProcessResponse(r, buffer).log
  {
    hide Notify, ProcessResponse, Quiet;
    var r1 := Log(r, Heard(buffer));
    if Quiet(buffer) {
      QuietProcess(r, buffer);
      NotifyGrows(r1, Finished);
    } else {
      StatusCases(r, buffer);
      NotifyGrows(r1.(connected := true), Connected);
      NotifyGrows(r1, ConnectionFailed);
      NotifyGrows(r1.(isOpen := false), Disconnected);
    }
  }

  lemma {:induction false} TakeBufferGrows(r: Reader)
    ensures r.log <= TakeBuffer(r).log
  {
    hide Notify, Lines, LastSplit, HeaderMap, NotDots, ParseGroups;
    var (p, q) := LastSplit(r.response);
    var r0 := r.(response := q);
    var text := r.article + p + CRLF;
    NotifyGrows(Log(r0.(article := text), GotArticleText(text)), Finished);
    var r1 := TakeArticle(r0, p);
    NotifyGrows(Log(r1, GotHeader(r1.articleId, HeaderMap(p))), NextArticle);
    var r2 := TakeHeader(r1, p);
    NotifyGrows(Log(r2, GotIds(NotDots(Lines(p)))), Finished);
    var r3 := TakeIds(r2, Lines(p));
    NotifyGrows(Log(r3, GotGroups(ParseGroups(NotDots(Lines(p))))), Finished);
  }

  lemma {:induction false} ReadLoopGrows(r: Reader, chunks: seq<string>)
    ensures r.log <= ReadLoop(r, chunks).0.log
    decreases |chunks|
  {
    hide TakeBuffer;
    if chunks != [] && r.isOpen && r.resultsComing {
      var r1 := r.(response := r.response + chunks[0]);
      TakeBufferGrows(r1);
      ReadLoopGrows(TakeBuffer(r1), chunks[1..]);
    }
  }

  lemma {:induction false} DeliverGrows(r: Reader, chunks: seq<string>)
    ensures r.log <= Deliver(r, chunks).log
    decreases |chunks|
  {
    hide ReadLoop, ProcessResponse;
    if chunks != [] && r.isOpen {
      var (r1, left) := ReadLoop(r, chunks);
      ReadLoopGrows(r, chunks);
      ProcessGrows(r1, r1.response);
      DeliverGrows(ProcessResponse(r1, r1.response), left);
    }
  }

  lemma {:induction false} ArrivalsGrow(r: Reader, batches: seq<seq<string>>)
    ensures r.log <= Exec(r, Arrivals(batches)).log
    decreases |batches|
  {
    hide Deliver;
    if batches != [] {
      var steps := Arrivals(batches);
      assert steps[0] == Arrive(batches[0]) && steps[1..] == Arrivals(batches[1..]);
      DeliverGrows(r, batches[0]);
      ArrivalsGrow(Deliver(r, batches[0]), batches[1..]);
    }
  }

  lemma {:induction false} ToldGrows<T>(log: seq<Event>, log': seq<Event>, of: Event -> seq<T>)
    requires log <= log'
    ensures Told(log, of) <= Told(log', of)
    decreases |log'|
  {
    if |log| < |log'| {
      ToldGrows(log, log'[..|log'|-1], of);
    } else {
      assert log == log';
    }
  }

  function Flat(batches: seq<seq<string>>): seq<string> {
    if batches == [] then [] else batches[0] + Flat(batches[1..])
  }

  /** Each batch of reads is there when the run loop looks. */
  function Arrivals(batches: seq<seq<string>>): seq<Step> {
    if batches == [] then [] else [Arrive(batches[0])] + Arrivals(batches[1..])
  }

  /** What is left over after the reads. */
  function Carry(carry: string, chunks: seq<string>): string
    decreases |chunks|
  {
    if chunks == [] then carry else Carry(LastSplit(carry + chunks[0]).1, chunks[1..])
  }

  lemma {:induction false} EndsConcat(carry: string, a: seq<string>, b: seq<string>)
    ensures EndsLines(carry, a + b) <==> EndsLines(carry, a) && EndsLines(Carry(carry, a), b)
    decreases |a|
  {
    hide LastSplit, HasCrlf;
    if a == [] {
      assert a + b == b;
    } else {
      assert (a + b)[0] == a[0] && (a + b)[1..] == a[1..] + b;
      EndsConcat(LastSplit(carry + a[0]).1, a[1..], b);
    }
  }

  lemma {:induction false} OneEnd(carry: string, chunk: string)
    requires HasCrlf(carry + chunk)
    ensures EndsLines(carry, [chunk]) && Carry(carry, [chunk]) == LastSplit(carry + chunk).1
  {
    hide HasCrlf, LastSplit;
    assert [chunk][1..] == [];
  }

  /** Two reads in two events. */
  lemma {:induction false} TwoReads(c: string, d: string)
    ensures Flat([[c], [d]]) == [c, d] && Join(Flat([[c], [d]])) == c + d
    ensures Flat([[d]]) == [d] && Join(Flat([[d]])) == d
  {
    assert [[c], [d]][1..] == [[d]] && [[d]][1..] == [] && [c, d][1..] == [d] && [d][1..] == [];
    assert Flat([[d]]) == [d] + Flat([]) == [d];
    assert Flat([[c], [d]]) == [c] + [d] == [c, d];
    assert Join([d]) == d + Join([]) == d;
  }

  /** What the events leave over, for each that takes place. */
  function Leftovers(carry: string, batches: seq<seq<string>>): seq<string>
    decreases |batches|
  {
    if batches == [] then []
    else
      var carry' := Carry(carry, batches[0]);
      (if batches[0] == [] then [] else [carry']) + Leftovers(carry', batches[1..])
  }

  /** No event leaves over a text that starts like a status line. */
  predicate QuietLeftovers(carry: string, batches: seq<seq<string>>) {
    forall q | q in Leftovers(carry, batches) :: Quiet(q)
  }

  lemma {:induction false} QuietNext(carry: string, batches: seq<seq<string>>)
    requires batches != []
    ensures QuietLeftovers(carry, batches) <==>
              && (batches[0] != [] ==> Quiet(Carry(carry, batches[0])))
              && QuietLeftovers(Carry(carry, batches[0]), batches[1..])
  {
    hide Quiet, Carry;
    var carry' := Carry(carry, batches[0]);
    if batches[0] != [] {
      assert Leftovers(carry, batches) == [carry'] + Leftovers(carry', batches[1..]);
      assert carry' in Leftovers(carry, batches);
    }
  }

  lemma {:induction false} EmptyBatch(r: Reader)
    ensures Deliver(r, []) == r && Carry(r.response, []) == r.response
  {
  }

  lemma {:induction false} ListenerHears(r: Reader, n: Notice)
    requires r.delegate == Script([])
    ensures Notify(r, n) == Log(r, Notified(n))
  {
    assert PerformAll(Log(r, Notified(n)), []) == Log(r, Notified(n));
  }

  lemma {:induction false} JoinConcat(a: seq<string>, b: seq<string>)
    ensures Join(a + b) == Join(a) + Join(b)
    decreases |a|
  {
    if a == [] {
      assert a + b == b;
    } else {
      assert (a + b)[0] == a[0] && (a + b)[1..] == a[1..] + b;
      JoinConcat(a[1..], b);
    }
  }

  lemma {:induction false} JoinNothing(s: string)
    ensures s + Join([]) == s
  {
    assert Join([]) == "";
  }

  /** On a closed reader nothing arrives. */
  lemma {:induction false} NothingArrives(r: Reader, batches: seq<seq<string>>)
    requires !r.isOpen
    ensures Exec(r, Arrivals(batches)) == r
    decreases |batches|
  {
    if batches != [] {
      var steps := Arrivals(batches);
      assert steps[0] == Arrive(batches[0]) && steps[1..] == Arrivals(batches[1..]);
      NothingArrives(r, batches[1..]);
    }
  }

  /** Not a status line. */
  predicate Quiet(s: string) {
    && !(S200 <= s) && !(S381 <= s) && !(S281 <= s) && !(S502 <= s)
    && !(S205 <= s) && !(S215 <= s) && !(S211_LIST <= s) && !(S211 <= s)
  }

  /** Of the leftovers that are no status line only a lone dot is acted on. */
  lemma {:induction false} QuietProcess(r: Reader, s: string)
    requires Quiet(s)
    ensures ProcessResponse(r, s) == if s == "." then Notify(Log(r, Heard(s)), Finished) else Log(r, Heard(s))
  {
    hide Notify;
  }

  lemma {:induction false} StatusRead(r: Reader, line: string)
    requires r.isOpen && !r.resultsComing && r.response == ""
    ensures Take(r, Arrive([line])) == ProcessResponse(r.(response := line), line)
  {
    hide ProcessResponse;
    var r1 := r.(response := line);
    assert "" + line == line;
    assert [line][1..] == [];
    assert ReadLoop(r, [line]) == (r1, []);
    var r2 := ProcessResponse(r1, line);
    assert Deliver(r, [line]) == Deliver(r2, []) == r2;
  }

  lemma {:induction false} ExecConcat(r: Reader, a: seq<Step>, b: seq<Step>)
    ensures Exec(r, a + b) == Exec(Exec(r, a), b)
    decreases |a|
  {
    hide Take;
    if a == [] {
      assert a + b == b;
    } else {
      assert (a + b)[0] == a[0] && (a + b)[1..] == a[1..] + b;
      ExecConcat(Take(r, a[0]), a[1..], b);
    }
  }

  lemma {:induction false} FirstStep(r: Reader, s: Step, more: seq<Step>)
    ensures Exec(r, [s] + more) == Exec(Take(r, s), more)
  {
    assert ([s] + more)[1..] == more;
  }

  lemma {:induction false} Opened(r: Reader)
    ensures Take(r, Open) == r.(isOpen := true)
  {
  }

  lemma {:induction false} StatusesDiffer(a: string, b: string, i: nat, s: string)
    requires i < |a| && i < |b| && a[i] != b[i] && a <= s
    ensures !(b <= s)
  {
    if |b| <= |s| {
      assert a[i] == s[i] == s[..|b|][i];
    }
  }

  lemma {:induction false} Greeted(r: Reader, hello: string)
    requires r.isOpen && !r.resultsComing && r.response == "" && S200 <= hello
    ensures Take(r, Arrive([hello])) == r.(log := r.log + [Heard(hello), Sent(AuthUser(r.username))])
  {
    hide Take, Notify;
    StatusRead(r, hello);
    assert r.log + [Heard(hello)] + [Sent(AuthUser(r.username))] == r.log + [Heard(hello), Sent(AuthUser(r.username))];
  }

  lemma {:induction false} Asked(r: Reader, more: string)
    requires r.isOpen && !r.resultsComing && r.response == "" && S381 <= more
    ensures Take(r, Arrive([more])) == r.(log := r.log + [Heard(more), Sent(AuthPass(r.password))])
  {
    hide Take, Notify;
    StatusRead(r, more);
    StatusesDiffer(S381, S200, 0, more);
    assert r.log + [Heard(more)] + [Sent(AuthPass(r.password))] == r.log + [Heard(more), Sent(AuthPass(r.password))];
  }

  lemma {:induction false} FiveSteps(r: Reader, a: Step, b: Step, c: Step, d: Step, e: Step)
    ensures Exec(r, [a, b, c, d, e]) == Take(Take(Take(Take(Take(r, a), b), c), d), e)
  {
    hide Take;
    assert [a, b, c, d, e][1..] == [b, c, d, e] && [b, c, d, e][1..] == [c, d, e];
    assert [c, d, e][1..] == [d, e] && [d, e][1..] == [e] && [e][1..] == [];
    var r2 := Take(Take(r, a), b);
    assert Exec(r, [a, b, c, d, e]) == Exec(Take(r, a), [b, c, d, e]) == Exec(r2, [c, d, e]);
    var r4 := Take(Take(r2, c), d);
    assert Exec(r2, [c, d, e]) == Exec(Take(r2, c), [d, e]) == Exec(r4, [e]);
    assert Exec(r4, [e]) == Exec(Take(r4, e), []);
  }

  /** Logging in and asking for the list, each status line in a read of its own. */
  function LoginSteps(hello: string, more: string, welcome: string, follows: string): seq<Step> {
    [Open, Arrive([hello]), Arrive([more]), Arrive([welcome]), Arrive([follows])]
  }
}
