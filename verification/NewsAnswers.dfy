/** What every text looked at for a status brings about, over every run: who is told what, when
    commands may go out, and when the reader closes. */
module NewsAnswers {
  import opened Wrappers
  import opened NewsText
  import opened NewsModel
  import opened NewsSafety
  import opened NewsStream

  // ----- the texts and the notices -----

  /** The notice that an event brings about directly. */
  function Brings(e: Event): Option<Notice> {
    match e
    case Heard(b) =>
      if b == "." then Some(Finished)
      else if S281 <= b then Some(Connected)
      else if S502 <= b then Some(ConnectionFailed)
      else if S205 <= b then Some(Disconnected)
      else None
    case GotHeader(_, _) => Some(NextArticle)
    case GotArticleText(_) => Some(Finished)
    case _ => None
  }

  /** May this notice follow this event directly? */
  predicate Explains(e: Event, n: Notice) {
    Brings(e) == Some(n) || (n == Finished && (e.GotIds? || e.GotGroups?))
  }

  ghost predicate Answered(log: seq<Event>) {
    && (forall i | 0 <= i < |log| && Brings(log[i]).Some? ::
          i + 1 < |log| && log[i + 1] == Notified(Brings(log[i]).value))
    && (forall i | 0 <= i < |log| && log[i].Notified? :: i > 0 && Explains(log[i - 1], log[i].notice))
  }

  /** A call before the welcome is turned down, and only then. */
  ghost predicate TurnedDown(log: seq<Event>) {
    forall i | 0 <= i < |log| && log[i].NotConnected? :: !HeardStatus(log[..i], S281)
  }

  /** The flags say what has been heard. */
  ghost predicate Honest(r: Reader) {
    && Answered(r.log) && TurnedDown(r.log)
    && (r.connected <==> HeardStatus(r.log, S281))
    && (r.resultsComing <==> HeardStatus(r.log, S211) || HeardStatus(r.log, S215))
  }

  /** No text starts like two of them; the list of numbers starts like the group. */
  lemma {:induction false} StatusesAreDistinct(b: string)
    ensures S200 <= b ==> b[0] == '2' && b[1] == '0' && b[2] == '0'
    ensures S381 <= b ==> b[0] == '3'
    ensures S281 <= b ==> b[0] == '2' && b[1] == '8'
    ensures S502 <= b ==> b[0] == '5'
    ensures S205 <= b ==> b[0] == '2' && b[1] == '0' && b[2] == '5'
    ensures S215 <= b ==> b[0] == '2' && b[1] == '1' && b[2] == '5'
    ensures S211 <= b ==> b[0] == '2' && b[1] == '1' && b[2] == '1'
    ensures S211_LIST <= b ==> S211 <= b
    ensures b == "." ==> b[0] == '.'
  {
    assert S211 <= S211_LIST;
  }

  lemma {:induction false} HeardSnoc(log: seq<Event>, e: Event, status: string)
    ensures HeardStatus(log + [e], status) <==> HeardStatus(log, status) || (e.Heard? && status <= e.buffer)
  {
    if HeardStatus(log, status) { HeardStays(log, e, status); }
    if e.Heard? && status <= e.buffer { JustHeardNow(log, e.buffer, status); }
    if HeardStatus(log + [e], status) {
      var i :| 0 <= i < |log + [e]| && (log + [e])[i].Heard? && status <= (log + [e])[i].buffer;
      assert i < |log| ==> (log + [e])[i] == log[i];
    }
  }

  /** An event of its own: it needs no notice and is none. */
  lemma {:induction false} OwnEvent(log: seq<Event>, e: Event)
    requires Answered(log) && TurnedDown(log) && Brings(e).None? && !e.Notified?
    requires e.NotConnected? ==> !HeardStatus(log, S281)
    ensures Answered(log + [e]) && TurnedDown(log + [e])
  {
    hide HeardStatus;
    var l := log + [e];
    forall i | 0 <= i < |l| ensures l[..i] == if i < |log| then log[..i] else log {}
    assert forall i | 0 <= i < |log| :: l[i] == log[i];
  }

  /** An event with its notice. */
  lemma {:induction false} EventAndNotice(log: seq<Event>, e: Event, n: Notice)
    requires Answered(log) && TurnedDown(log) && Explains(e, n)
    ensures Answered(log + [e] + [Notified(n)]) && TurnedDown(log + [e] + [Notified(n)])
  {
    hide HeardStatus;
    var l := log + [e] + [Notified(n)];
    forall i | 0 <= i < |log| ensures l[..i] == log[..i] && l[i] == log[i] {}
    assert l[|log|] == e && l[|log| + 1] == Notified(n);
  }

  lemma {:induction false} LogHonest(r: Reader, e: Event)
    requires Honest(r) && Brings(e).None? && !e.Notified? && !e.Heard?
    requires e.NotConnected? ==> !r.connected
    ensures Honest(Log(r, e))
  {
    OwnEvent(r.log, e);
    HeardSnoc(r.log, e, S281);
    HeardSnoc(r.log, e, S211);
    HeardSnoc(r.log, e, S215);
  }

  lemma {:induction false} PerformHonest(r: Reader, c: Call)
    requires Honest(r)
    ensures Honest(Perform(r, c))
  {
    hide Honest;
    if !r.connected && (c.CallArticle? || c.CallHeader? || c.CallListArticles? || c.CallListGroups?) {
      LogHonest(r, NotConnected);
    } else {
      var r' := Perform(r, c);
      assert r'.connected == r.connected && r'.resultsComing == r.resultsComing;
      assert r'.log == r.log || exists x :: r'.log == r.log + [Sent(x)];
      if r'.log != r.log {
        var x :| r'.log == r.log + [Sent(x)];
        LogHonest(r, Sent(x));
        SameLog(Log(r, Sent(x)), r');
      } else {
        SameLog(r, r');
      }
    }
  }

  lemma {:induction false} SameLog(r: Reader, r': Reader)
    requires Honest(r) && r'.log == r.log && r'.connected == r.connected && r'.resultsComing == r.resultsComing
    ensures Honest(r')
  {
  }

  lemma {:induction false} PerformAllHonest(r: Reader, cs: seq<Call>)
    requires Honest(r)
    ensures Honest(PerformAll(r, cs))
    decreases |cs|
  {
    hide Honest, Perform;
    if cs != [] {
      PerformHonest(r, cs[0]);
      PerformAllHonest(Perform(r, cs[0]), cs[1..]);
    }
  }

  /** The flags after a notice and the calls made inside it. */
  lemma {:induction false} NotifyHonest(r: Reader, e: Event, r1: Reader, n: Notice)
    requires Honest(r) && Explains(e, n) && r1.log == r.log + [e]
    requires r1.connected == (r.connected || (e.Heard? && S281 <= e.buffer))
    requires r1.resultsComing == r.resultsComing
    requires e.Heard? ==> !(S211 <= e.buffer) && !(S215 <= e.buffer)
    ensures Honest(Notify(r1, n))
  {
    hide React;
    EventAndNotice(r.log, e, n);
    HeardSnoc(r.log, e, S281);
    HeardSnoc(r.log, e, S211);
    HeardSnoc(r.log, e, S215);
    HeardSnoc(r1.log, Notified(n), S281);
    HeardSnoc(r1.log, Notified(n), S211);
    HeardSnoc(r1.log, Notified(n), S215);
    var (d, calls) := React(r1.delegate, n);
    hide Answered, TurnedDown, HeardStatus;
    PerformAllHonest(Log(r1, Notified(n)).(delegate := d), calls);
  }

  lemma {:induction false} HeardHonest(r: Reader, b: string, r': Reader)
    requires Honest(r) && Brings(Heard(b)).None?
    requires r'.log == r.log + [Heard(b)] && r'.connected == r.connected
    requires r'.resultsComing == (r.resultsComing || S211 <= b || S215 <= b)
    ensures Honest(r')
  {
    OwnEvent(r.log, Heard(b));
    HeardSnoc(r.log, Heard(b), S281);
    HeardSnoc(r.log, Heard(b), S211);
    HeardSnoc(r.log, Heard(b), S215);
  }

  lemma {:induction false} SentHonest(r: Reader, r': Reader, c: Command)
    requires Honest(r) && r' == Send(r, c)
    ensures Honest(r')
  {
    if r.isOpen {
      LogHonest(r, Sent(c));
    }
  }

  lemma {:induction false} ProcessHonest(r0: Reader, b: string)
    requires Honest(r0)
    ensures Honest(ProcessResponse(r0, b))
  {
    hide Honest, Notify, Send;
    var r, e := Log(r0, Heard(b)), Heard(b);
    StatusesAreDistinct(b);
    if b == "." || S281 <= b || S502 <= b || S205 <= b {
      var n := Brings(e).value;
      var r1 := if n == Connected then r.(connected := true)
                else if n == Disconnected then r.(isOpen := false) else r;
      NotifyHonest(r0, e, r1, n);
      SameLog(Notify(r1, n), ProcessResponse(r0, b));
    } else {
      var r1 := r.(resultsComing := r.resultsComing || S211 <= b || S215 <= b);
      HeardHonest(r0, b, r1);
      AnsweredHonest(r0, b, r1);
    }
  }

  lemma {:induction false} AnsweredHonest(r0: Reader, b: string, r1: Reader)
    requires Brings(Heard(b)).None? && Honest(r1)
    requires r1 == Log(r0, Heard(b)).(resultsComing := r0.resultsComing || S211 <= b || S215 <= b)
    ensures Honest(ProcessResponse(r0, b))
  {
    hide Honest;
    StatusesAreDistinct(b);
    SameLog(r1, Clear(r1));
    SentHonest(r1, Send(r1, AuthUser(r1.username)), AuthUser(r1.username));
    SentHonest(r1, Send(r1, AuthPass(r1.password)), AuthPass(r1.password));
    SentHonest(Clear(r1), Send(Clear(r1), r1.groupCommand), r1.groupCommand);
    SameLog(Send(r1, AuthUser(r1.username)), Clear(Send(r1, AuthUser(r1.username))));
    SameLog(Send(r1, AuthPass(r1.password)), Clear(Send(r1, AuthPass(r1.password))));
  }

  lemma {:induction false} TakeBufferHonest(r: Reader)
    requires Honest(r)
    ensures Honest(TakeBuffer(r))
  {
    hide Honest, Notify, Lines, HeaderMap, LastSplit, NotDots, ParseGroups;
    var (prefix, rest) := LastSplit(r.response);
    var lines := Lines(prefix);
    var r0 := r.(response := rest);
    SameLog(r, r0);
    var r1 := TakeArticle(r0, prefix);
    assert Honest(r1) by {
      var a := r0.(article := r0.article + prefix + CRLF);
      SameLog(r0, a);
      NotifyHonest(a, GotArticleText(a.article), Log(a, GotArticleText(a.article)), Finished);
    }
    var r2 := TakeHeader(r1, prefix);
    assert Honest(r2) by {
      var e := GotHeader(r1.articleId, HeaderMap(prefix));
      NotifyHonest(r1, e, Log(r1, e), NextArticle);
    }
    var r3 := TakeIds(r2, lines);
    assert Honest(r3) by {
      var e := GotIds(NotDots(lines));
      LogHonest(r2, e);
      NotifyHonest(r2, e, Log(r2, e), Finished);
    }
    var e := GotGroups(ParseGroups(NotDots(lines)));
    LogHonest(r3, e);
    NotifyHonest(r3, e, Log(r3, e), Finished);
  }

  lemma {:induction false} ReadLoopHonest(r: Reader, chunks: seq<string>)
    requires Honest(r)
    ensures Honest(ReadLoop(r, chunks).0)
    decreases |chunks|
  {
    hide Honest, TakeBuffer;
    if chunks != [] && r.isOpen {
      var r1 := r.(response := r.response + chunks[0]);
      SameLog(r, r1);
      if r1.resultsComing {
        TakeBufferHonest(r1);
        ReadLoopHonest(TakeBuffer(r1), chunks[1..]);
      }
    }
  }

  lemma {:induction false} DeliverHonest(r: Reader, chunks: seq<string>)
    requires Honest(r)
    ensures Honest(Deliver(r, chunks))
    decreases |chunks|
  {
    hide Honest, ReadLoop, ProcessResponse;
    if chunks != [] && r.isOpen {
      var (r1, rest) := ReadLoop(r, chunks);
      ReadLoopHonest(r, chunks);
      ProcessHonest(r1, r1.response);
      DeliverHonest(ProcessResponse(r1, r1.response), rest);
    }
  }

  lemma {:induction false} ExecHonest(r: Reader, steps: seq<Step>)
    requires Honest(r)
    ensures Honest(Exec(r, steps))
    decreases |steps|
  {
    hide Honest, Perform, Deliver;
    if steps != [] {
      match steps[0] {
        case Open => SameLog(r, r.(isOpen := true));
        case User(c) => PerformHonest(r, c);
        case Arrive(chunks) => DeliverHonest(r, chunks);
      }
      ExecHonest(Take(r, steps[0]), steps[1..]);
    }
  }

  /** Over every run from a new reader: each text that says so is followed directly by its notice,
      and no notice comes in any other place. */
  lemma {:induction false} EveryStatusIsTold(username: string, password: string, d: Delegate, steps: seq<Step>, i: nat)
    requires i < |Exec(Fresh(username, password, d), steps).log|
    ensures var log := Exec(Fresh(username, password, d), steps).log;
            && (log[i].Heard? && "281 Welcome To Easynews." <= log[i].buffer ==>
                  i + 1 < |log| && log[i + 1] == Notified(Connected))
            && (log[i].Heard? && "502 Authentication Failed" <= log[i].buffer ==>
                  i + 1 < |log| && log[i + 1] == Notified(ConnectionFailed))
            && (log[i].Heard? && "205 Goodbye" <= log[i].buffer ==>
                  i + 1 < |log| && log[i + 1] == Notified(Disconnected))
            && (log[i].Heard? && log[i].buffer == "." ==> i + 1 < |log| && log[i + 1] == Notified(Finished))
            && (log[i].GotHeader? ==> i + 1 < |log| && log[i + 1] == Notified(NextArticle))
            && (log[i].GotArticleText? ==> i + 1 < |log| && log[i + 1] == Notified(Finished))
    ensures var log := Exec(Fresh(username, password, d), steps).log;
            && (log[i] == Notified(Connected) ==> JustHeard(log[..i], "281 Welcome To Easynews."))
            && (log[i] == Notified(ConnectionFailed) ==> JustHeard(log[..i], "502 Authentication Failed"))
            && (log[i] == Notified(Disconnected) ==> JustHeard(log[..i], "205 Goodbye"))
            && (log[i] == Notified(NextArticle) ==> i > 0 && log[i - 1].GotHeader?)
            && (log[i] == Notified(Finished) ==>
                  i > 0 && (log[i - 1] == Heard(".") || log[i - 1].GotArticleText? || log[i - 1].GotIds?
                            || log[i - 1].GotGroups?))
  {
    hide Exec, TurnedDown, HeardStatus;
    NewIsHonest(username, password, d);
    ExecHonest(Fresh(username, password, d), steps);
    var log := Exec(Fresh(username, password, d), steps).log;
    if log[i].Heard? {
      StatusesAreDistinct(log[i].buffer);
    }
    assert log[i].Notified? ==> log[..i][|log[..i]| - 1] == log[i - 1];
  }

  lemma {:induction false} NewIsHonest(username: string, password: string, d: Delegate)
    ensures Honest(Fresh(username, password, d))
  {
  }

  /** Over every run from a new reader: it counts as connected if and only if a 281 was heard, and
      results are coming if and only if a 211 or a 215 was; a request is turned down as not
      connected only before the 281. */
  lemma {:induction false} FlagsAreHonest(username: string, password: string, d: Delegate, steps: seq<Step>)
    ensures var r := Exec(Fresh(username, password, d), steps);
            && (r.connected <==> HeardStatus(r.log, S281))
            && (r.resultsComing <==> HeardStatus(r.log, S211) || HeardStatus(r.log, S215))
            && (forall i | 0 <= i < |r.log| && r.log[i].NotConnected? :: !HeardStatus(r.log[..i], S281))
  {
    hide Exec, Answered, HeardStatus;
    NewIsHonest(username, password, d);
    ExecHonest(Fresh(username, password, d), steps);
  }

  // ----- what is asked for goes out -----

  /** Over every run: a request before the 281 is turned down and does nothing else. After it, on an
      open reader, exactly one command goes out. While results are coming that is the article or the
      header itself, and the operation and the text left over stay; otherwise its group, and the
      text left over is dropped. */
  lemma {:induction false} RequestsGoOut(username: string, password: string, d: Delegate, steps: seq<Step>,
                                          group: string, id: string)
    ensures var r := Exec(Fresh(username, password, d), steps);
            !HeardStatus(r.log, S281) ==>
              && Perform(r, CallArticle(group, id)) == Perform(r, CallHeader(group, id))
                 == Perform(r, CallListArticles(group)) == Perform(r, CallListGroups)
                 == r.(log := r.log + [NotConnected])
    ensures var r := Exec(Fresh(username, password, d), steps);
            var results := HeardStatus(r.log, S211) || HeardStatus(r.log, S215);
            r.isOpen && HeardStatus(r.log, S281) && results ==>
              && Perform(r, CallArticle(group, id))
                 == r.(article := "", articleId := id, log := r.log + [Sent(GetArticle(id))])
              && Perform(r, CallHeader(group, id)) == r.(articleId := id, log := r.log + [Sent(Head(id))])
    ensures var r := Exec(Fresh(username, password, d), steps);
            var results := HeardStatus(r.log, S211) || HeardStatus(r.log, S215);
            r.isOpen && HeardStatus(r.log, S281) && !results ==>
              && Perform(r, CallArticle(group, id))
                 == r.(article := "", articleId := id, op := Some(Article), response := "",
                       groupCommand := GetArticle(id), log := r.log + [Sent(Group(group))])
              && Perform(r, CallHeader(group, id))
                 == r.(articleId := id, op := Some(ArticleHeader), response := "",
                       groupCommand := Head(id), log := r.log + [Sent(Group(group))])
    ensures var r := Exec(Fresh(username, password, d), steps);
            r.isOpen && HeardStatus(r.log, S281) ==>
              && Perform(r, CallListArticles(group))
                 == r.(op := Some(ListGroupArticles), response := "", log := r.log + [Sent(ListGroup(group))])
              && Perform(r, CallListGroups)
                 == r.(op := Some(ListGroups), response := "", log := r.log + [Sent(List)])
  {
    FlagsAreHonest(username, password, d, steps);
    hide Exec, HeardStatus;
  }

  /** The group that is selected gets the command that waits for it: the last article or header
      that was asked for. */
  lemma {:induction false} GroupAnswers(r: Reader, c: Call, line: string)
    requires r.connected && r.isOpen && !r.resultsComing && (c.CallArticle? || c.CallHeader?)
    requires S211 <= line && !(S211_LIST <= line)
    ensures var r1 := Perform(r, c);
            var wanted := if c.CallArticle? then GetArticle(c.id) else Head(c.id);
            r1.isOpen && ProcessResponse(r1, line).log == r1.log + [Heard(line), Sent(wanted)]
  {
    hide Notify;
    StatusesAreDistinct(line);
    var r1 := Perform(r, c);
    assert r1.log + [Heard(line)] + [Sent(r1.groupCommand)] == r1.log + [Heard(line), Sent(r1.groupCommand)];
  }

  // ----- what one read tells -----

  /** A read for a delegate that only listens, operation by operation. Of a list all lines but lone
      dots are told, and Done just when there is a lone dot among them, wherever it stands; an empty
      read of ids is told, one of groups is not. A header is told after every read. An article is
      told just when its last line is a lone dot. What follows the last line end is kept. */
  lemma {:induction false} ReadIsTold(r: Reader)
    requires r.resultsComing && r.delegate == Script([])
    ensures var (prefix, rest) := LastSplit(r.response);
            var lines, r', done := Lines(prefix), TakeBuffer(r), [Notified(Finished)];
            && r'.response == rest && r'.isOpen == r.isOpen
            && (r.op == None ==> r'.log == r.log)
            && (r.op == Some(ListGroupArticles) ==>
                  r'.log == r.log + [GotIds(NotDots(lines))] + if "." in lines then done else [])
            && (r.op == Some(ListGroups) ==>
                  r'.log == if lines == [] then r.log
                            else r.log + [GotGroups(ParseGroups(NotDots(lines)))] + if "." in lines then done else [])
            && (r.op == Some(ArticleHeader) ==>
                  r'.log == r.log + [GotHeader(r.articleId, HeaderMap(prefix)), Notified(NextArticle)])
            && (r.op == Some(Article) ==>
                  var text := r.article + prefix + CRLF;
                  && r'.article == text
                  && r'.log == r.log + if Lines(text) != [] && Last(Lines(text)) == "."
                                       then [GotArticleText(text), Notified(Finished)] else [])
  {
    hide Notify, Lines, LastSplit, HeaderMap, NotDots, ParseGroups;
    var (prefix, rest) := LastSplit(r.response);
    var r0 := r.(response := rest);
    var lines := Lines(prefix);
    var a := r0.(article := r0.article + prefix + CRLF);
    ListenerHears(Log(a, GotArticleText(a.article)), Finished);
    ListenerHears(Log(r0, GotHeader(r0.articleId, HeaderMap(prefix))), NextArticle);
    ListenerHears(Log(r0, GotIds(NotDots(lines))), Finished);
    ListenerHears(Log(r0, GotGroups(ParseGroups(NotDots(lines)))), Finished);
  }

  // ----- one read, several operations -----

  /** The operations look at a read in a fixed order, so a delegate that asks for another list
      inside a notice may be told the lines of this read as the lines of that list. */
  lemma {:induction false} NextOperationTakesRead(r: Reader, group: string, more: seq<seq<Call>>)
    requires r.isOpen && r.connected && r.resultsComing && r.op == Some(ArticleHeader)
    requires r.delegate == Script([[CallListArticles(group)]] + more)
    ensures var (prefix, _) := LastSplit(r.response);
            r.log + [GotHeader(r.articleId, HeaderMap(prefix)), Notified(NextArticle), Sent(ListGroup(group)),
                     GotIds(NotDots(Lines(prefix)))] <= TakeBuffer(r).log
  {
    hide Lines, LastSplit, HeaderMap, NotDots;
    var (prefix, rest) := LastSplit(r.response);
    var r0 := r.(response := rest);
    Reaction(Log(r0, GotHeader(r.articleId, HeaderMap(prefix))), NextArticle, CallListArticles(group), more);
    var r2 := TakeHeader(TakeArticle(r0, prefix), prefix);
    assert r2.log == r.log + [GotHeader(r.articleId, HeaderMap(prefix)), Notified(NextArticle), Sent(ListGroup(group))];
    IdsAreTold(r2, Lines(prefix));
  }

  lemma {:induction false} IdsAreTold(r2: Reader, lines: seq<string>)
    requires Doing(r2, ListGroupArticles)
    ensures r2.log + [GotIds(NotDots(lines))] <= TakeGroups(TakeIds(r2, lines), lines).log
  {
    hide Notify, NotDots, ParseGroups;
    var r3 := Log(r2, GotIds(NotDots(lines)));
    NotifyGrows(r3, Finished);
    var r4 := TakeIds(r2, lines);
    assert r3.log <= r4.log;
    var r5 := Log(r4, GotGroups(ParseGroups(NotDots(lines))));
    NotifyGrows(r5, Finished);
  }

  /** The delegate's one call inside a notice. */
  lemma {:induction false} Reaction(r: Reader, n: Notice, c: Call, more: seq<seq<Call>>)
    requires r.delegate == Script([[c]] + more)
    ensures Notify(r, n) == Perform(Log(r, Notified(n)).(delegate := Script(more)), c)
  {
    assert ([[c]] + more)[1..] == more && [c][1..] == [];
    var r1 := Log(r, Notified(n)).(delegate := Script(more));
    assert PerformAll(r1, [c]) == PerformAll(Perform(r1, c), []);
  }

  /** The list of groups comes after that of ids: its lines may be those of the ids, but not the
      other way round. */
  lemma {:induction false} GroupsComeLast(r: Reader, group: string, lines: seq<string>, more: seq<seq<Call>>)
    requires r.isOpen && r.connected && r.resultsComing && "." in lines
    ensures r.op == Some(ListGroupArticles) && r.delegate == Script([[CallListGroups]] + more) ==>
              r.log + [GotIds(NotDots(lines)), Notified(Finished), Sent(List), GotGroups(ParseGroups(NotDots(lines)))]
              <= TakeGroups(TakeIds(r, lines), lines).log
    ensures r.op == Some(ListGroups) && r.delegate == Script([[CallListArticles(group)]] + more) ==>
              TakeGroups(TakeIds(r, lines), lines).log
              == r.log + [GotGroups(ParseGroups(NotDots(lines))), Notified(Finished), Sent(ListGroup(group))]
  {
    hide Notify, NotDots, ParseGroups;
    var ids, groups := NotDots(lines), ParseGroups(NotDots(lines));
    if r.op == Some(ListGroupArticles) && r.delegate == Script([[CallListGroups]] + more) {
      Reaction(Log(r, GotIds(ids)), Finished, CallListGroups, more);
      var r1 := TakeIds(r, lines);
      assert r1.log == r.log + [GotIds(ids), Notified(Finished), Sent(List)];
      NotifyGrows(Log(r1, GotGroups(groups)), Finished);
    }
    if r.op == Some(ListGroups) && r.delegate == Script([[CallListArticles(group)]] + more) {
      Reaction(Log(r, GotGroups(groups)), Finished, CallListArticles(group), more);
    }
  }

  // ----- when the reader closes -----

  /** The delegate after all that it was told. */
  function DelegateAfter(d: Delegate, log: seq<Event>): Delegate {
    if log == [] then d
    else
      var d' := DelegateAfter(d, log[..|log| - 1]);
      if log[|log| - 1].Notified? then React(d', log[|log| - 1].notice).0 else d'
  }

  /** The i-th event is a 205, or a notice at which the delegate closes the reader. */
  predicate ClosedAt(d: Delegate, log: seq<Event>, i: nat)
    requires i < |log|
  {
    || (log[i].Heard? && "205 Goodbye" <= log[i].buffer)
    || (log[i].Notified? && CallClose in React(DelegateAfter(d, log[..i]), log[i].notice).1)
  }

  ghost predicate NeverClosed(d: Delegate, log: seq<Event>) {
    forall i | 0 <= i < |log| :: !ClosedAt(d, log, i)
  }

  /** Each prompt that an open reader hears is answered with the name or the password. */
  ghost predicate LoginAnswered(d: Delegate, username: string, password: string, log: seq<Event>) {
    forall i | 0 <= i < |log| && NeverClosed(d, log[..i]) :: PromptAnswered(username, password, log, i)
  }

  predicate PromptAnswered(username: string, password: string, log: seq<Event>, i: nat)
    requires i < |log|
  {
    log[i].Heard? ==>
      && (S200 <= log[i].buffer ==> i + 1 < |log| && log[i + 1] == Sent(AuthUser(username)))
      && (S381 <= log[i].buffer ==> i + 1 < |log| && log[i + 1] == Sent(AuthPass(password)))
  }

  lemma {:induction false} AnswerStays(username: string, password: string, log: seq<Event>, l: seq<Event>, i: nat)
    requires log <= l && i < |log| && PromptAnswered(username, password, log, i)
    ensures PromptAnswered(username, password, l, i)
  {
    assert l[i] == log[i];
    assert i + 1 < |log| ==> l[i + 1] == log[i + 1];
  }

  /** `closed` says that the user has closed the reader. */
  ghost predicate Tracks(d: Delegate, username: string, password: string, closed: bool, r: Reader) {
    && r.username == username && r.password == password
    && r.delegate == DelegateAfter(d, r.log)
    && (r.isOpen <==> !closed && NeverClosed(d, r.log))
    && LoginAnswered(d, username, password, r.log)
  }

  lemma {:induction false} CloseSnoc(d: Delegate, log: seq<Event>, e: Event)
    ensures DelegateAfter(d, log + [e]) == if e.Notified? then React(DelegateAfter(d, log), e.notice).0
                                           else DelegateAfter(d, log)
    ensures NeverClosed(d, log + [e]) <==>
              && NeverClosed(d, log) && !(e.Heard? && "205 Goodbye" <= e.buffer)
              && !(e.Notified? && CallClose in React(DelegateAfter(d, log), e.notice).1)
  {
    hide React;
    var l := log + [e];
    assert l[..|log|] == log;
    forall i | 0 <= i < |log| ensures ClosedAt(d, l, i) == ClosedAt(d, log, i) {
      assert l[..i] == log[..i] && l[i] == log[i];
    }
    if NeverClosed(d, l) {
      forall i | 0 <= i < |log| ensures !ClosedAt(d, log, i) {}
      assert !ClosedAt(d, l, |log|);
    }
  }

  /** An event that is no prompt. */
  lemma {:induction false} LoginSnoc(d: Delegate, username: string, password: string, log: seq<Event>, e: Event)
    requires LoginAnswered(d, username, password, log)
    requires e.Heard? && NeverClosed(d, log) ==> !(S200 <= e.buffer) && !(S381 <= e.buffer)
    ensures LoginAnswered(d, username, password, log + [e])
  {
    hide NeverClosed;
    var l := log + [e];
    assert PromptAnswered(username, password, l, |log|) || !NeverClosed(d, log);
    hide PromptAnswered;
    forall i | 0 <= i < |l| && NeverClosed(d, l[..i]) ensures PromptAnswered(username, password, l, i) {
      if i < |log| {
        assert l[..i] == log[..i];
        AnswerStays(username, password, log, l, i);
      } else {
        assert l[..i] == log;
      }
    }
  }

  /** A prompt with its answer. */
  lemma {:induction false} PromptSnoc(d: Delegate, username: string, password: string, log: seq<Event>, b: string,
                                       c: Command)
    requires LoginAnswered(d, username, password, log)
    requires S200 <= b ==> c == AuthUser(username)
    requires S381 <= b ==> c == AuthPass(password)
    ensures LoginAnswered(d, username, password, log + [Heard(b)] + [Sent(c)])
  {
    hide NeverClosed;
    var l := log + [Heard(b)] + [Sent(c)];
    assert l[|log|] == Heard(b) && l[|log| + 1] == Sent(c);
    assert PromptAnswered(username, password, l, |log|) && PromptAnswered(username, password, l, |log| + 1);
    hide PromptAnswered;
    forall i | 0 <= i < |l| && NeverClosed(d, l[..i]) ensures PromptAnswered(username, password, l, i) {
      if i < |log| {
        assert l[..i] == log[..i];
        AnswerStays(username, password, log, l, i);
      }
    }
  }

  lemma {:induction false} PerformTracks(d: Delegate, u: string, p: string, r: Reader, c: Call)
    ensures var r' := Perform(r, c);
            && r'.isOpen == (r.isOpen && c != CallClose) && r'.delegate == r.delegate
            && r'.username == r.username && r'.password == r.password
            && (LoginAnswered(d, u, p, r.log) ==> LoginAnswered(d, u, p, r'.log))
            && DelegateAfter(d, r'.log) == DelegateAfter(d, r.log)
            && (NeverClosed(d, r'.log) <==> NeverClosed(d, r.log))
  {
    hide LoginAnswered, NeverClosed, DelegateAfter, React;
    var r' := Perform(r, c);
    assert r'.log == r.log || exists e :: r'.log == r.log + [e] && (e.Sent? || e.NotConnected?);
    if r'.log != r.log {
      var e :| r'.log == r.log + [e] && (e.Sent? || e.NotConnected?);
      CloseSnoc(d, r.log, e);
      if LoginAnswered(d, u, p, r.log) { LoginSnoc(d, u, p, r.log, e); }
    }
  }

  lemma {:induction false} PerformAllTracks(d: Delegate, u: string, p: string, r: Reader, cs: seq<Call>)
    ensures var r' := PerformAll(r, cs);
            && r'.isOpen == (r.isOpen && CallClose !in cs) && r'.delegate == r.delegate
            && r'.username == r.username && r'.password == r.password
            && (LoginAnswered(d, u, p, r.log) ==> LoginAnswered(d, u, p, r'.log))
            && DelegateAfter(d, r'.log) == DelegateAfter(d, r.log)
            && (NeverClosed(d, r'.log) <==> NeverClosed(d, r.log))
    decreases |cs|
  {
    hide Perform, LoginAnswered, NeverClosed, DelegateAfter;
    if cs != [] {
      PerformTracks(d, u, p, r, cs[0]);
      PerformAllTracks(d, u, p, Perform(r, cs[0]), cs[1..]);
      assert cs == [cs[0]] + cs[1..];
    }
  }

  lemma {:induction false} NotifyTracks(d: Delegate, u: string, p: string, closed: bool, r: Reader, n: Notice)
    requires Tracks(d, u, p, closed, r)
    ensures Tracks(d, u, p, closed, Notify(r, n))
  {
    hide LoginAnswered, NeverClosed, React;
    var (d', calls) := React(r.delegate, n);
    CloseSnoc(d, r.log, Notified(n));
    LoginSnoc(d, u, p, r.log, Notified(n));
    PerformAllTracks(d, u, p, Log(r, Notified(n)).(delegate := d'), calls);
  }

  /** An event that closes nothing and is no prompt; other fields do not matter. */
  lemma {:induction false} EventTracks(d: Delegate, u: string, p: string, closed: bool, r: Reader, e: Event, r': Reader)
    requires Tracks(d, u, p, closed, r) && !e.Notified? && !e.Heard?
    requires r'.log == r.log + [e] && r'.delegate == r.delegate && r'.isOpen == r.isOpen
    requires r'.username == u && r'.password == p
    ensures Tracks(d, u, p, closed, r')
  {
    hide LoginAnswered, NeverClosed, React;
    CloseSnoc(d, r.log, e);
    LoginSnoc(d, u, p, r.log, e);
  }

  lemma {:induction false} SameTracks(d: Delegate, u: string, p: string, closed: bool, r: Reader, r': Reader)
    requires Tracks(d, u, p, closed, r)
    requires r'.log == r.log && r'.delegate == r.delegate && r'.isOpen == r.isOpen
    requires r'.username == u && r'.password == p
    ensures Tracks(d, u, p, closed, r')
  {
  }

  /** A text that is no prompt, or comes too late: it closes the reader just when it is a 205. */
  lemma {:induction false} TextTracks(d: Delegate, u: string, p: string, r: Reader, b: string, r': Reader)
    requires Tracks(d, u, p, false, r) && (r.isOpen ==> !(S200 <= b) && !(S381 <= b))
    requires r'.log == r.log + [Heard(b)] && r'.delegate == r.delegate && r'.isOpen == (r.isOpen && !(S205 <= b))
    requires r'.username == u && r'.password == p
    ensures Tracks(d, u, p, false, r')
  {
    hide LoginAnswered, NeverClosed, React;
    CloseSnoc(d, r.log, Heard(b));
    LoginSnoc(d, u, p, r.log, Heard(b));
  }

  /** A prompt and its answer. */
  lemma {:induction false} PromptTracks(d: Delegate, u: string, p: string, r: Reader, b: string, c: Command, r': Reader)
    requires Tracks(d, u, p, false, r) && r.isOpen
    requires (S200 <= b && c == AuthUser(u)) || (S381 <= b && c == AuthPass(p))
    requires r' == r.(log := r.log + [Heard(b)] + [Sent(c)], response := r'.response)
    ensures Tracks(d, u, p, false, r')
  {
    hide LoginAnswered, NeverClosed, React;
    StatusesAreDistinct(b);
    CloseSnoc(d, r.log, Heard(b));
    CloseSnoc(d, r.log + [Heard(b)], Sent(c));
    PromptSnoc(d, u, p, r.log, b, c);
  }

  lemma {:induction false} ProcessTracks(d: Delegate, u: string, p: string, r0: Reader, b: string)
    requires Tracks(d, u, p, false, r0)
    ensures Tracks(d, u, p, false, ProcessResponse(r0, b))
  {
    hide Tracks, Notify, React;
    StatusesAreDistinct(b);
    OwnNames(d, u, p, r0);
    var r := Log(r0, Heard(b));
    if b == "." || S281 <= b || S502 <= b || S205 <= b {
      var n := Brings(Heard(b)).value;
      var r1 := if n == Connected then r.(connected := true)
                else if n == Disconnected then r.(isOpen := false) else r;
      TextTracks(d, u, p, r0, b, r1);
      NotifyTracks(d, u, p, false, r1, n);
      OwnNames(d, u, p, Notify(r1, n));
      SameTracks(d, u, p, false, Notify(r1, n), Clear(Notify(r1, n)));
    } else if (S200 <= b || S381 <= b) && r0.isOpen {
      PromptTracks(d, u, p, r0, b, if S200 <= b then AuthUser(u) else AuthPass(p), ProcessResponse(r0, b));
    } else {
      var r1 := r.(resultsComing := r.resultsComing || S211 <= b || S215 <= b);
      TextTracks(d, u, p, r0, b, r1);
      ResultTracks(d, u, p, r0, b, r1);
    }
  }

  lemma {:induction false} OwnNames(d: Delegate, u: string, p: string, r: Reader)
    requires Tracks(d, u, p, false, r)
    ensures r.username == u && r.password == p
  {
  }

  lemma {:induction false} ResultTracks(d: Delegate, u: string, p: string, r0: Reader, b: string, r1: Reader)
    requires Tracks(d, u, p, false, r1) && r1.username == u && r1.password == p
    requires Brings(Heard(b)).None? && (r0.isOpen ==> !(S200 <= b) && !(S381 <= b))
    requires r1 == Log(r0, Heard(b)).(resultsComing := r0.resultsComing || S211 <= b || S215 <= b)
    ensures Tracks(d, u, p, false, ProcessResponse(r0, b))
  {
    hide Tracks, Notify, React;
    StatusesAreDistinct(b);
    var r2 := ProcessResponse(r0, b);
    if r2.log == r1.log {
      SameTracks(d, u, p, false, r1, r2);
    } else {
      EventTracks(d, u, p, false, r1, Sent(r1.groupCommand), r2);
    }
  }

  lemma {:induction false} TakeArticleTracks(d: Delegate, u: string, p: string, r: Reader, prefix: string)
    requires Tracks(d, u, p, false, r)
    ensures Tracks(d, u, p, false, TakeArticle(r, prefix))
  {
    OwnNames(d, u, p, r);
    hide Tracks, Notify, Lines;
    var a := r.(article := r.article + prefix + CRLF);
    SameTracks(d, u, p, false, r, a);
    var a' := Log(a, GotArticleText(a.article));
    EventTracks(d, u, p, false, a, GotArticleText(a.article), a');
    NotifyTracks(d, u, p, false, a', Finished);
  }

  lemma {:induction false} ReportTracks(d: Delegate, u: string, p: string, r: Reader, e: Event, n: Notice)
    requires Tracks(d, u, p, false, r) && !e.Notified? && !e.Heard?
    ensures Tracks(d, u, p, false, Log(r, e)) && Tracks(d, u, p, false, Notify(Log(r, e), n))
  {
    OwnNames(d, u, p, r);
    hide Tracks, Notify;
    EventTracks(d, u, p, false, r, e, Log(r, e));
    NotifyTracks(d, u, p, false, Log(r, e), n);
  }

  lemma {:induction false} TakeBufferTracks(d: Delegate, u: string, p: string, r: Reader)
    requires Tracks(d, u, p, false, r)
    ensures Tracks(d, u, p, false, TakeBuffer(r))
  {
    OwnNames(d, u, p, r);
    hide Tracks, TakeArticle, Notify, Lines, HeaderMap, LastSplit, NotDots, ParseGroups;
    var (prefix, rest) := LastSplit(r.response);
    var lines := Lines(prefix);
    var r0 := r.(response := rest);
    SameTracks(d, u, p, false, r, r0);
    TakeArticleTracks(d, u, p, r0, prefix);
    var r1 := TakeArticle(r0, prefix);
    ReportTracks(d, u, p, r1, GotHeader(r1.articleId, HeaderMap(prefix)), NextArticle);
    var r2 := TakeHeader(r1, prefix);
    ReportTracks(d, u, p, r2, GotIds(NotDots(lines)), Finished);
    var r3 := TakeIds(r2, lines);
    ReportTracks(d, u, p, r3, GotGroups(ParseGroups(NotDots(lines))), Finished);
  }

  lemma {:induction false} ReadLoopTracks(d: Delegate, u: string, p: string, r: Reader, chunks: seq<string>)
    requires Tracks(d, u, p, false, r)
    ensures Tracks(d, u, p, false, ReadLoop(r, chunks).0)
    decreases |chunks|
  {
    OwnNames(d, u, p, r);
    hide Tracks, TakeBuffer;
    if chunks != [] && r.isOpen {
      var r1 := r.(response := r.response + chunks[0]);
      SameTracks(d, u, p, false, r, r1);
      if r1.resultsComing {
        TakeBufferTracks(d, u, p, r1);
        ReadLoopTracks(d, u, p, TakeBuffer(r1), chunks[1..]);
      }
    }
  }

  lemma {:induction false} DeliverTracks(d: Delegate, u: string, p: string, r: Reader, chunks: seq<string>)
    requires Tracks(d, u, p, false, r)
    ensures Tracks(d, u, p, false, Deliver(r, chunks))
    decreases |chunks|
  {
    hide Tracks, ReadLoop, ProcessResponse;
    if chunks != [] && r.isOpen {
      var (r1, rest) := ReadLoop(r, chunks);
      ReadLoopTracks(d, u, p, r, chunks);
      ProcessTracks(d, u, p, r1, r1.response);
      DeliverTracks(d, u, p, ProcessResponse(r1, r1.response), rest);
    }
  }

  lemma {:induction false} UserTracks(d: Delegate, u: string, p: string, closed: bool, r: Reader, c: Call)
    requires Tracks(d, u, p, closed, r)
    ensures Tracks(d, u, p, closed || c == CallClose, Perform(r, c))
  {
    hide LoginAnswered, NeverClosed, React;
    PerformTracks(d, u, p, r, c);
  }

  lemma {:induction false} ArriveTracks(d: Delegate, u: string, p: string, closed: bool, r: Reader, chunks: seq<string>)
    requires Tracks(d, u, p, closed, r)
    ensures Tracks(d, u, p, closed, Deliver(r, chunks))
  {
    if r.isOpen {
      DeliverTracks(d, u, p, r, chunks);
    }
  }

  lemma {:induction false} ExecTracks(d: Delegate, u: string, p: string, closed: bool, r: Reader, steps: seq<Step>)
    requires Tracks(d, u, p, closed, r) && Open !in steps
    ensures Tracks(d, u, p, closed || User(CallClose) in steps, Exec(r, steps))
    decreases |steps|
  {
    hide Tracks, Perform, Deliver;
    if steps != [] {
      assert steps == [steps[0]] + steps[1..] && steps[0] in steps;
      var closed' := closed || steps[0] == User(CallClose);
      match steps[0] {
        case Open =>
        case User(c) => UserTracks(d, u, p, closed, r, c);
        case Arrive(chunks) => ArriveTracks(d, u, p, closed, r, chunks);
      }
      ExecTracks(d, u, p, closed', Take(r, steps[0]), steps[1..]);
    }
  }

  /** Over every run on a connection that is opened once, with any delegate: the reader is closed if
      and only if the user closed it, a 205 was heard, or the delegate closed it when it was told
      something. And while it is open, each greeting is answered with the name and each request
      for the password with the password. */
  lemma {:induction false} ClosedIff(username: string, password: string, d: Delegate, steps: seq<Step>)
    requires Open !in steps
    ensures var r := Exec(Fresh(username, password, d), [Open] + steps);
            && (!r.isOpen <==>
                  || User(CallClose) in steps
                  || (exists i :: 0 <= i < |r.log| && ClosedAt(d, r.log, i)))
            && LoginAnswered(d, username, password, r.log)
  {
    var r := Fresh(username, password, d);
    FirstStep(r, Open, steps);
    ExecTracks(d, username, password, false, Take(r, Open), steps);
    hide Exec;
  }

  /** A delegate that never closes the reader. */
  predicate LeavesOpen(d: Delegate) {
    d.Script? && forall i | 0 <= i < |d.reactions| :: CallClose !in d.reactions[i]
  }

  lemma {:induction false} StaysLeavingOpen(d: Delegate, log: seq<Event>)
    requires LeavesOpen(d)
    ensures LeavesOpen(DelegateAfter(d, log))
    ensures forall n :: CallClose !in React(DelegateAfter(d, log), n).1
  {
    if log != [] {
      StaysLeavingOpen(d, log[..|log| - 1]);
    }
  }

  /** When neither the user nor the delegate closes it: the reader is closed if and only if the
      server said goodbye. */
  lemma {:induction false} OnlyGoodbyeCloses(username: string, password: string, d: Delegate, steps: seq<Step>)
    requires Open !in steps && User(CallClose) !in steps && LeavesOpen(d)
    ensures var r := Exec(Fresh(username, password, d), [Open] + steps);
            !r.isOpen <==> HeardStatus(r.log, "205 Goodbye")
  {
    ClosedIff(username, password, d, steps);
    hide Exec, LoginAnswered;
    var r := Exec(Fresh(username, password, d), [Open] + steps);
    forall i | 0 <= i < |r.log| ensures ClosedAt(d, r.log, i) == (r.log[i].Heard? && "205 Goodbye" <= r.log[i].buffer) {
      StaysLeavingOpen(d, r.log[..i]);
    }
  }

  /** The delegates of the program that close on "Done": the reader is closed if and only if the
      server said goodbye or they were told "Done". */
  lemma {:induction false} DoneOrGoodbyeCloses(username: string, password: string, d: Delegate, steps: seq<Step>)
    requires Open !in steps && User(CallClose) !in steps && Closer(d)
    ensures var r := Exec(Fresh(username, password, d), [Open] + steps);
            !r.isOpen <==> HeardStatus(r.log, "205 Goodbye") || Notified(Finished) in r.log
  {
    ClosedIff(username, password, d, steps);
    hide Exec, LoginAnswered;
    var r := Exec(Fresh(username, password, d), [Open] + steps);
    forall i | 0 <= i < |r.log|
      ensures ClosedAt(d, r.log, i)
          <==> (r.log[i].Heard? && "205 Goodbye" <= r.log[i].buffer) || r.log[i] == Notified(Finished)
    {
      StaysCloser(d, r.log[..i]);
    }
  }

  lemma {:induction false} StaysCloser(d: Delegate, log: seq<Event>)
    requires Closer(d)
    ensures DelegateAfter(d, log) == d
    ensures forall n :: CallClose in React(d, n).1 <==> n == Finished
  {
    if log != [] {
      StaysCloser(d, log[..|log| - 1]);
    }
  }

  /** A delegate of the program whose group is no longer in the store asks for nothing; it waits, and
      closes on "Done". */
  lemma {:induction false} GrouplessWaits(r: Reader, n: Notice)
    requires r.delegate.HeadLoop? || r.delegate.OneArticle?
    requires r.delegate.group.None?
    ensures Notify(r, n) == r.(log := r.log + [Notified(n)], isOpen := r.isOpen && n != Finished)
  {
    var r1 := Log(r, Notified(n));
    assert [CallClose][1..] == [];
    assert PerformAll(r1, [CallClose]) == PerformAll(Perform(r1, CallClose), []);
    assert PerformAll(r1, []) == r1;
  }

  /** To a refused login and a goodbye none of the program's delegates answers. */
  lemma {:induction false} FailuresAreNotAnswered(r: Reader, n: Notice)
    requires !r.delegate.Script? && (n == ConnectionFailed || n == Disconnected)
    ensures Notify(r, n) == r.(log := r.log + [Notified(n)])
  {
    assert PerformAll(Log(r, Notified(n)), []) == Log(r, Notified(n));
  }

  lemma {:induction false} CallsDoNotConnect(r: Reader, cs: seq<Call>)
    ensures PerformAll(r, cs).connected == r.connected
    decreases |cs|
  {
    if cs != [] {
      CallsDoNotConnect(Perform(r, cs[0]), cs[1..]);
    }
  }

  lemma {:induction false} Refused(r: Reader, no: string)
    requires S502 <= no && r.isOpen && LeavesOpen(r.delegate)
    ensures var r' := ProcessResponse(r, no);
            && r'.isOpen && r'.connected == r.connected && r'.response == ""
            && r.log + [Heard(no), Notified(ConnectionFailed)] <= r'.log
  {
    StatusesAreDistinct(no);
    StaysLeavingOpen(r.delegate, []);
    var (d, calls) := React(r.delegate, ConnectionFailed);
    var r1 := Log(Log(r, Heard(no)), Notified(ConnectionFailed)).(delegate := d);
    assert r1.log == r.log + [Heard(no), Notified(ConnectionFailed)];
    assert ProcessResponse(r, no) == Clear(PerformAll(r1, calls));
    hide ProcessResponse, React;
    PerformAllTracks(d, r.username, r.password, r1, calls);
    CallsDoNotConnect(r1, calls);
    PerformGrows(r1, calls);
  }

  /** A login that is refused: the name and the password went out, the delegate is told that it
      failed, and the reader is open and not connected. */
  lemma {:induction false} RefusedLogin(username: string, password: string, d: Delegate, hello: string, more: string,
                                         no: string)
    requires S200 <= hello && S381 <= more && S502 <= no && LeavesOpen(d)
    ensures var r := Exec(Fresh(username, password, d), [Open, Arrive([hello]), Arrive([more]), Arrive([no])]);
            && r.isOpen && !r.connected
            && [Heard(hello), Sent(AuthUser(username)), Heard(more), Sent(AuthPass(password)), Heard(no),
                Notified(ConnectionFailed)] <= r.log
  {
    hide Take, ProcessResponse;
    var r := Fresh(username, password, d);
    var r0 := r.(isOpen := true);
    Opened(r);
    FourSteps(r, Open, Arrive([hello]), Arrive([more]), Arrive([no]));
    Greeted(r0, hello);
    var r1 := r0.(log := r0.log + [Heard(hello), Sent(AuthUser(username))]);
    Asked(r1, more);
    var r2 := r1.(log := r1.log + [Heard(more), Sent(AuthPass(password))]);
    StatusRead(r2, no);
    Refused(r2.(response := no), no);
    assert r2.log + [Heard(no), Notified(ConnectionFailed)]
        == [Heard(hello), Sent(AuthUser(username)), Heard(more), Sent(AuthPass(password)), Heard(no),
            Notified(ConnectionFailed)];
  }

  lemma {:induction false} FourSteps(r: Reader, a: Step, b: Step, c: Step, e: Step)
    ensures Exec(r, [a, b, c, e]) == Take(Take(Take(Take(r, a), b), c), e)
  {
    hide Take;
    assert [a] + [b, c, e] == [a, b, c, e] && [b] + [c, e] == [b, c, e] && [c] + [e] == [c, e] && [e] + [] == [e];
    FirstStep(r, a, [b, c, e]);
    FirstStep(Take(r, a), b, [c, e]);
    FirstStep(Take(Take(r, a), b), c, [e]);
    FirstStep(Take(Take(Take(r, a), b), c), e, []);
  }
}
