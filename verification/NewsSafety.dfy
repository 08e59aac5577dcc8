/** Login and selection safety, over every run: any user calls, any delegate, any server text. */
module NewsSafety {
  import opened Wrappers
  import opened NewsText
  import opened NewsModel

  ghost predicate HeardStatus(log: seq<Event>, status: string) {
    exists i | 0 <= i < |log| :: log[i].Heard? && status <= log[i].buffer
  }

  ghost predicate JustHeard(log: seq<Event>, status: string) {
    log != [] && log[|log|-1].Heard? && status <= log[|log|-1].buffer
  }

  /** May this event come after these? */
  ghost predicate EventOk(log: seq<Event>, e: Event) {
    e.Sent? ==>
      match e.cmd
      case NoCommand => JustHeard(log, S211)
      case AuthUser(_) => JustHeard(log, S200)
      case AuthPass(_) => JustHeard(log, S381)
      case Quit => true
      case Group(_) => HeardStatus(log, S281)
      case ListGroup(_) => HeardStatus(log, S281)
      case List => HeardStatus(log, S281)
      case Head(_) => HeardStatus(log, S281) && (HeardStatus(log, S211) || HeardStatus(log, S215))
      case GetArticle(_) => HeardStatus(log, S281) && (HeardStatus(log, S211) || HeardStatus(log, S215))
  }

  ghost predicate LogOk(log: seq<Event>) {
    forall i | 0 <= i < |log| :: EventOk(log[..i], log[i])
  }

  /** While not connected no command waits for a group; results come only after 211 or 215. */
  ghost predicate Inv(r: Reader) {
    && LogOk(r.log)
    && (r.connected ==> HeardStatus(r.log, S281))
    && (r.resultsComing ==> HeardStatus(r.log, S211) || HeardStatus(r.log, S215))
    && (r.groupCommand == NoCommand || (r.connected && (r.groupCommand.Head? || r.groupCommand.GetArticle?)))
  }

  lemma {:induction false} HeardStays(log: seq<Event>, e: Event, status: string)
    requires HeardStatus(log, status)
    ensures HeardStatus(log + [e], status)
  {
    var i :| 0 <= i < |log| && log[i].Heard? && status <= log[i].buffer;
    assert (log + [e])[i] == log[i];
  }

  lemma {:induction false} JustHeardNow(log: seq<Event>, buffer: string, status: string)
    requires status <= buffer
    ensures HeardStatus(log + [Heard(buffer)], status) && JustHeard(log + [Heard(buffer)], status)
  {
    assert (log + [Heard(buffer)])[|log|] == Heard(buffer);
  }

  lemma {:induction false} LogKeeps(r: Reader, e: Event)
    requires Inv(r) && EventOk(r.log, e)
    ensures Inv(Log(r, e))
  {
    var log := r.log + [e];
    forall i | 0 <= i < |log| ensures EventOk(log[..i], log[i]) {
      assert log[..i] == if i < |r.log| then r.log[..i] else r.log;
    }
    if r.connected { HeardStays(r.log, e, S281); }
    if HeardStatus(r.log, S211) { HeardStays(r.log, e, S211); }
    if HeardStatus(r.log, S215) { HeardStays(r.log, e, S215); }
  }

  lemma {:induction false} PerformKeeps(r: Reader, c: Call)
    requires Inv(r)
    ensures Inv(Perform(r, c))
  {
    hide HeardStatus, JustHeard, LogOk;
    match c
    case CallArticle(group, id) =>
      if !r.connected {
        LogKeeps(r, NotConnected);
      } else {
        var r1 := r.(article := "", articleId := id);
        if r1.resultsComing {
          if r.isOpen { LogKeeps(r1, Sent(GetArticle(id))); }
        } else if r.isOpen {
          LogKeeps(r1.(op := Some(Article), response := "", groupCommand := GetArticle(id)), Sent(Group(group)));
        }
      }
    case CallHeader(group, id) =>
      if !r.connected {
        LogKeeps(r, NotConnected);
      } else {
        var r1 := r.(articleId := id);
        if r1.resultsComing {
          if r.isOpen { LogKeeps(r1, Sent(Head(id))); }
        } else if r.isOpen {
          LogKeeps(r1.(op := Some(ArticleHeader), response := "", groupCommand := Head(id)), Sent(Group(group)));
        }
      }
    case CallListArticles(group) =>
      if !r.connected {
        LogKeeps(r, NotConnected);
      } else if r.isOpen {
        LogKeeps(r.(op := Some(ListGroupArticles), response := ""), Sent(ListGroup(group)));
      }
    case CallListGroups =>
      if !r.connected {
        LogKeeps(r, NotConnected);
      } else if r.isOpen {
        LogKeeps(r.(op := Some(ListGroups), response := ""), Sent(List));
      }
    case CallQuit =>
      if r.isOpen { LogKeeps(r, Sent(Quit)); }
    case CallClose =>
  }

  lemma {:induction false} PerformAllKeeps(r: Reader, cs: seq<Call>)
    requires Inv(r)
    ensures Inv(PerformAll(r, cs))
    decreases |cs|
  {
    if cs != [] {
      PerformKeeps(r, cs[0]);
      PerformAllKeeps(Perform(r, cs[0]), cs[1..]);
    }
  }

  lemma {:induction false} NotifyKeeps(r: Reader, n: Notice)
    requires Inv(r)
    ensures Inv(Notify(r, n))
  {
    hide HeardStatus, LogOk;
    var (d, calls) := React(r.delegate, n);
    LogKeeps(r, Notified(n));
    PerformAllKeeps(Log(r, Notified(n)).(delegate := d), calls);
  }

  lemma {:induction false} ProcessKeeps(r0: Reader, buffer: string)
    requires Inv(r0)
    ensures Inv(ProcessResponse(r0, buffer))
  {
    hide HeardStatus, JustHeard, LogOk, Notify;
    var r := Log(r0, Heard(buffer));
    LogKeeps(r0, Heard(buffer));
    if S200 <= buffer {
      JustHeardNow(r0.log, buffer, S200);
      if r.isOpen { LogKeeps(r, Sent(AuthUser(r.username))); }
    } else if buffer == "." {
      NotifyKeeps(r, Finished);
    } else if S381 <= buffer {
      JustHeardNow(r0.log, buffer, S381);
      if r.isOpen { LogKeeps(r, Sent(AuthPass(r.password))); }
    } else if S281 <= buffer {
      JustHeardNow(r0.log, buffer, S281);
      NotifyKeeps(r.(connected := true), Connected);
    } else if S502 <= buffer {
      NotifyKeeps(r, ConnectionFailed);
    } else if S205 <= buffer {
      NotifyKeeps(r.(isOpen := false), Disconnected);
    } else if S215 <= buffer {
      JustHeardNow(r0.log, buffer, S215);
    } else if S211_LIST <= buffer {
      assert S211 <= S211_LIST <= buffer;
      JustHeardNow(r0.log, buffer, S211);
    } else if S211 <= buffer {
      JustHeardNow(r0.log, buffer, S211);
      var r1 := Clear(r.(resultsComing := true));
      if r.isOpen { LogKeeps(r1, Sent(r1.groupCommand)); }
    }
  }

  lemma {:induction false} TakeBufferKeeps(r: Reader)
    requires Inv(r)
    ensures Inv(TakeBuffer(r))
  {
    hide HeardStatus, LogOk, Notify, Lines, HeaderMap, LastSplit;
    var (prefix, rest) := LastSplit(r.response);
    var lines := Lines(prefix);
    var r0 := r.(response := rest);
    var r1 := TakeArticle(r0, prefix);
    assert Inv(r1) by {
      var a := r0.(article := r0.article + prefix + CRLF);
      LogKeeps(a, GotArticleText(a.article));
      NotifyKeeps(Log(a, GotArticleText(a.article)), Finished);
    }
    var r2 := TakeHeader(r1, prefix);
    assert Inv(r2) by {
      LogKeeps(r1, GotHeader(r1.articleId, HeaderMap(prefix)));
      NotifyKeeps(Log(r1, GotHeader(r1.articleId, HeaderMap(prefix))), NextArticle);
    }
    var r3 := TakeIds(r2, lines);
    assert Inv(r3) by {
      LogKeeps(r2, GotIds(NotDots(lines)));
      NotifyKeeps(Log(r2, GotIds(NotDots(lines))), Finished);
    }
    LogKeeps(r3, GotGroups(ParseGroups(NotDots(lines))));
    NotifyKeeps(Log(r3, GotGroups(ParseGroups(NotDots(lines)))), Finished);
  }

  lemma {:induction false} ReadLoopKeeps(r: Reader, chunks: seq<string>)
    requires Inv(r)
    ensures Inv(ReadLoop(r, chunks).0)
    decreases |chunks|
  {
    hide HeardStatus, LogOk, TakeBuffer;
    if chunks != [] && r.isOpen {
      var r1 := r.(response := r.response + chunks[0]);
      if r1.resultsComing {
        TakeBufferKeeps(r1);
        ReadLoopKeeps(TakeBuffer(r1), chunks[1..]);
      }
    }
  }

  lemma {:induction false} DeliverKeeps(r: Reader, chunks: seq<string>)
    requires Inv(r)
    ensures Inv(Deliver(r, chunks))
    decreases |chunks|
  {
    hide Inv, ReadLoop, ProcessResponse;
    if chunks != [] && r.isOpen {
      var (r1, rest) := ReadLoop(r, chunks);
      ReadLoopKeeps(r, chunks);
      ProcessKeeps(r1, r1.response);
      DeliverKeeps(ProcessResponse(r1, r1.response), rest);
    }
  }

  lemma {:induction false} ExecKeeps(r: Reader, steps: seq<Step>)
    requires Inv(r)
    ensures Inv(Exec(r, steps))
    decreases |steps|
  {
    if steps != [] {
      match steps[0] {
        case Open =>
        case User(c) => PerformKeeps(r, c);
        case Arrive(chunks) => DeliverKeeps(r, chunks);
      }
      ExecKeeps(Take(r, steps[0]), steps[1..]);
    }
  }

  /** Over every run from a new reader: no GROUP, LIST, LISTGROUP, HEAD or ARTICLE goes out
      before a 281 reply, no HEAD or ARTICLE before a 211 or 215, and the password only as the
      direct answer to a 381. */
  lemma {:induction false} EveryRunIsSafe(username: string, password: string, d: Delegate, steps: seq<Step>)
    ensures var log := Exec(Fresh(username, password, d), steps).log;
            forall i | 0 <= i < |log| :: EventOk(log[..i], log[i])
  {
    ExecKeeps(Fresh(username, password, d), steps);
  }

  /** The classification of commands can be read off the wire. */
  lemma {:induction false} WireTellsCommand(c: Command)
    ensures "AUTHINFO pass " <= Wire(c) <==> c.AuthPass?
    ensures "GROUP " <= Wire(c) <==> c.Group?
    ensures "LISTGROUP " <= Wire(c) <==> c.ListGroup?
    ensures "LIST\n" <= Wire(c) <==> c.List?
    ensures "HEAD " <= Wire(c) <==> c.Head?
    ensures "ARTICLE " <= Wire(c) <==> c.GetArticle?
  {
    var w := Wire(c);
    assert c.AuthUser? || c.AuthPass? || c.GetArticle? ==> w[0] == 'A';
    assert c.AuthUser? ==> w[1] == 'U' && w[9] == 'u';
    assert c.AuthPass? ==> w[1] == 'U' && w[..14] == "AUTHINFO pass ";
    assert c.GetArticle? ==> w[1] == 'R' && w[..8] == "ARTICLE ";
    assert c.Group? ==> w[0] == 'G' && w[..6] == "GROUP ";
    assert c.ListGroup? ==> w[0] == 'L' && w[4] == 'G' && w[..10] == "LISTGROUP ";
    assert c.List? ==> w[0] == 'L' && w[4] == '\n' && w[..5] == "LIST\n";
    assert c.Head? ==> w[0] == 'H' && w[..5] == "HEAD ";
    assert c.Quit? ==> w[0] == 'q';
    assert "AUTHINFO pass " <= w ==> w[0] == 'A' && w[1] == 'U' && w[9] == 'p';
    assert "ARTICLE " <= w ==> w[0] == 'A' && w[1] == 'R';
    assert "GROUP " <= w ==> w[0] == 'G';
    assert "LISTGROUP " <= w ==> w[0] == 'L' && w[4] == 'G';
    assert "LIST\n" <= w ==> w[0] == 'L' && w[4] == '\n';
    assert "HEAD " <= w ==> w[0] == 'H';
  }

  /** What a server reads in a line: the command word, and its argument up to the line feed. */
  function Understood(line: string): Command {
    if line == "" then NoCommand
    else
      var t := line[..|line| - 1];
      if "AUTHINFO user " <= t then AuthUser(t[14..])
      else if "AUTHINFO pass " <= t then AuthPass(t[14..])
      else if "GROUP " <= t then Group(t[6..])
      else if "LISTGROUP " <= t then ListGroup(t[10..])
      else if "HEAD " <= t then Head(t[5..])
      else if "ARTICLE " <= t then GetArticle(t[8..])
      else if t == "quit" then Quit
      else if t == "LIST" then List
      else NoCommand
  }

  lemma {:induction false} WordAndArgument(word: string, arg: string)
    ensures var line := word + arg + "\n";
            && line[..|line| - 1] == word + arg && line[|line| - 1] == '\n'
            && (word + arg)[..|word|] == word && (word + arg)[|word|..] == arg
  {
    var line := word + arg + "\n";
    assert line[..|line| - 1] == word + arg;
  }

  lemma {:induction false} LoginReadsBack(name: string)
    ensures Understood("AUTHINFO user " + name + "\n") == AuthUser(name)
    ensures Understood("AUTHINFO pass " + name + "\n") == AuthPass(name)
  {
    WordAndArgument("AUTHINFO user ", name);
    WordAndArgument("AUTHINFO pass ", name);
    assert ("AUTHINFO pass " + name)[9] == 'p';
  }

  lemma {:induction false} GroupReadsBack(name: string)
    ensures Understood("GROUP " + name + "\n") == Group(name)
    ensures Understood("LISTGROUP " + name + "\n") == ListGroup(name)
  {
    WordAndArgument("GROUP ", name);
    WordAndArgument("LISTGROUP ", name);
    assert ("GROUP " + name)[0] == 'G' && ("LISTGROUP " + name)[0] == 'L';
  }

  lemma {:induction false} ArticleReadsBack(id: string)
    ensures Understood("HEAD " + id + "\n") == Head(id)
    ensures Understood("ARTICLE " + id + "\n") == GetArticle(id)
  {
    WordAndArgument("HEAD ", id);
    WordAndArgument("ARTICLE ", id);
    assert ("HEAD " + id)[0] == 'H' && ("ARTICLE " + id)[0] == 'A' && ("ARTICLE " + id)[1] == 'R';
  }

  lemma {:induction false} WordsReadBack()
    ensures Understood("quit\n") == Quit && Understood("LIST\n") == List
  {
    assert "quit\n"[..4] == "quit" && "LIST\n"[..4] == "LIST";
  }

  /** Every command is understood as what it is: its group, id, user or password arrives as it was
      given. */
  lemma {:induction false} WireReadsBack(c: Command)
    ensures Understood(Wire(c)) == c
    ensures c != NoCommand ==> Wire(c) != "" && Wire(c)[|Wire(c)| - 1] == '\n'
  {
    assert Understood("") == NoCommand;
    hide Understood;
    match c
    case NoCommand =>
    case AuthUser(u) => LoginReadsBack(u);
    case AuthPass(p) => LoginReadsBack(p);
    case Quit => WordsReadBack();
    case Group(n) => GroupReadsBack(n);
    case ListGroup(n) => GroupReadsBack(n);
    case List => WordsReadBack();
    case Head(id) => ArticleReadsBack(id);
    case GetArticle(id) => ArticleReadsBack(id);
  }

  /** So different commands have different texts. */
  lemma {:induction false} WireIsInjective(c: Command, c': Command)
    requires Wire(c) == Wire(c')
    ensures c == c'
  {
    WireReadsBack(c);
    WireReadsBack(c');
  }
}
