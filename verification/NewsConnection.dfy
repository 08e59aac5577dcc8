/** The reader object: its fields, command methods and read loop, each proved to take exactly
    the step of the state machine. Sends and callbacks go to a log; the delegate's reaction is
    carried out inside the callback, as in the program. */
module NewsConnection {
  import opened Wrappers
  import opened NewsText
  import opened NewsModel

  class NewsReader {
    var isOpen: bool
    var connected: bool
    var resultsComing: bool
    var currentOperation: Option<Operation>
    var currentGroupCommand: Command
    var articleId: string
    var article: string
    var response: string
    const username: string
    const password: string
    var delegate: Delegate
    var log: seq<Event>

    constructor (username: string, password: string, delegate: Delegate)
      ensures State() == Fresh(username, password, delegate)
    {
      this.username, this.password, this.delegate := username, password, delegate;
      isOpen, connected, resultsComing := false, false, false;
      currentOperation, currentGroupCommand := None, NoCommand;
      articleId, article, response, log := "", "", "", [];
    }

    ghost function State(): Reader
      reads this
    {
      Reader(isOpen, connected, resultsComing, currentOperation, currentGroupCommand,
             articleId, article, response, username, password, delegate, log)
    }

    method Open()
      modifies this
      ensures State() == old(State()).(isOpen := true)
    {
      isOpen := true;
    }

    method Close()
      modifies this
      ensures State() == old(State()).(isOpen := false)
    {
      if isOpen {
        isOpen := false;
      }
    }

    method SendCommand(c: Command)
      modifies this
      ensures State() == Send(old(State()), c)
    {
      if isOpen {
        log := log + [Sent(c)];
      }
    }

    method FetchArticle(groupName: string, id: string)
      modifies this
      ensures State() == Perform(old(State()), CallArticle(groupName, id))
    {
      if !connected {
        log := log + [NotConnected];
        return;
      }
      article := "";
      articleId := id;
      if resultsComing {
        SendCommand(GetArticle(id));
        return;
      }
      currentOperation := Some(Article);
      response := "";
      currentGroupCommand := GetArticle(id);
      SendCommand(Group(groupName));
    }

    method FetchHeader(groupName: string, id: string)
      modifies this
      ensures State() == Perform(old(State()), CallHeader(groupName, id))
    {
      if !connected {
        log := log + [NotConnected];
        return;
      }
      articleId := id;
      if resultsComing {
        SendCommand(Head(id));
        return;
      }
      currentOperation := Some(ArticleHeader);
      response := "";
      currentGroupCommand := Head(id);
      SendCommand(Group(groupName));
    }

    method ListArticles(groupName: string)
      modifies this
      ensures State() == Perform(old(State()), CallListArticles(groupName))
    {
      if !connected {
        log := log + [NotConnected];
        return;
      }
      currentOperation := Some(ListGroupArticles);
      response := "";
      SendCommand(ListGroup(groupName));
    }

    method ListAllGroups()
      modifies this
      ensures State() == Perform(old(State()), CallListGroups)
    {
      if !connected {
        log := log + [NotConnected];
        return;
      }
      currentOperation := Some(ListGroups);
      response := "";
      SendCommand(List);
    }

    method Do(c: Call)
      modifies this
      ensures State() == Perform(old(State()), c)
    {
      match c
      case CallArticle(group, id) => FetchArticle(group, id);
      case CallHeader(group, id) => FetchHeader(group, id);
      case CallListArticles(group) => ListArticles(group);
      case CallListGroups => ListAllGroups();
      case CallQuit => SendCommand(Quit);
      case CallClose => Close();
    }

    /** The delegate is told and acts before the callback returns. */
    method Tell(n: Notice)
      modifies this
      ensures State() == Notify(old(State()), n)
    {
      log := log + [Notified(n)];
      var calls;
      delegate, calls := React(delegate, n).0, React(delegate, n).1;
      var i := 0;
      while i < |calls|
        invariant 0 <= i <= |calls|
        invariant PerformAll(State(), calls[i..]) == Notify(old(State()), n)
      {
        assert calls[i..][0] == calls[i] && calls[i..][1..] == calls[i+1..];
        Do(calls[i]);
        i := i + 1;
      }
    }

    method Process(buffer: string)
      modifies this
      ensures State() == ProcessResponse(old(State()), buffer)
    {
      hide Notify;
      log := log + [Heard(buffer)];
      if S200 <= buffer {
        SendCommand(AuthUser(username));
        response := "";
      } else if buffer == "." {
        Tell(Finished);
      } else if S381 <= buffer {
        SendCommand(AuthPass(password));
        response := "";
      } else if S281 <= buffer {
        connected := true;
        Tell(Connected);
        response := "";
      } else if S502 <= buffer {
        Tell(ConnectionFailed);
        response := "";
      } else if S205 <= buffer {
        Close();
        Tell(Disconnected);
        response := "";
      } else if S215 <= buffer {
        resultsComing := true;
        response := "";
      } else if S211_LIST <= buffer {
        resultsComing := true;
        response := "";
      } else if S211 <= buffer {
        resultsComing := true;
        response := "";
        SendCommand(currentGroupCommand);
      }
    }

    method ParseHeader(txt: string)
      modifies this
      ensures State() == Notify(Log(old(State()), GotHeader(old(articleId), HeaderMap(txt))), NextArticle)
    {
      hide Notify;
      var header: map<string, string> := map[];
      var parts := Lines(txt);
      var i := 0;
      while i < |parts|
        invariant 0 <= i <= |parts|
        invariant HeaderOf(parts[i..], header) == HeaderMap(txt)
        invariant State() == old(State())
      {
        assert parts[i..][0] == parts[i] && parts[i..][1..] == parts[i+1..];
        var keyValue := parts[i];
        if NO_SUCH <= keyValue {
          header := header["Subject" := "No such article"];
        } else if keyValue != "." && !(HEAD_FOLLOWS <= keyValue) {
          var (key, value) := ColonSplit(keyValue);
          header := header[Trim(key) := Trim(value)];
        }
        i := i + 1;
      }
      log := log + [GotHeader(articleId, header)];
      Tell(NextArticle);
    }

    /** Sorts the lines of one read into those to report and the closing dot. */
    static method Sift(lines: seq<string>) returns (kept: seq<string>, isDone: bool)
      ensures kept == NotDots(lines) && isDone == ("." in lines)
    {
      kept, isDone := [], false;
      var i := 0;
      while i < |lines|
        invariant 0 <= i <= |lines|
        invariant kept + NotDots(lines[i..]) == NotDots(lines)
        invariant isDone == ("." in lines[..i])
      {
        assert lines[i..][0] == lines[i] && lines[i..][1..] == lines[i+1..];
        assert lines[..i+1] == lines[..i] + [lines[i]];
        if lines[i] == "." {
          isDone := true;
        } else {
          kept := kept + [lines[i]];
        }
        i := i + 1;
      }
      assert lines[..i] == lines;
      assert kept + [] == kept;
    }

    method AddToArticle(prefix: string)
      modifies this
      ensures State() == TakeArticle(old(State()), prefix)
    {
      hide Notify, Lines;
      if resultsComing && currentOperation == Some(Article) {
        article := article + prefix;
        article := article + CRLF;
        var parts := Lines(article);
        if |parts| > 0 && parts[|parts|-1] == "." {
          log := log + [GotArticleText(article)];
          Tell(Finished);
        }
      }
    }

    method ReportIds(lines: seq<string>)
      modifies this
      ensures State() == TakeIds(old(State()), lines)
    {
      hide Notify;
      if resultsComing && currentOperation == Some(ListGroupArticles) {
        var newArticles, isDone := Sift(lines);
        log := log + [GotIds(newArticles)];
        if isDone {
          Tell(Finished);
        }
      }
    }

    method ReportGroups(lines: seq<string>)
      modifies this
      ensures State() == TakeGroups(old(State()), lines)
    {
      hide Notify, ParseGroup;
      if resultsComing && currentOperation == Some(ListGroups) && |lines| > 0 {
        var newGroups, isDone := Register(lines);
        log := log + [GotGroups(newGroups)];
        if isDone {
          Tell(Finished);
        }
      }
    }

    /** Sorts the lines of one read into the groups they list and the closing dot. */
    static method Register(lines: seq<string>) returns (newGroups: seq<Listed>, isDone: bool)
      ensures newGroups == ParseGroups(NotDots(lines)) && isDone == ("." in lines)
    {
      hide ParseGroup;
      newGroups, isDone := [], false;
      var i := 0;
      while i < |lines|
        invariant 0 <= i <= |lines|
        invariant newGroups + ParseGroups(NotDots(lines[i..])) == ParseGroups(NotDots(lines))
        invariant isDone == ("." in lines[..i])
      {
        var line := lines[i];
        assert lines[i..][0] == line && lines[i..][1..] == lines[i+1..];
        assert lines[..i+1] == lines[..i] + [line];
        ghost var more := NotDots(lines[i+1..]);
        if line == "." {
          isDone := true;
          assert NotDots(lines[i..]) == [] + more == more;
        } else {
          var parsed := ParseGroup(line);
          assert NotDots(lines[i..]) == [line] + more;
          assert ([line] + more)[1..] == more;
          if parsed.Some? {
            assert newGroups + ([parsed.value] + ParseGroups(more)) == newGroups + [parsed.value] + ParseGroups(more);
            newGroups := newGroups + [parsed.value];
          } else {
            assert [] + ParseGroups(more) == ParseGroups(more);
          }
        }
        i := i + 1;
      }
      assert lines[..i] == lines;
      assert newGroups + [] == newGroups;
    }

    method Dispatch()
      modifies this
      ensures State() == TakeBuffer(old(State()))
    {
      hide TakeArticle, TakeIds, TakeGroups, Notify, Lines, LastSplit;
      var (prefix, rest) := LastSplit(response);
      response := rest;
      var lines := Lines(prefix);
      AddToArticle(prefix);
      if resultsComing && currentOperation == Some(ArticleHeader) {
        ParseHeader(prefix);
      }
      ReportIds(lines);
      ReportGroups(lines);
    }

    /** The read loop over the reads that are available; `left` are those it does not get to. */
    method ReadAvailableBytes(chunks: seq<string>) returns (left: seq<string>)
      modifies this
      ensures (State(), left) == ReadLoop(old(State()), chunks)
    {
      hide TakeBuffer;
      var i := 0;
      assert chunks[0..] == chunks;
      while i < |chunks| && isOpen
        invariant 0 <= i <= |chunks|
        invariant ReadLoop(State(), chunks[i..]) == ReadLoop(old(State()), chunks)
      {
        assert chunks[i..][0] == chunks[i] && chunks[i..][1..] == chunks[i+1..];
        response := response + chunks[i];
        if !resultsComing {
          return chunks[i+1..];
        }
        Dispatch();
        i := i + 1;
      }
      left := chunks[i..];
    }

    method Stream(chunks: seq<string>) returns (left: seq<string>)
      modifies this
      ensures (State(), left) == StreamEvent(old(State()), chunks)
    {
      hide ReadLoop, ProcessResponse;
      if !isOpen {
        return chunks;
      }
      left := ReadAvailableBytes(chunks);
      Process(response);
    }

    /** Stream events until the reads are used up or the connection is closed. */
    method Receive(chunks: seq<string>)
      modifies this
      ensures State() == Deliver(old(State()), chunks)
    {
      hide ReadLoop, ProcessResponse;
      var left := chunks;
      while left != [] && isOpen
        invariant Deliver(State(), left) == Deliver(old(State()), chunks)
        decreases |left|
      {
        left := Stream(left);
      }
    }
  }
}
